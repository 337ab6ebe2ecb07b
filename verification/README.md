# TapableLabel in Dafny

A model of the tappable-region logic in `TapableLabel`. This is a `UILabel` that shows a
container string with "tappable" substrings, such as the links in an
"I agree to the Terms and Privacy Policy" sentence. It draws those substrings in the
app's tint colour. When a tap lands on one of them, it invokes that substring's callback.

The model has three pure parts:

- **First-occurrence lookup.** `StringSearch.RangeOf` is `NSString.range(of:)` over UTF-16 code units.
  It returns the range of the first occurrence of a non-empty needle.
  An empty needle, or one that does not occur, gives `{NSNotFound, 0}`.
  `NSNotFound` is `NSIntegerMax` on a 64-bit platform.
- **Half-open membership.** `NSRanges.InRange` is `NSLocationInRange`.
- **Styling and dispatch.** `TapableLabel.AttributedText` builds the label's attributed text:
  - the centred paragraph style with line spacing 4 on the whole string;
  - the link colour (`UIColor.appTintColor`) on each entry's first-occurrence range.

  `TapableLabel.Dispatch` scans the entries in order. It picks the first entry whose range holds
  the tapped character index. `TapableLabel.ActionFor` gives that entry's action.

The text layout engine turns a touch point into a character index. The model does not include it:
dispatch takes that character index as an input. The source recomputes the index on every loop
iteration, but for a fixed geometry it is the same each time, so one input is enough.
Callbacks are opaque values of a type parameter `A`.
Colours and paragraph styles are abstract tokens. The label's stored `tappableTextColor` is never read:
highlighting uses the global tint colour. The model keeps the field and does not use it.

Modules, one per file:

| file | module | contents |
|---|---|---|
| wrappers.dfy | `Wrappers` | `Option`, `Result` |
| ranges.dfy | `NSRanges` | `NSRange`, `NSNotFound`, `NSLocationInRange` |
| search.dfy | `StringSearch` | UTF-16 text, `range(of:)` |
| attributes.dfy | `AttributedStrings` | per-code-unit attributes, `addAttribute(_:value:range:)` |
| label.dfy | `TapableLabel` | entries, the label, styling, dispatch |
| properties.dfy | `LabelProperties` | styling versus dispatch, inert entries, first match wins |
| scenarios.dfy | `Scenarios` | the agreement-sentence examples |

## Model

| member | source | states |
|---|---|---|
| NSRanges.InRange | TapableLabel.swift:127 | `NSLocationInRange(i, r)` holds exactly when `r.location <= i < r.location + r.length`, so a zero-length range (a not-found range among them) holds no index |
| StringSearch.RangeOf | TapableLabel.swift:74 | the lookup is not-found exactly when the needle is empty or does not occur. Otherwise its length is the needle's, it lies inside the container, the needle occurs at its location, and it occurs at no earlier location |
| StringSearch.FirstMatchFrom | TapableLabel.swift:89 | the scan behind the lookup returns a position from `from` on where the needle occurs, with no occurrence between `from` and it; or it returns nothing when there is no occurrence from `from` on |
| StringSearch.RangeOfIsFirstOccurrence | TapableLabel.swift:89 | whenever a non-empty needle first occurs at `loc`, the lookup returns the range at `loc` with the needle's length. The lookup at tap time therefore finds exactly the range the styling loop found |
| StringSearch.RangeOfWholeString | TapableLabel.swift:65 | the container searched for itself gives `(0, length)`, or the not-found range when the container is empty |
| AttributedStrings.AddAttribute | TapableLabel.swift:75 | adding an attribute raises exactly when the range reaches past the end of the string. Otherwise it sets the attribute on the code units inside the range and leaves every other code unit as it was |
| TapableLabel.Highlight | TapableLabel.swift:73-76 | after the colouring loop, a code unit has the link colour exactly when some entry's found range holds it. Other code units and every paragraph style are unchanged |
| TapableLabel.AttributedText | TapableLabel.swift:58-79 | every code unit has the centred paragraph style. A code unit has the link colour exactly when some entry's first-occurrence range holds it, and has no colour of its own otherwise |
| TapableLabel.DisplayedColours | TapableLabel.swift:45 | each code unit is drawn in the link colour when some entry's range holds it, and in the label's normal text colour otherwise. The stored tappable colour plays no part |
| TapableLabel.HighlightAsWritten | TapableLabel.swift:73-76 | the colouring loop as written succeeds exactly when every entry is found in the container, and then it gives the same text as the non-raising loop |
| TapableLabel.AttributedTextAsWritten | TapableLabel.swift:58-79 | building the attributed text as written succeeds exactly when the container is non-empty and every entry's text is non-empty and occurs in it. It then equals `AttributedText` |
| TapableLabel.DispatchFrom | TapableLabel.swift:88-93 | the scan from entry `from` returns the first entry from there on whose range holds the index, or nothing when no such entry exists |
| TapableLabel.Dispatch | TapableLabel.swift:86-94 | at most one entry fires. It is an entry whose range holds the index, and no earlier entry's range holds it. Nothing fires exactly when no entry's range holds the index |
| TapableLabel.ActionFor | TapableLabel.swift:88-91 | a tap invokes an action exactly when some entry's range holds the index. The action belongs to an entry that holds the index and has no earlier entry holding it |
| LabelProperties.HighlightedIffTappable | TapableLabel.swift:74-89 | a code unit is link-coloured exactly when a tap on it fires an action, because styling and dispatch use the same lookup. A tap past the end of the container fires nothing |
| LabelProperties.MissingEntryIsInert | TapableLabel.swift:89 | an entry whose text is empty or absent is hit by no tap and never fires. Removing it changes neither the styled text nor the action of any tap |
| LabelProperties.DispatchWithout | TapableLabel.swift:88-93 | removing an entry that a tap does not land on keeps which entry that tap fires; later entries move up one place |
| LabelProperties.OverlapResolvesToEarlier | TapableLabel.swift:88-93 | when two entries' ranges both hold the index, something fires, and it is the earlier entry or one before it, never the later one |
| LabelProperties.DispatchIgnoresLaterEntries | TapableLabel.swift:90-91 | once entry `k` fires, replacing every entry after it by any others leaves the result at `k`, so no later entry is consulted |
| LabelProperties.TapInsideFoundRangeFires | TapableLabel.swift:89-91 | a tap inside an entry's found range fires that entry's action unless an earlier entry also holds the index |
| Scenarios.TermsRange | TapableLabel.swift:74 | "Terms" is found at code units 15 to 19 of "I agree to the Terms and Privacy Policy" |
| Scenarios.TapOnTermsFiresFirstAction | TapableLabel.swift:88-91 | in that sentence, with entries "Terms" then "Privacy Policy", a tap on code unit 16 invokes the first callback, and that code unit is link-coloured |
| Scenarios.MissingEntryNeverFires | TapableLabel.swift:89 | with the single entry "Missing", which is absent from the sentence, no tap invokes anything and no code unit is link-coloured |
| Scenarios.MissingEntryRaisesAsWritten | TapableLabel.swift:75 | for that label, the attributed text as written raises for the range `{NSNotFound, 0}` |
| Scenarios.EmptyContainerRaisesAsWritten | TapableLabel.swift:65-67 | for an empty container, the attributed text as written raises for the range `{NSNotFound, 0}` |

## Findings

| source | as written | input that shows it | evidently intended | confidence | as-written member | corrected member |
|---|---|---|---|---|---|---|
| TapableLabel.swift:73-76 | each entry's `range(of:)` result goes straight to `addAttributes`. For an absent entry this is `{NSNotFound, 0}`, which lies past the end of the string, and `NSMutableAttributedString` raises a range exception for such a range | container "I agree to the Terms and Privacy Policy", single entry "Missing" | an absent entry is left unstyled and is never tapped, and construction does not fail | medium, not executed; depends on the documented range check of `addAttribute(_:value:range:)` | TapableLabel.AttributedTextAsWritten (shown by Scenarios.MissingEntryRaisesAsWritten) | TapableLabel.AttributedText (with LabelProperties.MissingEntryIsInert) |
| TapableLabel.swift:65-67 | the paragraph style is added over the container's range within itself. For an empty container that lookup gives `{NSNotFound, 0}`, so the same range exception applies | empty container, no entries | an empty label with no styling | medium, not executed; same dependence on the range check | TapableLabel.AttributedTextAsWritten (shown by Scenarios.EmptyContainerRaisesAsWritten) | TapableLabel.AttributedText |

The rest of the model uses the corrected `AttributedText`. There, a range that was not found
covers no code unit, so it paints nothing. `AttributedTextAsWritten` agrees with it whenever the
as-written code does not raise.

## Left out

- View lifecycle and gesture wiring: `init`, `init(coder:)`, `setupViews`, registering the tap recognizer, `isUserInteractionEnabled`, line-break mode, line count and font. These are UIKit plumbing with no logic to model.
- The text layout engine: `NSLayoutManager`, `NSTextContainer`, `NSTextStorage`, `usedRect` and `characterIndex(for:)`. These are framework calls whose layout and line breaking cannot be seen. Their result, the tapped character index, is an input to dispatch.
- The container-offset geometry (TapableLabel.swift:113-122). It is floating-point arithmetic whose meaning depends on the layout engine.
- The forced unwrap of `label.attributedText!` (TapableLabel.swift:103). The label always sets its attributed text during construction, so the unwrap cannot fail.
- Concrete `UIColor` and `UIFont` values. Colours are tokens, and the paragraph style keeps only line spacing and alignment.
- StringSearch.RangeOf: compares code units literally. `range(of:)` without options also treats canonically equivalent sequences as equal (a precomposed "é" matches "e" plus a combining accent). That Unicode equivalence is not modelled.
- Callbacks are opaque values. What an action does when it fires, including any effect on the label, is outside the component.
- Scenarios.Utf16 encodes only Basic Multilingual Plane characters, one code unit each. This is all the example strings need; surrogate pairs are not modelled.
