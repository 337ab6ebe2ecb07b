/**
 The tappable label: styling of the container string, and the dispatch of a
 tap to the first tappable string whose range holds the tapped character.
 The text layout engine that turns a touch point into a character index is not
 modelled; dispatch receives that index as an input.
 */
module TapableLabel {
  import opened Wrappers
  import opened NSRanges
  import opened StringSearch
  import opened AttributedStrings

  /** A tappable substring and its callback, kept as an opaque action value. */
  datatype TappableString<A> = TappableString(text: Text, action: A)

  /**
   The label's configuration. `tappableTextColor` is stored but never read:
   highlighting uses the global tint colour.
   */
  datatype Label<A> = Label(
    tappableStrings: seq<TappableString<A>>,
    containerString: Text,
    normalTextColor: Colour,
    tappableTextColor: Colour)

  /** The paragraph style applied to the whole string: line spacing 4, centred. */
  const AgreementParagraphStyle: ParagraphStyle := ParagraphStyle(4, Center)

  /** The highlight colour, `UIColor.appTintColor`. */
  const LinkColour: Colour := AppTintColor

  /** Where `entry` sits in `container`: the same lookup for styling and for taps. */
  function EntryRange<A>(container: Text, entry: TappableString<A>): NSRange {
    RangeOf(container, entry.text)
  }

  /** A tap on character `index` lands on `entry`. */
  predicate Hit<A>(container: Text, entry: TappableString<A>, index: nat) {
    InRange(index, EntryRange(container, entry))
  }

  /** Some entry's range holds position `p`. */
  ghost predicate Tappable<A>(container: Text, entries: seq<TappableString<A>>, p: nat) {
    exists k :: 0 <= k < |entries| && Hit(container, entries[k], p)
  }

  /** A position is tappable in a non-empty list when the head or the tail holds it. */
  lemma TappableCons<A>(container: Text, entries: seq<TappableString<A>>, p: nat)
    requires |entries| > 0
    ensures Tappable(container, entries, p) <==>
              Hit(container, entries[0], p) || Tappable(container, entries[1..], p)
  {
  }

  // ---------------------------------------------------------------------------
  // Styling
  // ---------------------------------------------------------------------------

  /**
   The loop over the tappable strings: each one's first-occurrence range gets
   the link colour. A range that was not found covers no code unit, so it paints
   nothing and raises nothing.
   */
  function Highlight<A>(container: Text, s: AttributedString, entries: seq<TappableString<A>>): (t: AttributedString)
    ensures |t| == |s|
    ensures forall p :: 0 <= p < |s| ==> t[p].paragraphStyle == s[p].paragraphStyle
    ensures forall p :: 0 <= p < |s| ==>
              t[p].foregroundColor == if Tappable(container, entries, p) then Some(LinkColour) else s[p].foregroundColor
    decreases |entries|
  {
    if entries == [] then s
    else
      var s' := Paint(s, ForegroundColorAttribute(LinkColour), EntryRange(container, entries[0]));
      var t := Highlight(container, s', entries[1..]);
      assert forall p :: 0 <= p < |s| ==>
               t[p].foregroundColor == if Tappable(container, entries, p) then Some(LinkColour) else s[p].foregroundColor
      by {
        forall p | 0 <= p < |s| {
          TappableCons(container, entries, p);
        }
      }
      t
  }

  /**
   The label's attributed text, with an entry that is absent from the container
   left unstyled: every code unit carries the centred paragraph style, a code
   unit is link-coloured exactly when some entry's range holds it, and every
   other code unit has no colour of its own.
   */
  function AttributedText<A>(view: Label<A>): (t: AttributedString)
    ensures |t| == |view.containerString|
    ensures forall p :: 0 <= p < |t| ==> t[p].paragraphStyle == Some(AgreementParagraphStyle)
    ensures forall p :: 0 <= p < |t| ==>
              (t[p].foregroundColor == Some(LinkColour) <==> Tappable(view.containerString, view.tappableStrings, p))
    ensures forall p :: 0 <= p < |t| ==>
              (t[p].foregroundColor == None <==> !Tappable(view.containerString, view.tappableStrings, p))
  {
    var c := view.containerString;
    RangeOfWholeString(c);
    var styled := Paint(Plain(|c|), ParagraphStyleAttribute(AgreementParagraphStyle), RangeOf(c, c));
    Highlight(c, styled, view.tappableStrings)
  }

  /**
   The colour each code unit is drawn in: its own foreground colour, or else the
   label's `textColor`, which is the normal text colour.
   */
  function DisplayedColours<A>(view: Label<A>): (colours: seq<Colour>)
    ensures |colours| == |view.containerString|
    ensures forall p :: 0 <= p < |colours| ==>
              colours[p] == if Tappable(view.containerString, view.tappableStrings, p)
                            then LinkColour else view.normalTextColor
  {
    var t := AttributedText(view);
    seq(|t|, p requires 0 <= p < |t| =>
      match t[p].foregroundColor
      case Some(colour) => colour
      case None => view.normalTextColor)
  }

  /** The link-colouring loop as written: each `addAttributes` may raise. */
  function HighlightAsWritten<A>(container: Text, s: AttributedString, entries: seq<TappableString<A>>): (res: Result<AttributedString, RangeError>)
    requires |s| == |container|
    ensures res.Success? <==> forall k :: 0 <= k < |entries| ==> EntryRange(container, entries[k]) != NotFoundRange
    ensures res.Success? ==> res.value == Highlight(container, s, entries)
    decreases |entries|
  {
    if entries == [] then Success(s)
    else
      var r := EntryRange(container, entries[0]);
      match AddAttribute(s, ForegroundColorAttribute(LinkColour), r)
      case Failure(e) => Failure(e)
      case Success(s') =>
        assert s' == Paint(s, ForegroundColorAttribute(LinkColour), r);
        var res := HighlightAsWritten(container, s', entries[1..]);
        assert res.Success? <==> forall k :: 0 <= k < |entries| ==> EntryRange(container, entries[k]) != NotFoundRange
        by {
          if forall k :: 1 <= k < |entries| ==> EntryRange(container, entries[k]) != NotFoundRange {
            forall k | 0 <= k < |entries[1..]| ensures EntryRange(container, entries[1..][k]) != NotFoundRange {
              assert entries[1..][k] == entries[k + 1];
            }
          } else {
            var k :| 1 <= k < |entries| && EntryRange(container, entries[k]) == NotFoundRange;
            assert entries[1..][k - 1] == entries[k];
          }
        }
        res
  }

  /**
   `getAttributedText()` as written: the paragraph style is added over the
   range of the container within itself, then each entry's colour over its
   range. Foundation raises on a range past the end of the string, and a range
   that was not found is such a range: construction raises unless the container
   is non-empty and every entry occurs in it.
   */
  function AttributedTextAsWritten<A>(view: Label<A>): (res: Result<AttributedString, RangeError>)
    ensures res.Success? <==>
              && |view.containerString| > 0
              && forall k :: 0 <= k < |view.tappableStrings| ==>
                   |view.tappableStrings[k].text| > 0 && Occurs(view.containerString, view.tappableStrings[k].text)
    ensures res.Success? ==> res.value == AttributedText(view)
  {
    var c := view.containerString;
    RangeOfWholeString(c);
    match AddAttribute(Plain(|c|), ParagraphStyleAttribute(AgreementParagraphStyle), RangeOf(c, c))
    case Failure(e) => Failure(e)
    case Success(styled) => HighlightAsWritten(c, styled, view.tappableStrings)
  }

  // ---------------------------------------------------------------------------
  // Tap dispatch
  // ---------------------------------------------------------------------------

  /** The scan from entry `from` on: the first entry the tap lands on, if any. */
  function DispatchFrom<A>(container: Text, entries: seq<TappableString<A>>, index: nat, from: nat): (r: Option<nat>)
    requires from <= |entries|
    ensures r.Some? ==> from <= r.value < |entries| && Hit(container, entries[r.value], index)
    ensures r.Some? ==> forall k :: from <= k < r.value ==> !Hit(container, entries[k], index)
    ensures r.None? ==> forall k :: from <= k < |entries| ==> !Hit(container, entries[k], index)
    decreases |entries| - from
  {
    if from == |entries| then None
    else if Hit(container, entries[from], index) then Some(from)
    else DispatchFrom(container, entries, index, from + 1)
  }

  /**
   `handleAgreementTap`: given the character index the tap resolved to, the
   position of the one tappable string whose action fires. It is the earliest
   entry whose range holds the index, and nothing fires when no range does.
   */
  function Dispatch<A>(view: Label<A>, index: nat): (r: Option<nat>)
    ensures r.Some? ==> r.value < |view.tappableStrings|
    ensures r.Some? ==> Hit(view.containerString, view.tappableStrings[r.value], index)
    ensures r.Some? ==> forall k :: 0 <= k < r.value ==> !Hit(view.containerString, view.tappableStrings[k], index)
    ensures r.None? <==> !Tappable(view.containerString, view.tappableStrings, index)
  {
    DispatchFrom(view.containerString, view.tappableStrings, index, 0)
  }

  /** The action a tap on character `index` invokes, if any. */
  function ActionFor<A>(view: Label<A>, index: nat): (action: Option<A>)
    ensures action.Some? <==> Tappable(view.containerString, view.tappableStrings, index)
    ensures action.Some? ==>
              exists k :: && 0 <= k < |view.tappableStrings|
                          && view.tappableStrings[k].action == action.value
                          && Hit(view.containerString, view.tappableStrings[k], index)
                          && forall j :: 0 <= j < k ==> !Hit(view.containerString, view.tappableStrings[j], index)
  {
    match Dispatch(view, index)
    case None => None
    case Some(k) => Some(view.tappableStrings[k].action)
  }
}
