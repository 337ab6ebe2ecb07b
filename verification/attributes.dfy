/**
 The part of `NSMutableAttributedString` the label uses: one set of attributes
 per UTF-16 code unit, and `addAttribute(_:value:range:)`, which raises a range
 exception when the range reaches past the end of the string. Colours and
 paragraph styles are abstract tokens.
 */
module AttributedStrings {
  import opened Wrappers
  import opened NSRanges

  /** `UIColor.appTintColor`, or any other colour, as an opaque token. */
  datatype Colour = AppTintColor | OtherColour(token: nat)

  datatype Alignment = Natural | Left | Center | Right | Justified

  /** The two `NSMutableParagraphStyle` settings the label writes. */
  datatype ParagraphStyle = ParagraphStyle(lineSpacing: nat, alignment: Alignment)

  /** The attributes one code unit carries; `None` means the attribute is unset. */
  datatype Attrs = Attrs(paragraphStyle: Option<ParagraphStyle>, foregroundColor: Option<Colour>)

  /** One attribute key together with its value. */
  datatype Attribute =
    | ParagraphStyleAttribute(style: ParagraphStyle)
    | ForegroundColorAttribute(colour: Colour)

  /** The attributes of an attributed string, one entry per code unit. */
  type AttributedString = seq<Attrs>

  /** `NSMutableAttributedString(string:)`: `n` code units with no attributes. */
  function Plain(n: nat): (s: AttributedString)
    ensures |s| == n
    ensures forall p :: 0 <= p < n ==> s[p] == Attrs(None, None)
  {
    seq(n, p => Attrs(None, None))
  }

  /** Sets one attribute on one code unit, keeping the other. */
  function With(a: Attrs, attr: Attribute): Attrs {
    match attr
    case ParagraphStyleAttribute(style) => a.(paragraphStyle := Some(style))
    case ForegroundColorAttribute(colour) => a.(foregroundColor := Some(colour))
  }

  /** Sets `attr` on every code unit of `s` that lies in `r`. */
  function Paint(s: AttributedString, attr: Attribute, r: NSRange): (t: AttributedString)
    ensures |t| == |s|
    ensures forall p :: 0 <= p < |s| ==> t[p] == if InRange(p, r) then With(s[p], attr) else s[p]
  {
    seq(|s|, p requires 0 <= p < |s| => if InRange(p, r) then With(s[p], attr) else s[p])
  }

  /** What `addAttribute(_:value:range:)` raises. */
  datatype RangeError = RangeOutOfBounds(range: NSRange)

  /**
   `addAttribute(_:value:range:)`: raises when any part of `r` lies beyond the
   end of the string, otherwise sets the attribute over `r` and nothing else.
   */
  function AddAttribute(s: AttributedString, attr: Attribute, r: NSRange): (res: Result<AttributedString, RangeError>)
    ensures res.Failure? <==> MaxRange(r) > |s|
    ensures res.Failure? ==> res.error == RangeOutOfBounds(r)
    ensures res.Success? ==> |res.value| == |s|
    ensures res.Success? ==> forall p :: 0 <= p < |s| ==>
              res.value[p] == if r.location <= p < MaxRange(r) then With(s[p], attr) else s[p]
  {
    if MaxRange(r) > |s| then Failure(RangeOutOfBounds(r)) else Success(Paint(s, attr, r))
  }
}
