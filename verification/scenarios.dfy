/** Concrete labels from the component's documented usage. */
module Scenarios {
  import opened Wrappers
  import opened NSRanges
  import opened StringSearch
  import opened AttributedStrings
  import opened TapableLabel

  /** The UTF-16 encoding of a string of Basic Multilingual Plane characters: one code unit each. */
  function Utf16(s: string): (units: Text)
    requires |s| < NSNotFound
    requires forall i :: 0 <= i < |s| ==> s[i] as int < 0x1_0000
    ensures |units| == |s|
    ensures forall i :: 0 <= i < |s| ==> units[i] as int == s[i] as int
  {
    seq(|s|, i requires 0 <= i < |s| => s[i] as int as Unit)
  }

  const Agreement: string := "I agree to the Terms and Privacy Policy"

  /** A label with "Terms" (action 1) and "Privacy Policy" (action 2) in the agreement sentence. */
  function AgreementLabel(): Label<int> {
    Label([TappableString(Utf16("Terms"), 1), TappableString(Utf16("Privacy Policy"), 2)],
          Utf16(Agreement), OtherColour(0), OtherColour(1))
  }

  /** A label whose only entry, "Missing" (action 7), is absent from the agreement sentence. */
  function MissingLabel(): Label<int> {
    Label([TappableString(Utf16("Missing"), 7)], Utf16(Agreement), OtherColour(0), OtherColour(1))
  }

  /** "Terms" is found at code units 15 to 19 of the agreement sentence. */
  lemma TermsRange()
    ensures RangeOf(Utf16(Agreement), Utf16("Terms")) == NSRange(15, 5)
  {
    var c, n := Utf16(Agreement), Utf16("Terms");
    assert Agreement[15] == 'T' && Agreement[16] == 'e' && Agreement[17] == 'r';
    assert Agreement[18] == 'm' && Agreement[19] == 's';
    assert c[15..20] == n;
    assert 'T' !in Agreement[..15];
    assert forall i :: 0 <= i < 15 ==> Agreement[..15][i] != 'T';
    assert n[0] !in c[..15];
    NoMatchBefore(c, n, 15);
    RangeOfIsFirstOccurrence(c, n, 15);
  }

  /** A tap on the "e" of "Terms" invokes the first callback, not the second. */
  lemma TapOnTermsFiresFirstAction()
    ensures ActionFor(AgreementLabel(), 16) == Some(1)
    ensures AttributedText(AgreementLabel())[16].foregroundColor == Some(LinkColour)
  {
    TermsRange();
    assert Hit(AgreementLabel().containerString, AgreementLabel().tappableStrings[0], 16);
  }

  /** "Missing" does not occur in the agreement sentence. */
  lemma MissingAbsent()
    ensures !Occurs(Utf16(Agreement), Utf16("Missing"))
  {
    var c, n := Utf16(Agreement), Utf16("Missing");
    assert 'M' !in Agreement;
    assert forall i :: 0 <= i < |Agreement| ==> Agreement[i] != 'M';
    assert n[0] !in c[..|c|];
    NoMatchBefore(c, n, |c|);
  }

  /** No tap on the label with only the missing entry invokes anything, and nothing is link-coloured. */
  lemma MissingEntryNeverFires()
    ensures forall index: nat :: ActionFor(MissingLabel(), index) == None
    ensures forall p :: 0 <= p < |Agreement| ==> AttributedText(MissingLabel())[p].foregroundColor == None
  {
    MissingAbsent();
    assert RangeOf(Utf16(Agreement), Utf16("Missing")) == NotFoundRange;
  }

  /**
   The attributed text as written raises for the same label: the not-found
   range `{NSNotFound, 0}` handed to `addAttributes` lies past the end of the
   string.
   */
  lemma MissingEntryRaisesAsWritten()
    ensures AttributedTextAsWritten(MissingLabel()) ==
              Failure(RangeOutOfBounds(NSRange(NSNotFound, 0)))
  {
    MissingAbsent();
  }

  /** An empty container raises as written too: the container is not found within itself. */
  lemma EmptyContainerRaisesAsWritten()
    ensures AttributedTextAsWritten<int>(Label([], Utf16(""), OtherColour(0), OtherColour(1))) ==
              Failure(RangeOutOfBounds(NSRange(NSNotFound, 0)))
  {
  }
}
