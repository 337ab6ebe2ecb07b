/**
 `NSString.range(of:)`: the first occurrence of one string inside another,
 located over UTF-16 code units, which is how `NSString` indexes its contents.
 */
module StringSearch {
  import opened Wrappers
  import opened NSRanges

  /** One UTF-16 code unit. */
  newtype Unit = x: int | 0 <= x < 0x1_0000

  /** The contents of an `NSString`; its length is an `NSInteger`, below `NSNotFound`. */
  type Text = s: seq<Unit> | |s| < NSNotFound

  /** `needle` occurs in `hay` starting at code unit `i`. */
  predicate MatchesAt(hay: seq<Unit>, needle: seq<Unit>, i: nat) {
    i + |needle| <= |hay| && hay[i..i + |needle|] == needle
  }

  /** `needle` occurs somewhere in `hay`. */
  ghost predicate Occurs(hay: seq<Unit>, needle: seq<Unit>) {
    exists i: nat :: MatchesAt(hay, needle, i)
  }

  /** `loc` is where `needle` first occurs in `hay`. */
  ghost predicate IsFirstOccurrence(hay: seq<Unit>, needle: seq<Unit>, loc: nat) {
    MatchesAt(hay, needle, loc) && forall j: nat :: j < loc ==> !MatchesAt(hay, needle, j)
  }

  /** The first position at or after `from` where `needle` occurs, if any. */
  function FirstMatchFrom(hay: seq<Unit>, needle: seq<Unit>, from: nat): (r: Option<nat>)
    ensures r.Some? ==> from <= r.value && MatchesAt(hay, needle, r.value)
    ensures r.Some? ==> forall j: nat :: from <= j < r.value ==> !MatchesAt(hay, needle, j)
    ensures r.None? ==> forall j: nat :: from <= j ==> !MatchesAt(hay, needle, j)
    decreases |hay| - from
  {
    if from + |needle| > |hay| then None
    else if hay[from..from + |needle|] == needle then Some(from)
    else FirstMatchFrom(hay, needle, from + 1)
  }

  /**
   `(container as NSString).range(of: needle)` with no search options: the range
   of the first occurrence of a non-empty `needle`, or `{NSNotFound, 0}` when the
   needle is empty or does not occur.
   */
  function RangeOf(container: Text, needle: Text): (r: NSRange)
    ensures r == NotFoundRange <==> |needle| == 0 || !Occurs(container, needle)
    ensures r != NotFoundRange ==>
              && r.length == |needle|
              && MaxRange(r) <= |container|
              && IsFirstOccurrence(container, needle, r.location)
  {
    if |needle| == 0 then NotFoundRange
    else match FirstMatchFrom(container, needle, 0)
      case None => NotFoundRange
      case Some(i) => NSRange(i, |needle|)
  }

  /**
   The first-occurrence characterisation determines the lookup: wherever a
   non-empty needle first occurs, that is the range returned.
   */
  lemma RangeOfIsFirstOccurrence(container: Text, needle: Text, loc: nat)
    requires |needle| > 0
    requires IsFirstOccurrence(container, needle, loc)
    ensures RangeOf(container, needle) == NSRange(loc, |needle|)
  {
  }

  /** A needle cannot occur where its first code unit does not appear. */
  lemma NoMatchBefore(hay: seq<Unit>, needle: seq<Unit>, loc: nat)
    requires |needle| > 0
    requires loc <= |hay|
    requires needle[0] !in hay[..loc]
    ensures forall j: nat :: j < loc ==> !MatchesAt(hay, needle, j)
  {
  }

  /** Searching a non-empty string for itself finds all of it; an empty one is not found. */
  lemma RangeOfWholeString(container: Text)
    ensures RangeOf(container, container) ==
              if |container| == 0 then NotFoundRange else NSRange(0, |container|)
  {
  }
}
