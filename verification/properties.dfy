/** Properties relating the label's styling to its tap dispatch. */
module LabelProperties {
  import opened Wrappers
  import opened NSRanges
  import opened StringSearch
  import opened AttributedStrings
  import opened TapableLabel

  /**
   Styling and tapping use the same lookup: a code unit of the container is
   link-coloured exactly when a tap on it fires an action, and a tap beyond the
   end of the container fires nothing.
   */
  lemma HighlightedIffTappable<A>(view: Label<A>, index: nat)
    ensures index < |view.containerString| ==>
              (AttributedText(view)[index].foregroundColor == Some(LinkColour) <==> Dispatch(view, index).Some?)
    ensures |view.containerString| <= index ==> Dispatch(view, index).None?
  {
  }

  /** The sequence with the element at position `k` dropped. */
  function Without<T>(xs: seq<T>, k: nat): (others: seq<T>)
    requires k < |xs|
    ensures |others| == |xs| - 1
    ensures forall i :: 0 <= i < |others| ==> others[i] == if i < k then xs[i] else xs[i + 1]
  {
    xs[..k] + xs[k + 1..]
  }

  /** Dropping an element that fails `p` keeps some element satisfying `p` exactly when there was one. */
  lemma AnyWithout<T>(xs: seq<T>, k: nat, p: T -> bool)
    requires k < |xs|
    requires !p(xs[k])
    ensures (exists i :: 0 <= i < |Without(xs, k)| && p(Without(xs, k)[i])) <==> (exists i :: 0 <= i < |xs| && p(xs[i]))
  {
    var others := Without(xs, k);
    if exists i :: 0 <= i < |others| && p(others[i]) {
      var i :| 0 <= i < |others| && p(others[i]);
      assert others[i] == xs[if i < k then i else i + 1];
    }
    if exists i :: 0 <= i < |xs| && p(xs[i]) {
      var i :| 0 <= i < |xs| && p(xs[i]);
      assert others[if i < k then i else i - 1] == xs[i];
    }
  }

  /**
   Dropping an element that fails `p` moves the first element satisfying `p`
   up by one place if it came after the dropped one.
   */
  lemma FirstWithout<T>(xs: seq<T>, k: nat, p: T -> bool, m: nat)
    requires k < |xs| && m < |xs|
    requires !p(xs[k])
    requires p(xs[m]) && forall i :: 0 <= i < m ==> !p(xs[i])
    ensures var j := if m < k then m else m - 1;
            && j < |Without(xs, k)|
            && p(Without(xs, k)[j])
            && forall i :: 0 <= i < j ==> !p(Without(xs, k)[i])
  {
  }

  /** Dropping an entry no tap on `index` lands on leaves `index` exactly as tappable as before. */
  lemma TappableWithout<A>(c: Text, entries: seq<TappableString<A>>, k: nat, index: nat)
    requires k < |entries|
    requires !Hit(c, entries[k], index)
    ensures Tappable(c, Without(entries, k), index) <==> Tappable(c, entries, index)
  {
    AnyWithout(entries, k, e => Hit(c, e, index));
  }

  /**
   Dropping an entry no tap on `index` lands on does not change which entry
   that tap fires; the entries after the dropped one move up by one.
   */
  lemma DispatchWithout<A>(view: Label<A>, pruned: Label<A>, k: nat, index: nat)
    requires k < |view.tappableStrings|
    requires pruned == view.(tappableStrings := Without(view.tappableStrings, k))
    requires !Hit(view.containerString, view.tappableStrings[k], index)
    ensures Dispatch(pruned, index).None? <==> Dispatch(view, index).None?
    ensures Dispatch(view, index).Some? ==>
              var m := Dispatch(view, index).value;
              Dispatch(pruned, index) == Some(if m < k then m else m - 1)
  {
    var c := view.containerString;
    TappableWithout(c, view.tappableStrings, k, index);
    if Dispatch(view, index).Some? {
      FirstWithout(view.tappableStrings, k, e => Hit(c, e, index), Dispatch(view, index).value);
    }
  }

  /**
   An entry whose text is empty or absent from the container is inert: no tap
   lands on it, so its action never fires, and dropping it changes neither the
   styling nor the action any tap fires.
   */
  lemma MissingEntryIsInert<A>(view: Label<A>, k: nat)
    requires k < |view.tappableStrings|
    requires |view.tappableStrings[k].text| == 0 || !Occurs(view.containerString, view.tappableStrings[k].text)
    ensures forall index: nat :: !Hit(view.containerString, view.tappableStrings[k], index)
    ensures forall index: nat :: Dispatch(view, index) != Some(k)
    ensures AttributedText(view.(tappableStrings := Without(view.tappableStrings, k))) == AttributedText(view)
    ensures forall index: nat ::
              ActionFor(view.(tappableStrings := Without(view.tappableStrings, k)), index) == ActionFor(view, index)
  {
    var c := view.containerString;
    var entries := view.tappableStrings;
    var pruned := view.(tappableStrings := Without(entries, k));
    assert EntryRange(c, entries[k]) == NotFoundRange;
    var t, t' := AttributedText(view), AttributedText(pruned);
    forall p | 0 <= p < |t| ensures t'[p] == t[p] {
      TappableWithout(c, entries, k, p);
    }
    forall index: nat ensures ActionFor(pruned, index) == ActionFor(view, index) {
      DispatchWithout(view, pruned, k, index);
      if Dispatch(view, index).Some? {
        var m := Dispatch(view, index).value;
        assert pruned.tappableStrings[if m < k then m else m - 1] == entries[m];
      }
    }
  }

  /**
   First match wins: when the ranges of two entries both hold the tapped
   index, the entry listed later never fires; the action that fires belongs to
   the earlier one or to an entry before it.
   */
  lemma OverlapResolvesToEarlier<A>(view: Label<A>, i: nat, j: nat, index: nat)
    requires i < j < |view.tappableStrings|
    requires Hit(view.containerString, view.tappableStrings[i], index)
    requires Hit(view.containerString, view.tappableStrings[j], index)
    ensures Dispatch(view, index).Some? && Dispatch(view, index).value <= i
  {
  }

  /**
   Once an entry fires, no later entry is consulted: replacing everything after
   it by any other entries leaves the outcome unchanged.
   */
  lemma DispatchIgnoresLaterEntries<A>(view: Label<A>, index: nat, rest: seq<TappableString<A>>)
    requires Dispatch(view, index).Some?
    ensures var k := Dispatch(view, index).value;
            Dispatch(view.(tappableStrings := view.tappableStrings[..k + 1] + rest), index) == Some(k)
  {
    var k := Dispatch(view, index).value;
    var entries := view.tappableStrings[..k + 1] + rest;
    assert forall i :: 0 <= i <= k ==> entries[i] == view.tappableStrings[i];
    var changed := view.(tappableStrings := entries);
    assert Hit(view.containerString, changed.tappableStrings[k], index);
  }

  /**
   A tap on a code unit of an entry's found range fires that entry, unless an
   entry listed before it also holds the code unit.
   */
  lemma TapInsideFoundRangeFires<A>(view: Label<A>, k: nat, index: nat)
    requires k < |view.tappableStrings|
    requires var r := EntryRange(view.containerString, view.tappableStrings[k]);
             r != NotFoundRange && r.location <= index < MaxRange(r)
    requires forall j :: 0 <= j < k ==> !Hit(view.containerString, view.tappableStrings[j], index)
    ensures Dispatch(view, index) == Some(k)
    ensures ActionFor(view, index) == Some(view.tappableStrings[k].action)
  {
  }
}
