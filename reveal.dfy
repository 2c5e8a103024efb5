/**
 * The one-way 'visible' marker on `[data-animation]` elements
 * (script.js:79-96). The observer hands its callback a batch of entries; each
 * intersecting one marks its element visible, and nothing ever unmarks one.
 */
module Reveal {

  /** One IntersectionObserver entry: the index of its element and whether it intersects. */
  datatype Entry = Entry(target: nat, isIntersecting: bool)

  predicate TargetsIn(entries: seq<Entry>, n: nat) {
    forall k :: 0 <= k < |entries| ==> entries[k].target < n
  }

  function Mark(visible: seq<bool>, e: Entry): (r: seq<bool>)
    requires e.target < |visible|
    ensures |r| == |visible|
  {
    if e.isIntersecting then visible[e.target := true] else visible
  }

  /** The markers after the callback has gone through `entries` in order. */
  function Revealed(visible: seq<bool>, entries: seq<Entry>): (r: seq<bool>)
    requires TargetsIn(entries, |visible|)
    ensures |r| == |visible|
  {
    if entries == [] then visible
    else Mark(Revealed(visible, entries[..|entries| - 1]), entries[|entries| - 1])
  }

  /**
   * An element is visible after the callback exactly when it was before or
   * some entry of the batch reports it intersecting.
   */
  lemma {:induction false} RevealedExactly(visible: seq<bool>, entries: seq<Entry>, j: nat)
    requires TargetsIn(entries, |visible|) && j < |visible|
    ensures Revealed(visible, entries)[j] <==>
      visible[j] || exists k :: 0 <= k < |entries| && entries[k].target == j && entries[k].isIntersecting
  {
    if entries != [] {
      var init := entries[..|entries| - 1];
      RevealedExactly(visible, init, j);
      assert forall k :: 0 <= k < |init| ==> init[k] == entries[k];
    }
  }

  /** The marker is never removed: a visible element stays visible through any later batches. */
  lemma RevealedKeepsMarker(visible: seq<bool>, batches: seq<seq<Entry>>, j: nat)
    requires j < |visible| && visible[j]
    requires forall b :: 0 <= b < |batches| ==> TargetsIn(batches[b], |visible|)
    ensures RevealedAll(visible, batches)[j]
  {
    if batches != [] {
      var init := batches[..|batches| - 1];
      RevealedKeepsMarker(visible, init, j);
      RevealedExactly(RevealedAll(visible, init), batches[|batches| - 1], j);
    }
  }

  /** The markers after several callbacks, one per batch. */
  function RevealedAll(visible: seq<bool>, batches: seq<seq<Entry>>): (r: seq<bool>)
    requires forall b :: 0 <= b < |batches| ==> TargetsIn(batches[b], |visible|)
    ensures |r| == |visible|
  {
    if batches == [] then visible
    else Revealed(RevealedAll(visible, batches[..|batches| - 1]), batches[|batches| - 1])
  }

  /** Delivering the same batch again adds no marker. */
  lemma RevealedIdempotent(visible: seq<bool>, entries: seq<Entry>)
    requires TargetsIn(entries, |visible|)
    ensures Revealed(Revealed(visible, entries), entries) == Revealed(visible, entries)
  {
    var once := Revealed(visible, entries);
    forall j | 0 <= j < |visible|
      ensures Revealed(once, entries)[j] == once[j]
    {
      RevealedExactly(visible, entries, j);
      RevealedExactly(once, entries, j);
    }
  }

  /** The observer callback of script.js:86-92 over the markers of all animated elements. */
  method OnIntersection(visible: array<bool>, entries: seq<Entry>)
    requires TargetsIn(entries, visible.Length)
    modifies visible
    ensures visible[..] == Revealed(old(visible[..]), entries)
  {
    var k := 0;
    while k < |entries|
      invariant 0 <= k <= |entries|
      invariant visible[..] == Revealed(old(visible[..]), entries[..k])
    {
      var entry := entries[k];
      assert entries[..k + 1][..k] == entries[..k];
      if entry.isIntersecting {
        visible[entry.target] := true;
      }
      k := k + 1;
    }
    assert entries[..k] == entries;
  }
}
