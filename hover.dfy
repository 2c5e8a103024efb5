/**
 * Sibling-group hover dimming, written twice in the script with different
 * dim values: contact methods (script.js:190-206) and service cards
 * (script.js:268-285). A member's inline opacity is None until a handler
 * first writes it.
 */
module Hover {
  import opened Wrappers

  const ContactMethodDim: real := 0.6
  const ServiceCardDim: real := 0.7
  const FullOpacity: real := 1.0

  /** Every member but `i` is set to `dim`; member `i` keeps what it had. */
  function Dimmed(opacity: seq<Option<real>>, i: nat, dim: real): (r: seq<Option<real>>)
    ensures |r| == |opacity|
  {
    seq(|opacity|, j requires 0 <= j < |opacity| => if j == i then opacity[j] else Some(dim))
  }

  /** Every member is set to full opacity. */
  function Restored(opacity: seq<Option<real>>): (r: seq<Option<real>>)
    ensures |r| == |opacity|
  {
    seq(|opacity|, j requires 0 <= j < |opacity| => Some(FullOpacity))
  }

  /** Leaving a member undoes any dimming: the result does not depend on what entering did. */
  lemma LeaveUndoesEnter(opacity: seq<Option<real>>, i: nat, dim: real)
    ensures Restored(Dimmed(opacity, i, dim)) == Restored(opacity)
    ensures forall j :: 0 <= j < |opacity| ==> Restored(opacity)[j] == Some(1.0)
  {
    assert forall j :: 0 <= j < |opacity| ==> Restored(Dimmed(opacity, i, dim))[j] == Restored(opacity)[j];
  }

  /** Entering the same member twice is entering it once. */
  lemma EnterIdempotent(opacity: seq<Option<real>>, i: nat, dim: real)
    ensures Dimmed(Dimmed(opacity, i, dim), i, dim) == Dimmed(opacity, i, dim)
  {
    assert forall j :: 0 <= j < |opacity| ==> Dimmed(Dimmed(opacity, i, dim), i, dim)[j] == Dimmed(opacity, i, dim)[j];
  }

  /**
   * After a leave, entering member `i` leaves exactly one member not dimmed,
   * and that member is at full opacity.
   */
  lemma EnterAfterLeaveHighlightsOne(opacity: seq<Option<real>>, i: nat, dim: real)
    requires i < |opacity| && dim != FullOpacity
    ensures var r := Dimmed(Restored(opacity), i, dim);
      r[i] == Some(FullOpacity) &&
      forall j :: 0 <= j < |opacity| ==> (r[j] == Some(dim) <==> j != i)
  {
  }

  /** One group of siblings whose inline opacities the handlers overwrite. */
  class SiblingGroup {
    const opacity: array<Option<real>>
    const dim: real

    /** The `.contact-method` elements, dimmed to 0.6. */
    constructor ContactMethods(members: nat)
      ensures dim == 0.6 && fresh(opacity)
      ensures opacity.Length == members && forall j :: 0 <= j < members ==> opacity[j].None?
    {
      dim := ContactMethodDim;
      opacity := new Option<real>[members](_ => None);
    }

    /** The `.service-card` elements, dimmed to 0.7. */
    constructor ServiceCards(members: nat)
      ensures dim == 0.7 && fresh(opacity)
      ensures opacity.Length == members && forall j :: 0 <= j < members ==> opacity[j].None?
    {
      dim := ServiceCardDim;
      opacity := new Option<real>[members](_ => None);
    }

    /** mouseenter on member `i`: every other member is dimmed. */
    method MouseEnter(i: nat)
      requires i < opacity.Length
      modifies opacity
      ensures opacity[..] == Dimmed(old(opacity[..]), i, dim)
    {
      var j := 0;
      while j < opacity.Length
        invariant 0 <= j <= opacity.Length
        invariant forall m :: 0 <= m < j ==> opacity[m] == if m == i then old(opacity[m]) else Some(dim)
        invariant forall m :: j <= m < opacity.Length ==> opacity[m] == old(opacity[m])
      {
        if j != i {
          opacity[j] := Some(dim);
        }
        j := j + 1;
      }
    }

    /** mouseleave on any member: every member goes back to full opacity. */
    method MouseLeave()
      modifies opacity
      ensures opacity[..] == Restored(old(opacity[..]))
    {
      var j := 0;
      while j < opacity.Length
        invariant 0 <= j <= opacity.Length
        invariant forall m :: 0 <= m < j ==> opacity[m] == Some(FullOpacity)
      {
        opacity[j] := Some(FullOpacity);
        j := j + 1;
      }
    }
  }
}
