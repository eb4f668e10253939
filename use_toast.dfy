/**
 * The toast queue behind `useToast`: a shared list of notices and a shared
 * counter. Adding stamps the next counter value and appends; the timer that
 * fires later removes the toast with that id.
 */
module UseToast {
  import opened Seqs

  datatype ToastType = Default | Success | Error

  datatype Toast = Toast(id: int, message: string, kind: ToastType)

  /** Ids strictly increase along the list and none is above the counter. */
  predicate IdsIncreasing(ts: seq<Toast>, counter: int) {
    && (forall i :: 0 <= i < |ts| ==> ts[i].id <= counter)
    && (forall i, j :: 0 <= i < j < |ts| ==> ts[i].id < ts[j].id)
  }

  /** `toasts.value.filter((t) => t.id !== id)`. */
  function WithoutToast(ts: seq<Toast>, id: int): seq<Toast> {
    Filter(ts, (t: Toast) => t.id != id)
  }

  /** Removing a present id drops exactly that toast and keeps the rest in order. */
  lemma RemoveExactlyOne(ts: seq<Toast>, counter: int, k: nat)
    requires IdsIncreasing(ts, counter) && k < |ts|
    ensures WithoutToast(ts, ts[k].id) == ts[..k] + ts[k + 1..]
    ensures |WithoutToast(ts, ts[k].id)| == |ts| - 1
  {
    var id := ts[k].id;
    var a, b := ts[..k], ts[k + 1..];
    assert ts == a + [ts[k]] + b;
    forall i | 0 <= i < |a| ensures a[i].id != id {
      assert a[i] == ts[i];
    }
    forall i | 0 <= i < |b| ensures b[i].id != id {
      assert b[i] == ts[k + 1 + i];
    }
    FilterDropsOne(a, ts[k], b, (t: Toast) => t.id != id);
  }

  /** Removing an id that is not there leaves the list as it was. */
  lemma RemoveAbsent(ts: seq<Toast>, id: int)
    requires forall i :: 0 <= i < |ts| ==> ts[i].id != id
    ensures WithoutToast(ts, id) == ts
  {
    FilterKeepsAll(ts, (t: Toast) => t.id != id);
  }

  /** Removal keeps the ids increasing and below the counter. */
  lemma {:induction false} RemoveKeepsIncreasing(ts: seq<Toast>, counter: int, id: int)
    requires IdsIncreasing(ts, counter)
    ensures IdsIncreasing(WithoutToast(ts, id), counter)
  {
    var p := (t: Toast) => t.id != id;
    if |ts| > 0 {
      RemoveKeepsIncreasing(ts[1..], counter, id);
      var rest := WithoutToast(ts[1..], id);
      forall t | t in rest
        ensures ts[0].id < t.id
      {
        FilterMembership(ts[1..], p, t);
      }
      var r := WithoutToast(ts, id);
      assert r == (if p(ts[0]) then [ts[0]] else []) + rest;
    }
  }

  /** The module-level state: the visible toasts and the last id handed out. */
  class ToastState {
    var toasts: seq<Toast>
    var toastId: int

    ghost predicate Valid()
      reads this
    {
      0 <= toastId && IdsIncreasing(toasts, toastId)
    }

    constructor ()
      ensures Valid() && toasts == [] && toastId == 0
    {
      toasts, toastId := [], 0;
    }

    /**
     * `addToast`: take the next id and append the toast, of type `default`
     * unless one is given. The id is returned for the removal the timer
     * performs.
     */
    method AddToast(message: string, kind: ToastType := Default) returns (id: int)
      requires Valid()
      modifies this
      ensures Valid()
      ensures id == old(toastId) + 1 && toastId == id
      ensures toasts == old(toasts) + [Toast(id, message, kind)]
      ensures |toasts| == |old(toasts)| + 1
      ensures forall i :: 0 <= i < |old(toasts)| ==> old(toasts)[i].id < id
    {
      toastId := toastId + 1;
      id := toastId;
      toasts := toasts + [Toast(id, message, kind)];
    }

    /** The timer's callback: drop the toast with that id, if it is still there. */
    method RemoveToast(id: int)
      requires Valid()
      modifies this`toasts
      ensures Valid()
      ensures toasts == WithoutToast(old(toasts), id)
      ensures (forall i :: 0 <= i < |old(toasts)| ==> old(toasts)[i].id != id) ==> toasts == old(toasts)
      ensures forall k :: 0 <= k < |old(toasts)| && old(toasts)[k].id == id ==> toasts == old(toasts)[..k] + old(toasts)[k + 1..]
    {
      RemoveKeepsIncreasing(toasts, toastId, id);
      if forall i :: 0 <= i < |toasts| ==> toasts[i].id != id {
        RemoveAbsent(toasts, id);
      }
      forall k | 0 <= k < |toasts| && toasts[k].id == id
        ensures WithoutToast(toasts, id) == toasts[..k] + toasts[k + 1..]
      {
        RemoveExactlyOne(toasts, toastId, k);
      }
      toasts := WithoutToast(toasts, id);
    }
  }
}
