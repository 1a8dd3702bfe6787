/** `NotificationSubject` of `observers.py`: a list of observers without
    repetitions, to which a notification is broadcast in attachment order.
    What an observer does with a notification (send an e-mail, write a
    `Notification` row) is outside the model: it is the `deliver` function
    handed to `Notify`, which answers whether the delivery succeeded. */
module Observers {

  /** `list.remove(x)`: the list without the first occurrence of `x`; the
      list itself when `x` does not occur (the `ValueError` is caught and only
      logged). */
  function RemoveFirst<O(==)>(xs: seq<O>, x: O): (r: seq<O>)
    ensures x !in xs ==> r == xs
    ensures x in xs ==> |r| == |xs| - 1
    ensures multiset(r) == multiset(xs) - multiset{x}
  {
    if xs == [] then []
    else
      assert xs == [xs[0]] + xs[1..];
      if xs[0] == x then xs[1..]
      else [xs[0]] + RemoveFirst(xs[1..], x)
  }

  /** `x` occurs at most once in `xs`. */
  predicate Distinct<O(==)>(xs: seq<O>)
  {
    forall i, j :: 0 <= i < j < |xs| ==> xs[i] != xs[j]
  }

  /** The list after `attach(x)`: appended unless already there. */
  function Attached<O(==)>(xs: seq<O>, x: O): (r: seq<O>)
    ensures x in r
    ensures Distinct(xs) ==> Distinct(r)
    ensures multiset(r) == if x in xs then multiset(xs) else multiset(xs) + multiset{x}
  {
    if x in xs then xs else xs + [x]
  }

  /** Attaching the same observer twice is attaching it once. */
  lemma AttachIdempotent<O>(xs: seq<O>, x: O)
    ensures Attached(Attached(xs, x), x) == Attached(xs, x)
  {
  }

  /** Detaching an observer that was just attached, and was not there
      before, restores the list exactly: order included. */
  lemma {:induction false} DetachUndoesAttach<O>(xs: seq<O>, x: O)
    requires x !in xs
    ensures RemoveFirst(Attached(xs, x), x) == xs
  {
    if xs != [] {
      assert (xs + [x])[0] == xs[0];
      assert (xs + [x])[1..] == xs[1..] + [x];
      DetachUndoesAttach(xs[1..], x);
    }
  }

  /** In a list without repetitions, removing an observer removes it
      entirely and keeps the others. */
  lemma {:induction false} RemoveFirstFromDistinct<O>(xs: seq<O>, x: O)
    requires Distinct(xs)
    ensures x !in RemoveFirst(xs, x)
    ensures Distinct(RemoveFirst(xs, x))
    ensures forall y :: y != x ==> (y in RemoveFirst(xs, x) <==> y in xs)
  {
    if xs != [] {
      var rest := xs[1..];
      assert xs == [xs[0]] + rest;
      assert xs[0] !in rest;
      if xs[0] != x {
        RemoveFirstFromDistinct(rest, x);
        var d := RemoveFirst(rest, x);
        assert xs[0] !in d;
        assert RemoveFirst(xs, x) == [xs[0]] + d;
        forall i, j | 0 <= i < j < |[xs[0]] + d| ensures ([xs[0]] + d)[i] != ([xs[0]] + d)[j] {
          if i == 0 {
            assert ([xs[0]] + d)[j] == d[j - 1];
          }
        }
      }
    }
  }

  class NotificationSubject<O(==)> {
    /** `_observers` */
    var observers: seq<O>

    /** `attach` never lets an observer in twice. */
    ghost predicate Valid()
      reads this
    {
      Distinct(observers)
    }

    /** `__init__`: no observers. */
    constructor ()
      ensures Valid() && observers == []
    {
      observers := [];
    }

    /** `attach`: appends the observer unless it is already attached. */
    method Attach(observer: O)
      requires Valid()
      modifies this
      ensures Valid()
      ensures observers == Attached(old(observers), observer)
    {
      if observer !in observers {
        observers := observers + [observer];
      }
    }

    /** `detach`: removes the observer; an observer that is not attached is
        only logged. */
    method Detach(observer: O)
      requires Valid()
      modifies this
      ensures Valid()
      ensures observers == RemoveFirst(old(observers), observer)
      ensures observer !in observers
    {
      RemoveFirstFromDistinct(observers, observer);
      observers := RemoveFirst(observers, observer);
    }

    /** `notify`: hands the notification to every attached observer, in
        attachment order, and answers each one's success in that order. A
        failed delivery does not stop the others. */
    method Notify(subject: string, message: string, recipient: string, deliver: (O, string, string, string) -> bool)
      returns (results: seq<bool>)
      ensures |results| == |observers|
      ensures forall i :: 0 <= i < |observers| ==> results[i] == deliver(observers[i], subject, message, recipient)
    {
      results := [];
      for i := 0 to |observers|
        invariant |results| == i
        invariant forall k :: 0 <= k < i ==> results[k] == deliver(observers[k], subject, message, recipient)
      {
        var success := deliver(observers[i], subject, message, recipient);
        results := results + [success];
      }
    }
  }
}
