// utilsPrivate/observable.js: an observer list with subscribe, the
// unsubscribe closure that subscribe returns, and notify.

module Observables {
  import opened JsValues

  /** The list without any entry strictly equal to `fn`, the others kept in
      order: this._observers.filter((observer) => observer !== fn). */
  function Without(observers: seq<JsValue>, fn: JsValue): (r: seq<JsValue>)
    ensures |r| <= |observers|
  {
    if observers == [] then []
    else (if StrictEquals(observers[0], fn) then [] else [observers[0]]) + Without(observers[1..], fn)
  }

  /** Every entry strictly equal to `fn` is gone, and every other one stays. */
  lemma {:induction false} WithoutMeaning(observers: seq<JsValue>, fn: JsValue)
    ensures forall x :: x in Without(observers, fn) <==> x in observers && !StrictEquals(x, fn)
  {
    if observers != [] {
      WithoutMeaning(observers[1..], fn);
      assert forall x :: x in observers <==> x == observers[0] || x in observers[1..];
    }
  }

  /** Filtering works piece by piece, so the order of the entries that stay
      is kept. */
  lemma {:induction false} WithoutConcat(xs: seq<JsValue>, ys: seq<JsValue>, fn: JsValue)
    ensures Without(xs + ys, fn) == Without(xs, fn) + Without(ys, fn)
  {
    if xs == [] {
      assert xs + ys == ys;
    } else {
      assert (xs + ys)[1..] == xs[1..] + ys;
      WithoutConcat(xs[1..], ys, fn);
    }
  }

  /** Unsubscribing twice is unsubscribing once. */
  lemma {:induction false} WithoutIdempotent(observers: seq<JsValue>, fn: JsValue)
    ensures Without(Without(observers, fn), fn) == Without(observers, fn)
  {
    if observers != [] {
      var head := if StrictEquals(observers[0], fn) then [] else [observers[0]];
      WithoutConcat(head, Without(observers[1..], fn), fn);
      WithoutIdempotent(observers[1..], fn);
    }
  }

  /** Unsubscribing right after subscribing also drops the earlier
      subscriptions of the same function. */
  lemma SubscribeUnsubscribe(observers: seq<JsValue>, fn: JsValue)
    requires fn != NaN
    ensures Without(observers + [fn], fn) == Without(observers, fn)
  {
    WithoutConcat(observers, [fn], fn);
    assert [fn][1..] == [];
  }

  /** NaN is never strictly equal to anything, so unsubscribing it removes
      nothing. */
  lemma {:induction false} WithoutNaN(observers: seq<JsValue>)
    ensures Without(observers, NaN) == observers
  {
    if observers != [] {
      WithoutNaN(observers[1..]);
    }
  }

  /** One observer called with the notified data. */
  datatype Call = Call(observer: JsValue, data: JsValue)

  predicate AllCallable(observers: seq<JsValue>) {
    forall i :: 0 <= i < |observers| ==> observers[i].Fn?
  }

  /** The calls notify makes: each entry in list order with the same data,
      up to the first entry that is not a function, where the call throws a
      TypeError and forEach stops. */
  function Delivered(observers: seq<JsValue>, data: JsValue): (r: seq<Call>)
  {
    if observers == [] || !observers[0].Fn? then []
    else [Call(observers[0], data)] + Delivered(observers[1..], data)
  }

  /** The calls go to a prefix of the list, one call per entry, in order;
      the prefix is the whole list exactly when every entry is a function. */
  lemma {:induction false} DeliveredMeaning(observers: seq<JsValue>, data: JsValue)
    ensures |Delivered(observers, data)| <= |observers|
    ensures forall i :: 0 <= i < |Delivered(observers, data)| ==>
      Delivered(observers, data)[i] == Call(observers[i], data)
    ensures |Delivered(observers, data)| == |observers| <==> AllCallable(observers)
  {
    if observers != [] && observers[0].Fn? {
      DeliveredMeaning(observers[1..], data);
      if AllCallable(observers[1..]) {
        forall i | 0 <= i < |observers| ensures observers[i].Fn? {
          if i > 0 {
            assert observers[i] == observers[1..][i - 1];
          }
        }
      }
    }
  }

  /** The function returned by subscribe(func): calling it unsubscribes
      func. */
  datatype Subscription = Subscription(func: JsValue)

  class Observable {
    var observers: seq<JsValue>

    /** A new observable has no observers. */
    constructor ()
      ensures observers == []
    {
      observers := [];
    }

    /** subscribe(func): appends func and returns its unsubscribe function. */
    method Subscribe(func: JsValue) returns (unsubscribe: Subscription)
      modifies this
      ensures observers == old(observers) + [func]
      ensures unsubscribe == Subscription(func)
    {
      observers := observers + [func];
      unsubscribe := Subscription(func);
    }

    /** Calling the function subscribe returned: the list is replaced by its
        filtered copy. */
    method Unsubscribe(unsubscribe: Subscription)
      modifies this
      ensures observers == Without(old(observers), unsubscribe.func)
    {
      observers := Without(observers, unsubscribe.func);
    }

    /** notify(data): calls every observer in list order with the data; the
        list itself does not change. `threw` is set when an entry is not a
        function and the TypeError ended the iteration. */
    method Notify(data: JsValue) returns (calls: seq<Call>, threw: bool)
      ensures calls == Delivered(observers, data)
      ensures threw <==> !AllCallable(observers)
    {
      calls := [];
      threw := false;
      var i := 0;
      while i < |observers| && !threw
        invariant 0 <= i <= |observers|
        invariant forall j :: 0 <= j < i ==> observers[j].Fn?
        invariant Delivered(observers, data) == calls + Delivered(observers[i..], data)
        invariant threw ==> i < |observers| && !observers[i].Fn?
        decreases |observers| - i, !threw
      {
        var observer := observers[i];
        if observer.Fn? {
          assert observers[i..][1..] == observers[i + 1..];
          calls := calls + [Call(observer, data)];
          i := i + 1;
        } else {
          threw := true;
        }
      }
      assert threw ==> Delivered(observers[i..], data) == [];
      assert !threw ==> observers[i..] == [];
    }
  }
}
