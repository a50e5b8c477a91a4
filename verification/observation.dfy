/** The push side of the first chapter's demo: an observable over a vector of
    `int`s that, on subscription, reports each even number to the observer,
    reports every odd number as an error, and then signals completion. The
    observer's reactions are console output, so the model records the calls
    made on it as a trace of events. */
module Observation {
  import opened CppInt
  import FuncCompose

  /** One call on the observer: `OnNext(v)`, `OnError()` or `OnCompleted()`. */
  datatype Event = OnNext(value: int32) | OnError | OnCompleted

  /** The outcome of `Subscribe`: the calls made on the observer, in order, and
      the returned flag. */
  datatype Subscription = Subscription(trace: seq<Event>, accepted: bool)

  /** The call made for a single number: `OnNext` for an even one, `OnError`
      for an odd one. */
  function EventFor(n: int32): (ev: Event)
    ensures ev.OnNext? <==> (n as int) % 2 == 0
    ensures ev.OnError? <==> (n as int) % 2 != 0
    ensures ev.OnNext? ==> ev.value == n
  {
    if IsEven(n) then OnNext(n) else OnError
  }

  /** The calls made by the loop over `numbers`, one per number. */
  function Notifications(numbers: seq<int32>): (evs: seq<Event>)
    ensures |evs| == |numbers|
    ensures forall i :: 0 <= i < |numbers| ==> evs[i] == EventFor(numbers[i])
  {
    if |numbers| == 0 then []
    else Notifications(numbers[..|numbers| - 1]) + [EventFor(numbers[|numbers| - 1])]
  }

  /** `EvenNumberObservable::Subscribe`: one call per number, in order, an odd
      number not stopping the ones after it, then a single `OnCompleted`; the
      result is always `true`. */
  function Subscribe(numbers: seq<int32>): (s: Subscription)
    ensures s.accepted
    ensures |s.trace| == |numbers| + 1
    ensures forall i :: 0 <= i < |numbers| ==> s.trace[i] == EventFor(numbers[i])
    ensures forall i :: 0 <= i < |s.trace| ==> (s.trace[i].OnCompleted? <==> i == |numbers|)
  {
    Subscription(Notifications(numbers) + [OnCompleted], true)
  }

  /** The C++ range-for loop of `Subscribe`, recording each call on the
      observer as it is made. */
  method SubscribeLoop(numbers: seq<int32>) returns (trace: seq<Event>, accepted: bool)
    ensures Subscription(trace, accepted) == Subscribe(numbers)
  {
    trace := [];
    for k := 0 to |numbers|
      invariant |trace| == k
      invariant forall i :: 0 <= i < k ==> trace[i] == EventFor(numbers[i])
    {
      var number := numbers[k];
      if Rem(number as int, 2) == 0 {
        trace := trace + [OnNext(number)];
      } else {
        trace := trace + [OnError];
      }
    }
    trace := trace + [OnCompleted];
    accepted := true;
  }

  /** The values delivered through `OnNext`, in order. */
  function Delivered(trace: seq<Event>): (vs: seq<int32>)
    ensures |vs| <= |trace|
  {
    if |trace| == 0 then []
    else
      var init := Delivered(trace[..|trace| - 1]);
      var last := trace[|trace| - 1];
      if last.OnNext? then init + [last.value] else init
  }

  /** The number of `OnError` calls in a trace. */
  function Errors(trace: seq<Event>): nat
  {
    if |trace| == 0 then 0
    else Errors(trace[..|trace| - 1]) + (if trace[|trace| - 1].OnError? then 1 else 0)
  }

  lemma {:induction false} DeliveredNotifications(numbers: seq<int32>)
    ensures Delivered(Notifications(numbers)) == FuncCompose.Select(numbers, IsEven)
    ensures Errors(Notifications(numbers)) + |FuncCompose.Select(numbers, IsEven)| == |numbers|
  {
    if |numbers| > 0 {
      var init := numbers[..|numbers| - 1];
      DeliveredNotifications(init);
      var evs := Notifications(numbers);
      assert evs[..|evs| - 1] == Notifications(init);
    }
  }

  /** The values a subscriber receives through `OnNext` are exactly the even
      numbers, in their original order, and it receives one `OnError` per odd
      number. */
  lemma {:induction false} SubscribeDeliversEvens(numbers: seq<int32>)
    ensures Delivered(Subscribe(numbers).trace) == FuncCompose.Select(numbers, IsEven)
    ensures Errors(Subscribe(numbers).trace) == |numbers| - |FuncCompose.Select(numbers, IsEven)|
  {
    var trace := Subscribe(numbers).trace;
    assert trace[..|trace| - 1] == Notifications(numbers);
    DeliveredNotifications(numbers);
  }
}
