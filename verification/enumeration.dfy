/** The pull side of the first chapter's demo: an enumerable collection of
    `int`s that hands out enumerators, and the enumerator itself, a cursor over
    the enumerable's numbers. The C++ enumerator is a mutable object holding a
    reference to the numbers and an index; here it is a value, and `Next`
    returns the element together with the advanced enumerator. */
module Enumeration {
  import opened CppInt

  /** `ConcreteEnumerable`: owns its own copy of the numbers it was built from. */
  datatype Enumerable = Enumerable(numbers: seq<int32>)

  /** `ConcreteEnumerable()`: the default-constructed enumerable, whose vector
      is empty. */
  function DefaultEnumerable(): (e: Enumerable)
    ensures |e.numbers| == 0
  {
    Enumerable([])
  }

  /** `Enumerator`: the numbers it walks over and the position of the next one
      to hand out. */
  datatype Enumerator = Enumerator(numbers: seq<int32>, index: nat) {

    /** The cursor never runs past the end. */
    predicate Valid()
    {
      index <= |numbers|
    }

    /** `HasMore()`: an element is still to be handed out. A cursor with
        something left is valid, and a valid cursor with nothing left sits
        exactly at the end. */
    predicate HasMore()
      ensures HasMore() ==> Valid()
      ensures Valid() && !HasMore() ==> index == |numbers|
    {
      index < |numbers|
    }

    /** `Next()`: the element under the cursor, and the enumerator moved one
        step on. Calling it when nothing is left fails the C++ `assert`, so it
        is a precondition here; this is the debug build, since without the
        assertion the C++ read past the end is undefined behaviour. */
    function Next(): (step: (int32, Enumerator))
      requires Valid() && HasMore()
      ensures step.0 == numbers[index]
      ensures step.1.numbers == numbers
      ensures step.1.index == index + 1
      ensures step.1.Valid()
    {
      (numbers[index], Enumerator(numbers, index + 1))
    }

    /** The elements not yet handed out. */
    function Remaining(): (rest: seq<int32>)
      requires Valid()
      ensures |rest| == |numbers| - index
      ensures |rest| > 0 <==> HasMore()
    {
      numbers[index..]
    }
  }

  /** `Next` hands out the first remaining element and leaves the rest. */
  lemma NextConsumesRemaining(it: Enumerator)
    requires it.Valid() && it.HasMore()
    ensures it.Remaining() == [it.Next().0] + it.Next().1.Remaining()
  {
  }

  /** `GetEnumerator()`: a fresh enumerator over the enumerable's numbers,
      positioned at the first one. */
  function GetEnumerator(e: Enumerable): (it: Enumerator)
    ensures it.Valid()
    ensures it.numbers == e.numbers
    ensures it.index == 0
    ensures it.HasMore() <==> |e.numbers| > 0
    ensures it.Remaining() == e.numbers
  {
    Enumerator(e.numbers, 0)
  }

  /** `k` successive calls of `Next`: the values handed out and the enumerator
      afterwards. */
  function Advance(it: Enumerator, k: nat): (out: (seq<int32>, Enumerator))
    requires it.Valid() && it.index + k <= |it.numbers|
    decreases k
  {
    if k == 0 then ([], it)
    else
      var (v, it') := it.Next();
      var (vs, last) := Advance(it', k - 1);
      ([v] + vs, last)
  }

  /** `k` calls of `Next` hand out the next `k` numbers in order, advance the
      cursor by exactly `k` and leave the numbers untouched. */
  lemma {:induction false} AdvanceYieldsSlice(it: Enumerator, k: nat)
    requires it.Valid() && it.index + k <= |it.numbers|
    ensures Advance(it, k).0 == it.numbers[it.index..it.index + k]
    ensures Advance(it, k).1 == Enumerator(it.numbers, it.index + k)
    ensures Advance(it, k).1.Valid()
    decreases k
  {
    if k > 0 {
      var it' := it.Next().1;
      AdvanceYieldsSlice(it', k - 1);
      assert it.numbers[it.index..it.index + k]
          == [it.numbers[it.index]] + it.numbers[it.index + 1..it.index + k];
    }
  }

  /** The driver's loop: call `Next` while `HasMore` holds, collecting the
      values. It collects exactly the remaining numbers, in order, and stops
      with the cursor at the end. */
  method Drain(it: Enumerator) returns (values: seq<int32>, last: Enumerator)
    requires it.Valid()
    ensures values == it.numbers[it.index..]
    ensures last.numbers == it.numbers
    ensures last.Valid() && !last.HasMore()
  {
    values := [];
    last := it;
    while last.HasMore()
      invariant last.numbers == it.numbers
      invariant it.index <= last.index <= |it.numbers|
      invariant values == it.numbers[it.index..last.index]
      decreases |last.numbers| - last.index
    {
      var step := last.Next();
      values := values + [step.0];
      last := step.1;
    }
  }

  /** Walking a fresh enumerator to its end yields the enumerable's numbers in
      order. */
  lemma {:induction false} FreshEnumeratorYieldsAll(e: Enumerable)
    ensures Advance(GetEnumerator(e), |e.numbers|).0 == e.numbers
    ensures !Advance(GetEnumerator(e), |e.numbers|).1.HasMore()
  {
    AdvanceYieldsSlice(GetEnumerator(e), |e.numbers|);
    assert e.numbers[0..|e.numbers|] == e.numbers;
  }

  /** A default-constructed enumerable hands out an enumerator that is
      exhausted from the start. */
  lemma DefaultEnumeratorIsExhausted()
    ensures !GetEnumerator(DefaultEnumerable()).HasMore()
    ensures GetEnumerator(DefaultEnumerable()).Remaining() == []
  {
  }
}
