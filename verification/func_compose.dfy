/** The generic sequence helpers of the functional-composition chapter:
    `Map`, which transforms a copy of its container element by element, and
    `Filter`, which packs the matching elements at the front of a result of
    the input's full length. Containers are sequences; since the C++ helpers
    take them by value and a Dafny `seq` is a value, the caller's container is never
    changed by either helper. */
module FuncCompose {

  /* ----------------------------------------------------------------------
     Map
     ---------------------------------------------------------------------- */

  /** `Map(r, f)`: every element of `r` replaced by its image under `f`. The
      C++ `Map` writes the images back over the same range, so the result has the
      element type of the input. */
  function Map<T>(r: seq<T>, f: T -> T): (m: seq<T>)
    ensures |m| == |r|
    ensures forall i :: 0 <= i < |r| ==> m[i] == f(r[i])
  {
    if |r| == 0 then [] else [f(r[0])] + Map(r[1..], f)
  }

  /** The C++ `Map`: `std::transform` over the copy, writing each
      image back at the position it was read from, left to right. */
  method Transform<T>(r: seq<T>, f: T -> T) returns (out: seq<T>)
    ensures out == Map(r, f)
  {
    out := r;
    var i := 0;
    while i < |out|
      invariant |out| == |r|
      invariant 0 <= i <= |r|
      invariant forall j :: 0 <= j < i ==> out[j] == f(r[j])
      invariant forall j :: i <= j < |r| ==> out[j] == r[j]
    {
      out := out[i := f(out[i])];
      i := i + 1;
    }
  }

  /** Mapping a concatenation maps each part in place: no element moves. */
  lemma MapAppend<T>(a: seq<T>, b: seq<T>, f: T -> T)
    ensures Map(a + b, f) == Map(a, f) + Map(b, f)
  {
  }

  /* ----------------------------------------------------------------------
     The matching elements of a sequence
     ---------------------------------------------------------------------- */

  /** The positions `i` of `s` with `f(s[i])`, in increasing order. */
  function MatchIndices<T>(s: seq<T>, f: T -> bool): (idx: seq<nat>)
    ensures forall a, b :: 0 <= a < b < |idx| ==> idx[a] < idx[b]
    ensures forall j :: 0 <= j < |idx| ==> idx[j] < |s| && f(s[idx[j]])
    ensures forall i :: 0 <= i < |s| && f(s[i]) ==> i in idx
  {
    if |s| == 0 then []
    else
      var init := MatchIndices(s[..|s| - 1], f);
      if f(s[|s| - 1]) then init + [|s| - 1] else init
  }

  /** The elements of `s` that satisfy `f`, in their original order: what the
      copy loop of `Filter` writes at the front of its result. */
  function Select<T>(s: seq<T>, f: T -> bool): (r: seq<T>)
    ensures |r| <= |s|
    ensures forall x :: x in r ==> f(x)
    ensures |r| == 0 <==> forall i :: 0 <= i < |s| ==> !f(s[i])
  {
    if |s| == 0 then []
    else
      var init := Select(s[..|s| - 1], f);
      if f(s[|s| - 1]) then init + [s[|s| - 1]] else init
  }

  /** `Select` neither reorders nor duplicates: its `j`-th element is the
      element at the `j`-th matching position, so every input element is
      tested once, left to right, and kept at most once. */
  lemma {:induction false} SelectFollowsIndices<T>(s: seq<T>, f: T -> bool)
    ensures |Select(s, f)| == |MatchIndices(s, f)|
    ensures forall j :: 0 <= j < |Select(s, f)| ==>
              Select(s, f)[j] == s[MatchIndices(s, f)[j]]
  {
    if |s| > 0 {
      var init := s[..|s| - 1];
      SelectFollowsIndices(init, f);
      assert forall i :: 0 <= i < |init| ==> init[i] == s[i];
    }
  }

  /** Selecting from one element more extends the selection by that element
      exactly when it matches. */
  lemma SelectSnoc<T>(s: seq<T>, x: T, f: T -> bool)
    ensures Select(s + [x], f) == if f(x) then Select(s, f) + [x] else Select(s, f)
  {
  }

  /** One iteration of the copy loop keeps the front of the result equal to
      the selection from the scanned prefix. */
  lemma CopyStep<T>(c: seq<T>, f: T -> bool, ret: seq<T>, first: nat, result: nat)
    requires result <= first < |c| == |ret|
    requires ret[..result] == Select(c[..first], f)
    ensures f(c[first]) ==>
              ret[result := c[first]][..result + 1] == Select(c[..first + 1], f)
    ensures !f(c[first]) ==> ret[..result] == Select(c[..first + 1], f)
  {
    assert c[..first + 1] == c[..first] + [c[first]];
    SelectSnoc(c[..first], c[first], f);
    assert ret[result := c[first]][..result + 1] == ret[..result] + [c[first]];
  }

  /* ----------------------------------------------------------------------
     Filter
     ---------------------------------------------------------------------- */

  /** `Filter(c, f, blank)`, where `blank` is the value-initialised element the
      result is allocated with. With no match the result is empty; otherwise it
      has the input's length, the matches in order at the front and `blank` in
      every remaining position. */
  function Filter<T>(c: seq<T>, f: T -> bool, blank: T): (r: seq<T>)
    ensures (forall i :: 0 <= i < |c| ==> !f(c[i])) ==> r == []
    ensures (exists i :: 0 <= i < |c| && f(c[i])) ==> |r| == |c|
    ensures |r| > 0 ==> r[..|Select(c, f)|] == Select(c, f)
    ensures |r| > 0 ==> forall i :: |Select(c, f)| <= i < |r| ==> r[i] == blank
  {
    var kept := Select(c, f);
    if |kept| == 0 then [] else kept + seq(|c| - |kept|, _ => blank)
  }

  /** The C++ `Filter`: allocate `|c|` blanks, copy each match to the
      next free front slot while scanning left to right, remember whether
      anything was copied, and clear the result if nothing was. */
  method FilterLoop<T>(c: seq<T>, f: T -> bool, blank: T) returns (ret: seq<T>)
    ensures ret == Filter(c, f, blank)
  {
    ret := seq(|c|, _ => blank);
    var first := 0;
    var result := 0;
    var inserted := false;
    while first != |c|
      invariant 0 <= result <= first <= |c|
      invariant |ret| == |c|
      invariant ret[..result] == Select(c[..first], f)
      invariant forall i :: result <= i < |c| ==> ret[i] == blank
      invariant inserted <==> result > 0
    {
      CopyStep(c, f, ret, first, result);
      if f(c[first]) {
        ret := ret[result := c[first]];
        result := result + 1;
        inserted := true;
      }
      first := first + 1;
    }
    assert c[..first] == c;
    if !inserted {
      ret := [];
    } else {
      PackedIsFilter(c, f, blank, ret, result);
    }
  }

  /** A full-length result whose front is the selection and whose tail is
      blank is what `Filter` returns when something matched. */
  lemma PackedIsFilter<T>(c: seq<T>, f: T -> bool, blank: T, ret: seq<T>, k: nat)
    requires 0 < k <= |ret| == |c|
    requires ret[..k] == Select(c, f)
    requires forall i :: k <= i < |c| ==> ret[i] == blank
    ensures ret == Filter(c, f, blank)
  {
  }
}
