/** Option, the fixed integer widths of the C code, and the helpers on sequences of byte
    offsets that the line index and the text store are both specified with: order, a
    uniform shift, and the split at an offset. */
module SeqUtil {

  /** 2^32 and 2^64: u32 and u64 values are the integers below them, and their
      arithmetic is taken modulo them. */
  const U32: int := 0x1_0000_0000
  const U64: int := 0x1_0000_0000_0000_0000

  /** The values of a C u32. */
  type u32 = x: int | 0 <= x < U32

  /** A value that fits a u32 is its own residue. */
  lemma {:induction false} FitsU32(x: int)
    requires 0 <= x < U32
    ensures x % U32 == x
  {
  }

  /** A u32 counter stepped once more. */
  lemma {:induction false} CountStep(x: nat)
    ensures (x % U32 + 1) % U32 == (x + 1) % U32
  {
  }

  datatype Option<T> = None | Some(value: T)

  /** Strictly increasing. */
  predicate Increasing(s: seq<int>) {
    forall i, j :: 0 <= i < j < |s| ==> s[i] < s[j]
  }

  predicate AllBelow(s: seq<int>, a: int) {
    forall i :: 0 <= i < |s| ==> s[i] < a
  }

  predicate AllAtLeast(s: seq<int>, a: int) {
    forall i :: 0 <= i < |s| ==> s[i] >= a
  }

  /** Every element moved by d. */
  function Plus(s: seq<int>, d: int): seq<int> {
    seq(|s|, i requires 0 <= i < |s| => s[i] + d)
  }

  /** Every element at or after a moved by d, the others kept. */
  function Shifted(s: seq<int>, a: int, d: int): seq<int> {
    seq(|s|, i requires 0 <= i < |s| => if s[i] >= a then s[i] + d else s[i])
  }

  /** The elements below a, in order. */
  function Below(s: seq<int>, a: int): seq<int> {
    if s == [] then [] else (if s[0] < a then [s[0]] else []) + Below(s[1..], a)
  }

  /** The elements at or above a, in order. */
  function AtOrAbove(s: seq<int>, a: int): seq<int> {
    if s == [] then [] else (if s[0] >= a then [s[0]] else []) + AtOrAbove(s[1..], a)
  }

  lemma {:induction false} PlusConcat(x: seq<int>, y: seq<int>, d: int)
    ensures Plus(x + y, d) == Plus(x, d) + Plus(y, d)
  {
    assert forall i :: 0 <= i < |x + y| ==> Plus(x + y, d)[i] == (Plus(x, d) + Plus(y, d))[i];
  }

  lemma {:induction false} PlusPlus(x: seq<int>, d: int, e: int)
    ensures Plus(Plus(x, d), e) == Plus(x, d + e)
  {
  }

  lemma {:induction false} ShiftedConcat(x: seq<int>, y: seq<int>, a: int, d: int)
    ensures Shifted(x + y, a, d) == Shifted(x, a, d) + Shifted(y, a, d)
  {
    assert forall i :: 0 <= i < |x + y| ==>
      Shifted(x + y, a, d)[i] == (Shifted(x, a, d) + Shifted(y, a, d))[i];
  }

  lemma {:induction false} ShiftedAllBelow(x: seq<int>, a: int, d: int)
    requires AllBelow(x, a)
    ensures Shifted(x, a, d) == x
  {
  }

  lemma {:induction false} ShiftedAllAtLeast(x: seq<int>, a: int, d: int)
    requires AllAtLeast(x, a)
    ensures Shifted(x, a, d) == Plus(x, d)
  {
  }

  lemma {:induction false} BelowConcat(x: seq<int>, y: seq<int>, a: int)
    ensures Below(x + y, a) == Below(x, a) + Below(y, a)
    ensures AtOrAbove(x + y, a) == AtOrAbove(x, a) + AtOrAbove(y, a)
  {
    if x != [] {
      assert (x + y)[1..] == x[1..] + y;
      BelowConcat(x[1..], y, a);
    } else {
      assert x + y == y;
    }
  }

  lemma {:induction false} BelowSingle(m: int, a: int)
    ensures Below([m], a) == (if m < a then [m] else [])
    ensures AtOrAbove([m], a) == (if m >= a then [m] else [])
  {
    assert [m][1..] == [];
  }

  lemma {:induction false} BelowParts(s: seq<int>, a: int)
    ensures AllBelow(Below(s, a), a) && AllAtLeast(AtOrAbove(s, a), a)
    ensures |Below(s, a)| + |AtOrAbove(s, a)| == |s|
  {
    if s != [] {
      BelowParts(s[1..], a);
    }
  }

  lemma {:induction false} BelowOfAllBelow(s: seq<int>, a: int)
    requires AllBelow(s, a)
    ensures Below(s, a) == s && AtOrAbove(s, a) == []
  {
    if s != [] {
      BelowOfAllBelow(s[1..], a);
    }
  }

  lemma {:induction false} BelowOfAllAtLeast(s: seq<int>, a: int)
    requires AllAtLeast(s, a)
    ensures Below(s, a) == [] && AtOrAbove(s, a) == s
  {
    if s != [] {
      BelowOfAllAtLeast(s[1..], a);
    }
  }

  /** A sorted sequence is its part below a followed by its part at or above a. */
  lemma {:induction false} SortedSplit(s: seq<int>, a: int)
    requires Increasing(s)
    ensures s == Below(s, a) + AtOrAbove(s, a)
  {
    if s != [] {
      if s[0] < a {
        SortedSplit(s[1..], a);
      } else {
        BelowOfAllAtLeast(s[1..], a);
      }
    }
  }

  lemma {:induction false} IncreasingParts(x: seq<int>, m: int, y: seq<int>)
    requires Increasing(x + [m] + y)
    ensures Increasing(x) && Increasing(y)
    ensures AllBelow(x, m) && AllAtLeast(y, m + 1)
  {
    var s := x + [m] + y;
    assert forall i :: 0 <= i < |x| ==> s[i] == x[i];
    assert forall i :: 0 <= i < |y| ==> s[|x| + 1 + i] == y[i];
    assert s[|x|] == m;
    forall i, j | 0 <= i < j < |y|
      ensures y[i] < y[j]
    {
      assert y[i] == s[|x| + 1 + i] && y[j] == s[|x| + 1 + j];
    }
  }

  lemma {:induction false} IncreasingJoin(x: seq<int>, m: int, y: seq<int>)
    requires Increasing(x) && Increasing(y)
    requires AllBelow(x, m) && AllAtLeast(y, m + 1)
    ensures Increasing(x + [m] + y)
  {
    var s := x + [m] + y;
    forall i, j | 0 <= i < j < |s|
      ensures s[i] < s[j]
    {
      if j < |x| {
      } else if i < |x| {
        assert s[i] == x[i];
      } else if i == |x| {
        assert s[j] == y[j - |x| - 1];
      } else {
        assert s[i] == y[i - |x| - 1] && s[j] == y[j - |x| - 1];
      }
    }
  }

  lemma {:induction false} IncreasingAppend(x: seq<int>, y: seq<int>)
    requires Increasing(x + y)
    ensures Increasing(x) && Increasing(y)
  {
    assert forall i :: 0 <= i < |x| ==> (x + y)[i] == x[i];
    assert forall i :: 0 <= i < |y| ==> (x + y)[|x| + i] == y[i];
    forall i, j | 0 <= i < j < |y|
      ensures y[i] < y[j]
    {
      assert y[i] == (x + y)[|x| + i] && y[j] == (x + y)[|x| + j];
    }
  }

  lemma {:induction false} IncreasingPlus(x: seq<int>, d: int)
    requires Increasing(x)
    ensures Increasing(Plus(x, d))
  {
  }

  lemma {:induction false} BelowIncreasing(s: seq<int>, a: int)
    requires Increasing(s)
    ensures Increasing(Below(s, a)) && Increasing(AtOrAbove(s, a))
  {
    SortedSplit(s, a);
    IncreasingAppend(Below(s, a), AtOrAbove(s, a));
  }

  /** Lowering the elements at or above a by v keeps a sorted sequence sorted when none of
      them lies in [a, a + v). */
  lemma {:induction false} ShiftedDownIncreasing(s: seq<int>, a: int, v: nat)
    requires Increasing(s)
    requires forall i :: 0 <= i < |s| ==> !(a <= s[i] < a + v)
    ensures Increasing(Shifted(s, a, -(v as int)))
  {
  }

  lemma {:induction false} ShiftedUpIncreasing(s: seq<int>, a: int, v: nat)
    requires Increasing(s)
    ensures Increasing(Shifted(s, a, v))
  {
  }
}
