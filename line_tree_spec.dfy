/** The line index of src/core/line_tree.c as a value.

    Each node stands for one line break. Its `offset` is the node's byte_offset, which is
    relative: the absolute offset of a node is its own offset plus the offsets of the
    ancestors whose right subtree holds it. Its `lines` is total_lines, one more than the
    number of nodes in its left subtree. The functions below are the operations of
    line_tree.c acting on this value; LineIndex.LineTree (the pointer structure) is proved
    to compute them, and the lemmas here say what they mean for the absolute offsets. */
module LineTreeSpec {
  import opened SeqUtil

  datatype Tree = Empty | Node(offset: int, lines: int, left: Tree, right: Tree)

  function Size(t: Tree): nat {
    match t
    case Empty => 0
    case Node(_, _, l, r) => Size(l) + 1 + Size(r)
  }

  /** What the unsigned fields of the pointer structure guarantee. */
  predicate NonNeg(t: Tree) {
    match t
    case Empty => true
    case Node(o, w, l, r) => o >= 0 && w >= 0 && NonNeg(l) && NonNeg(r)
  }

  /** total_lines is one more than the size of the left subtree. */
  predicate RankOk(t: Tree) {
    match t
    case Empty => true
    case Node(_, w, l, r) => w == 1 + Size(l) && RankOk(l) && RankOk(r)
  }

  /** The absolute offsets of the nodes, in order, when the tree hangs below `base`. */
  function Offsets(t: Tree, base: int): seq<int> {
    match t
    case Empty => []
    case Node(o, _, l, r) => Offsets(l, base) + [base + o] + Offsets(r, base + o)
  }

  /** The invariant of a sound index: in order the absolute offsets increase, and every
      total_lines is a rank. */
  predicate Ordered(t: Tree) {
    NonNeg(t) && RankOk(t) && Increasing(Offsets(t, 0))
  }

  /** The shape and the line counts, without the offsets. */
  function Skeleton(t: Tree): Tree {
    match t
    case Empty => Empty
    case Node(_, w, l, r) => Node(0, w, Skeleton(l), Skeleton(r))
  }

  // ---------------------------------------------------------------------------------
  // The descent shared by insert, find and the shift lookups (line_tree.c:75-86)
  // ---------------------------------------------------------------------------------

  /** The turns the descent takes for the remaining offset rem (true: right) down to the
      empty slot where it stops. Going right subtracts the node's offset. */
  function SearchPath(t: Tree, rem: int): seq<bool> {
    match t
    case Empty => []
    case Node(o, _, l, r) =>
      if rem > o then [true] + SearchPath(r, rem - o) else [false] + SearchPath(l, rem)
  }

  /** The remaining offset when the descent reaches the empty slot. */
  function FinalRem(t: Tree, rem: int): int {
    match t
    case Empty => rem
    case Node(o, _, l, r) => if rem > o then FinalRem(r, rem - o) else FinalRem(l, rem)
  }

  /** The remaining offset at the last node visited; `last` is what was recorded at the node
      above (0 before the first node). */
  function LastRemVia(t: Tree, rem: int, last: int): int {
    match t
    case Empty => last
    case Node(o, _, l, r) => if rem > o then LastRemVia(r, rem - o, rem) else LastRemVia(l, rem, rem)
  }

  function Init(q: seq<bool>): seq<bool> {
    if q == [] then [] else q[..|q| - 1]
  }

  /** find_node_at_offset's test: the last node visited has the remaining offset as its own. */
  predicate FoundVia(t: Tree, rem: int, matched: bool) {
    match t
    case Empty => matched
    case Node(o, _, l, r) =>
      if rem > o then FoundVia(r, rem - o, false) else FoundVia(l, rem, rem == o)
  }

  predicate Found(t: Tree, rem: int) {
    FoundVia(t, rem, false)
  }

  /** Below a node the recorded match no longer matters. */
  lemma {:induction false} FoundViaNode(t: Tree, rem: int, matched: bool)
    requires t.Node?
    ensures FoundVia(t, rem, matched) == Found(t, rem)
  {
  }

  // ---------------------------------------------------------------------------------
  // The operations
  // ---------------------------------------------------------------------------------

  /** line_tree_insert: a new leaf with the remaining offset; every node where the descent
      turned left gains one byte of offset and one line. */
  function Insert(t: Tree, rem: int): Tree {
    match t
    case Empty => Node(rem, 1, Empty, Empty)
    case Node(o, w, l, r) =>
      if rem > o then Node(o, w, l, Insert(r, rem - o))
      else Node(o + 1, w + 1, Insert(l, rem), r)
  }

  /** line_tree_propagate_increment_at_byte (d > 0) and _decrement_at_byte (d < 0): every
      node where the descent turns left, the last one included, moves by d. */
  function Shift(t: Tree, rem: int, d: int): Tree {
    match t
    case Empty => Empty
    case Node(o, w, l, r) =>
      if rem > o then Node(o, w, l, Shift(r, rem - o, d))
      else Node(o + d, w, Shift(l, rem, d), r)
  }

  /** The spliced node's right child takes over its place: its offset grows by the removed
      node's offset minus one, in u64 arithmetic. */
  function Splice(r: Tree, o: int): Tree {
    match r
    case Empty => Empty
    case Node(ro, rw, rl, rr) => Node((ro + o - 1) % U64, rw, rl, rr)
  }

  /** line_tree_delete as the code runs it: the node find_node_at_offset reports (which has
      no left child) is replaced by its right child; nothing else changes. */
  function Delete(t: Tree, rem: int): Tree {
    match t
    case Empty => Empty
    case Node(o, w, l, r) =>
      if rem > o then Node(o, w, l, Delete(r, rem - o))
      else if l == Empty then (if rem == o then Splice(r, o) else t)
      else Node(o, w, Delete(l, rem), r)
  }

  // ---------------------------------------------------------------------------------
  // Paths
  // ---------------------------------------------------------------------------------

  function Subtree(t: Tree, q: seq<bool>): Tree
    decreases |q|
  {
    if q == [] then t
    else match t
      case Empty => Empty
      case Node(_, _, l, r) => Subtree(if q[0] then r else l, q[1..])
  }

  function ReplaceAt(t: Tree, q: seq<bool>, x: Tree): Tree
    decreases |q|
  {
    if q == [] then x
    else match t
      case Empty => Empty
      case Node(o, w, l, r) =>
        if q[0] then Node(o, w, l, ReplaceAt(r, q[1..], x)) else Node(o, w, ReplaceAt(l, q[1..], x), r)
  }

  /** One node's fields changed by (dv, dw). */
  function AddAt(t: Tree, q: seq<bool>, dv: int, dw: int): Tree
    decreases |q|
  {
    match t
    case Empty => Empty
    case Node(o, w, l, r) =>
      if q == [] then Node(o + dv, w + dw, l, r)
      else if q[0] then Node(o, w, l, AddAt(r, q[1..], dv, dw))
      else Node(o, w, AddAt(l, q[1..], dv, dw), r)
  }

  /** (dv, dw) added to every node at depth j or deeper on q at which q turns left: the
      effect of walking up from the end of q to depth j in line_tree_propagate_increment. */
  function BumpFrom(t: Tree, q: seq<bool>, j: nat, dv: int, dw: int): Tree
    decreases |q|
  {
    if q == [] then t
    else match t
      case Empty => Empty
      case Node(o, w, l, r) =>
        var k := if j == 0 then 0 else j - 1;
        if q[0] then Node(o, w, l, BumpFrom(r, q[1..], k, dv, dw))
        else if j == 0 then Node(o + dv, w + dw, BumpFrom(l, q[1..], k, dv, dw), r)
        else Node(o, w, BumpFrom(l, q[1..], k, dv, dw), r)
  }

  /** The absolute offset of the node at q. */
  function OffsetAt(t: Tree, q: seq<bool>, base: int): int
    decreases |q|
  {
    match t
    case Empty => base
    case Node(o, _, l, r) =>
      if q == [] then base + o
      else if q[0] then OffsetAt(r, q[1..], base + o) else OffsetAt(l, q[1..], base)
  }

  function LeftSpine(t: Tree): seq<bool> {
    match t
    case Empty => []
    case Node(_, _, l, _) => if l == Empty then [] else [false] + LeftSpine(l)
  }

  function RightSpine(t: Tree): seq<bool> {
    match t
    case Empty => []
    case Node(_, _, _, r) => if r == Empty then [] else [true] + RightSpine(r)
  }

  // ---------------------------------------------------------------------------------
  // Offsets
  // ---------------------------------------------------------------------------------

  lemma {:induction false} OffsetsRebase(t: Tree, b: int, d: int)
    ensures Offsets(t, b + d) == Plus(Offsets(t, b), d)
  {
    match t
    case Empty =>
    case Node(o, _, l, r) =>
      OffsetsRebase(l, b, d);
      OffsetsRebase(r, b + o, d);
      assert b + d + o == (b + o) + d;
      PlusConcat(Offsets(l, b) + [b + o], Offsets(r, b + o), d);
      PlusConcat(Offsets(l, b), [b + o], d);
  }

  lemma {:induction false} OffsetsSize(t: Tree, b: int)
    ensures |Offsets(t, b)| == Size(t)
  {
    match t
    case Empty =>
    case Node(o, _, l, r) =>
      OffsetsSize(l, b);
      OffsetsSize(r, b + o);
  }

  /** With unsigned offsets a subtree's nodes lie at or after its base. */
  lemma {:induction false} OffsetsFloor(t: Tree, b: int)
    requires NonNeg(t)
    ensures AllAtLeast(Offsets(t, b), b)
  {
    match t
    case Empty =>
    case Node(o, _, l, r) =>
      OffsetsFloor(l, b);
      OffsetsFloor(r, b + o);
      var s := Offsets(t, b);
      forall i | 0 <= i < |s|
        ensures s[i] >= b
      {
        var L := Offsets(l, b);
        if i < |L| {
          assert s[i] == L[i];
        } else if i > |L| {
          assert s[i] == Offsets(r, b + o)[i - |L| - 1];
        }
      }
  }

  /** line_tree_insert adds a node at absolute offset a = b + rem and moves every node at
      or after a one byte on; the nodes before a keep their offsets. */
  lemma {:induction false} InsertOffsets(t: Tree, rem: int, b: int)
    requires Increasing(Offsets(t, b))
    ensures var s := Offsets(t, b);
      Offsets(Insert(t, rem), b) == Below(s, b + rem) + [b + rem] + Plus(AtOrAbove(s, b + rem), 1)
  {
    match t
    case Empty =>
    case Node(o, w, l, r) =>
      IncreasingParts(Offsets(l, b), b + o, Offsets(r, b + o));
      if rem > o {
        InsertOffsets(r, rem - o, b + o);
        InsertRightStep(t, rem, b);
      } else {
        InsertOffsets(l, rem, b);
        InsertLeftStep(t, rem, b);
      }
  }

  /** The new node is a leaf with total_lines 1 and every node the descent passes on the
      left gains one line, so total_lines stays one more than the size of the left
      subtree. */
  lemma {:induction false} InsertKeepsRank(t: Tree, rem: int)
    requires RankOk(t)
    ensures RankOk(Insert(t, rem)) && Size(Insert(t, rem)) == Size(t) + 1
  {
    match t
    case Empty =>
    case Node(o, w, l, r) =>
      if rem > o {
        InsertKeepsRank(r, rem - o);
      } else {
        InsertKeepsRank(l, rem);
      }
  }

  lemma {:induction false} InsertKeepsNonNeg(t: Tree, rem: int)
    requires NonNeg(t) && rem >= 0
    ensures NonNeg(Insert(t, rem))
  {
    match t
    case Empty =>
    case Node(o, w, l, r) =>
      if rem > o {
        InsertKeepsNonNeg(r, rem - o);
      } else {
        InsertKeepsNonNeg(l, rem);
      }
  }

  /** Insert keeps a sound index sound: ranks, non-negative offsets, and absolute offsets
      strictly increasing in order. */
  lemma {:induction false} InsertKeepsOrdered(t: Tree, a: nat)
    requires Ordered(t)
    ensures Ordered(Insert(t, a))
  {
    var s := Offsets(t, 0);
    InsertOffsets(t, a, 0);
    InsertKeepsRank(t, a);
    InsertKeepsNonNeg(t, a);
    BelowParts(s, a);
    BelowIncreasing(s, a);
    IncreasingPlus(AtOrAbove(s, a), 1);
    IncreasingJoin(Below(s, a), a, Plus(AtOrAbove(s, a), 1));
  }

  /** An insert past every line break appends: the load scan's case. */
  lemma {:induction false} InsertPastAll(t: Tree, a: nat)
    requires Ordered(t) && AllBelow(Offsets(t, 0), a)
    ensures Ordered(Insert(t, a))
    ensures Offsets(Insert(t, a), 0) == Offsets(t, 0) + [a]
  {
    InsertOffsets(t, a, 0);
    InsertKeepsOrdered(t, a);
    BelowOfAllBelow(Offsets(t, 0), a);
    assert Plus([], 1) == [];
  }

  lemma {:induction false} InsertRightStep(t: Tree, rem: int, b: int)
    requires t.Node? && rem > t.offset
    requires var L, m, R := Offsets(t.left, b), b + t.offset, Offsets(t.right, b + t.offset);
      AllBelow(L, m)
      && Offsets(Insert(t.right, rem - t.offset), m) == Below(R, b + rem) + [b + rem] + Plus(AtOrAbove(R, b + rem), 1)
    ensures var s := Offsets(t, b);
      Offsets(Insert(t, rem), b) == Below(s, b + rem) + [b + rem] + Plus(AtOrAbove(s, b + rem), 1)
  {
    var L, m, R := Offsets(t.left, b), b + t.offset, Offsets(t.right, b + t.offset);
    var a, s := b + rem, Offsets(t, b);
    SplitRight(s, L, m, R, a);
    JoinRight(Offsets(Insert(t, rem), b), L, m, Offsets(Insert(t.right, rem - t.offset), m),
              Below(R, a), AtOrAbove(R, a), a, Below(s, a), AtOrAbove(s, a));
  }

  lemma {:induction false} InsertLeftStep(t: Tree, rem: int, b: int)
    requires t.Node? && rem <= t.offset
    requires var L, m, R := Offsets(t.left, b), b + t.offset, Offsets(t.right, b + t.offset);
      AllAtLeast(R, m + 1)
      && Offsets(Insert(t.left, rem), b) == Below(L, b + rem) + [b + rem] + Plus(AtOrAbove(L, b + rem), 1)
    ensures var s := Offsets(t, b);
      Offsets(Insert(t, rem), b) == Below(s, b + rem) + [b + rem] + Plus(AtOrAbove(s, b + rem), 1)
  {
    var L, m, R := Offsets(t.left, b), b + t.offset, Offsets(t.right, b + t.offset);
    var a, s := b + rem, Offsets(t, b);
    OffsetsRebase(t.right, m, 1);
    SplitLeft(s, L, m, R, a);
    JoinLeft(Offsets(Insert(t, rem), b), Offsets(Insert(t.left, rem), b), Offsets(t.right, m + 1),
             Below(L, a), AtOrAbove(L, a), m, R, a, Below(s, a), AtOrAbove(s, a));
  }

  lemma {:induction false} JoinRight(u: seq<int>, L: seq<int>, m: int, ur: seq<int>, B: seq<int>, X: seq<int>, a: int,
                  B': seq<int>, X': seq<int>)
    requires u == L + [m] + ur && ur == B + [a] + Plus(X, 1)
    requires B' == L + [m] + B && X' == X
    ensures u == B' + [a] + Plus(X', 1)
  {
  }

  lemma {:induction false} JoinLeft(u: seq<int>, ul: seq<int>, ur: seq<int>, B: seq<int>, X: seq<int>, m: int, R: seq<int>, a: int,
                 B': seq<int>, X': seq<int>)
    requires u == ul + [m + 1] + ur && ul == B + [a] + Plus(X, 1) && ur == Plus(R, 1)
    requires B' == B && X' == X + [m] + R
    ensures u == B' + [a] + Plus(X', 1)
  {
    PlusConcat(X + [m], R, 1);
    PlusConcat(X, [m], 1);
    assert Plus([m], 1) == [m + 1];
  }

  /** Splitting s = L + [m] + R at a above m. */
  lemma {:induction false} SplitRight(s: seq<int>, L: seq<int>, m: int, R: seq<int>, a: int)
    requires s == L + [m] + R && AllBelow(L, m) && m < a
    ensures Below(s, a) == L + [m] + Below(R, a) && AtOrAbove(s, a) == AtOrAbove(R, a)
  {
    BelowConcat(L + [m], R, a);
    BelowConcat(L, [m], a);
    BelowOfAllBelow(L, a);
    BelowSingle(m, a);
  }

  /** Splitting s = L + [m] + R at a at or below m. */
  lemma {:induction false} SplitLeft(s: seq<int>, L: seq<int>, m: int, R: seq<int>, a: int)
    requires s == L + [m] + R && AllAtLeast(R, m + 1) && a <= m
    ensures Below(s, a) == Below(L, a) && AtOrAbove(s, a) == AtOrAbove(L, a) + [m] + R
  {
    BelowConcat(L + [m], R, a);
    BelowConcat(L, [m], a);
    BelowOfAllAtLeast(R, a);
    BelowSingle(m, a);
  }

  lemma {:induction false} ShiftOffsets(t: Tree, rem: int, d: int, b: int)
    requires Increasing(Offsets(t, b))
    ensures Offsets(Shift(t, rem, d), b) == Shifted(Offsets(t, b), b + rem, d)
  {
    match t
    case Empty =>
    case Node(o, w, l, r) =>
      IncreasingParts(Offsets(l, b), b + o, Offsets(r, b + o));
      if rem > o {
        ShiftOffsets(r, rem - o, d, b + o);
        ShiftRightStep(t, rem, d, b);
      } else {
        ShiftOffsets(l, rem, d, b);
        ShiftLeftStep(t, rem, d, b);
      }
  }

  lemma {:induction false} ShiftRightStep(t: Tree, rem: int, d: int, b: int)
    requires t.Node? && rem > t.offset
    requires var L, m, R := Offsets(t.left, b), b + t.offset, Offsets(t.right, b + t.offset);
      AllBelow(L, m) && Offsets(Shift(t.right, rem - t.offset, d), m) == Shifted(R, b + rem, d)
    ensures Offsets(Shift(t, rem, d), b) == Shifted(Offsets(t, b), b + rem, d)
  {
    var L, m, R := Offsets(t.left, b), b + t.offset, Offsets(t.right, b + t.offset);
    ShiftRightCase(L, m, R, b + rem, d);
    Rejoin(Offsets(Shift(t, rem, d), b), L, [m], Offsets(Shift(t.right, rem - t.offset, d), m),
           Shifted(Offsets(t, b), b + rem, d));
  }

  lemma {:induction false} ShiftLeftStep(t: Tree, rem: int, d: int, b: int)
    requires t.Node? && rem <= t.offset
    requires var L, m, R := Offsets(t.left, b), b + t.offset, Offsets(t.right, b + t.offset);
      AllAtLeast(R, m + 1) && Offsets(Shift(t.left, rem, d), b) == Shifted(L, b + rem, d)
    ensures Offsets(Shift(t, rem, d), b) == Shifted(Offsets(t, b), b + rem, d)
  {
    var L, m, R := Offsets(t.left, b), b + t.offset, Offsets(t.right, b + t.offset);
    OffsetsRebase(t.right, m, d);
    ShiftLeftUnfold(t, rem, d, b, m);
    OffsetsNode(t, b);
    ShiftLeftJoin(Offsets(Shift(t, rem, d), b), Offsets(Shift(t.left, rem, d), b), Offsets(t.right, m + d),
                  Offsets(t, b), L, m, R, b + rem, d);
  }

  lemma {:induction false} OffsetsNode(t: Tree, b: int)
    requires t.Node?
    ensures Offsets(t, b) == Offsets(t.left, b) + [b + t.offset] + Offsets(t.right, b + t.offset)
  {
  }

  lemma {:induction false} ShiftLeftUnfold(t: Tree, rem: int, d: int, b: int, m: int)
    requires t.Node? && rem <= t.offset && m == b + t.offset
    ensures Offsets(Shift(t, rem, d), b) == Offsets(Shift(t.left, rem, d), b) + [m + d] + Offsets(t.right, m + d)
  {
    assert Shift(t, rem, d) == Node(t.offset + d, t.lines, Shift(t.left, rem, d), t.right);
  }

  lemma {:induction false} ShiftLeftJoin(u: seq<int>, ul: seq<int>, ur: seq<int>, s: seq<int>, L: seq<int>, m: int, R: seq<int>,
                      a: int, d: int)
    requires u == ul + [m + d] + ur && ul == Shifted(L, a, d) && ur == Plus(R, d)
    requires s == L + [m] + R && AllAtLeast(R, m + 1) && a <= m
    ensures u == Shifted(s, a, d)
  {
    ShiftLeftCase(L, m, R, a, d);
  }

  /** u and v are both x + y + z. */
  lemma {:induction false} Rejoin(u: seq<int>, x: seq<int>, y: seq<int>, z: seq<int>, v: seq<int>)
    requires u == x + y + z && v == x + y + z
    ensures u == v
  {
  }

  lemma {:induction false} ShiftRightCase(L: seq<int>, m: int, R: seq<int>, a: int, d: int)
    requires AllBelow(L, m) && m < a
    ensures L + [m] + Shifted(R, a, d) == Shifted(L + [m] + R, a, d)
  {
    ShiftedConcat(L + [m], R, a, d);
    ShiftedConcat(L, [m], a, d);
    ShiftedAllBelow(L, a, d);
    assert Shifted([m], a, d) == [m];
  }

  lemma {:induction false} ShiftLeftCase(L: seq<int>, m: int, R: seq<int>, a: int, d: int)
    requires AllAtLeast(R, m + 1) && a <= m
    ensures Shifted(L, a, d) + [m + d] + Plus(R, d) == Shifted(L + [m] + R, a, d)
  {
    ShiftedConcat(L + [m], R, a, d);
    ShiftedConcat(L, [m], a, d);
    ShiftedAllAtLeast(R, a, d);
    assert Shifted([m], a, d) == [m + d];
  }

  lemma {:induction false} ShiftKeepsSkeleton(t: Tree, rem: int, d: int)
    ensures Skeleton(Shift(t, rem, d)) == Skeleton(t)
    ensures Size(Shift(t, rem, d)) == Size(t)
    ensures RankOk(Shift(t, rem, d)) == RankOk(t)
  {
    match t
    case Empty =>
    case Node(o, w, l, r) =>
      if rem > o {
        ShiftKeepsSkeleton(r, rem - o, d);
      } else {
        ShiftKeepsSkeleton(l, rem, d);
      }
  }

  /** Shifting up by v and then back down by v restores the tree. */
  lemma {:induction false} ShiftRoundTrip(t: Tree, rem: int, v: nat)
    ensures Shift(Shift(t, rem, v), rem, -(v as int)) == t
  {
    match t
    case Empty =>
    case Node(o, w, l, r) =>
      if rem > o {
        ShiftRoundTrip(r, rem - o, v);
      } else {
        ShiftRoundTrip(l, rem, v);
      }
  }

  /** Decrementing by v at a = b + rem never drives an unsigned byte_offset below zero when
      no node lies in [a, a + v). */
  lemma {:induction false} ShiftDownSafe(t: Tree, rem: int, v: nat, b: int)
    requires NonNeg(t) && rem >= 0
    requires forall x :: x in Offsets(t, b) ==> !(b + rem <= x < b + rem + v)
    ensures NonNeg(Shift(t, rem, -(v as int)))
  {
    match t
    case Empty =>
    case Node(o, w, l, r) =>
      assert Offsets(t, b) == Offsets(l, b) + [b + o] + Offsets(r, b + o);
      assert forall x :: x in Offsets(r, b + o) ==> x in Offsets(t, b);
      assert forall x :: x in Offsets(l, b) ==> x in Offsets(t, b);
      if rem > o {
        var R := Offsets(r, b + o);
        forall x | x in R
          ensures !((b + o) + (rem - o) <= x < (b + o) + (rem - o) + v)
        {
          assert x in Offsets(t, b);
        }
        ShiftDownSafe(r, rem - o, v, b + o);
      } else {
        assert b + o in Offsets(t, b);
        ShiftDownSafe(l, rem, v, b);
      }
  }

  /** Moving the nodes at or after a by d keeps a sound index sound, provided a decrement
      does not run into a node. */
  lemma {:induction false} ShiftKeepsOrdered(t: Tree, a: nat, d: int)
    requires Ordered(t)
    requires d < 0 ==> forall x :: x in Offsets(t, 0) ==> !(a <= x < a - d)
    ensures Ordered(Shift(t, a, d))
    ensures Offsets(Shift(t, a, d), 0) == Shifted(Offsets(t, 0), a, d)
  {
    var s := Offsets(t, 0);
    ShiftOffsets(t, a, d, 0);
    ShiftKeepsSkeleton(t, a, d);
    if d < 0 {
      ShiftDownSafe(t, a, -d, 0);
      assert forall i :: 0 <= i < |s| ==> s[i] in s;
      ShiftedDownIncreasing(s, a, -d);
    } else {
      ShiftUpKeepsNonNeg(t, a, d);
      ShiftedUpIncreasing(s, a, d);
    }
  }

  lemma {:induction false} ShiftUpKeepsNonNeg(t: Tree, rem: int, d: nat)
    requires NonNeg(t)
    ensures NonNeg(Shift(t, rem, d))
  {
    match t
    case Empty =>
    case Node(o, w, l, r) =>
      if rem > o {
        ShiftUpKeepsNonNeg(r, rem - o, d);
      } else {
        ShiftUpKeepsNonNeg(l, rem, d);
      }
  }

  // ---------------------------------------------------------------------------------
  // Find and delete
  // ---------------------------------------------------------------------------------

  /** What find_node_at_offset reports is a node without a left child at absolute offset
      b + rem, the last one the descent visits. */
  lemma {:induction false} FoundNode(t: Tree, rem: int, b: int)
    requires Found(t, rem)
    ensures var q := SearchPath(t, rem);
      q != [] && !q[|q| - 1] && Subtree(t, Init(q)).Node? && Subtree(t, Init(q)).left == Empty
      && OffsetAt(t, Init(q), b) == b + rem && b + rem in Offsets(t, b)
  {
    match t
    case Node(o, w, l, r) =>
      if rem > o {
        FoundNode(r, rem - o, b + o);
        var q' := SearchPath(r, rem - o);
        assert Init([true] + q') == [true] + Init(q');
      } else if l == Empty {
        assert FoundVia(l, rem, rem == o) == (rem == o);
        assert SearchPath(t, rem) == [false];
        assert Init([false]) == [];
        assert Offsets(t, b) == Offsets(l, b) + [b + o] + Offsets(r, b + o);
      } else {
        FoundViaNode(l, rem, rem == o);
        FoundNode(l, rem, b);
        var q' := SearchPath(l, rem);
        assert Init([false] + q') == [false] + Init(q');
      }
  }

  /** A line break that has a left child is never found: after inserting 5 and then 3 the
      break at 6 exists but find_node_at_offset(6) fails, so line_tree_delete(6) does
      nothing. */
  lemma {:induction false} FindMissesNodeWithLeftChild()
    ensures var t := Insert(Insert(Empty, 5), 3);
      t == Node(6, 2, Node(3, 1, Empty, Empty), Empty)
      && Offsets(t, 0) == [3, 6] && !Found(t, 6) && Delete(t, 6) == t
  {
  }

  lemma {:induction false} DeleteUnfound(t: Tree, rem: int)
    requires !Found(t, rem)
    ensures Delete(t, rem) == t
  {
    match t
    case Empty =>
    case Node(o, w, l, r) =>
      if rem > o {
        DeleteUnfound(r, rem - o);
      } else if l != Empty {
        FoundViaNode(l, rem, rem == o);
        DeleteUnfound(l, rem);
      } else {
        assert FoundVia(l, rem, rem == o) == (rem == o);
      }
  }

  lemma {:induction false} DeleteFoundSize(t: Tree, rem: int)
    requires Found(t, rem)
    ensures Size(Delete(t, rem)) == Size(t) - 1
  {
    match t
    case Node(o, w, l, r) =>
      if rem > o {
        DeleteFoundSize(r, rem - o);
      } else if l != Empty {
        FoundViaNode(l, rem, rem == o);
        DeleteFoundSize(l, rem);
      } else {
        assert FoundVia(l, rem, rem == o) == (rem == o);
      }
  }

  /** line_tree_delete cuts out the found node, putting its right subtree in its place. */
  lemma {:induction false} DeleteIsReplace(t: Tree, rem: int)
    requires Found(t, rem)
    ensures var z := Subtree(t, Init(SearchPath(t, rem)));
      z.Node? && Delete(t, rem) == ReplaceAt(t, Init(SearchPath(t, rem)), Splice(z.right, z.offset))
  {
    match t
    case Node(o, w, l, r) =>
      if rem > o {
        DeleteIsReplace(r, rem - o);
        var q' := SearchPath(r, rem - o);
        assert Init([true] + q') == [true] + Init(q');
      } else if l == Empty {
        assert FoundVia(l, rem, rem == o) == (rem == o);
        assert SearchPath(t, rem) == [false];
        assert Init([false]) == [];
      } else {
        FoundViaNode(l, rem, rem == o);
        DeleteIsReplace(l, rem);
        var q' := SearchPath(l, rem);
        assert Init([false] + q') == [false] + Init(q');
      }
  }

  /** Moving a subtree up and then adjusting its root offset, as line_tree_delete does in
      two steps, is the splice. */
  lemma {:induction false} SpliceInTwoSteps(t: Tree, q: seq<bool>, x: Tree, o: int, d: int)
    requires x.Node? && d == (x.offset + o - 1) % U64 - x.offset
    ensures AddAt(ReplaceAt(t, q, x), q, d, 0) == ReplaceAt(t, q, Splice(x, o))
    decreases |q|
  {
    if q != [] {
      match t
      case Empty =>
      case Node(_, _, l, r) => SpliceInTwoSteps(if q[0] then r else l, q[1..], x, o, d);
    }
  }

  /** The node just inserted always is the one found. */
  lemma {:induction false} InsertThenFound(t: Tree, rem: int)
    ensures Found(Insert(t, rem), rem)
  {
    match t
    case Empty =>
    case Node(o, w, l, r) =>
      if rem > o {
        InsertThenFound(r, rem - o);
      } else {
        InsertThenFound(l, rem);
      }
  }

  /** Deleting the node just inserted restores the shape but not the counters: the nodes
      where the insert turned left keep the byte and the line it added. */
  lemma {:induction false} InsertThenDelete(t: Tree, rem: int)
    ensures Delete(Insert(t, rem), rem) == BumpFrom(t, SearchPath(t, rem), 0, 1, 1)
  {
    match t
    case Empty =>
    case Node(o, w, l, r) =>
      if rem > o {
        InsertThenDelete(r, rem - o);
      } else {
        InsertThenDelete(l, rem);
      }
  }

  /** So insert followed by delete is not an identity: one line break at 5, insert and
      delete 3, and the break is reported at 6. */
  lemma {:induction false} InsertThenDeleteDiffers()
    ensures var t := Node(5, 1, Empty, Empty);
      Delete(Insert(t, 3), 3) == Node(6, 2, Empty, Empty) && Delete(Insert(t, 3), 3) != t
  {
  }

  // ---------------------------------------------------------------------------------
  // Path lemmas connecting the operations to the walks of the pointer structure
  // ---------------------------------------------------------------------------------

  lemma {:induction false} SubtreeSnoc(t: Tree, q: seq<bool>, d: bool)
    ensures Subtree(t, q + [d]) ==
      match Subtree(t, q)
      case Empty => Empty
      case Node(_, _, l, r) => if d then r else l
    decreases |q|
  {
    if q != [] {
      assert (q + [d])[1..] == q[1..] + [d];
      match t
      case Empty =>
      case Node(_, _, l, r) => SubtreeSnoc(if q[0] then r else l, q[1..], d);
    }
  }

  lemma {:induction false} BumpIdentity(t: Tree, q: seq<bool>, j: nat, dv: int, dw: int)
    requires j >= |q|
    ensures BumpFrom(t, q, j, dv, dw) == t
    decreases |q|
  {
    if q != [] {
      match t
      case Empty =>
      case Node(o, w, l, r) =>
        BumpIdentity(if q[0] then r else l, q[1..], j - 1, dv, dw);
    }
  }

  /** One step of the walk up: the node at depth j - 1 is bumped when q turns left there. */
  lemma {:induction false} BumpStep(t: Tree, q: seq<bool>, j: nat, dv: int, dw: int)
    requires 0 < j <= |q|
    ensures BumpFrom(t, q, j - 1, dv, dw) ==
      if q[j - 1] then BumpFrom(t, q, j, dv, dw) else AddAt(BumpFrom(t, q, j, dv, dw), q[..j - 1], dv, dw)
    decreases |q|
  {
    match t
    case Empty =>
    case Node(o, w, l, r) =>
      if j > 1 {
        BumpStep(if q[0] then r else l, q[1..], j - 1, dv, dw);
        assert q[..j - 1][1..] == q[1..][..j - 2];
      }
  }

  lemma {:induction false} BumpCompose(t: Tree, q: seq<bool>, j: nat, dv: int, dw: int)
    requires j <= |q|
    ensures BumpFrom(BumpFrom(t, q, j, dv, dw), q[..j], 0, dv, dw) == BumpFrom(t, q, 0, dv, dw)
    decreases |q|
  {
    if j == 0 {
      assert q[..0] == [];
    } else {
      match t
      case Empty =>
      case Node(o, w, l, r) =>
        BumpCompose(if q[0] then r else l, q[1..], j - 1, dv, dw);
        assert q[..j][1..] == q[1..][..j - 1];
    }
  }

  /** The node at depth i of q keeps its fields under BumpFrom(_, q, j) unless i >= j and q
      turns left there, in which case it moves by (dv, dw). */
  lemma {:induction false} BumpNode(t: Tree, q: seq<bool>, j: nat, i: nat, dv: int, dw: int)
    requires i < |q|
    requires Subtree(t, q[..i]).Node?
    ensures var u := Subtree(BumpFrom(t, q, j, dv, dw), q[..i]); var s := Subtree(t, q[..i]);
      u.Node? && u.offset == s.offset + (if i >= j && !q[i] then dv else 0)
      && u.lines == s.lines + (if i >= j && !q[i] then dw else 0)
    decreases |q|
  {
    match t
    case Node(o, w, l, r) =>
      if i > 0 {
        assert q[..i][1..] == q[1..][..i - 1];
        BumpNode(if q[0] then r else l, q[1..], if j == 0 then 0 else j - 1, i - 1, dv, dw);
      } else {
        assert q[..0] == [];
      }
  }

  lemma {:induction false} NonNegSubtree(t: Tree, q: seq<bool>)
    requires NonNeg(t)
    ensures NonNeg(Subtree(t, q))
    decreases |q|
  {
    if q != [] {
      match t
      case Empty =>
      case Node(_, _, l, r) => NonNegSubtree(if q[0] then r else l, q[1..]);
    }
  }

  lemma {:induction false} ShiftIsBump(t: Tree, rem: int, d: int)
    ensures Shift(t, rem, d) == BumpFrom(t, SearchPath(t, rem), 0, d, 0)
  {
    match t
    case Empty =>
    case Node(o, w, l, r) =>
      if rem > o {
        ShiftIsBump(r, rem - o, d);
      } else {
        ShiftIsBump(l, rem, d);
      }
  }

  lemma {:induction false} InsertIsBump(t: Tree, rem: int)
    ensures var q := SearchPath(t, rem);
      Insert(t, rem) == BumpFrom(ReplaceAt(t, q, Node(FinalRem(t, rem), 1, Empty, Empty)), q, 0, 1, 1)
  {
    match t
    case Empty =>
    case Node(o, w, l, r) =>
      if rem > o {
        InsertIsBump(r, rem - o);
      } else {
        InsertIsBump(l, rem);
      }
  }

  // ---------------------------------------------------------------------------------
  // Minimum, maximum and successor
  // ---------------------------------------------------------------------------------

  lemma {:induction false} LeftSpineStep(t: Tree, p: seq<bool>)
    requires Subtree(t, p).Node? && Subtree(t, p).left != Empty
    ensures LeftSpine(Subtree(t, p)) == [false] + LeftSpine(Subtree(t, p + [false]))
  {
    SubtreeSnoc(t, p, false);
  }

  lemma {:induction false} RightSpineStep(t: Tree, p: seq<bool>)
    requires Subtree(t, p).Node? && Subtree(t, p).right != Empty
    ensures RightSpine(Subtree(t, p)) == [true] + RightSpine(Subtree(t, p + [true]))
  {
    SubtreeSnoc(t, p, true);
  }

  /** The end of the left spine is the first node in order, so has the smallest offset. */
  lemma {:induction false} LeftSpineFirst(t: Tree, b: int)
    requires t.Node?
    ensures Subtree(t, LeftSpine(t)).Node? && Subtree(t, LeftSpine(t)).left == Empty
    ensures OffsetAt(t, LeftSpine(t), b) == Offsets(t, b)[0]
  {
    match t
    case Node(o, _, l, r) =>
      if l != Empty {
        LeftSpineFirst(l, b);
      }
  }

  /** The end of the right spine is the last node in order. */
  lemma {:induction false} RightSpineLast(t: Tree, b: int)
    requires t.Node?
    ensures Subtree(t, RightSpine(t)).Node? && Subtree(t, RightSpine(t)).right == Empty
    ensures OffsetAt(t, RightSpine(t), b) == Offsets(t, b)[|Offsets(t, b)| - 1]
  {
    match t
    case Node(o, _, l, r) =>
      if r != Empty {
        RightSpineLast(r, b + o);
      }
  }

  /** The turn at which a path last went left, or -1. */
  function LastLeft(q: seq<bool>): int
    ensures -1 <= LastLeft(q) < |q|
  {
    if q == [] then -1 else if !q[|q| - 1] then |q| - 1 else LastLeft(Init(q))
  }

  /** line_tree_successor of the node at q: the minimum of its right subtree if it has one,
      else the nearest ancestor whose left subtree holds it, else none. */
  function SuccessorPath(t: Tree, q: seq<bool>): Option<seq<bool>> {
    var r := Subtree(t, q + [true]);
    if r.Node? then Some(q + [true] + LeftSpine(r))
    else if LastLeft(q) < 0 then None
    else Some(q[..LastLeft(q)])
  }

  lemma {:induction false} LastLeftAfter(q: seq<bool>, j: nat)
    requires 0 < j <= |q| && !q[j - 1]
    requires forall i :: j <= i < |q| ==> q[i]
    ensures LastLeft(q) == j - 1
    decreases |q|
  {
    if |q| > j {
      assert Init(q)[j - 1] == q[j - 1];
      LastLeftAfter(Init(q), j);
    }
  }

  lemma {:induction false} LastLeftNone(q: seq<bool>)
    requires forall i :: 0 <= i < |q| ==> q[i]
    ensures LastLeft(q) == -1
    decreases |q|
  {
    if q != [] {
      LastLeftNone(Init(q));
    }
  }

  /** The position in order of the node at q: the nodes of the left subtrees it passes
      over, and the ancestors it leaves behind on the right. */
  function InOrderIndex(t: Tree, q: seq<bool>): int
    decreases |q|
  {
    match t
    case Empty => 0
    case Node(_, _, l, r) =>
      if q == [] then Size(l)
      else if q[0] then Size(l) + 1 + InOrderIndex(r, q[1..]) else InOrderIndex(l, q[1..])
  }

  /** The node at q holds the offset at its position in order. */
  lemma {:induction false} InOrderOffset(t: Tree, q: seq<bool>, b: int)
    requires Subtree(t, q).Node?
    ensures 0 <= InOrderIndex(t, q) < |Offsets(t, b)|
    ensures Offsets(t, b)[InOrderIndex(t, q)] == OffsetAt(t, q, b)
    decreases |q|
  {
    OffsetsSize(t, b);
    match t
    case Node(o, _, l, r) =>
      OffsetsSize(l, b);
      if q != [] {
        if q[0] {
          InOrderOffset(r, q[1..], b + o);
        } else {
          InOrderOffset(l, q[1..], b);
        }
      }
  }

  lemma {:induction false} LeftSpineIndex(t: Tree)
    requires t.Node?
    ensures InOrderIndex(t, LeftSpine(t)) == 0
  {
    match t
    case Node(_, _, l, _) =>
      if l != Empty {
        LeftSpineIndex(l);
        assert ([false] + LeftSpine(l))[1..] == LeftSpine(l);
      }
  }

  lemma {:induction false} LastLeftCons(d: bool, q: seq<bool>)
    ensures LastLeft([d] + q) == if LastLeft(q) >= 0 then LastLeft(q) + 1 else if d then -1 else 0
    decreases |q|
  {
    if q != [] {
      assert Init([d] + q) == [d] + Init(q);
      LastLeftCons(d, Init(q));
    }
  }

  /** The successor's position in order is one past the node's, and there is none exactly
      when the node is the last in order. */
  lemma {:induction false} SuccessorIndex(t: Tree, q: seq<bool>)
    requires Subtree(t, q).Node?
    ensures match SuccessorPath(t, q)
      case Some(p) => Subtree(t, p).Node? && InOrderIndex(t, p) == InOrderIndex(t, q) + 1
      case None => InOrderIndex(t, q) == Size(t) - 1
    decreases |q|
  {
    match t
    case Node(o, w, l, r) =>
      if q == [] {
        assert Subtree(t, [true]) == r;
        if r.Node? {
          LeftSpineIndex(r);
          LeftSpineFirst(r, 0);
          assert ([] + [true] + LeftSpine(r))[1..] == LeftSpine(r);
        }
      } else {
        var d, q' := q[0], q[1..];
        assert q == [d] + q';
        var c := if d then r else l;
        assert (q + [true])[1..] == q' + [true];
        var rr := Subtree(c, q' + [true]);
        assert Subtree(t, q + [true]) == rr;
        SuccessorIndex(c, q');
        LastLeftCons(d, q');
        if rr.Node? {
          var p' := q' + [true] + LeftSpine(rr);
          assert q + [true] + LeftSpine(rr) == [d] + p';
          assert ([d] + p')[1..] == p';
        } else if LastLeft(q') >= 0 {
          var p' := q'[..LastLeft(q')];
          assert q[..LastLeft(q)] == [d] + p';
          assert ([d] + p')[1..] == p';
        } else if !d {
          assert q[..LastLeft(q)] == [];
        }
      }
  }

  /** line_tree_successor gives the next line break in order: when the absolute offsets
      increase, the node it returns holds the least offset above the given node's, and it
      returns none exactly for the node holding the largest offset. */
  lemma {:induction false} SuccessorNext(t: Tree, q: seq<bool>, b: int)
    requires Increasing(Offsets(t, b)) && Subtree(t, q).Node?
    ensures match SuccessorPath(t, q)
      case Some(p) =>
        Subtree(t, p).Node? && OffsetAt(t, q, b) < OffsetAt(t, p, b) && OffsetAt(t, p, b) in Offsets(t, b)
        && forall k :: 0 <= k < |Offsets(t, b)| && Offsets(t, b)[k] > OffsetAt(t, q, b) ==>
          Offsets(t, b)[k] >= OffsetAt(t, p, b)
      case None =>
        OffsetAt(t, q, b) in Offsets(t, b)
        && forall k :: 0 <= k < |Offsets(t, b)| ==> Offsets(t, b)[k] <= OffsetAt(t, q, b)
  {
    var s, x := Offsets(t, b), OffsetAt(t, q, b);
    InOrderOffset(t, q, b);
    SuccessorIndex(t, q);
    OffsetsSize(t, b);
    var i := InOrderIndex(t, q);
    match SuccessorPath(t, q)
    case Some(p) =>
      InOrderOffset(t, p, b);
      assert s[i + 1] == OffsetAt(t, p, b);
      forall k | 0 <= k < |s|
        ensures s[k] > x ==> s[k] >= s[i + 1]
      {
        if k < i {
          assert s[k] < s[i];
        } else if k > i + 1 {
          assert s[i + 1] < s[k];
        }
      }
    case None =>
      forall k | 0 <= k < |s|
        ensures s[k] <= x
      {
        if k < i {
          assert s[k] < s[i];
        }
      }
  }

  // ---------------------------------------------------------------------------------
  // The insert as written: the attach side is decided on a u32 copy
  // ---------------------------------------------------------------------------------

  /** line_tree_insert as the code is written: the descent compares the full u64 remaining
      offset, but the side of the last node the new leaf is put on is decided by
      last_byte_offset, which holds that offset truncated to u32. When the two disagree
      the leaf takes the slot of the other child, whatever was there. */
  function InsertAsWritten(t: Tree, a: int): Tree {
    var q := SearchPath(t, a);
    if q == [] then Node(a, 1, Empty, Empty)
    else
      match Subtree(t, Init(q))
      case Empty => t
      case Node(o, _, _, _) =>
        var qa := Init(q) + [LastRemVia(t, a, 0) % U32 > o];
        BumpFrom(ReplaceAt(t, qa, Node(FinalRem(t, a), 1, Empty, Empty)), qa, 0, 1, 1)
  }

  /** One step of the descent at the node at p. */
  lemma {:induction false} DescentStep(t: Tree, p: seq<bool>, rem: int, last: int, matched: bool)
    requires Subtree(t, p).Node?
    ensures var h := Subtree(t, p); var d := rem > h.offset; var rem' := if d then rem - h.offset else rem;
      SearchPath(h, rem) == [d] + SearchPath(Subtree(t, p + [d]), rem')
      && FinalRem(h, rem) == FinalRem(Subtree(t, p + [d]), rem')
      && LastRemVia(h, rem, last) == LastRemVia(Subtree(t, p + [d]), rem', rem)
      && FoundVia(h, rem, matched) == FoundVia(Subtree(t, p + [d]), rem', rem == h.offset)
  {
    SubtreeSnoc(t, p, true);
    SubtreeSnoc(t, p, false);
  }

  /** The remaining offset recorded at the last node decides the last turn. */
  lemma {:induction false} LastTurn(t: Tree, rem: int, last: int)
    requires t.Node?
    ensures var q := SearchPath(t, rem);
      q != [] && Subtree(t, Init(q)).Node?
      && (q[|q| - 1] <==> LastRemVia(t, rem, last) > Subtree(t, Init(q)).offset)
  {
    match t
    case Node(o, w, l, r) =>
      var c, rem' := if rem > o then r else l, if rem > o then rem - o else rem;
      var d := rem > o;
      if c == Empty {
        assert SearchPath(t, rem) == [d];
        assert Init([d]) == [];
      } else {
        LastTurn(c, rem', rem);
        var q' := SearchPath(c, rem');
        assert SearchPath(t, rem) == [d] + q';
        assert Init([d] + q') == [d] + Init(q');
        assert ([d] + q')[|q'|] == q'[|q'| - 1];
      }
  }

  /** With non-negative offsets the remaining offset only decreases on the way down. */
  lemma {:induction false} LastRemBound(t: Tree, rem: int, last: int)
    requires NonNeg(t) && 0 <= rem && 0 <= last <= rem
    ensures 0 <= LastRemVia(t, rem, last) <= rem
  {
    match t
    case Empty =>
    case Node(o, w, l, r) =>
      if rem > o {
        LastRemBound(r, rem - o, rem - o);
      } else {
        LastRemBound(l, rem, rem);
      }
  }

  /** Below 2^32 the truncation is harmless: the code computes Insert. */
  lemma InsertAsWrittenAgrees(t: Tree, a: int)
    requires NonNeg(t) && 0 <= a < U32
    ensures InsertAsWritten(t, a) == Insert(t, a)
  {
    InsertIsBump(t, a);
    var q := SearchPath(t, a);
    if t.Node? {
      LastTurn(t, a, 0);
      LastRemBound(t, a, 0);
      assert Init(q) + [q[|q| - 1]] == q;
    }
  }

  /** At 2^32 + 1 it is not: with one line break at byte 5, the break at 2^32 + 1 belongs
      after it, but the u32 copy 1 sends it to the left of the node at 5, which is moved to
      6, and the offsets come out of order. */
  lemma {:induction false} InsertTruncationMisplaces()
    ensures var t := Node(5, 1, Empty, Empty);
      Insert(t, U32 + 1) == Node(5, 1, Empty, Node(U32 - 4, 1, Empty, Empty))
      && Offsets(Insert(t, U32 + 1), 0) == [5, U32 + 1]
      && InsertAsWritten(t, U32 + 1) == Node(6, 2, Node(U32 - 4, 1, Empty, Empty), Empty)
      && Offsets(InsertAsWritten(t, U32 + 1), 0) == [U32 - 4, 6]
      && !Ordered(InsertAsWritten(t, U32 + 1))
  {
    var t := Node(5, 1, Empty, Empty);
    assert SearchPath(t, U32 + 1) == [true];
    assert Init([true]) == [];
    assert LastRemVia(t, U32 + 1, 0) == U32 + 1;
    var leaf := Node(U32 - 4, 1, Empty, Empty);
    assert FinalRem(t, U32 + 1) == U32 - 4;
    assert Init(SearchPath(t, U32 + 1)) + [(U32 + 1) % U32 > 5] == [false];
    assert ReplaceAt(t, [false], leaf) == Node(5, 1, leaf, Empty);
    assert BumpFrom(Node(5, 1, leaf, Empty), [false], 0, 1, 1) == Node(6, 2, leaf, Empty);
    assert Offsets(leaf, 0) == [U32 - 4];
    assert Offsets(leaf, 5) == [U32 + 1];
    assert Offsets(Node(6, 2, leaf, Empty), 0) == [U32 - 4] + [6] + [];
    assert Offsets(Node(6, 2, leaf, Empty), 0) == [U32 - 4, 6];
    assert !Increasing(Offsets(Node(6, 2, leaf, Empty), 0)) by {
      assert Offsets(Node(6, 2, leaf, Empty), 0)[0] > Offsets(Node(6, 2, leaf, Empty), 0)[1];
    }
    assert Insert(t, U32 + 1) == Node(5, 1, Empty, leaf);
    assert Offsets(Node(5, 1, Empty, leaf), 0) == [] + [5] + [U32 + 1];
    assert Offsets(Node(5, 1, Empty, leaf), 0) == [5, U32 + 1];
  }
}
