/** The pointers of src/core/line_tree.c. Nodes live in an arena: node k's fields are the
    k-th entries of the sequences l (left child), r (right child), p (parent), bo
    (byte_offset) and tl (total_lines), and NIL stands for the null pointer. A ghost
    `Shape` records which slot holds each position of the tree; `Linked` says the pointers
    agree with it and `AbsOf` reads the value tree of LineTreeSpec off it. */
module LineTreeArena {
  import opened LineTreeSpec

  const NIL: int := -1

  datatype Shape = Nil | Cell(id: nat, l: Shape, r: Shape)

  function IdOf(s: Shape): int {
    if s.Nil? then NIL else s.id
  }

  function Ids(s: Shape): set<nat> {
    match s
    case Nil => {}
    case Cell(k, a, b) => {k} + Ids(a) + Ids(b)
  }

  /** Every slot of s is below n. */
  predicate Bounded(s: Shape, n: int) {
    match s
    case Nil => true
    case Cell(k, a, b) => k < n && Bounded(a, n) && Bounded(b, n)
  }

  /** No slot occurs twice. */
  predicate Distinct(s: Shape) {
    match s
    case Nil => true
    case Cell(k, a, b) => k !in Ids(a) && k !in Ids(b) && Ids(a) !! Ids(b) && Distinct(a) && Distinct(b)
  }

  /** The child and parent pointers of every node agree with the shape. */
  predicate Linked(s: Shape, par: int, l: seq<int>, r: seq<int>, p: seq<int>) {
    match s
    case Nil => true
    case Cell(k, a, b) =>
      k < |l| && k < |r| && k < |p| && l[k] == IdOf(a) && r[k] == IdOf(b) && p[k] == par
      && Linked(a, k, l, r, p) && Linked(b, k, l, r, p)
  }

  function AbsOf(s: Shape, bo: seq<int>, tl: seq<int>): Tree
    requires Bounded(s, |bo|) && Bounded(s, |tl|)
  {
    match s
    case Nil => Empty
    case Cell(k, a, b) => Node(bo[k], tl[k], AbsOf(a, bo, tl), AbsOf(b, bo, tl))
  }

  function SubAt(s: Shape, q: seq<bool>): Shape
    decreases |q|
  {
    if q == [] then s
    else match s
      case Nil => Nil
      case Cell(_, a, b) => SubAt(if q[0] then b else a, q[1..])
  }

  function IdAt(s: Shape, q: seq<bool>): int {
    IdOf(SubAt(s, q))
  }

  /** Every proper prefix of q ends at a node. */
  predicate Reaches(s: Shape, q: seq<bool>)
    decreases |q|
  {
    q == [] || (s.Cell? && Reaches(if q[0] then s.r else s.l, q[1..]))
  }

  function Replace(s: Shape, q: seq<bool>, x: Shape): Shape
    decreases |q|
  {
    if q == [] then x
    else match s
      case Nil => Nil
      case Cell(k, a, b) =>
        if q[0] then Cell(k, a, Replace(b, q[1..], x)) else Cell(k, Replace(a, q[1..], x), b)
  }

  // ---------------------------------------------------------------------------------

  lemma {:induction false} IdsSubAt(s: Shape, q: seq<bool>)
    ensures Ids(SubAt(s, q)) <= Ids(s)
    decreases |q|
  {
    if q != [] {
      match s
      case Nil =>
      case Cell(_, a, b) => IdsSubAt(if q[0] then b else a, q[1..]);
    }
  }

  lemma {:induction false} BoundedIds(s: Shape, n: int)
    ensures Bounded(s, n) <==> forall k :: k in Ids(s) ==> k < n
  {
    match s
    case Nil =>
    case Cell(k, a, b) =>
      BoundedIds(a, n);
      BoundedIds(b, n);
      assert Ids(s) == {k} + Ids(a) + Ids(b);
  }

  lemma {:induction false} BoundedSub(s: Shape, q: seq<bool>, n: int)
    requires Bounded(s, n)
    ensures Bounded(SubAt(s, q), n)
    decreases |q|
  {
    if q != [] {
      match s
      case Nil =>
      case Cell(_, a, b) => BoundedSub(if q[0] then b else a, q[1..], n);
    }
  }

  lemma {:induction false} LinkedBounded(s: Shape, par: int, l: seq<int>, r: seq<int>, p: seq<int>)
    requires Linked(s, par, l, r, p)
    ensures Bounded(s, |l|) && Bounded(s, |r|) && Bounded(s, |p|)
  {
    match s
    case Nil =>
    case Cell(k, a, b) =>
      LinkedBounded(a, k, l, r, p);
      LinkedBounded(b, k, l, r, p);
  }

  lemma {:induction false} SubAtSnoc(s: Shape, q: seq<bool>, d: bool)
    ensures SubAt(s, q + [d]) ==
      match SubAt(s, q)
      case Nil => Nil
      case Cell(_, a, b) => if d then b else a
    decreases |q|
  {
    if q != [] {
      assert (q + [d])[1..] == q[1..] + [d];
      match s
      case Nil =>
      case Cell(_, a, b) => SubAtSnoc(if q[0] then b else a, q[1..], d);
    }
  }

  lemma {:induction false} ReachesSnoc(s: Shape, q: seq<bool>, d: bool)
    requires Reaches(s, q) && SubAt(s, q).Cell?
    ensures Reaches(s, q + [d])
    decreases |q|
  {
    if q != [] {
      assert (q + [d])[1..] == q[1..] + [d];
      ReachesSnoc(if q[0] then s.r else s.l, q[1..], d);
    }
  }

  lemma {:induction false} CellReaches(s: Shape, q: seq<bool>)
    requires SubAt(s, q).Cell?
    ensures Reaches(s, q)
    decreases |q|
  {
    if q != [] {
      CellReaches(if q[0] then s.r else s.l, q[1..]);
    }
  }

  /** The node above the end of a reaching path exists. */
  lemma {:induction false} ReachesInit(s: Shape, q: seq<bool>)
    requires Reaches(s, q) && q != []
    ensures SubAt(s, Init(q)).Cell? && Reaches(s, Init(q))
    decreases |q|
  {
    if |q| > 1 {
      var c := if q[0] then s.r else s.l;
      ReachesInit(c, q[1..]);
      assert Init(q) == [q[0]] + Init(q[1..]);
      assert Init(q)[1..] == Init(q[1..]);
    } else {
      assert Init(q) == [];
    }
  }

  /** The node above the end of q, seen from the child q enters first. */
  lemma {:induction false} UpInit(s: Shape, q: seq<bool>)
    requires s.Cell? && q != []
    ensures |q| == 1 ==> IdAt(s, Init(q)) == s.id
    ensures |q| > 1 ==> IdAt(s, Init(q)) == IdAt(if q[0] then s.r else s.l, Init(q[1..]))
    ensures |q| > 1 ==> q[1..][|q| - 2] == q[|q| - 1]
  {
    if |q| > 1 {
      assert Init(q)[1..] == Init(q[1..]);
    } else {
      assert Init(q) == [];
    }
  }

  lemma {:induction false} ReachesPrefix(s: Shape, q: seq<bool>, j: nat)
    requires Reaches(s, q) && j <= |q|
    ensures Reaches(s, q[..j])
    decreases |q|
  {
    if j > 0 {
      assert q[..j][1..] == q[1..][..j - 1];
      ReachesPrefix(if q[0] then s.r else s.l, q[1..], j - 1);
    }
  }

  lemma {:induction false} DistinctSub(s: Shape, q: seq<bool>)
    requires Distinct(s)
    ensures Distinct(SubAt(s, q))
    decreases |q|
  {
    if q != [] {
      match s
      case Nil =>
      case Cell(_, a, b) => DistinctSub(if q[0] then b else a, q[1..]);
    }
  }

  /** The pointers below the node at q agree with the shape there, with the node above q
      as its parent. */
  lemma {:induction false} LinkedSub(s: Shape, par: int, q: seq<bool>, l: seq<int>, r: seq<int>, p: seq<int>)
    requires Linked(s, par, l, r, p)
    ensures Linked(SubAt(s, q), if q == [] then par else IdAt(s, Init(q)), l, r, p)
    decreases |q|
  {
    if q != [] {
      match s
      case Nil =>
      case Cell(k, a, b) =>
        var c := if q[0] then b else a;
        LinkedSub(c, k, q[1..], l, r, p);
        if |q| > 1 {
          assert Init(q) == [q[0]] + Init(q[1..]);
          assert Init(q)[1..] == Init(q[1..]);
        } else {
          assert Init(q) == [];
        }
    }
  }

  lemma {:induction false} AbsSub(s: Shape, q: seq<bool>, bo: seq<int>, tl: seq<int>)
    requires Bounded(s, |bo|) && Bounded(s, |tl|)
    ensures Bounded(SubAt(s, q), |bo|) && Bounded(SubAt(s, q), |tl|)
    ensures AbsOf(SubAt(s, q), bo, tl) == Subtree(AbsOf(s, bo, tl), q)
    decreases |q|
  {
    BoundedSub(s, q, |bo|);
    BoundedSub(s, q, |tl|);
    if q != [] {
      match s
      case Nil =>
      case Cell(_, a, b) => AbsSub(if q[0] then b else a, q[1..], bo, tl);
    }
  }

  /** Everything the walks of line_tree.c read at one node. */
  lemma {:induction false} NodeFacts(s: Shape, par: int, q: seq<bool>, l: seq<int>, r: seq<int>, p: seq<int>, bo: seq<int>, tl: seq<int>)
    requires Linked(s, par, l, r, p) && Distinct(s) && Bounded(s, |bo|) && Bounded(s, |tl|)
    requires IdAt(s, q) != NIL
    ensures var k := IdAt(s, q); var t := AbsOf(s, bo, tl);
      0 <= k < |l| && k < |r| && k < |p| && k < |bo| && k < |tl| && k in Ids(s)
      && Reaches(s, q) && Reaches(s, q + [false]) && Reaches(s, q + [true])
      && l[k] == IdAt(s, q + [false]) && r[k] == IdAt(s, q + [true])
      && p[k] == (if q == [] then par else IdAt(s, Init(q)))
      && (q != [] ==> p[k] != NIL)
      && Subtree(t, q) == Node(bo[k], tl[k], Subtree(t, q + [false]), Subtree(t, q + [true]))
      && (IdAt(s, q + [true]) != NIL ==> IdAt(s, q + [true]) != l[k])
      && (IdAt(s, q + [false]) != NIL ==> IdAt(s, q + [false]) != r[k])
      && (Subtree(t, q + [false]) == Empty <==> l[k] == NIL)
      && (Subtree(t, q + [true]) == Empty <==> r[k] == NIL)
  {
    var sub := SubAt(s, q);
    LinkedSub(s, par, q, l, r, p);
    DistinctSub(s, q);
    IdsSubAt(s, q);
    SubAtSnoc(s, q, false);
    SubAtSnoc(s, q, true);
    CellReaches(s, q);
    ReachesSnoc(s, q, false);
    ReachesSnoc(s, q, true);
    AbsSub(s, q, bo, tl);
    AbsSub(s, q + [false], bo, tl);
    AbsSub(s, q + [true], bo, tl);
    if q != [] {
      ReachesInit(s, q);
    }
  }

  lemma {:induction false} AbsFrame(s: Shape, bo: seq<int>, tl: seq<int>, bo2: seq<int>, tl2: seq<int>)
    requires Bounded(s, |bo|) && Bounded(s, |tl|) && Bounded(s, |bo2|) && Bounded(s, |tl2|)
    requires forall k :: k in Ids(s) && k < |bo| && k < |tl| && k < |bo2| && k < |tl2| ==> bo2[k] == bo[k] && tl2[k] == tl[k]
    ensures AbsOf(s, bo2, tl2) == AbsOf(s, bo, tl)
  {
    match s
    case Nil =>
    case Cell(k, a, b) =>
      assert Ids(a) <= Ids(s) && Ids(b) <= Ids(s);
      AbsFrame(a, bo, tl, bo2, tl2);
      AbsFrame(b, bo, tl, bo2, tl2);
  }

  /** Changing the fields of the slot at q changes the node at q of the value tree. */
  lemma {:induction false} AbsAdd(s: Shape, q: seq<bool>, bo: seq<int>, tl: seq<int>, dv: int, dw: int)
    requires Distinct(s) && Bounded(s, |bo|) && Bounded(s, |tl|) && IdAt(s, q) != NIL
    ensures var k := IdAt(s, q);
      0 <= k < |bo| && k < |tl|
      && AbsOf(s, bo[k := bo[k] + dv], tl[k := tl[k] + dw]) == AddAt(AbsOf(s, bo, tl), q, dv, dw)
    decreases |q|
  {
    var k := IdAt(s, q);
    IdsSubAt(s, q);
    BoundedIds(s, |bo|);
    BoundedIds(s, |tl|);
    assert k in Ids(SubAt(s, q));
    match s
    case Cell(i, a, b) =>
      assert Ids(a) <= Ids(s) && Ids(b) <= Ids(s);
      var bo2, tl2 := bo[k := bo[k] + dv], tl[k := tl[k] + dw];
      if q == [] {
        AbsFrame(a, bo, tl, bo2, tl2);
        AbsFrame(b, bo, tl, bo2, tl2);
      } else if q[0] {
        AbsAdd(b, q[1..], bo, tl, dv, dw);
        IdsSubAt(b, q[1..]);
        AbsFrame(a, bo, tl, bo2, tl2);
      } else {
        AbsAdd(a, q[1..], bo, tl, dv, dw);
        IdsSubAt(a, q[1..]);
        AbsFrame(b, bo, tl, bo2, tl2);
      }
  }

  lemma {:induction false} AbsNonNeg(s: Shape, bo: seq<int>, tl: seq<int>)
    requires Bounded(s, |bo|) && Bounded(s, |tl|)
    requires forall i :: 0 <= i < |bo| ==> bo[i] >= 0
    requires forall i :: 0 <= i < |tl| ==> tl[i] >= 0
    ensures NonNeg(AbsOf(s, bo, tl))
  {
    match s
    case Nil =>
    case Cell(k, a, b) =>
      AbsNonNeg(a, bo, tl);
      AbsNonNeg(b, bo, tl);
  }

  lemma {:induction false} SubAtReplace(s: Shape, q: seq<bool>, x: Shape)
    requires Reaches(s, q)
    ensures SubAt(Replace(s, q, x), q) == x
    ensures q != [] ==> IdOf(Replace(s, q, x)) == IdOf(s)
    decreases |q|
  {
    if q != [] {
      SubAtReplace(if q[0] then s.r else s.l, q[1..], x);
    }
  }

  lemma {:induction false} BoundedReplace(s: Shape, q: seq<bool>, x: Shape, n: int)
    requires Bounded(s, n) && Bounded(x, n)
    ensures Bounded(Replace(s, q, x), n)
    decreases |q|
  {
    if q != [] {
      match s
      case Nil =>
      case Cell(_, a, b) => BoundedReplace(if q[0] then b else a, q[1..], x, n);
    }
  }

  lemma {:induction false} IdsReplace(s: Shape, q: seq<bool>, x: Shape)
    requires Distinct(s) && Reaches(s, q)
    ensures Ids(Replace(s, q, x)) == (Ids(s) - Ids(SubAt(s, q))) + Ids(x)
    decreases |q|
  {
    if q != [] {
      match s
      case Cell(k, a, b) =>
        var c := if q[0] then b else a;
        IdsReplace(c, q[1..], x);
        IdsSubAt(c, q[1..]);
    }
  }

  /** Putting x in place of the subtree at q keeps the slots distinct when x shares none
      with what stays. */
  lemma {:induction false} ReplaceDistinct(s: Shape, q: seq<bool>, x: Shape)
    requires Distinct(s) && Distinct(x) && Reaches(s, q)
    requires Ids(x) !! (Ids(s) - Ids(SubAt(s, q)))
    ensures Distinct(Replace(s, q, x))
    decreases |q|
  {
    if q != [] {
      match s
      case Cell(k, a, b) =>
        var c := if q[0] then b else a;
        IdsSubAt(c, q[1..]);
        IdsReplace(c, q[1..], x);
        ReplaceDistinct(c, q[1..], x);
    }
  }

  /** Pointers that changed only at the slots P (children) and X (parent) leave a shape
      holding neither of them linked. */
  lemma {:induction false} LinkedAvoid(s: Shape, par: int, P: int, X: int, l: seq<int>, r: seq<int>, p: seq<int>,
                                       l2: seq<int>, r2: seq<int>, p2: seq<int>)
    requires Linked(s, par, l, r, p) && P !in Ids(s) && X !in Ids(s)
    requires |l| <= |l2| && |r| <= |r2| && |p| <= |p2|
    requires forall k :: 0 <= k < |l| && k != P ==> l2[k] == l[k]
    requires forall k :: 0 <= k < |r| && k != P ==> r2[k] == r[k]
    requires forall k :: 0 <= k < |p| && k != X ==> p2[k] == p[k]
    ensures Linked(s, par, l2, r2, p2)
  {
    match s
    case Nil =>
    case Cell(k, a, b) =>
      LinkedAvoid(a, k, P, X, l, r, p, l2, r2, p2);
      LinkedAvoid(b, k, P, X, l, r, p, l2, r2, p2);
  }

  /** A subtree hung below a new parent par2, with only the slot P (outside it) changing
      its children and only its root changing its parent. */
  lemma {:induction false} LinkedReparent(s: Shape, par: int, par2: int, P: int, l: seq<int>, r: seq<int>, p: seq<int>,
                       l2: seq<int>, r2: seq<int>, p2: seq<int>)
    requires Linked(s, par, l, r, p) && Distinct(s) && P !in Ids(s)
    requires |l| <= |l2| && |r| <= |r2| && |p| <= |p2|
    requires forall k :: 0 <= k < |l| && k != P ==> l2[k] == l[k]
    requires forall k :: 0 <= k < |r| && k != P ==> r2[k] == r[k]
    requires forall k :: 0 <= k < |p| && k != IdOf(s) ==> p2[k] == p[k]
    requires s.Cell? ==> p2[s.id] == par2
    ensures Linked(s, par2, l2, r2, p2)
  {
    match s
    case Nil =>
    case Cell(k, a, b) =>
      LinkedAvoid(a, k, P, k, l, r, p, l2, r2, p2);
      LinkedAvoid(b, k, P, k, l, r, p, l2, r2, p2);
  }

  /** Putting x in place of the subtree at q keeps the pointers consistent when the slot
      P above q now points to x, x is linked below P, and otherwise only P's children and
      the parent of x's root changed. */
  lemma {:induction false} ReplaceLinked(s: Shape, par: int, q: seq<bool>, x: Shape, P: int,
                                         l: seq<int>, r: seq<int>, p: seq<int>,
                                         l2: seq<int>, r2: seq<int>, p2: seq<int>)
    requires Linked(s, par, l, r, p) && Distinct(s) && Reaches(s, q)
    requires P == if q == [] then par else IdAt(s, Init(q))
    requires |l| <= |l2| && |r| <= |r2| && |p| <= |p2|
    requires Linked(x, P, l2, r2, p2)
    requires forall k :: 0 <= k < |l| && k != P ==> l2[k] == l[k]
    requires forall k :: 0 <= k < |r| && k != P ==> r2[k] == r[k]
    requires forall k :: 0 <= k < |p| && k != IdOf(x) ==> p2[k] == p[k]
    requires x.Nil? || x.id !in Ids(s) || x.id in Ids(SubAt(s, q))
    requires q != [] ==>
      0 <= P < |l| && P < |r| && P < |l2| && P < |r2|
      && l2[P] == (if q[|q| - 1] then l[P] else IdOf(x))
      && r2[P] == (if q[|q| - 1] then IdOf(x) else r[P])
    ensures Linked(Replace(s, q, x), par, l2, r2, p2)
    decreases |q|
  {
    if q != [] {
      match s
      case Cell(k, a, b) =>
        var d := q[0];
        var c, o := if d then b else a, if d then a else b;
        var q' := q[1..];
        IdsSubAt(c, q');
        UpInit(s, q);
        if |q| > 1 {
          ReachesInit(c, q');
          IdsSubAt(c, Init(q'));
          SubAtReplace(c, q', x);
        }
        ReplaceLinked(c, k, q', x, P, l, r, p, l2, r2, p2);
        LinkedAvoid(o, k, P, IdOf(x), l, r, p, l2, r2, p2);
    }
  }

  lemma {:induction false} AbsReplace(s: Shape, q: seq<bool>, x: Shape, bo: seq<int>, tl: seq<int>, bo2: seq<int>, tl2: seq<int>)
    requires Bounded(s, |bo|) && Bounded(s, |tl|)
    requires Bounded(Replace(s, q, x), |bo2|) && Bounded(Replace(s, q, x), |tl2|)
    requires Bounded(x, |bo2|) && Bounded(x, |tl2|)
    requires forall k :: k in Ids(s) - Ids(SubAt(s, q)) && k < |bo| && k < |tl| && k < |bo2| && k < |tl2| ==>
      bo2[k] == bo[k] && tl2[k] == tl[k]
    requires Distinct(s) && Reaches(s, q)
    ensures AbsOf(Replace(s, q, x), bo2, tl2) == ReplaceAt(AbsOf(s, bo, tl), q, AbsOf(x, bo2, tl2))
    decreases |q|
  {
    if q != [] {
      match s
      case Cell(k, a, b) =>
        var c, o := if q[0] then b else a, if q[0] then a else b;
        IdsSubAt(c, q[1..]);
        AbsReplace(c, q[1..], x, bo, tl, bo2, tl2);
        AbsFrame(o, bo, tl, bo2, tl2);
    }
  }

  /** The node above q lies outside the subtree at q. */
  lemma {:induction false} ParentOutside(s: Shape, q: seq<bool>)
    requires Distinct(s) && Reaches(s, q) && q != []
    ensures IdAt(s, Init(q)) in Ids(s) && IdAt(s, Init(q)) !in Ids(SubAt(s, q))
    decreases |q|
  {
    match s
    case Cell(k, a, b) =>
      var c := if q[0] then b else a;
      if |q| == 1 {
        assert Init(q) == [];
      } else {
        ParentOutside(c, q[1..]);
        assert Init(q) == [q[0]] + Init(q[1..]);
        assert Init(q)[1..] == Init(q[1..]);
      }
  }
}
