/** The line tree of src/core/line_tree.c as the pointer structure the code updates in
    place. Nodes are slots of an arena: slot k's fields l, r, p, byte_offset and
    total_lines are left[k], right[k], parent[k], byteOffset[k] and totalLines[k], and NIL
    is the null pointer. Each method is proved to compute, on the value tree Abs(), the
    function of LineTreeSpec that says what it does. */
module LineIndex {
  import opened SeqUtil
  import opened LineTreeSpec
  import opened LineTreeArena

  class LineTree {
    var root: int
    var left: seq<int>
    var right: seq<int>
    var parent: seq<int>
    var byteOffset: seq<nat>
    var totalLines: seq<nat>
    /** Which slot sits at each position of the tree. */
    ghost var shape: Shape

    ghost predicate Valid()
      reads this
    {
      |left| == |right| == |parent| == |byteOffset| == |totalLines|
      && root == IdOf(shape) && Linked(shape, NIL, left, right, parent) && Distinct(shape)
    }

    /** The value tree the pointers stand for. */
    ghost function Abs(): (t: Tree)
      reads this
      requires Valid()
      ensures NonNeg(t)
    {
      LinkedBounded(shape, NIL, left, right, parent);
      AbsNonNeg(shape, byteOffset, totalLines);
      AbsOf(shape, byteOffset, totalLines)
    }

    /** The node at q, with its children and parent as the pointers give them. */
    lemma {:induction false} At(q: seq<bool>)
      requires Valid() && IdAt(shape, q) != NIL
      ensures var k := IdAt(shape, q); var t := Abs();
        0 <= k < |left| && k in Ids(shape)
        && Reaches(shape, q) && Reaches(shape, q + [false]) && Reaches(shape, q + [true])
        && left[k] == IdAt(shape, q + [false]) && right[k] == IdAt(shape, q + [true])
        && parent[k] == (if q == [] then NIL else IdAt(shape, Init(q)))
        && (q != [] ==> parent[k] != NIL)
        && Subtree(t, q) == Node(byteOffset[k], totalLines[k], Subtree(t, q + [false]), Subtree(t, q + [true]))
        && (right[k] != NIL ==> right[k] != left[k])
        && (Subtree(t, q + [false]) == Empty <==> left[k] == NIL)
        && (Subtree(t, q + [true]) == Empty <==> right[k] == NIL)
    {
      LinkedBounded(shape, NIL, left, right, parent);
      NodeFacts(shape, NIL, q, left, right, parent, byteOffset, totalLines);
    }

    /** One step of the descent that line_tree_insert, find_node_at_offset and
        find_offset_parent_node share: from the node at q, go right when the offset left
        over exceeds the node's byte offset (and subtract it), else go left. */
    lemma {:induction false} Descend(q: seq<bool>, rem: int, last: int, matched: bool)
      requires Valid() && IdAt(shape, q) != NIL
      ensures var k := IdAt(shape, q); 0 <= k < |left|
      ensures var k := IdAt(shape, q); var t := Abs(); var d := rem > byteOffset[k];
        var rem2 := if d then rem - byteOffset[k] else rem; var q2 := q + [d];
        Reaches(shape, q2) && Init(q2) == q
        && IdAt(shape, q2) == (if d then right[k] else left[k])
        && SearchPath(Subtree(t, q), rem) == [d] + SearchPath(Subtree(t, q2), rem2)
        && FinalRem(Subtree(t, q), rem) == FinalRem(Subtree(t, q2), rem2)
        && LastRemVia(Subtree(t, q), rem, last) == LastRemVia(Subtree(t, q2), rem2, rem)
        && FoundVia(Subtree(t, q), rem, matched) == FoundVia(Subtree(t, q2), rem2, rem == byteOffset[k])
    {
      At(q);
      DescentStep(Abs(), q, rem, last, matched);
      assert Init(q + [true]) == q && Init(q + [false]) == q;
    }

    /** The descent has left the tree where it meets a null pointer. */
    lemma {:induction false} Leaves(q: seq<bool>)
      requires Valid() && IdAt(shape, q) == NIL
      ensures Subtree(Abs(), q) == Empty
    {
      LinkedBounded(shape, NIL, left, right, parent);
      AbsSub(shape, q, byteOffset, totalLines);
    }

    lemma {:induction false} Slot(q: seq<bool>)
      requires Valid() && IdAt(shape, q) != NIL
      ensures 0 <= IdAt(shape, q) < |left|
    {
      LinkedBounded(shape, NIL, left, right, parent);
      BoundedIds(shape, |left|);
      IdsSubAt(shape, q);
      assert IdAt(shape, q) in Ids(SubAt(shape, q));
    }

    /** The node at q as the value tree sees it. */
    lemma {:induction false} Here(q: seq<bool>)
      requires Valid() && IdAt(shape, q) != NIL
      ensures var k := IdAt(shape, q);
        0 <= k < |byteOffset| && Subtree(Abs(), q) ==
          Node(byteOffset[k], totalLines[k], Subtree(Abs(), q + [false]), Subtree(Abs(), q + [true]))
    {
      At(q);
    }

    /** The child pointers of the node at q lead to the nodes one step below it. */
    lemma {:induction false} Kids(q: seq<bool>)
      requires Valid() && IdAt(shape, q) != NIL
      ensures var k := IdAt(shape, q);
        0 <= k < |left| && left[k] == IdAt(shape, q + [false]) && right[k] == IdAt(shape, q + [true])
        && (right[k] != NIL ==> 0 <= right[k] < |left|)
    {
      At(q);
      if right[IdAt(shape, q)] != NIL {
        Slot(q + [true]);
      }
    }

    /** An empty tree (the zero-initialised LineTree). */
    constructor ()
      ensures Valid() && Abs() == Empty
    {
      root := NIL;
      left, right, parent := [], [], [];
      byteOffset, totalLines := [], [];
      shape := Nil;
    }

    /** One step up from depth j of q: the parent pointer leads to the node at depth j - 1
        (null only at the root), and the child is its left one exactly when q turns left
        there. */
    lemma {:induction false} Climb(q: seq<bool>, j: nat)
      requires Valid() && j <= |q| && IdAt(shape, q[..j]) != NIL
      ensures var x := IdAt(shape, q[..j]);
        0 <= x < |parent| && (parent[x] == NIL <==> j == 0)
        && (j > 0 ==> parent[x] == IdAt(shape, q[..j - 1]) && 0 <= parent[x] < |left|
                      && (x == left[parent[x]] <==> !q[j - 1]) && (x == right[parent[x]] <==> q[j - 1]))
    {
      At(q[..j]);
      if j > 0 {
        assert Init(q[..j]) == q[..j - 1];
        assert q[..j - 1] + [q[j - 1]] == q[..j];
        At(q[..j - 1]);
      }
    }

    /** Adding dv to byte_offset and dw to total_lines of the node at q. */
    lemma {:induction false} AddedAt(q: seq<bool>, dv: int, dw: int)
      requires Valid() && IdAt(shape, q) != NIL
      ensures var k := IdAt(shape, q); var u := Subtree(Abs(), q);
        0 <= k < |byteOffset| && u.Node? && u.offset == byteOffset[k] && u.lines == totalLines[k]
        && Bounded(shape, |byteOffset|) && Bounded(shape, |totalLines|)
      ensures var k := IdAt(shape, q); var bo: seq<int>, tl: seq<int> := byteOffset, totalLines;
        0 <= k < |bo| && k < |tl| && Bounded(shape, |bo|) && Bounded(shape, |tl|)
        && AbsOf(shape, bo[k := bo[k] + dv], tl[k := tl[k] + dw]) == AddAt(Abs(), q, dv, dw)
    {
      At(q);
      LinkedBounded(shape, NIL, left, right, parent);
      AbsAdd(shape, q, byteOffset, totalLines, dv, dw);
    }

    /** propagate_increment: walking up from node, every ancestor whose left subtree holds
        it gains bytes and lines. q is the path to node. */
    method PropagateIncrement(node: int, bytes: nat, lines: nat, ghost q: seq<bool>)
      requires Valid() && node != NIL && IdAt(shape, q) == node
      modifies this
      ensures Valid() && shape == old(shape) && root == old(root)
      ensures left == old(left) && right == old(right) && parent == old(parent)
      ensures Abs() == BumpFrom(old(Abs()), q, 0, bytes, lines)
    {
      ghost var t0 := Abs();
      var x := node;
      ghost var j: nat := |q|;
      BumpIdentity(t0, q, |q|, bytes, lines);
      assert q[..|q|] == q;
      Slot(q);
      while parent[x] != NIL
        invariant Valid() && shape == old(shape) && root == old(root)
        invariant left == old(left) && right == old(right) && parent == old(parent)
        invariant j <= |q| && x == IdAt(shape, q[..j]) && x != NIL && 0 <= x < |parent|
        invariant Abs() == BumpFrom(t0, q, j, bytes, lines)
        decreases j
      {
        Climb(q, j);
        var y := parent[x];
        BumpStep(t0, q, j, bytes, lines);
        if x == left[y] {
          AddedAt(q[..j - 1], bytes, lines);
          byteOffset := byteOffset[y := byteOffset[y] + bytes];
          totalLines := totalLines[y := totalLines[y] + lines];
        }
        x := y;
        j := j - 1;
      }
      Climb(q, j);
    }

    /** propagate_decrement: the same walk taking bytes and lines away. The fields are
        unsigned, so the result must have no negative field. */
    method PropagateDecrement(node: int, bytes: nat, lines: nat, ghost q: seq<bool>)
      requires Valid() && node != NIL && IdAt(shape, q) == node
      requires NonNeg(BumpFrom(Abs(), q, 0, -(bytes as int), -(lines as int)))
      modifies this
      ensures Valid() && shape == old(shape) && root == old(root)
      ensures left == old(left) && right == old(right) && parent == old(parent)
      ensures Abs() == BumpFrom(old(Abs()), q, 0, -(bytes as int), -(lines as int))
    {
      ghost var t0 := Abs();
      ghost var bo0, tl0 := byteOffset, totalLines;
      var x := node;
      ghost var j: nat := |q|;
      BumpIdentity(t0, q, |q|, -(bytes as int), -(lines as int));
      assert q[..|q|] == q;
      Slot(q);
      while parent[x] != NIL
        invariant Valid() && shape == old(shape) && root == old(root)
        invariant left == old(left) && right == old(right) && parent == old(parent)
        invariant j <= |q| && x == IdAt(shape, q[..j]) && x != NIL && 0 <= x < |parent|
        invariant Abs() == BumpFrom(t0, q, j, -(bytes as int), -(lines as int))
        invariant |bo0| == |byteOffset| && |tl0| == |totalLines|
        decreases j
      {
        Climb(q, j);
        var y := parent[x];
        BumpStep(t0, q, j, -(bytes as int), -(lines as int));
        if x == left[y] {
          AddedAt(q[..j - 1], -(bytes as int), -(lines as int));
          AbsSub(shape, q[..j - 1], bo0, tl0);
          NoUnderflow(t0, q, j, bytes, lines);
          byteOffset := byteOffset[y := byteOffset[y] - bytes];
          totalLines := totalLines[y := totalLines[y] - lines];
        }
        x := y;
        j := j - 1;
      }
      Climb(q, j);
    }

    /** One step down the left spine, or its end. */
    lemma {:induction false} LeftStep(q: seq<bool>)
      requires Valid() && IdAt(shape, q) != NIL
      ensures var k := IdAt(shape, q);
        0 <= k < |left| && left[k] == IdAt(shape, q + [false]) && (left[k] != NIL ==> 0 <= left[k] < |left|)
        && LeftSpine(Subtree(Abs(), q)) ==
             if left[k] == NIL then [] else [false] + LeftSpine(Subtree(Abs(), q + [false]))
    {
      At(q);
      var k := IdAt(shape, q);
      if left[k] != NIL {
        Slot(q + [false]);
        LeftSpineStep(Abs(), q);
      }
    }

    /** One step down the right spine, or its end. */
    lemma {:induction false} RightStep(q: seq<bool>)
      requires Valid() && IdAt(shape, q) != NIL
      ensures var k := IdAt(shape, q);
        0 <= k < |right| && right[k] == IdAt(shape, q + [true]) && (right[k] != NIL ==> 0 <= right[k] < |right|)
        && RightSpine(Subtree(Abs(), q)) ==
             if right[k] == NIL then [] else [true] + RightSpine(Subtree(Abs(), q + [true]))
    {
      At(q);
      var k := IdAt(shape, q);
      if right[k] != NIL {
        Slot(q + [true]);
        RightSpineStep(Abs(), q);
      }
    }

    /** Loop invariant of line_tree_minimun: m is the node reached by sp, a prefix of the
        left spine below q. */
    ghost predicate LeftWalk(q: seq<bool>, sp: seq<bool>, m: int)
      requires Valid()
      reads this
    {
      m == IdAt(shape, q + sp) && m != NIL && 0 <= m < |left|
      && LeftSpine(Subtree(Abs(), q)) == sp + LeftSpine(Subtree(Abs(), q + sp))
    }

    lemma {:induction false} LeftWalkStep(q: seq<bool>, sp: seq<bool>, m: int)
      requires Valid() && LeftWalk(q, sp, m)
      ensures left[m] != NIL ==> LeftWalk(q, sp + [false], left[m])
      ensures left[m] == NIL ==> sp == LeftSpine(Subtree(Abs(), q))
    {
      LeftStep(q + sp);
      SnocAssoc(q, sp, false);
      if left[m] != NIL {
        PathCarry(sp, false, LeftSpine(Subtree(Abs(), q + sp)), LeftSpine(Subtree(Abs(), q + sp + [false])),
                  LeftSpine(Subtree(Abs(), q)));
      } else {
        assert sp + [] == sp;
      }
    }

    /** line_tree_minimun: the end of the left spine below x, a node without a left child
        (by LineTreeSpec.LeftSpineFirst the first line break of that subtree). */
    method Minimum(x: int, ghost q: seq<bool>) returns (m: int)
      requires Valid() && x != NIL && IdAt(shape, q) == x
      ensures m == IdAt(shape, q + LeftSpine(Subtree(Abs(), q))) && m != NIL
      ensures 0 <= m < |left| && left[m] == NIL
    {
      ghost var sp: seq<bool> := [];
      m := x;
      LeftStep(q);
      assert q + sp == q;
      while left[m] != NIL
        invariant LeftWalk(q, sp, m)
        decreases |LeftSpine(Subtree(Abs(), q))| - |sp|
      {
        LeftWalkStep(q, sp, m);
        m := left[m];
        sp := sp + [false];
      }
      LeftWalkStep(q, sp, m);
    }

    /** Loop invariant of line_tree_maximum, the mirror image of LeftWalk. */
    ghost predicate RightWalk(q: seq<bool>, sp: seq<bool>, m: int)
      requires Valid()
      reads this
    {
      m == IdAt(shape, q + sp) && m != NIL && 0 <= m < |right|
      && RightSpine(Subtree(Abs(), q)) == sp + RightSpine(Subtree(Abs(), q + sp))
    }

    lemma {:induction false} RightWalkStep(q: seq<bool>, sp: seq<bool>, m: int)
      requires Valid() && RightWalk(q, sp, m)
      ensures right[m] != NIL ==> RightWalk(q, sp + [true], right[m])
      ensures right[m] == NIL ==> sp == RightSpine(Subtree(Abs(), q))
    {
      RightStep(q + sp);
      SnocAssoc(q, sp, true);
      if right[m] != NIL {
        PathCarry(sp, true, RightSpine(Subtree(Abs(), q + sp)), RightSpine(Subtree(Abs(), q + sp + [true])),
                  RightSpine(Subtree(Abs(), q)));
      } else {
        assert sp + [] == sp;
      }
    }

    /** line_tree_maximum: the end of the right spine below x (the last line break of that
        subtree, by LineTreeSpec.RightSpineLast). */
    method Maximum(x: int, ghost q: seq<bool>) returns (m: int)
      requires Valid() && x != NIL && IdAt(shape, q) == x
      ensures m == IdAt(shape, q + RightSpine(Subtree(Abs(), q))) && m != NIL
      ensures 0 <= m < |right| && right[m] == NIL
    {
      ghost var sp: seq<bool> := [];
      m := x;
      RightStep(q);
      assert q + sp == q;
      while right[m] != NIL
        invariant RightWalk(q, sp, m)
        decreases |RightSpine(Subtree(Abs(), q))| - |sp|
      {
        RightWalkStep(q, sp, m);
        m := right[m];
        sp := sp + [true];
      }
      RightWalkStep(q, sp, m);
    }

    /** Loop invariant of line_tree_successor: c is the node at depth j of q, y its parent,
        and q turns right at every depth from j on. */
    ghost predicate UpWalk(q: seq<bool>, j: nat, c: int, y: int)
      requires Valid()
      reads this
    {
      j <= |q| && c == IdAt(shape, q[..j]) && c != NIL
      && y == (if j == 0 then NIL else IdAt(shape, q[..j - 1])) && (y == NIL || 0 <= y < |right|)
      && (forall i :: j <= i < |q| ==> q[i])
    }

    lemma {:induction false} UpWalkStep(q: seq<bool>, j: nat, c: int, y: int)
      requires Valid() && UpWalk(q, j, c, y) && y != NIL
      ensures j > 0 && 0 <= y < |right| && (c == right[y] <==> q[j - 1])
      ensures c == right[y] ==> UpWalk(q, j - 1, y, parent[y])
    {
      Climb(q, j);
      if c == right[y] {
        Climb(q, j - 1);
        assert q[..j][..j - 1] == q[..j - 1];
      }
    }

    /** Where the walk stops: at the root coming up from the right (no successor), or at
        the first ancestor reached from its left subtree. */
    lemma {:induction false} UpWalkEnd(q: seq<bool>, j: nat, c: int, y: int)
      requires Valid() && UpWalk(q, j, c, y)
      requires IdAt(shape, q) != NIL && 0 <= IdAt(shape, q) < |right| && right[IdAt(shape, q)] == NIL
      requires y != NIL ==> c != right[y]
      ensures y == match SuccessorPath(Abs(), q) case None => NIL case Some(p) => IdAt(shape, p)
    {
      At(q);
      Climb(q, j);
      if j == 0 {
        LastLeftNone(q);
      } else {
        UpWalkStep(q, j, c, y);
        LastLeftAfter(q, j);
      }
    }

    /** line_tree_successor: the minimum of the right subtree, else the nearest ancestor
        holding x in its left subtree, else null. */
    method Successor(x: int, ghost q: seq<bool>) returns (y: int)
      requires Valid() && x != NIL && IdAt(shape, q) == x
      ensures y == match SuccessorPath(Abs(), q) case None => NIL case Some(p) => IdAt(shape, p)
    {
      At(q);
      if right[x] != NIL {
        y := Minimum(right[x], q + [true]);
        return;
      }
      var c := x;
      y := parent[x];
      ghost var j: nat := |q|;
      assert q[..|q|] == q;
      Climb(q, j);
      while y != NIL && c == right[y]
        invariant UpWalk(q, j, c, y)
        decreases j
      {
        UpWalkStep(q, j, c, y);
        c := y;
        y := parent[y];
        j := j - 1;
      }
      UpWalkEnd(q, j, c, y);
    }

    /** line_tree_transplant: u's slot in its parent (or the root) now holds v, and v's
        parent is u's parent. Nothing else changes. */
    method Transplant(u: int, v: int)
      requires |left| == |right| == |parent|
      requires 0 <= u < |parent| && (parent[u] == NIL || 0 <= parent[u] < |left|)
      requires v == NIL || 0 <= v < |parent|
      modifies this
      ensures var pu := old(parent[u]);
        (pu == NIL ==> root == v && left == old(left) && right == old(right))
        && (pu != NIL && u == old(left[pu]) ==> root == old(root) && left == old(left)[pu := v] && right == old(right))
        && (pu != NIL && u != old(left[pu]) ==> root == old(root) && left == old(left) && right == old(right)[pu := v])
        && parent == (if v == NIL then old(parent) else old(parent)[v := pu])
      ensures byteOffset == old(byteOffset) && totalLines == old(totalLines) && shape == old(shape)
    {
      var pu := parent[u];
      if pu == NIL {
        root := v;
      } else if u == left[pu] {
        left := left[pu := v];
      } else {
        right := right[pu := v];
      }
      if v != NIL {
        parent := parent[v := pu];
      }
    }

    /** Loop invariant of the descent shared by line_tree_insert, find_node_at_offset and
        find_offset_parent_node: the walk has followed path to cur with rem left over; par
        is the last node visited and last the offset that was left over on reaching it. */
    ghost predicate Descent(a: int, path: seq<bool>, cur: int, par: int, rem: int, last: int)
      requires Valid()
      reads this
    {
      var t := Abs(); var h := Subtree(t, path);
      cur == IdAt(shape, path) && Reaches(shape, path)
      && par == (if path == [] then NIL else IdAt(shape, Init(path)))
      && (par != NIL ==> 0 <= par < |byteOffset|)
      && SearchPath(t, a) == path + SearchPath(h, rem)
      && FinalRem(t, a) == FinalRem(h, rem)
      && LastRemVia(t, a, 0) == LastRemVia(h, rem, last)
      && Found(t, a) == FoundVia(h, rem, par != NIL && last == byteOffset[par])
    }

    lemma {:induction false} DescentStart(a: int)
      requires Valid()
      ensures Descent(a, [], root, NIL, a, 0)
    {
      assert [] + SearchPath(Abs(), a) == SearchPath(Abs(), a);
    }

    lemma {:induction false} DescentAdvance(a: int, path: seq<bool>, cur: int, par: int, rem: int, last: int)
      requires Valid() && Descent(a, path, cur, par, rem, last) && cur != NIL
      ensures 0 <= cur < |left|
      ensures var d := rem > byteOffset[cur]; var rem2 := if d then rem - byteOffset[cur] else rem;
        Descent(a, path + [d], if d then right[cur] else left[cur], cur, rem2, rem)
        && |SearchPath(Subtree(Abs(), path + [d]), rem2)| < |SearchPath(Subtree(Abs(), path), rem)|
    {
      Descend(path, rem, last, par != NIL && last == byteOffset[par]);
      var d := rem > byteOffset[cur];
      var rem2 := if d then rem - byteOffset[cur] else rem;
      PathCarry(path, d, SearchPath(Subtree(Abs(), path), rem), SearchPath(Subtree(Abs(), path + [d]), rem2),
                SearchPath(Abs(), a));
    }

    /** At the null pointer the walk has gone the whole search path. */
    lemma {:induction false} DescentDone(a: int, path: seq<bool>, par: int, rem: int, last: int)
      requires Valid() && Descent(a, path, NIL, par, rem, last)
      ensures path == SearchPath(Abs(), a) && rem == FinalRem(Abs(), a) && last == LastRemVia(Abs(), a, 0)
      ensures Found(Abs(), a) == (par != NIL && last == byteOffset[par])
    {
      Leaves(path);
      assert path + [] == path;
    }

    /** The descent of line_tree_insert: the last node visited, the remaining offset
        recorded there truncated to u32 (last_byte_offset), and the remaining offset at the
        empty slot reached. */
    method InsertDescent(a: nat) returns (par: int, last: nat, rem: nat, ghost path: seq<bool>)
      requires Valid()
      ensures path == SearchPath(Abs(), a) && rem == FinalRem(Abs(), a)
      ensures last == LastRemVia(Abs(), a, 0) % U32
      ensures par == (if path == [] then NIL else IdAt(shape, Init(path)))
      ensures Reaches(shape, path)
    {
      var cur := root;
      par := NIL;
      last := 0;
      rem := a;
      path := [];
      ghost var lastFull: int := 0;
      DescentStart(a);
      while cur != NIL
        invariant Descent(a, path, cur, par, rem, lastFull)
        invariant last == lastFull % U32
        decreases |SearchPath(Subtree(Abs(), path), rem)|
      {
        DescentAdvance(a, path, cur, par, rem, lastFull);
        par := cur;
        last := rem % U32;
        lastFull := rem;
        if rem > byteOffset[cur] {
          rem := rem - byteOffset[cur];
          cur := right[cur];
          path := path + [true];
        } else {
          cur := left[cur];
          path := path + [false];
        }
      }
      DescentDone(a, path, par, rem, lastFull);
    }

    /** The new node of line_tree_insert, a leaf holding rem, put in a fresh slot n and made
        the root (no parent) or the right (right is true) or left child of par, in place of
        whatever that child was. qa is the position it takes. */
    method Attach(par: int, isRight: bool, rem: nat, ghost qa: seq<bool>) returns (n: int)
      requires Valid() && Reaches(shape, qa)
      requires (par == NIL) == (qa == [])
      requires qa != [] ==> par == IdAt(shape, Init(qa)) && isRight == qa[|qa| - 1]
      requires qa == [] ==> root == NIL
      modifies this
      ensures Valid() && n == old(|left|) && IdAt(shape, qa) == n
      ensures Abs() == ReplaceAt(old(Abs()), qa, Node(rem, 1, Empty, Empty))
    {
      if qa != [] {
        ReachesInit(shape, qa);
        Slot(Init(qa));
      }
      n := |left|;
      ghost var s0, l0, r0, p0, bo0, tl0 := shape, left, right, parent, byteOffset, totalLines;
      left := left + [NIL];
      right := right + [NIL];
      parent := parent + [par];
      byteOffset := byteOffset + [rem];
      totalLines := totalLines + [1];
      if par == NIL {
        root := n;
        shape := Cell(n, Nil, Nil);
        Leaf(n, NIL, left, right, parent, byteOffset, totalLines);
      } else {
        if isRight {
          right := right[par := n];
        } else {
          left := left[par := n];
        }
        AttachLinked(s0, qa, n, l0, r0, p0, left, right, parent);
        LinkedBounded(s0, NIL, l0, r0, p0);
        AttachAbs(s0, qa, n, rem, bo0, tl0, byteOffset, totalLines);
        shape := Replace(s0, qa, Cell(n, Nil, Nil));
        SubAtReplace(s0, qa, Cell(n, Nil, Nil));
      }
    }

    /** line_tree_insert as written, truncation of last_byte_offset to u32 included; below
        2^32 it is the insert of LineTreeSpec. */
    method Insert(a: nat)
      requires Valid()
      modifies this
      ensures Valid()
      ensures Abs() == InsertAsWritten(old(Abs()), a)
      ensures a < U32 ==> Abs() == LineTreeSpec.Insert(old(Abs()), a)
    {
      ghost var t0 := Abs();
      var par, last, rem, path := InsertDescent(a);
      if par == NIL {
        if path != [] {
          ReachesInit(shape, path);
        }
        assert t0 == Empty;
        assert shape == Nil;
        var n := Attach(par, false, rem, []);
      } else {
        ReachesInit(shape, path);
        Here(Init(path));
        ghost var qa := Init(path) + [last > byteOffset[par]];
        assert Init(qa) == Init(path);
        ReachesSnoc(shape, Init(path), last > byteOffset[par]);
        var n := Attach(par, last > byteOffset[par], rem, qa);
        PropagateIncrement(n, 1, 1, qa);
      }
      if a < U32 {
        InsertAsWrittenAgrees(t0, a);
      }
    }

    /** find_node_at_offset: the last node the descent visits, when the remaining offset
        recorded there is its own offset, else null. What it reports has no left child. */
    method FindNodeAtOffset(a: nat) returns (z: int, ghost qz: seq<bool>)
      requires Valid()
      ensures (z != NIL) == Found(Abs(), a)
      ensures z != NIL ==>
        qz == Init(SearchPath(Abs(), a)) && IdAt(shape, qz) == z && 0 <= z < |left| && left[z] == NIL
    {
      var last: nat := 0;
      var cur := root;
      var par := NIL;
      var rem: nat := a;
      ghost var path: seq<bool> := [];
      DescentStart(a);
      while cur != NIL
        invariant Descent(a, path, cur, par, rem, last)
        decreases |SearchPath(Subtree(Abs(), path), rem)|
      {
        DescentAdvance(a, path, cur, par, rem, last);
        last := rem;
        par := cur;
        if rem > byteOffset[cur] {
          rem := rem - byteOffset[cur];
          cur := right[cur];
          path := path + [true];
        } else {
          cur := left[cur];
          path := path + [false];
        }
      }
      DescentDone(a, path, par, rem, last);
      if par != NIL && last == byteOffset[par] {
        z := par;
        qz := Init(path);
        FoundSlot(a, path);
      } else {
        z := NIL;
        qz := [];
      }
    }

    /** The node find_node_at_offset reports sits above the end of the search path and has
        no left child. */
    lemma {:induction false} FoundSlot(a: int, q: seq<bool>)
      requires Valid() && Found(Abs(), a) && q == SearchPath(Abs(), a)
      ensures q != [] && IdAt(shape, Init(q)) != NIL
      ensures var k := IdAt(shape, Init(q)); 0 <= k < |left| && left[k] == NIL
    {
      var t := Abs();
      FoundNode(t, a, 0);
      LinkedBounded(shape, NIL, left, right, parent);
      AbsSub(shape, Init(q), byteOffset, totalLines);
      SubtreeSnoc(t, Init(q), false);
      At(Init(q));
    }

    /** line_tree_delete as written: nothing happens when no node is found; otherwise the
        found node (which has no left child) is replaced by its right child, whose offset
        grows by the removed node's offset minus one in u64 arithmetic. The branches for a
        found node with a left child cannot be reached. */
    method Delete(a: nat) returns (deleted: bool)
      requires Valid()
      modifies this
      ensures Valid()
      ensures deleted == Found(old(Abs()), a)
      ensures Abs() == LineTreeSpec.Delete(old(Abs()), a)
    {
      ghost var t0 := Abs();
      var z, qz := FindNodeAtOffset(a);
      if z == NIL {
        DeleteUnfound(t0, a);
        return false;
      }
      if left[z] == NIL {
        Kids(qz);
        Here(qz);
        var zr := right[z];
        var o := byteOffset[z];
        if zr == NIL {
          Leaves(qz + [true]);
        } else {
          Here(qz + [true]);
        }
        Unlink(z, qz);
        if zr != NIL {
          ghost var d := (byteOffset[zr] + o - 1) % U64 - byteOffset[zr];
          SetOffset(zr, (byteOffset[zr] + o - 1) % U64, qz);
          SpliceInTwoSteps(t0, qz, Subtree(t0, qz + [true]), o, d);
        }
        DeleteIsReplace(t0, a);
      } else {
        assert false;
      }
      deleted := true;
    }

    /** The pointer half of line_tree_delete: z, the node at qz, has no left child and
        transplant puts its right child in its place. Offsets are not touched. */
    method Unlink(z: int, ghost qz: seq<bool>)
      requires Valid() && 0 <= z < |left| && IdAt(shape, qz) == z && left[z] == NIL
      modifies this
      ensures Valid() && byteOffset == old(byteOffset) && totalLines == old(totalLines)
      ensures IdAt(shape, qz) == old(right[z])
      ensures Abs() == ReplaceAt(old(Abs()), qz, Subtree(old(Abs()), qz + [true]))
    {
      Kids(qz);
      assert qz[..|qz|] == qz;
      Climb(qz, |qz|);
      ghost var s0, l0, r0, p0 := shape, left, right, parent;
      var zr := right[z];
      Transplant(z, zr);
      LinkedBounded(s0, NIL, l0, r0, p0);
      SpliceLinked(s0, qz, SubAt(s0, qz + [true]), l0, r0, p0, left, right, parent);
      SpliceAbs(s0, qz, byteOffset, totalLines);
      shape := Replace(s0, qz, SubAt(s0, qz + [true]));
    }

    /** Storing o as the byte offset of the node at q moves that node of the value tree
        by the difference and changes nothing else. */
    method SetOffset(n: int, o: nat, ghost q: seq<bool>)
      requires Valid() && IdAt(shape, q) == n && n != NIL
      modifies this
      ensures Valid() && 0 <= n < |byteOffset| == |old(byteOffset)| && byteOffset == old(byteOffset)[n := o]
      ensures shape == old(shape) && root == old(root) && left == old(left) && right == old(right)
      ensures parent == old(parent) && totalLines == old(totalLines)
      ensures Abs() == AddAt(old(Abs()), q, o - old(byteOffset[n]), 0)
    {
      Slot(q);
      ghost var d := o - byteOffset[n];
      ghost var bo1: seq<int>, tl1: seq<int> := byteOffset, totalLines;
      AddedAt(q, d, 0);
      assert tl1[n := tl1[n] + 0] == tl1;
      byteOffset := byteOffset[n := o];
      assert byteOffset == bo1[n := bo1[n] + d];
    }

    /** find_offset_parent_node: the last node the descent visits (null on an empty tree)
        and the remaining offset recorded there, which decides the last turn. */
    method FindOffsetParentNode(a: nat) returns (par: int, last: nat, ghost q: seq<bool>)
      requires Valid()
      ensures q == SearchPath(Abs(), a) && last == LastRemVia(Abs(), a, 0) && Reaches(shape, q)
      ensures par == (if q == [] then NIL else IdAt(shape, Init(q)))
    {
      last := 0;
      var rem: nat := a;
      par := NIL;
      var cur := root;
      q := [];
      DescentStart(a);
      while cur != NIL
        invariant Descent(a, q, cur, par, rem, last)
        decreases |SearchPath(Subtree(Abs(), q), rem)|
      {
        DescentAdvance(a, q, cur, par, rem, last);
        last := rem;
        par := cur;
        if rem > byteOffset[cur] {
          rem := rem - byteOffset[cur];
          cur := right[cur];
          q := q + [true];
        } else {
          cur := left[cur];
          q := q + [false];
        }
      }
      DescentDone(a, q, par, rem, last);
    }

    /** The last turn of the search for a is to the right exactly when the offset left over
        on reaching the parent slot exceeds that slot's byte offset. */
    lemma {:induction false} ParentTurn(a: int, q: seq<bool>, par: int, last: int)
      requires Valid() && q == SearchPath(Abs(), a) && q != []
      requires par == IdAt(shape, Init(q)) && last == LastRemVia(Abs(), a, 0)
      ensures 0 <= par < |byteOffset| && (q[|q| - 1] <==> last > byteOffset[par])
    {
      LastTurn(Abs(), a, 0);
      LinkedBounded(shape, NIL, left, right, parent);
      AbsSub(shape, Init(q), byteOffset, totalLines);
      CellReaches(shape, Init(q));
      At(Init(q));
    }

    /** line_tree_propagate_increment_at_byte: every line break at or after byte a moves
        up by v (Shift, whose meaning on absolute offsets is LineTreeSpec.ShiftOffsets). */
    method IncrementAtByte(a: nat, v: nat)
      requires Valid()
      modifies this
      ensures Valid()
      ensures Abs() == Shift(old(Abs()), a, v)
    {
      ghost var t0 := Abs();
      var par, last, q := FindOffsetParentNode(a);
      ShiftIsBump(t0, a, v);
      if par == NIL {
        if q != [] {
          ReachesInit(shape, q);
        }
        return;
      }
      ReachesInit(shape, q);
      ParentTurn(a, q, par, last);
      assert q[..|q| - 1] == Init(q);
      BumpIdentity(t0, q, |q|, v, 0);
      BumpStep(t0, q, |q|, v, 0);
      BumpCompose(t0, q, |q| - 1, v, 0);
      if last <= byteOffset[par] {
        SetOffset(par, byteOffset[par] + v, Init(q));
      }
      PropagateIncrement(par, v, 0, Init(q));
    }

    /** line_tree_propagate_decrement_at_byte: every line break at or after byte a moves
        down by v. Offsets are u64, so no node may go below zero. */
    method DecrementAtByte(a: nat, v: nat)
      requires Valid()
      requires NonNeg(Shift(Abs(), a, -(v as int)))
      modifies this
      ensures Valid()
      ensures Abs() == Shift(old(Abs()), a, -(v as int))
    {
      ghost var t0 := Abs();
      var par, last, q := FindOffsetParentNode(a);
      ShiftIsBump(t0, a, -(v as int));
      if par == NIL {
        if q != [] {
          ReachesInit(shape, q);
        }
        return;
      }
      ReachesInit(shape, q);
      Here(Init(q));
      ParentTurn(a, q, par, last);
      assert q[..|q| - 1] == Init(q);
      BumpIdentity(t0, q, |q|, -(v as int), 0);
      BumpStep(t0, q, |q|, -(v as int), 0);
      BumpCompose(t0, q, |q| - 1, -(v as int), 0);
      if last <= byteOffset[par] {
        NoUnderflow(t0, q, |q|, v, 0);
        SetOffset(par, byteOffset[par] - v, Init(q));
      }
      PropagateDecrement(par, v, 0, Init(q));
    }
  }

  /** The one subtraction propagate_decrement makes at depth j - 1 does not go below zero
      when the whole walk does not. */
  lemma {:induction false} NoUnderflow(t: Tree, q: seq<bool>, j: nat, bytes: nat, lines: nat)
    requires 0 < j <= |q| && !q[j - 1]
    requires Subtree(t, q[..j - 1]).Node?
    requires NonNeg(BumpFrom(t, q, 0, -(bytes as int), -(lines as int)))
    ensures var u := Subtree(BumpFrom(t, q, j, -(bytes as int), -(lines as int)), q[..j - 1]);
      u.Node? && u.offset >= bytes && u.lines >= lines
  {
    BumpNode(t, q, j, j - 1, -(bytes as int), -(lines as int));
    BumpNode(t, q, 0, j - 1, -(bytes as int), -(lines as int));
    NonNegSubtree(BumpFrom(t, q, 0, -(bytes as int), -(lines as int)), q[..j - 1]);
  }

  /** Hanging a fresh slot n below the node above qa keeps the pointers consistent. */
  lemma {:induction false} AttachLinked(s: Shape, qa: seq<bool>, n: nat, l: seq<int>, r: seq<int>, p: seq<int>,
                      l2: seq<int>, r2: seq<int>, p2: seq<int>)
    requires Linked(s, NIL, l, r, p) && Distinct(s) && Reaches(s, qa) && qa != []
    requires |l| == |r| == |p| == n && |l2| == |r2| == |p2| == n + 1
    requires SubAt(s, Init(qa)).Cell?
    requires var P := IdAt(s, Init(qa));
      0 <= P < n && p2 == p + [P]
      && l2 == (if qa[|qa| - 1] then l + [NIL] else (l + [NIL])[P := n])
      && r2 == (if qa[|qa| - 1] then (r + [NIL])[P := n] else r + [NIL])
    ensures Linked(Replace(s, qa, Cell(n, Nil, Nil)), NIL, l2, r2, p2)
    ensures Distinct(Replace(s, qa, Cell(n, Nil, Nil)))
  {
    var P := IdAt(s, Init(qa));
    LinkedBounded(s, NIL, l, r, p);
    BoundedIds(s, n);
    IdsSubAt(s, Init(qa));
    assert P in Ids(s);
    SubAtSnoc(s, Init(qa), qa[|qa| - 1]);
    assert Init(qa) + [qa[|qa| - 1]] == qa;
    NodeFacts(s, NIL, Init(qa), l, r, p, l, r);
    ReplaceLinked(s, NIL, qa, Cell(n, Nil, Nil), P, l, r, p, l2, r2, p2);
    ReplaceDistinct(s, qa, Cell(n, Nil, Nil));
  }

  /** A slot with no children is a leaf below par. */
  lemma Leaf(n: nat, par: int, l: seq<int>, r: seq<int>, p: seq<int>, bo: seq<int>, tl: seq<int>)
    requires n < |l| && n < |r| && n < |p| && n < |bo| && n < |tl|
    requires l[n] == NIL && r[n] == NIL && p[n] == par
    ensures Linked(Cell(n, Nil, Nil), par, l, r, p) && Distinct(Cell(n, Nil, Nil))
    ensures AbsOf(Cell(n, Nil, Nil), bo, tl) == Node(bo[n], tl[n], Empty, Empty)
  {
  }

  /** The value tree after line_tree_insert hangs a new slot n at qa. */
  lemma {:induction false} AttachAbs(s: Shape, qa: seq<bool>, n: nat, rem: int, bo: seq<int>, tl: seq<int>, bo2: seq<int>, tl2: seq<int>)
    requires Distinct(s) && Reaches(s, qa) && Bounded(s, n) && Bounded(s, |bo|) && Bounded(s, |tl|)
    requires |bo| == |tl| == n && bo2 == bo + [rem] && tl2 == tl + [1]
    ensures var s2 := Replace(s, qa, Cell(n, Nil, Nil));
      Bounded(s2, |bo2|) && Bounded(s2, |tl2|)
      && AbsOf(s2, bo2, tl2) == ReplaceAt(AbsOf(s, bo, tl), qa, Node(rem, 1, Empty, Empty))
  {
    var x := Cell(n, Nil, Nil);
    BoundedIds(s, n);
    BoundedIds(s, n + 1);
    BoundedReplace(s, qa, x, n + 1);
    AbsReplace(s, qa, x, bo, tl, bo2, tl2);
  }

  /** Replacing the node at qz, which has no left child, by its right child keeps the
      pointers consistent once transplant has rewired them. */
  lemma {:induction false} SpliceLinked(s: Shape, qz: seq<bool>, R: Shape, l: seq<int>, r: seq<int>, p: seq<int>,
                     l2: seq<int>, r2: seq<int>, p2: seq<int>)
    requires Linked(s, NIL, l, r, p) && Distinct(s) && IdAt(s, qz) != NIL && R == SubAt(s, qz + [true])
    requires |l| == |r| == |p| == |l2| == |r2| == |p2|
    requires var zr := IdAt(s, qz + [true]); var P := if qz == [] then NIL else IdAt(s, Init(qz));
      (qz != [] ==> 0 <= P < |l|) && (zr == NIL || 0 <= zr < |p|)
      && (forall k :: 0 <= k < |p| && k != zr ==> p2[k] == p[k])
      && (zr != NIL ==> p2[zr] == P)
      && (forall k :: 0 <= k < |l| && k != P ==> l2[k] == l[k] && r2[k] == r[k])
      && (qz != [] ==>
            l2[P] == (if qz[|qz| - 1] then l[P] else zr) && r2[P] == (if qz[|qz| - 1] then zr else r[P]))
    ensures Linked(Replace(s, qz, R), NIL, l2, r2, p2) && Distinct(Replace(s, qz, R))
  {
    var z := IdAt(s, qz);
    var P := if qz == [] then NIL else IdAt(s, Init(qz));
    CellReaches(s, qz);
    LinkedBounded(s, NIL, l, r, p);
    BoundedIds(s, |l|);
    IdsSubAt(s, qz);
    SubAtSnoc(s, qz, true);
    assert Ids(R) <= Ids(SubAt(s, qz));
    assert Init(qz + [true]) == qz;
    LinkedSub(s, NIL, qz + [true], l, r, p);
    DistinctSub(s, qz + [true]);
    if qz != [] {
      ParentOutside(s, qz);
    }
    LinkedReparent(R, z, P, P, l, r, p, l2, r2, p2);
    ReplaceLinked(s, NIL, qz, R, P, l, r, p, l2, r2, p2);
    ReplaceDistinct(s, qz, R);
  }

  /** The value tree after the splice has the right subtree of the node at qz in its
      place. */
  lemma {:induction false} SpliceAbs(s: Shape, qz: seq<bool>, bo: seq<int>, tl: seq<int>)
    requires Distinct(s) && Bounded(s, |bo|) && Bounded(s, |tl|) && IdAt(s, qz) != NIL
    ensures var s2 := Replace(s, qz, SubAt(s, qz + [true]));
      Bounded(s2, |bo|) && Bounded(s2, |tl|) && IdAt(s2, qz) == IdAt(s, qz + [true])
      && AbsOf(s2, bo, tl) == ReplaceAt(AbsOf(s, bo, tl), qz, Subtree(AbsOf(s, bo, tl), qz + [true]))
  {
    var R := SubAt(s, qz + [true]);
    AbsSub(s, qz + [true], bo, tl);
    CellReaches(s, qz);
    BoundedReplace(s, qz, R, |bo|);
    BoundedReplace(s, qz, R, |tl|);
    AbsReplace(s, qz, R, bo, tl, bo, tl);
    SubAtReplace(s, qz, R);
  }

  /** The search path so far grows by the turn just taken. */
  lemma PathCarry(p: seq<bool>, d: bool, rest: seq<bool>, rest2: seq<bool>, whole: seq<bool>)
    requires whole == p + rest && rest == [d] + rest2
    ensures whole == p + [d] + rest2 && |rest2| < |rest|
  {
  }

  lemma SnocAssoc(q: seq<bool>, sp: seq<bool>, d: bool)
    ensures q + (sp + [d]) == q + sp + [d]
  {
  }
}
