/** The editing state of src/main.c: a cursor (col, row, last_col) that the arrow keys
    move over the text by asking the text store for lines, and the scan that fills the
    line tree with one node per '\n' of a file. */
module Editor {
  import opened SeqUtil
  import opened Text
  import opened TextStore
  import LineTreeSpec
  import LineIndex

  /** The three u32 fields of a Cursor. */
  datatype Pos = Pos(col: u32, row: u32, lastCol: u32)

  function Min(a: int, b: int): int {
    if a < b then a else b
  }

  /** What the asserts of cursor_get_index demand: row is a line of the text and col lies
      within it. */
  predicate OnText(p: Pos, s: seq<bv8>) {
    LineOf(s, p.row).Some? && p.col <= LineOf(s, p.row).value.size
  }

  /** cursor_get_index: the start of the cursor's line plus col, a position in the text or
      just past its end. */
  function Index(p: Pos, s: seq<bv8>): (i: nat)
    requires OnText(p, s)
    ensures LineStart(s, p.row).value <= i <= |s|
  {
    var k := LineOf(s, p.row).value.start;
    ModAtMost(LineLength(s, k));
    k + p.col
  }

  lemma {:induction false} ModAtMost(x: nat)
    ensures x % U32 <= x
  {
  }

  /** cursor_move_right: over a '\n' to the start of the next row, else one column on;
      last_col follows col. At the end of the text nothing moves. */
  function Right(p: Pos, s: seq<bv8>): (bool, Pos)
    requires OnText(p, s)
  {
    var i := Index(p, s);
    if i < |s| then
      var q := if CodeOf(s[i]) == 10 then p.(row := (p.row + 1) % U32, col := 0)
               else p.(col := (p.col + 1) % U32);
      (true, q.(lastCol := q.col))
    else (false, p)
  }

  /** cursor_move_left: one column back, or from column 0 to the end of the row above
      (when text_buffer_line finds it); last_col follows col. At byte 0 nothing moves. */
  function Left(p: Pos, s: seq<bv8>): (bool, Pos)
    requires OnText(p, s)
  {
    if Index(p, s) > 0 then
      var up := (p.row + U32 - 1) % U32;
      var q := if p.col > 0 then p.(col := p.col - 1)
               else match LineOf(s, up)
                 case Some(l) => p.(col := l.size, row := up)
                 case None => p;
      (true, q.(lastCol := q.col))
    else (false, p)
  }

  /** cursor_move_up: to the row above, at last_col or that row's end if it is shorter. */
  function Up(p: Pos, s: seq<bv8>): (r: (bool, Pos))
    ensures r.0 ==> OnText(r.1, s)
    ensures !r.0 ==> r.1 == p
    ensures OnText(p, s) ==> (r.0 <==> p.row > 0)
  {
    if p.row == 0 then (false, p)
    else match LineOf(s, p.row - 1)
      case None => (false, p)
      case Some(l) => (true, p.(row := p.row - 1, col := Min(p.lastCol, l.size)))
  }

  /** cursor_move_down: to the row below when there is one, at last_col or that row's end
      if it is shorter. */
  function Down(p: Pos, s: seq<bv8>): (r: (bool, Pos))
    ensures r.0 ==> OnText(r.1, s)
    ensures !r.0 ==> r.1 == p
    ensures p.row + 1 < U32 ==> (r.0 <==> p.row < |Breaks(s)|)
  {
    BreaksExact(s);
    var down := (p.row + 1) % U32;
    match LineOf(s, down)
    case None => (false, p)
    case Some(l) => (true, p.(row := down, col := Min(p.lastCol, l.size)))
  }

  /** A row ends before the next one starts, so positions on a lower row come first. */
  lemma {:induction false} RowsOrdered(p: Pos, q: Pos, s: seq<bv8>)
    requires OnText(p, s) && OnText(q, s)
    ensures p.row < q.row ==> Index(p, s) < Index(q, s)
  {
    if p.row < q.row {
      var k := LineStart(s, p.row).value;
      LineEnd(s, p.row);
      ModAtMost(LineLength(s, k));
      BreaksExact(s);
      assert Breaks(s)[q.row - 1] >= Breaks(s)[p.row];
    }
  }

  /** The index determines row and column. */
  lemma {:induction false} IndexDetermines(p: Pos, q: Pos, s: seq<bv8>)
    requires OnText(p, s) && OnText(q, s) && Index(p, s) == Index(q, s)
    ensures p.row == q.row && p.col == q.col
  {
    RowsOrdered(p, q, s);
    RowsOrdered(q, p, s);
  }

  /** cursor_move_right moves exactly when the cursor is before the end of the text, and
      then one byte on, staying on the text. */
  lemma {:induction false} RightStep(p: Pos, s: seq<bv8>)
    requires OnText(p, s) && |s| < U32
    ensures Right(p, s).0 == (Index(p, s) < |s|)
    ensures Right(p, s).0 ==> OnText(Right(p, s).1, s) && Index(Right(p, s).1, s) == Index(p, s) + 1
    ensures Right(p, s).0 ==> Right(p, s).1.lastCol == Right(p, s).1.col
  {
    var i := Index(p, s);
    var k := LineStart(s, p.row).value;
    LineFits(s, k);
    if i < |s| {
      if s[i] == NL {
        NewlineStep(s, p.row, p.col);
        BreaksExact(s);
        FitsU32(p.row + 1);
        var q := Pos(0, p.row + 1, 0);
        assert Right(p, s) == (true, q);
        assert Index(q, s) == i + 1;
      } else {
        assert p.col < LineLength(s, k);
        FitsU32(p.col + 1);
        var q := Pos(p.col + 1, p.row, p.col + 1);
        assert Right(p, s) == (true, q);
        assert Index(q, s) == i + 1;
      }
    }
  }

  /** In a text shorter than 2^32 bytes a line's length fits the u32 counter. */
  lemma {:induction false} LineFits(s: seq<bv8>, k: nat)
    requires k <= |s| < U32
    ensures LineLength(s, k) % U32 == LineLength(s, k)
  {
    FitsU32(LineLength(s, k));
  }

  /** The '\n' a cursor can stand on is the one that ends its row; the next row starts
      right after it. */
  lemma {:induction false} NewlineStep(s: seq<bv8>, r: nat, c: nat)
    requires LineStart(s, r).Some? && c <= LineLength(s, LineStart(s, r).value)
    requires LineStart(s, r).value + c < |s| && s[LineStart(s, r).value + c] == NL
    ensures c == LineLength(s, LineStart(s, r).value) && r < |Breaks(s)|
    ensures LineStart(s, r + 1) == Some(LineStart(s, r).value + c + 1)
  {
    LineEnd(s, r);
  }

  /** cursor_move_left moves exactly when the cursor is past byte 0, and then one byte
      back, staying on the text. */
  lemma {:induction false} LeftStep(p: Pos, s: seq<bv8>)
    requires OnText(p, s) && |s| < U32
    ensures Left(p, s).0 == (Index(p, s) > 0)
    ensures Left(p, s).0 ==> OnText(Left(p, s).1, s) && Index(Left(p, s).1, s) + 1 == Index(p, s)
    ensures Left(p, s).0 ==> Left(p, s).1.lastCol == Left(p, s).1.col
  {
    if Index(p, s) > 0 && p.col == 0 {
      LeftOverBreak(p, s);
    }
  }

  /** From column 0 the cursor moves onto the '\n' that ends the row above. */
  lemma {:induction false} LeftOverBreak(p: Pos, s: seq<bv8>)
    requires OnText(p, s) && |s| < U32 && Index(p, s) > 0 && p.col == 0
    ensures p.row > 0 && LineStart(s, p.row - 1).Some?
    ensures var L := LineLength(s, LineStart(s, p.row - 1).value);
      L < U32 && Left(p, s) == (true, Pos(L, p.row - 1, L))
    ensures OnText(Left(p, s).1, s) && Index(Left(p, s).1, s) + 1 == Index(p, s)
  {
    var up := p.row - 1;
    assert (p.row + U32 - 1) % U32 == up;
    PreviousLineEnd(s, p.row);
    var k := LineStart(s, up).value;
    LineFits(s, k);
  }

  /** The row above row r > 0 ends with the '\n' just before row r starts. */
  lemma {:induction false} PreviousLineEnd(s: seq<bv8>, r: nat)
    requires LineStart(s, r).Some? && r > 0
    ensures LineStart(s, r - 1).Some?
    ensures LineStart(s, r - 1).value + LineLength(s, LineStart(s, r - 1).value) + 1 == LineStart(s, r).value
  {
    LineEnd(s, r - 1);
  }

  /** A successful move right followed by a move left returns to the same place. */
  lemma {:induction false} RightThenLeft(p: Pos, s: seq<bv8>)
    requires OnText(p, s) && |s| < U32 && Right(p, s).0
    ensures OnText(Right(p, s).1, s) && Left(Right(p, s).1, s) == (true, p.(lastCol := p.col))
  {
    var q := Right(p, s).1;
    RightStep(p, s);
    LeftStep(q, s);
    IndexDetermines(Left(q, s).1, p, s);
  }

  /** A successful move left followed by a move right returns to the same place. */
  lemma {:induction false} LeftThenRight(p: Pos, s: seq<bv8>)
    requires OnText(p, s) && |s| < U32 && Left(p, s).0
    ensures OnText(Left(p, s).1, s) && Right(Left(p, s).1, s) == (true, p.(lastCol := p.col))
  {
    var q := Left(p, s).1;
    LeftStep(p, s);
    RightStep(q, s);
    IndexDetermines(Right(q, s).1, p, s);
  }

  /** Up and then down comes back to the row, at last_col as far as the row allows. */
  lemma {:induction false} UpThenDown(p: Pos, s: seq<bv8>)
    requires OnText(p, s) && p.row > 0
    ensures Up(p, s).0
    ensures Down(Up(p, s).1, s) == (true, p.(col := Min(p.lastCol, LineOf(s, p.row).value.size)))
  {
    assert (p.row - 1 + 1) % U32 == p.row;
  }

  /** Down and then up comes back to the row, at last_col as far as the row allows. */
  lemma {:induction false} DownThenUp(p: Pos, s: seq<bv8>)
    requires OnText(p, s) && Down(p, s).0 && p.row + 1 < U32
    ensures Up(Down(p, s).1, s) == (true, p.(col := Min(p.lastCol, LineOf(s, p.row).value.size)))
  {
    assert (p.row + 1) % U32 == p.row + 1;
  }

  /** At row 2^32 - 1 the u32 row + 1 of cursor_move_down wraps to row 0, which always
      exists, so the move down succeeds and the move up after it fails. */
  lemma {:induction false} DownThenUpWraps(p: Pos, s: seq<bv8>)
    requires p.row == U32 - 1
    ensures Down(p, s).0 && Down(p, s).1.row == 0
    ensures !Up(Down(p, s).1, s).0
  {
  }

  /** The Cursor record, moved in place by the cursor_move_* functions. */
  class Cursor {
    var col: u32
    var row: u32
    var lastCol: u32

    function State(): Pos
      reads this
    {
      Pos(col, row, lastCol)
    }

    constructor ()
      ensures State() == Pos(0, 0, 0)
    {
      col, row, lastCol := 0, 0, 0;
    }

    /** cursor_get_index. */
    method GetIndex(text: TextBuffer) returns (i: nat)
      requires text.Valid() && OnText(State(), text.Contents())
      ensures i == Index(State(), text.Contents())
    {
      var found, start, size := text.Line(row);
      i := start + col;
    }

    /** cursor_move_right. */
    method MoveRight(text: TextBuffer) returns (moved: bool)
      requires text.Valid() && OnText(State(), text.Contents())
      modifies this
      ensures (moved, State()) == Right(old(State()), text.Contents())
    {
      var index := GetIndex(text);
      var size := text.Size();
      if index < size {
        var code := text.Get(index);
        if code == 10 {
          row := (row + 1) % U32;
          col := 0;
        } else {
          col := (col + 1) % U32;
        }
        lastCol := col;
        return true;
      }
      return false;
    }

    /** cursor_move_left. */
    method MoveLeft(text: TextBuffer) returns (moved: bool)
      requires text.Valid() && OnText(State(), text.Contents())
      modifies this
      ensures (moved, State()) == Left(old(State()), text.Contents())
    {
      var index := GetIndex(text);
      if index > 0 {
        if col > 0 {
          col := col - 1;
        } else {
          var found, prevIndex, size := text.Line((row + U32 - 1) % U32);
          if found {
            col := size;
            row := (row + U32 - 1) % U32;
          }
        }
        lastCol := col;
        return true;
      }
      return false;
    }

    /** cursor_move_up. */
    method MoveUp(text: TextBuffer) returns (moved: bool)
      requires text.Valid()
      modifies this
      ensures (moved, State()) == Up(old(State()), text.Contents())
    {
      if row == 0 {
        return false;
      }
      var found, index, size := text.Line(row - 1);
      if !found {
        return false;
      }
      row := row - 1;
      col := Min(lastCol, size);
      return true;
    }

    /** cursor_move_down. */
    method MoveDown(text: TextBuffer) returns (moved: bool)
      requires text.Valid()
      modifies this
      ensures (moved, State()) == Down(old(State()), text.Contents())
    {
      var found, index, size := text.Line((row + 1) % U32);
      if !found {
        return false;
      }
      row := (row + 1) % U32;
      col := Min(lastCol, size);
      return true;
    }
  }

  // ---------------------------------------------------------------------------------
  // Loading the line tree
  // ---------------------------------------------------------------------------------

  /** Where the scan of load_line_tree_from_file stops: the first NUL at or after k (the
      file is read with a NUL after its last byte), or the end. */
  function ScanEnd(data: seq<bv8>, k: nat): (n: nat)
    requires k <= |data|
    ensures k <= n <= |data|
    ensures forall i :: k <= i < n ==> data[i] != 0
    ensures n == |data| || data[n] == 0
    decreases |data| - k
  {
    if k == |data| || data[k] == 0 then k else ScanEnd(data, k + 1)
  }

  /** The tree after line_tree_insert at each offset of xs in turn, as the u32 offset
      counter of the scan holds it. */
  function InsertEach(t: LineTreeSpec.Tree, xs: seq<nat>): LineTreeSpec.Tree {
    if xs == [] then t
    else LineTreeSpec.InsertAsWritten(InsertEach(t, xs[..|xs| - 1]), xs[|xs| - 1] % U32)
  }

  /** The scan loop of load_line_tree_from_file: an insert at the offset of every '\n'
      before the first NUL, in order. */
  method LoadLineTree(tree: LineIndex.LineTree, data: seq<bv8>)
    requires tree.Valid()
    modifies tree
    ensures tree.Valid()
    ensures tree.Abs() == InsertEach(old(tree.Abs()), Breaks(data[..ScanEnd(data, 0)]))
  {
    ghost var t0 := tree.Abs();
    var offset: u32 := 0;
    var i := 0;
    while i < |data| && data[i] != 0
      invariant i <= |data| && ScanEnd(data, i) == ScanEnd(data, 0)
      invariant offset == i % U32
      invariant tree.Valid()
      invariant tree.Abs() == InsertEach(t0, Breaks(data[..i]))
    {
      BreaksSnoc(data, i);
      if data[i] == NL {
        InsertEachSnoc(t0, Breaks(data[..i]), i);
        tree.Insert(offset);
      } else {
        assert Breaks(data[..i]) + [] == Breaks(data[..i]);
      }
      CountStep(i);
      offset := (offset + 1) % U32;
      i := i + 1;
    }
  }

  lemma {:induction false} InsertEachSnoc(t: LineTreeSpec.Tree, xs: seq<nat>, x: nat)
    ensures InsertEach(t, xs + [x]) == LineTreeSpec.InsertAsWritten(InsertEach(t, xs), x % U32)
  {
    assert (xs + [x])[..|xs|] == xs;
  }

  /** Loading a file into an empty tree gives a sound line index whose offsets are exactly
      the positions of the file's line breaks, as long as the scanned part fits the u32
      offset counter. */
  lemma {:induction false} LoadFromEmpty(data: seq<bv8>)
    requires ScanEnd(data, 0) <= U32
    ensures var b := Breaks(data[..ScanEnd(data, 0)]);
      LineTreeSpec.Ordered(InsertEach(LineTreeSpec.Empty, b))
      && LineTreeSpec.Offsets(InsertEach(LineTreeSpec.Empty, b), 0) == b
  {
    var c := data[..ScanEnd(data, 0)];
    BreaksExact(c);
    InsertEachSorted(Breaks(c));
  }

  /** Inserting increasing offsets below 2^32 one after the other into an empty tree
      builds a sound index of exactly those offsets. */
  lemma {:induction false} InsertEachSorted(xs: seq<nat>)
    requires Increasing(xs) && AllBelow(xs, U32)
    ensures LineTreeSpec.Ordered(InsertEach(LineTreeSpec.Empty, xs))
    ensures LineTreeSpec.Offsets(InsertEach(LineTreeSpec.Empty, xs), 0) == xs
  {
    if xs != [] {
      var init, x := xs[..|xs| - 1], xs[|xs| - 1];
      assert xs == init + [x];
      IncreasingAppend(init, [x]);
      InsertEachSorted(init);
      var t := InsertEach(LineTreeSpec.Empty, init);
      assert x < U32 && AllBelow(init, x);
      FitsU32(x);
      LineTreeSpec.InsertAsWrittenAgrees(t, x);
      assert InsertEach(LineTreeSpec.Empty, xs) == LineTreeSpec.Insert(t, x);
      LineTreeSpec.InsertPastAll(t, x);
    }
  }
}
