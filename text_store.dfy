/** The growable byte buffer of src/text_buffer_ascii.c: `data` holds `capacity` bytes of
    which the first `size` are the text. Insert and delete move the tail in place; the
    line queries scan the bytes. Every method is proved against the functions of Text. */
module TextStore {
  import opened SeqUtil
  import opened Text

  /** TEXT_BUFFER_CAPACITY, the capacity a new buffer starts with. */
  const InitialCapacity: nat := 4096

  class TextBuffer {
    var data: array<bv8>
    var size: nat
    var capacity: nat

    ghost predicate Valid()
      reads this
    {
      data.Length == capacity && 0 < capacity && size <= capacity
    }

    /** The text: the first size bytes. */
    ghost function Contents(): seq<bv8>
      reads this, data
      requires Valid()
    {
      data[..size]
    }

    /** text_buffer_create: empty, with room for 4096 bytes. */
    constructor ()
      ensures Valid() && Contents() == [] && capacity == InitialCapacity
      ensures fresh(data)
    {
      size := 0;
      capacity := InitialCapacity;
      data := new bv8[InitialCapacity];
    }

    /** text_buffer_grow: twice the room, the text kept (realloc copies the old bytes). */
    method Grow()
      requires Valid()
      modifies this
      ensures Valid() && fresh(data)
      ensures capacity == 2 * old(capacity) && size == old(size)
      ensures Contents() == old(Contents())
    {
      var newCapacity := capacity * 2;
      var d := new bv8[newCapacity];
      var i := 0;
      while i < capacity
        invariant 0 <= i <= capacity
        invariant forall k :: 0 <= k < i ==> d[k] == data[k]
        modifies d
      {
        d[i] := data[i];
        i := i + 1;
      }
      data := d;
      capacity := newCapacity;
    }

    /** text_buffer_size. */
    function Size(): (n: nat)
      reads this, data
      requires Valid()
      ensures n == |Contents()|
    {
      size
    }

    /** text_buffer_insert: past the end it refuses; otherwise the bytes from index on
        move up one place and the low byte of code goes in at index, growing the buffer
        when it is full. */
    method Insert(index: nat, code: nat) returns (ok: bool)
      requires Valid()
      modifies this, data
      ensures Valid()
      ensures ok == (index <= old(size))
      ensures ok ==> size == old(size) + 1 && Contents() == Inserted(old(Contents()), index, ByteOf(code))
      ensures !ok ==> size == old(size) && Contents() == old(Contents())
    {
      if index > size {
        return false;
      }
      var newSize := size + 1;
      if newSize > capacity {
        Grow();
      }
      assert newSize <= capacity;
      ghost var c := data[..size];
      OpenGap(index);
      data[index] := ByteOf(code);
      size := newSize;
      InsertedPointwise(c, index, ByteOf(code), data[..size]);
      return true;
    }

    /** memmove(data + index + 1, data + index, size - index): the bytes from index on
        move up one place. */
    method OpenGap(index: nat)
      requires index <= size < data.Length
      modifies data
      ensures forall k :: 0 <= k < index ==> data[k] == old(data[k])
      ensures forall k :: index < k <= size ==> data[k] == old(data[k - 1])
    {
      var j := size;
      while j > index
        invariant index <= j <= size
        invariant forall k :: 0 <= k <= j ==> data[k] == old(data[k])
        invariant forall k :: j < k <= size ==> data[k] == old(data[k - 1])
      {
        data[j] := data[j - 1];
        j := j - 1;
      }
    }

    /** text_buffer_delete: refuses on an empty buffer or past the last byte; otherwise
        the bytes after index move down one place. */
    method Delete(index: nat) returns (ok: bool)
      requires Valid()
      modifies data, this
      ensures Valid() && data == old(data) && capacity == old(capacity)
      ensures ok == (old(size) != 0 && index < old(size))
      ensures ok ==> size == old(size) - 1 && Contents() == Removed(old(Contents()), index)
      ensures !ok ==> size == old(size) && Contents() == old(Contents())
    {
      if size == 0 || index >= size {
        return false;
      }
      ghost var c := data[..size];
      // memmove(data + index, data + index + 1, size - (index + 1))
      var j := index;
      while j < size - 1
        invariant index <= j <= size - 1
        invariant forall k :: 0 <= k < index ==> data[k] == c[k]
        invariant forall k :: index <= k < j ==> data[k] == c[k + 1]
        invariant forall k :: j <= k < size ==> data[k] == c[k]
        modifies data
      {
        data[j] := data[j + 1];
        j := j + 1;
      }
      size := size - 1;
      RemovedPointwise(c, index, data[..size]);
      return true;
    }

    /** text_buffer_get: the byte at index as a u32 code. */
    function Get(index: nat): (code: nat)
      reads this, data
      requires Valid() && index < |Contents()|
      ensures code == CodeOf(Contents()[index])
    {
      CodeOf(data[index])
    }

    /** text_buffer_line_index: counts breaks from the front and stops at the first byte
        of line `line`, or at the end when the line starts there. */
    method LineIndex(line: nat) returns (found: bool, index: nat)
      requires Valid()
      ensures found == LineStart(Contents(), line).Some?
      ensures found ==> index == LineStart(Contents(), line).value
    {
      ghost var s := Contents();
      var currLine := 0;
      var i := 0;
      while i < size
        invariant 0 <= i <= size
        invariant currLine == |Breaks(s[..i])| && currLine <= line
        invariant currLine == line ==> (line == 0 && i == 0) || (0 < i && s[i - 1] == NL)
      {
        if line == currLine {
          StartHere(s, i, line);
          return true, i;
        }
        BreaksSnoc(s, i);
        if data[i] == NL {
          currLine := currLine + 1;
          if currLine > line {
            // the code returns false here; the check at the top of the loop has
            // already returned before the count can pass line
            assert false;
          }
        }
        i := i + 1;
      }
      assert s[..i] == s;
      if line == currLine {
        StartHere(s, i, line);
        return true, size;
      }
      return false, 0;
    }

    /** text_buffer_line: where line `line` starts and how many bytes it has before the
        next '\n' or the end, counted in a u32. */
    method Line(line: nat) returns (found: bool, index: nat, lineSize: nat)
      requires Valid()
      ensures found == LineOf(Contents(), line).Some?
      ensures found ==> Span(index, lineSize) == LineOf(Contents(), line).value
    {
      found, index := LineIndex(line);
      lineSize := 0;
      if !found {
        return;
      }
      ghost var s := Contents();
      var n := 0;
      var i := index;
      while i < size
        invariant index <= i <= size
        invariant n == (i - index) % U32
        invariant LineLength(s, index) == (i - index) + LineLength(s, i)
      {
        if data[i] == NL {
          break;
        }
        CountStep(i - index);
        n := (n + 1) % U32;
        i := i + 1;
      }
      lineSize := n;
    }
  }

  /** The loop of text_buffer_line_index stops at i with `line` breaks behind it, the last
      one at i - 1: there line `line` starts. */
  lemma {:induction false} StartHere(s: seq<bv8>, i: nat, line: nat)
    requires i <= |s| && |Breaks(s[..i])| == line
    requires (line == 0 && i == 0) || (0 < i && s[i - 1] == NL)
    ensures LineStart(s, line) == Some(i)
  {
    if line > 0 {
      var p := s[..i];
      assert p[..i - 1] == s[..i - 1];
      assert Breaks(p) == Breaks(p[..i - 1]) + [i - 1];
      BreaksCut(s, i);
    }
  }
}
