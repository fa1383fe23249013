/** The bytes of a text buffer as a value, and what the scans of src/text_buffer_ascii.c
    read off them: the positions of the line breaks, where line k starts and how many
    bytes long it is. */
module Text {
  import opened SeqUtil

  const NL: bv8 := 10

  /** `(char)code`: the low eight bits of the code. */
  function ByteOf(code: nat): bv8 {
    (code % 256) as bv8
  }

  /** `(u32)c` for a signed char c: the bytes from 128 up are negative and sign-extend. */
  function CodeOf(b: bv8): (c: nat)
    ensures c < U32
    ensures (c == 10) == (b == NL)
  {
    if b < 128 then b as nat else b as nat + U32 - 256
  }

  /** Codes below 128 survive being stored as a char and read back. */
  lemma {:induction false} CodeOfByteOf(code: nat)
    requires code < 128
    ensures CodeOf(ByteOf(code)) == code
  {
  }

  /** The position of every '\n', in order. */
  function Breaks(s: seq<bv8>): seq<nat> {
    if s == [] then [] else Breaks(s[..|s| - 1]) + (if s[|s| - 1] == NL then [|s| - 1] else [])
  }

  /** Breaks lists exactly the positions of the '\n' bytes, in increasing order. */
  lemma {:induction false} BreaksExact(s: seq<bv8>)
    ensures forall i :: 0 <= i < |Breaks(s)| ==> Breaks(s)[i] < |s| && s[Breaks(s)[i]] == NL
    ensures forall i :: 0 <= i < |s| && s[i] == NL ==> i in Breaks(s)
    ensures Increasing(Breaks(s))
    ensures |Breaks(s)| <= |s|
  {
    if s != [] {
      var p := s[..|s| - 1];
      BreaksExact(p);
      assert forall i :: 0 <= i < |p| ==> p[i] == s[i];
      var B, e := Breaks(p), if s[|s| - 1] == NL then [|s| - 1] else [];
      assert Breaks(s) == B + e;
      assert forall i :: 0 <= i < |B| ==> B[i] < |p|;
      assert forall i :: 0 <= i < |B| ==> (B + e)[i] == B[i];
    }
  }

  /** One more byte scanned: one more break when it is a '\n'. */
  lemma {:induction false} BreaksSnoc(s: seq<bv8>, i: nat)
    requires i < |s|
    ensures Breaks(s[..i + 1]) == Breaks(s[..i]) + (if s[i] == NL then [i] else [])
  {
    assert s[..i + 1][..i] == s[..i];
  }

  /** Where line `line` starts: line 0 at byte 0, line k > 0 one byte after the k-th
      '\n'; None when there are fewer breaks than that. */
  function LineStart(s: seq<bv8>, line: nat): (r: Option<nat>)
    ensures r.Some? <==> line <= |Breaks(s)|
    ensures r.Some? ==> r.value <= |s|
    ensures r.Some? && line > 0 ==> 0 < r.value && s[r.value - 1] == NL
    ensures r.Some? && line > 0 ==> r.value == Breaks(s)[line - 1] + 1
    ensures r.Some? ==> |Breaks(s[..r.value])| == line
  {
    BreaksExact(s);
    if line == 0 then Some(0)
    else if line <= |Breaks(s)| then
      BreaksPrefix(s, Breaks(s)[line - 1] + 1, line);
      Some(Breaks(s)[line - 1] + 1)
    else None
  }

  /** The breaks before byte j are the first n breaks exactly when the n-th one (counting
      from 1) sits at j - 1. */
  lemma {:induction false} BreaksPrefix(s: seq<bv8>, j: nat, n: nat)
    requires 0 < n <= |Breaks(s)| && j == Breaks(s)[n - 1] + 1
    ensures j <= |s| && |Breaks(s[..j])| == n
  {
    BreaksExact(s);
    BreaksCut(s, j);
    BreaksExact(s[..j]);
    var B := Breaks(s);
    var P := Breaks(s[..j]);
    assert forall i :: 0 <= i < |P| ==> P[i] == B[i] && P[i] < j;
    assert n < |B| ==> B[n] > B[n - 1];
  }

  /** Cutting the bytes at j keeps the breaks before j, which come first among all. */
  lemma {:induction false} BreaksCut(s: seq<bv8>, j: nat)
    requires j <= |s|
    ensures |Breaks(s[..j])| <= |Breaks(s)|
    ensures Breaks(s[..j]) == Breaks(s)[..|Breaks(s[..j])|]
    ensures forall i :: |Breaks(s[..j])| <= i < |Breaks(s)| ==> Breaks(s)[i] >= j
    decreases |s|
  {
    if j < |s| {
      var p := s[..|s| - 1];
      assert p[..j] == s[..j];
      BreaksCut(p, j);
    } else {
      assert s[..j] == s;
    }
  }

  /** How many bytes follow k up to, not including, the next '\n' or the end. */
  function LineLength(s: seq<bv8>, k: nat): (n: nat)
    requires k <= |s|
    ensures k + n <= |s|
    ensures forall i :: k <= i < k + n ==> s[i] != NL
    ensures k + n == |s| || s[k + n] == NL
    decreases |s| - k
  {
    if k == |s| || s[k] == NL then 0 else 1 + LineLength(s, k + 1)
  }

  /** Line r runs up to the r-th break (counting from 0), the last line up to the end. */
  lemma {:induction false} LineEnd(s: seq<bv8>, r: nat)
    requires LineStart(s, r).Some?
    ensures LineStart(s, r).value + LineLength(s, LineStart(s, r).value)
      == if r < |Breaks(s)| then Breaks(s)[r] else |s|
  {
    var k := LineStart(s, r).value;
    var e := k + LineLength(s, k);
    var B := Breaks(s);
    BreaksExact(s);
    BreaksCut(s, k);
    BreaksExact(s[..k]);
    assert forall i :: 0 <= i < r ==> B[i] == Breaks(s[..k])[i] && B[i] < k;
    if r < |B| {
      assert B[r] >= e;
      var m :| 0 <= m < |B| && B[m] == e;
    } else {
      assert e < |s| ==> e in B;
    }
  }

  /** What text_buffer_line reports for a line: its start, and its length as the u32
      counter holds it. */
  datatype Span = Span(start: nat, size: nat)

  /** A line exists exactly when there are at least as many breaks as its number; it
      starts after the break before it and runs up to the break after it or the end,
      its length being counted modulo 2^32. */
  function LineOf(s: seq<bv8>, line: nat): (r: Option<Span>)
    ensures r.Some? <==> line <= |Breaks(s)|
    ensures r.Some? ==> r.value.start == if line == 0 then 0 else Breaks(s)[line - 1] + 1
    ensures r.Some? ==>
      r.value.size == ((if line < |Breaks(s)| then Breaks(s)[line] else |s|) - r.value.start) % U32
  {
    match LineStart(s, line)
    case None => None
    case Some(k) =>
      LineEnd(s, line);
      Some(Span(k, LineLength(s, k) % U32))
  }

  /** The text after text_buffer_insert of byte b at i. */
  function Inserted(s: seq<bv8>, i: nat, b: bv8): (r: seq<bv8>)
    requires i <= |s|
  {
    s[..i] + [b] + s[i..]
  }

  /** The text after text_buffer_delete at i. */
  function Removed(s: seq<bv8>, i: nat): (r: seq<bv8>)
    requires i < |s|
  {
    s[..i] + s[i + 1..]
  }

  /** Inserted, byte by byte. */
  lemma {:induction false} InsertedPointwise(s: seq<bv8>, i: nat, b: bv8, d: seq<bv8>)
    requires i <= |s| && |d| == |s| + 1 && d[i] == b
    requires forall k :: 0 <= k < i ==> d[k] == s[k]
    requires forall k :: i < k < |d| ==> d[k] == s[k - 1]
    ensures d == Inserted(s, i, b)
  {
  }

  /** Removed, byte by byte. */
  lemma {:induction false} RemovedPointwise(s: seq<bv8>, i: nat, d: seq<bv8>)
    requires i < |s| && |d| + 1 == |s|
    requires forall k :: 0 <= k < i ==> d[k] == s[k]
    requires forall k :: i <= k < |d| ==> d[k] == s[k + 1]
    ensures d == Removed(s, i)
  {
  }

  /** Deleting what was just inserted gives the text back. */
  lemma {:induction false} InsertThenRemove(s: seq<bv8>, i: nat, b: bv8)
    requires i <= |s|
    ensures |Inserted(s, i, b)| == |s| + 1
    ensures Removed(Inserted(s, i, b), i) == s
  {
    var t := Inserted(s, i, b);
    assert t[..i] == s[..i] && t[i + 1..] == s[i..];
  }

  /** text_buffer_get right after inserting a code below 128 at i gives that code. */
  lemma {:induction false} GetAfterInsert(s: seq<bv8>, i: nat, code: nat)
    requires i <= |s| && code < 128
    ensures CodeOf(Inserted(s, i, ByteOf(code))[i]) == code
  {
    CodeOfByteOf(code);
  }
}
