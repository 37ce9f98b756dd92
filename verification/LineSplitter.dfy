/**
 The carry-buffer line splitter of tailAndConvert (cmd/runtime-claude-code/main.go): raw output
 arrives in arbitrary chunks, and each complete line is passed on as soon as its newline is in.
 */
module LineSplitter {
  import opened Wrappers

  const NEWLINE: bv8 := 10

  /** One newline, at the end. */
  predicate IsLine(line: Bytes) {
    line != [] && line[|line| - 1] == 10 && forall i :: 0 <= i < |line| - 1 ==> line[i] != 10
  }

  /** `lines` and `carry` cut `whole` after each of its newlines and nowhere else. */
  predicate SplitOf(whole: Bytes, lines: seq<Bytes>, carry: Bytes) {
    && (forall i :: 0 <= i < |lines| ==> IsLine(lines[i]))
    && 10 !in carry
    && Flatten(lines) + carry == whole
  }

  /** bytes.IndexByte(carry, '\n'). */
  method IndexNewline(s: Bytes) returns (idx: int)
    ensures -1 <= idx < |s|
    ensures idx == -1 <==> NEWLINE !in s
    ensures idx >= 0 ==> s[idx] == NEWLINE && forall i :: 0 <= i < idx ==> s[i] != NEWLINE
  {
    for i := 0 to |s|
      invariant forall j :: 0 <= j < i ==> s[j] != NEWLINE
    {
      if s[i] == NEWLINE {
        return i;
      }
    }
    return -1;
  }

  /** One read of the tail loop: the chunk joins the carry, complete lines are emitted. */
  method Feed(lines: seq<Bytes>, carry: Bytes, chunk: Bytes, ghost whole: Bytes)
    returns (lines': seq<Bytes>, carry': Bytes)
    requires SplitOf(whole, lines, carry)
    ensures SplitOf(whole + chunk, lines', carry')
    ensures lines <= lines'
  {
    lines', carry' := lines, carry + chunk;
    assert Flatten(lines) + (carry + chunk) == Flatten(lines) + carry + chunk;
    while true
      invariant forall i :: 0 <= i < |lines'| ==> IsLine(lines'[i])
      invariant Flatten(lines') + carry' == whole + chunk
      invariant lines <= lines'
      decreases |carry'|
    {
      var idx := IndexNewline(carry');
      if idx < 0 {
        break;
      }
      var line := carry'[..idx + 1];
      FlattenAppend(lines', line);
      assert line + carry'[idx + 1..] == carry';
      assert Flatten(lines') + line + carry'[idx + 1..] == Flatten(lines') + (line + carry'[idx + 1..]);
      lines', carry' := lines' + [line], carry'[idx + 1..];
    }
  }

  /** The tail loop over all reads: emitted lines and carry always make up the bytes read so far. */
  method TailAndConvert(chunks: seq<Bytes>) returns (lines: seq<Bytes>, carry: Bytes)
    ensures SplitOf(Flatten(chunks), lines, carry)
  {
    lines, carry := [], [];
    for i := 0 to |chunks|
      invariant SplitOf(Flatten(chunks[..i]), lines, carry)
    {
      FlattenAppend(chunks[..i], chunks[i]);
      assert chunks[..i + 1] == chunks[..i] + [chunks[i]];
      lines, carry := Feed(lines, carry, chunks[i], Flatten(chunks[..i]));
    }
    assert chunks[..|chunks|] == chunks;
  }

  lemma {:induction false} FlattenFront(lines: seq<Bytes>)
    requires lines != []
    ensures Flatten(lines) == lines[0] + Flatten(lines[1..])
    decreases |lines|
  {
    if |lines| > 1 {
      var init := lines[..|lines| - 1];
      FlattenFront(init);
      FlattenAppend(init[1..], lines[|lines| - 1]);
      assert init[1..] + [lines[|lines| - 1]] == lines[1..];
    } else {
      assert lines[..0] == [] && lines[1..] == [];
    }
  }

  /** The first line of a split is the text up to and including the first newline. */
  lemma FirstLine(whole: Bytes, lines: seq<Bytes>, carry: Bytes)
    requires SplitOf(whole, lines, carry)
    ensures lines == [] <==> NEWLINE !in whole
    ensures lines != [] ==> |lines[0]| <= |whole| && lines[0] == whole[..|lines[0]|]
                            && SplitOf(whole[|lines[0]|..], lines[1..], carry)
  {
    if lines != [] {
      FlattenFront(lines);
      var rest := Flatten(lines[1..]) + carry;
      assert whole == lines[0] + rest;
      assert whole[|lines[0]| - 1] == NEWLINE;
      assert whole[|lines[0]|..] == rest;
    }
  }

  /** A split is determined by the whole stream, not by how it was cut into reads. */
  lemma {:induction false} SplitUnique(whole: Bytes, l1: seq<Bytes>, c1: Bytes, l2: seq<Bytes>, c2: Bytes)
    requires SplitOf(whole, l1, c1) && SplitOf(whole, l2, c2)
    ensures l1 == l2 && c1 == c2
    decreases |l1|
  {
    FirstLine(whole, l1, c1);
    FirstLine(whole, l2, c2);
    if l1 == [] {
      assert [] + c1 == c1 && [] + c2 == c2;
    } else {
      var m, n := |l1[0]|, |l2[0]|;
      assert whole[m - 1] == l1[0][m - 1] == NEWLINE && whole[n - 1] == l2[0][n - 1] == NEWLINE;
      assert forall i :: 0 <= i < m - 1 ==> whole[i] == l1[0][i];
      assert forall i :: 0 <= i < n - 1 ==> whole[i] == l2[0][i];
      assert m == n;
      SplitUnique(whole[m..], l1[1..], c1, l2[1..], c2);
      assert l1 == [l1[0]] + l1[1..] && l2 == [l2[0]] + l2[1..];
    }
  }

  /** Two runs over the same stream, however it was cut, emit the same lines and the same carry. */
  lemma CutsDoNotMatter(chunks1: seq<Bytes>, chunks2: seq<Bytes>, l1: seq<Bytes>, c1: Bytes, l2: seq<Bytes>, c2: Bytes)
    requires Flatten(chunks1) == Flatten(chunks2)
    requires SplitOf(Flatten(chunks1), l1, c1) && SplitOf(Flatten(chunks2), l2, c2)
    ensures l1 == l2 && c1 == c2
  {
    SplitUnique(Flatten(chunks1), l1, c1, l2, c2);
  }

  /** The bytes of a leading white-space character in UTF-8 (unicode.IsSpace), or 0 if there is none. */
  function SpaceWidth(s: Bytes): (n: nat)
    ensures n <= |s|
  {
    if |s| >= 1 && s[0] in {9, 10, 11, 12, 13, 32} then 1
    else if |s| >= 2 && s[..2] in {[0xc2, 0x85], [0xc2, 0xa0]} then 2
    else if |s| >= 3 && IsWideSpace(s[0], s[1], s[2]) then 3
    else 0
  }

  /** U+1680, U+2000 to U+200A, U+2028, U+2029, U+202F, U+205F and U+3000. */
  predicate IsWideSpace(a: bv8, b: bv8, c: bv8) {
    || (a == 0xe1 && b == 0x9a && c == 0x80)
    || (a == 0xe2 && b == 0x80 && (0x80 <= c <= 0x8a || c in {0xa8, 0xa9, 0xaf}))
    || (a == 0xe2 && b == 0x81 && c == 0x9f)
    || (a == 0xe3 && b == 0x80 && c == 0x80)
  }

  /** bytes.TrimSpace leaves nothing: the bytes are white-space characters only. */
  predicate Blank(s: Bytes)
    decreases |s|
  {
    s == [] || (SpaceWidth(s) > 0 && Blank(s[SpaceWidth(s)..]))
  }

  /** A printable ASCII byte anywhere makes the bytes non-blank. */
  lemma {:induction false} PrintableIsNotBlank(s: Bytes, i: nat)
    requires i < |s| && 0x21 <= s[i] <= 0x7e
    ensures !Blank(s)
    decreases |s|
  {
    var n := SpaceWidth(s);
    if 0 < n <= i {
      PrintableIsNotBlank(s[n..], i - n);
    }
  }

  /** Tabs, line breaks and blanks are blank. */
  lemma {:induction false} AsciiSpacesAreBlank(s: Bytes)
    requires forall c :: c in s ==> 9 <= c <= 13 || c == 32
    ensures Blank(s)
    decreases |s|
  {
    if s != [] {
      assert s[0] in s && s[0] in {9, 10, 11, 12, 13, 32};
      assert forall c :: c in s[1..] ==> c in s;
      AsciiSpacesAreBlank(s[1..]);
    }
  }

  lemma AsciiDecides(carry: Bytes)
    ensures (exists i :: 0 <= i < |carry| && 0x21 <= carry[i] <= 0x7e) ==> !Blank(carry)
    ensures (forall c :: c in carry ==> 9 <= c <= 13 || c == 32) ==> Blank(carry)
  {
    if i :| 0 <= i < |carry| && 0x21 <= carry[i] <= 0x7e {
      PrintableIsNotBlank(carry, i);
    }
    if forall c :: c in carry ==> 9 <= c <= 13 || c == 32 {
      AsciiSpacesAreBlank(carry);
    }
  }

  /** flushCarry on cancellation: an unterminated line is passed on unless it is blank. */
  method FlushCarry(lines: seq<Bytes>, carry: Bytes, ghost whole: Bytes) returns (out: seq<Bytes>)
    requires SplitOf(whole, lines, carry)
    ensures lines <= out && |out| <= |lines| + 1
    ensures Flatten(out) <= whole && Blank(whole[|Flatten(out)|..])
    ensures Flatten(out) == whole <==> carry == [] || !Blank(carry)
    ensures (exists i :: 0 <= i < |carry| && 0x21 <= carry[i] <= 0x7e) ==> out == lines + [carry]
    ensures (forall c :: c in carry ==> 9 <= c <= 13 || c == 32) ==> out == lines
  {
    AsciiDecides(carry);
    if Blank(carry) {
      assert (Flatten(lines) + carry)[|Flatten(lines)|..] == carry;
      return lines;
    }
    FlattenAppend(lines, carry);
    assert whole[|whole|..] == [];
    return lines + [carry];
  }
}
