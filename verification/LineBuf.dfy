/**
 Line buffering: linebuf.c turns a stream that arrives in arbitrary pieces into
 lines.
 */
module LineBuf {
  import opened Words

  const LF: byte := 0x0a
  const CR: byte := 0x0d
  const NUL: byte := 0

  // ---- Lines of a stream --------------------------------------------------

  // At most one trailing carriage return is dropped.
  function Trimmed(s: seq<byte>): seq<byte> {
    if s != [] && s[|s| - 1] == CR then s[..|s| - 1] else s
  }

  /** The lines completed so far, and the start of the next one */
  datatype Split = Split(lines: seq<seq<byte>>, rest: seq<byte>)

  // The lines of a stream, when `rest` came before it.
  function Lines(rest: seq<byte>, s: seq<byte>): Split
    decreases |s|
  {
    if s == [] then Split([], rest)
    else if s[0] == LF then
      var next := Lines([], s[1..]);
      Split([Trimmed(rest)] + next.lines, next.rest)
    else Lines(rest + [s[0]], s[1..])
  }

  // The lines of a stream do not depend on how it is divided.
  lemma {:induction false} LinesConcat(rest: seq<byte>, a: seq<byte>, b: seq<byte>)
    ensures Lines(rest, a + b) ==
            Split(Lines(rest, a).lines + Lines(Lines(rest, a).rest, b).lines, Lines(Lines(rest, a).rest, b).rest)
    decreases |a|
  {
    hide Trimmed;
    if a == [] {
      assert a + b == b;
    } else {
      assert (a + b)[1..] == a[1..] + b;
      LinesConcat(if a[0] == LF then [] else rest + [a[0]], a[1..], b);
    }
  }

  lemma {:induction false} NoLines(rest: seq<byte>, s: seq<byte>)
    requires forall i :: 0 <= i < |s| ==> s[i] != LF
    ensures Lines(rest, s) == Split([], rest + s)
    decreases |s|
  {
    if s == [] {
      assert rest + s == rest;
    } else {
      NoLines(rest + [s[0]], s[1..]);
      assert rest + [s[0]] + s[1..] == rest + s;
    }
  }

  // Everything up to the first line feed
  lemma OneLine(rest: seq<byte>, s: seq<byte>)
    requires s != [] && s[|s| - 1] == LF && forall i :: 0 <= i < |s| - 1 ==> s[i] != LF
    ensures Lines(rest, s) == Split([Trimmed(rest + s[..|s| - 1])], [])
  {
    hide Trimmed;
    var front := s[..|s| - 1];
    assert s == front + [LF];
    NoLines(rest, front);
    LinesConcat(rest, front, [LF]);
    assert Lines([], [LF][1..]) == Split([], []);
    assert Lines(rest + front, [LF]) == Split([Trimmed(rest + front)], []);
  }

  /** A line and whether it ends in CR LF rather than LF alone */
  datatype Line = Line(text: seq<byte>, cr: bool)

  predicate IsLine(line: Line) {
    && (forall i :: 0 <= i < |line.text| ==> line.text[i] != LF)
    && (!line.cr ==> Trimmed(line.text) == line.text)
  }

  function Terminated(line: Line): seq<byte> {
    line.text + (if line.cr then [0x0d, 0x0a] else [0x0a])
  }

  function Stream(lines: seq<Line>): seq<byte> {
    if lines == [] then [] else Terminated(lines[0]) + Stream(lines[1..])
  }

  function Texts(lines: seq<Line>): seq<seq<byte>> {
    if lines == [] then [] else [lines[0].text] + Texts(lines[1..])
  }

  // Lines sent with either terminator are received as they were.
  lemma {:induction false} LinesOfStream(lines: seq<Line>, tail: seq<byte>)
    requires (forall i :: 0 <= i < |lines| ==> IsLine(lines[i])) && forall i :: 0 <= i < |tail| ==> tail[i] != LF
    ensures Lines([], Stream(lines) + tail) == Split(Texts(lines), tail)
    decreases |lines|
  {
    hide Terminated, Trimmed, IsLine, Lines;
    if lines == [] {
      assert Stream(lines) + tail == tail;
      NoLines([], tail);
      assert [] + tail == tail;
    } else {
      LinesOfStream(lines[1..], tail);
      SentLine(lines[0]);
      LinesConcat([], Terminated(lines[0]), Stream(lines[1..]) + tail);
      assert Stream(lines) + tail == Terminated(lines[0]) + (Stream(lines[1..]) + tail);
    }
  }

  lemma SentLine(line: Line)
    requires IsLine(line)
    ensures Lines([], Terminated(line)) == Split([line.text], [])
  {
    hide Lines;
    var s := Terminated(line);
    OneLine([], s);
    if line.cr {
      assert [] + s[..|s| - 1] == line.text + [CR];
      assert (line.text + [CR])[..|line.text|] == line.text;
    } else {
      assert [] + s[..|s| - 1] == line.text;
    }
  }

  // ---- The buffer ---------------------------------------------------------

  // Completed lines, each with its terminator
  function Stored(lines: seq<seq<byte>>): seq<byte> {
    if lines == [] then [] else Stored(lines[..|lines| - 1]) + lines[|lines| - 1] + [NUL]
  }

  lemma StoredEnds(lines: seq<seq<byte>>)
    ensures Stored(lines) == [] || Stored(lines)[|Stored(lines)| - 1] == NUL
  {
  }

  lemma StoredNext(lines: seq<seq<byte>>, line: seq<byte>)
    ensures Stored(lines + [line]) == Stored(lines) + line + [NUL]
  {
    assert (lines + [line])[..|lines|] == lines;
  }

  lemma TrimmedNoNul(s: seq<byte>)
    requires NoNul(s)
    ensures NoNul(Trimmed(s))
  {
  }

  datatype Result = Consumed(n: int) | EINVAL | ENOMEM

  // The first of a value, or the length
  method MemChr(s: seq<byte>, c: byte, len: int) returns (i: int)
    requires 0 <= len <= |s|
    ensures 0 <= i <= len && (i < len ==> s[i] == c) && forall j :: 0 <= j < i ==> s[j] != c
  {
    i := 0;
    while i < len && s[i] != c
      invariant 0 <= i <= len && forall j :: 0 <= j < i ==> s[j] != c
    {
      i := i + 1;
    }
  }

  class LineBuffer {
    var data: seq<byte>
    var len: int
    var consumed: int
    ghost var lines: seq<seq<byte>>
    ghost var rest: seq<byte>

    ghost predicate Valid()
      reads this
    {
      && 0 <= len <= |data| && consumed >= 0 && data[..len] == Stored(lines) + rest
      && NoNul(rest) && forall i :: 0 <= i < |lines| ==> NoNul(lines[i])
    }

    constructor ()
      ensures Valid() && lines == [] && rest == []
    {
      data, len, consumed, lines, rest := [], 0, 0, [], [];
    }

    // empty_line_buffer()
    method Empty()
      modifies this
      ensures Valid() && lines == [] && rest == []
    {
      data, len, consumed, lines, rest := [], 0, 0, [], [];
    }

    // Overwrite the line feed, and the carriage return before it if any.
    method EndLine(ghost before: seq<byte>, ghost text: seq<byte>)
      requires 0 <= len <= |data| && data[..len] == before + text + [LF]
      requires before == [] || before[|before| - 1] == NUL
      modifies this`data, this`len
      ensures 0 <= len <= |data| && data[..len] == before + Trimmed(text) + [NUL]
    {
      assert len == |before| + |text| + 1;
      assert data[..len][|before| + |text|] == LF;
      data := data[len - 1 := NUL];
      assert data[..len] == before + text + [NUL];
      if len > 1 {
        assert text != [] ==> data[..len][len - 2] == text[|text| - 1];
        assert text == [] ==> data[..len][len - 2] == before[|before| - 1];
        if data[len - 2] == CR {
          len := len - 1;
          data := data[len - 1 := NUL];
          assert data[..len] == before + text[..|text| - 1] + [NUL];
        }
      }
    }

    // Copy in new data.
    method Append(input: seq<byte>)
      requires Valid()
      modifies this`data, this`len
      ensures 0 <= len <= |data| && data[..len] == Stored(lines) + rest + input
    {
      hide Stored;
      var newLen := len + |input|;
      data := data[..len] + input + [NUL];
      len := newLen;
    }

    method AddPart(input: seq<byte>)
      requires Valid() && NoNul(input) && forall i :: 0 <= i < |input| ==> input[i] != LF
      modifies this
      ensures Valid()
      ensures Split(lines, rest) == Split(old(lines) + Lines(old(rest), input).lines, Lines(old(rest), input).rest)
    {
      hide Stored, Lines;
      NoLines(rest, input);
      Append(input);
      assert data[..len] == Stored(lines) + (rest + input);
      rest := rest + input;
    }

    method AddLine(input: seq<byte>)
      requires Valid() && NoNul(input) && input != [] && input[|input| - 1] == LF
      requires forall i :: 0 <= i < |input| - 1 ==> input[i] != LF
      modifies this
      ensures Valid()
      ensures Split(lines, rest) == Split(old(lines) + Lines(old(rest), input).lines, Lines(old(rest), input).rest)
    {
      hide Stored, Lines, Trimmed;
      ghost var text := rest + input[..|input| - 1];
      OneLine(rest, input);
      Append(input);
      assert data[..len] == Stored(lines) + text + [LF];
      StoredEnds(lines);
      EndLine(Stored(lines), text);
      StoredNext(lines, Trimmed(text));
      TrimmedNoNul(text);
      lines, rest := lines + [Trimmed(text)], [];
      assert data[..len] == Stored(lines) + rest;
    }

    // line_buffer()
    method Buffer(input: seq<byte>, memory: bool) returns (r: Result)
      requires Valid()
      modifies this
      ensures Valid()
      ensures !r.Consumed? ==> unchanged(this)
      ensures r.Consumed? ==>
                && 0 <= r.n <= |input| && (input != [] ==> r.n > 0) && consumed == r.n
                && (r.n < |input| ==> r.n > 0 && input[r.n - 1] == LF)
                && (forall i :: 0 <= i < r.n - 1 ==> input[i] != LF)
                && Split(lines, rest) ==
                   (var s := Lines(old(rest), input[..r.n]); Split(old(lines) + s.lines, s.rest))
      ensures r == EINVAL <==> exists i :: 0 <= i < |input| && input[i] == NUL && forall j :: 0 <= j < i ==> input[j] != LF
      ensures r == ENOMEM <==> r != EINVAL && !memory
    {
      hide Lines, Stored, Trimmed;
      var eol := MemChr(input, LF, |input|);
      var found := eol < |input|;
      var consume := if found then eol + 1 else |input|;
      var nul := MemChr(input, NUL, consume);
      if nul < consume {
        return EINVAL;
      }
      if !memory {
        return ENOMEM;
      }
      if found {
        AddLine(input[..consume]);
      } else {
        assert input[..consume] == input;
        AddPart(input);
      }
      consumed := consume;
      r := Consumed(consume);
    }

    // buffered_line(): the line that the last call completed, if it did
    method BufferedLine() returns (r: Option<seq<byte>>)
      requires Valid()
      ensures r.Some? <==> lines != [] && rest == [] && consumed != 0
      ensures r.Some? ==> r.value == lines[|lines| - 1]
    {
      hide Stored;
      assert len > 0 ==> data[..len][len - 1] == data[len - 1];
      StoredEnds(lines);
      StoredEmpty(lines);
      if len == 0 || consumed == 0 || data[len - 1] != NUL {
        return None;
      }
      ghost var last := lines[|lines| - 1];
      ghost var start := len - 1 - |last|;
      StoredLast(lines);
      assert data[..len] == Stored(lines);
      assert data[start..len - 1] == data[..len][start..len - 1] == last;
      assert start > 0 ==> data[start - 1] == data[..len][start - 1] == NUL;
      var line := len - 1;
      while line > 0 && data[line - 1] != NUL
        invariant start <= line <= len - 1
      {
        line := line - 1;
      }
      return Some(data[line..len - 1]);
    }

    // Pass on all of a piece of the stream and collect the lines it completes.
    method Receive(piece: seq<byte>) returns (got: seq<seq<byte>>)
      requires Valid() && NoNul(piece)
      modifies this
      ensures Valid() && Split(got, rest) == Lines(old(rest), piece)
    {
      hide Lines, Valid;
      got := [];
      var i := 0;
      assert piece[..0] == [];
      NoLines(rest, []);
      assert rest + [] == rest;
      while i < |piece|
        invariant 0 <= i <= |piece| && Valid()
        invariant Split(got, rest) == Lines(old(rest), piece[..i])
      {
        ghost var before := lines;
        var r := Buffer(piece[i..], true);
        LinesConcat(old(rest), piece[..i], piece[i..][..r.n]);
        assert piece[..i] + piece[i..][..r.n] == piece[..i + r.n];
        CompletedOrNot(Lines(old(rest), piece[..i]).rest, piece[i..][..r.n]);
        var line := BufferedLine();
        if line.Some? {
          got := got + [line.value];
        }
        i := i + r.n;
      }
      assert piece[..|piece|] == piece;
    }
  }

  function Flat(pieces: seq<seq<byte>>): seq<byte> {
    if pieces == [] then [] else Flat(pieces[..|pieces| - 1]) + pieces[|pieces| - 1]
  }

  // However a stream is cut into pieces, its lines are the same.
  method ReceiveAll(buffer: LineBuffer, pieces: seq<seq<byte>>) returns (got: seq<seq<byte>>)
    requires buffer.Valid() && forall i :: 0 <= i < |pieces| ==> NoNul(pieces[i])
    modifies buffer
    ensures buffer.Valid() && Split(got, buffer.rest) == Lines(old(buffer.rest), Flat(pieces))
  {
    hide Lines, NoNul;
    got := [];
    NoLines(buffer.rest, []);
    assert buffer.rest + [] == buffer.rest;
    assert pieces[..0] == [];
    for i := 0 to |pieces|
      invariant buffer.Valid() && Split(got, buffer.rest) == Lines(old(buffer.rest), Flat(pieces[..i]))
    {
      var more := buffer.Receive(pieces[i]);
      LinesConcat(old(buffer.rest), Flat(pieces[..i]), pieces[i]);
      assert pieces[..i + 1][..i] == pieces[..i];
      got := got + more;
    }
    assert pieces[..|pieces|] == pieces;
  }

  lemma StoredEmpty(lines: seq<seq<byte>>)
    ensures Stored(lines) == [] <==> lines == []
  {
  }

  // The last line, and what comes before it
  lemma StoredLast(lines: seq<seq<byte>>)
    requires lines != []
    ensures var last, all := lines[|lines| - 1], Stored(lines);
            && |all| >= |last| + 1 && all[|all| - 1 - |last|..|all| - 1] == last
            && (|all| > |last| + 1 ==> all[|all| - 2 - |last|] == NUL)
  {
    StoredEnds(lines[..|lines| - 1]);
  }

  // One call completes one line, or none and then leaves part of one.
  lemma CompletedOrNot(rest: seq<byte>, s: seq<byte>)
    requires s != [] && forall i :: 0 <= i < |s| - 1 ==> s[i] != LF
    ensures var r := Lines(rest, s);
            if s[|s| - 1] == LF then |r.lines| == 1 && r.rest == [] else r.lines == [] && r.rest != []
  {
    if s[|s| - 1] == LF {
      OneLine(rest, s);
    } else {
      NoLines(rest, s);
    }
  }
}
