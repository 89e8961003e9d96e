/** `getline_split_by`: reading a C source line by line into a buffer that grows. */
module LineReader {
  import opened Memory

  type Line = seq<Byte>

  /**
   * What successive calls deliver. At the end of the file there is one empty line unless the last line
   * lacks its end.
   */
  datatype Input = End | Chunk(line: Line, rest: Input)

  const LF: Byte := 10

  /** A char of this value equals EOF. */
  const EOF_BYTE: Byte := 0xFF

  predicate IsBreak(b: Byte, token: Byte) {
    b == token || b == LF
  }

  /** Where reading from `i` on stops: at a line break, at a byte that passes for EOF, or at the end. */
  function StopAt(c: seq<Byte>, i: nat, token: Byte): (j: nat)
    requires i <= |c|
    ensures i <= j <= |c| && (j < |c| ==> c[j] == EOF_BYTE || IsBreak(c[j], token))
    ensures forall k :: i <= k < j ==> c[k] != EOF_BYTE && !IsBreak(c[k], token)
    decreases |c| - i
  {
    if i == |c| || c[i] == EOF_BYTE || IsBreak(c[i], token) then i else StopAt(c, i + 1, token)
  }

  /** The line from `i` on that stops at `j`. */
  function LineTo(c: seq<Byte>, i: nat, j: nat): Line
    requires i <= j <= |c|
  {
    if j < |c| && c[j] != EOF_BYTE then c[i..j + 1] else c[i..j]
  }

  function Chunks(c: seq<Byte>, i: nat, eof: bool, token: Byte): Input
    requires i <= |c|
    decreases |c| - i, !eof
  {
    if eof then End
    else
      var j := StopAt(c, i, token);
      Chunk(LineTo(c, i, j), if j == |c| then End else Chunks(c, j + 1, false, token))
  }

  // ----- the lines make up the file

  function Joined(input: Input): Line {
    match input
    case End => []
    case Chunk(line, rest) => line + Joined(rest)
  }

  predicate HasEofByte(c: seq<Byte>, i: nat) {
    exists k :: i <= k < |c| && c[k] == 0xFF
  }

  lemma SplitAt(c: seq<Byte>, i: nat, j: nat)
    requires i <= j <= |c|
    ensures c[i..] == c[i..j] + c[j..]
  {
  }

  lemma JoinedStep(c: seq<Byte>, i: nat, token: Byte)
    requires i <= |c|
    ensures var j := StopAt(c, i, token);
            Joined(Chunks(c, i, false, token)) ==
            LineTo(c, i, j) + if j == |c| then [] else Joined(Chunks(c, j + 1, false, token))
  {
  }

  lemma WholeLine(c: seq<Byte>, i: nat, token: Byte)
    requires i <= |c| && !HasEofByte(c, i)
    ensures var j := StopAt(c, i, token);
            if j == |c| then LineTo(c, i, j) == c[i..]
            else !HasEofByte(c, j + 1) && LineTo(c, i, j) + c[j + 1..] == c[i..]
  {
    var j := StopAt(c, i, token);
    if j < |c| {
      assert c[j] != EOF_BYTE;
      SplitAt(c, i, j + 1);
    }
  }

  lemma {:induction false} JoinedIsFile(c: seq<Byte>, i: nat, token: Byte)
    requires i <= |c| && !HasEofByte(c, i)
    ensures Joined(Chunks(c, i, false, token)) == c[i..]
    decreases |c| - i
  {
    var j := StopAt(c, i, token);
    WholeLine(c, i, token);
    JoinedStep(c, i, token);
    if j < |c| {
      JoinedIsFile(c, j + 1, token);
    } else {
      assert LineTo(c, i, j) + [] == LineTo(c, i, j);
    }
  }

  lemma {:induction false} EofByteIsDropped(c: seq<Byte>, i: nat, token: Byte)
    requires i <= |c| && token != EOF_BYTE
    ensures |Joined(Chunks(c, i, false, token))| <= |c| - i
    ensures HasEofByte(c, i) ==> |Joined(Chunks(c, i, false, token))| < |c| - i
    decreases |c| - i
  {
    var j := StopAt(c, i, token);
    if j < |c| {
      EofByteIsDropped(c, j + 1, token);
      assert HasEofByte(c, i) && c[j] != EOF_BYTE ==> HasEofByte(c, j + 1);
    }
  }

  /** The lines join up to the whole file exactly when no byte of it passes for EOF. */
  lemma LinesPartitionIff(c: seq<Byte>, token: Byte)
    requires token != EOF_BYTE
    ensures Joined(Chunks(c, 0, false, token)) == c <==> !HasEofByte(c, 0)
  {
    EofByteIsDropped(c, 0, token);
    if !HasEofByte(c, 0) {
      JoinedIsFile(c, 0, token);
    }
  }

  /** The token or a newline character, 10, stands nowhere in the line. */
  predicate Unbroken(l: Line, token: Byte) {
    forall k :: 0 <= k < |l| ==> l[k] != token && l[k] != 10
  }

  /** It stands at the end of the line and nowhere else. */
  predicate BrokenAtEnd(l: Line, token: Byte) {
    l != [] && (l[|l| - 1] == token || l[|l| - 1] == 10) && Unbroken(l[..|l| - 1], token)
  }

  /** Every line ends with the token or a newline and holds none before, and the last one holds none. */
  predicate CutAtBreaks(input: Input, token: Byte)
    decreases input
  {
    input.Chunk? &&
    if input.rest.End? then Unbroken(input.line, token)
    else BrokenAtEnd(input.line, token) && CutAtBreaks(input.rest, token)
  }

  /** At most the end of a line is the token or a newline, even if bytes of the file pass for its end. */
  predicate Shaped(input: Input, token: Byte) {
    input.End? || ((Unbroken(input.line, token) || BrokenAtEnd(input.line, token)) && Shaped(input.rest, token))
  }

  lemma LineShape(c: seq<Byte>, i: nat, token: Byte)
    requires i <= |c|
    ensures var j := StopAt(c, i, token);
            if j < |c| && c[j] != 0xFF then BrokenAtEnd(LineTo(c, i, j), token) else Unbroken(LineTo(c, i, j), token)
  {
    var j := StopAt(c, i, token);
    if j < |c| && c[j] != 0xFF {
      assert c[i..j + 1][..j - i] == c[i..j];
    }
  }

  lemma {:induction false} LinesAreShaped(c: seq<Byte>, i: nat, token: Byte)
    requires i <= |c|
    ensures Shaped(Chunks(c, i, false, token), token)
    ensures !HasEofByte(c, i) ==> CutAtBreaks(Chunks(c, i, false, token), token)
    decreases |c| - i
  {
    var j := StopAt(c, i, token);
    LineShape(c, i, token);
    if j < |c| {
      LinesAreShaped(c, j + 1, token);
    }
  }

  lemma BrokenBefore(l: Line, more: Line, k: Line, token: Byte)
    requires l + more == k && BrokenAtEnd(l, token)
    ensures !Unbroken(k, token)
  {
    assert k[|l| - 1] == l[|l| - 1];
  }

  lemma NotShorter(l: Line, more: Line, k: Line, rest: Line, token: Byte)
    requires l + more == k + rest && BrokenAtEnd(l, token) && BrokenAtEnd(k, token)
    ensures |l| <= |k|
  {
    var t := l + more;
    forall i | 0 <= i < |l| - 1
      ensures t[i] != token && t[i] != 10
    {
      assert t[i] == l[..|l| - 1][i];
    }
    assert t[|k| - 1] == (k + rest)[|k| - 1] == k[|k| - 1];
  }

  /** The first line ends at the first break. */
  lemma SameFirstLine(l: Line, more: Line, k: Line, rest: Line, token: Byte)
    requires l + more == k + rest && BrokenAtEnd(l, token) && BrokenAtEnd(k, token)
    ensures l == k && more == rest
  {
    NotShorter(l, more, k, rest, token);
    NotShorter(k, rest, l, more, token);
    assert (l + more)[..|l|] == l && (k + rest)[..|k|] == k;
    assert (l + more)[|l|..] == more && (k + rest)[|k|..] == rest;
  }

  lemma LastLine(x: Input)
    requires x.Chunk? && x.rest.End?
    ensures Joined(x) == x.line
  {
    assert x.line + [] == x.line;
  }

  /** There is only one way to cut a text so. */
  lemma {:induction false} OneWayToCut(x: Input, y: Input, token: Byte)
    requires CutAtBreaks(x, token) && CutAtBreaks(y, token) && Joined(x) == Joined(y)
    ensures x == y
    decreases x
  {
    if x.rest.Chunk? && y.rest.Chunk? {
      SameFirstLine(x.line, Joined(x.rest), y.line, Joined(y.rest), token);
      OneWayToCut(x.rest, y.rest, token);
    } else if x.rest.Chunk? {
      LastLine(y);
      BrokenBefore(x.line, Joined(x.rest), y.line, token);
    } else {
      LastLine(x);
      if y.rest.Chunk? {
        BrokenBefore(y.line, Joined(y.rest), x.line, token);
      } else {
        LastLine(y);
      }
    }
  }

  /** So the lines of a file without byte 0xFF are the parts between its tokens and newlines. */
  lemma LinesAreTheParts(c: seq<Byte>, token: Byte, x: Input)
    requires !HasEofByte(c, 0) && token != 0xFF
    ensures Chunks(c, 0, false, token) == x <==> Joined(x) == c && CutAtBreaks(x, token)
  {
    LinesPartitionIff(c, token);
    LinesAreShaped(c, 0, token);
    if Joined(x) == c && CutAtBreaks(x, token) {
      OneWayToCut(x, Chunks(c, 0, false, token), token);
    }
  }

  // ----- the program

  class InFile {
    const content: seq<Byte>
    var pos: nat
    var eof: bool

    predicate Valid()
      reads this
    {
      pos <= |content|
    }

    function Rest(token: Byte): Input
      requires Valid()
      reads this
    {
      Chunks(content, pos, eof, token)
    }

    constructor (content: seq<Byte>)
      ensures this.content == content && pos == 0 && !eof
    {
      this.content := content;
      pos, eof := 0, false;
    }

    /** `fgetc`, kept in a char. */
    method Fgetc() returns (ch: int)
      requires Valid()
      modifies this
      ensures Valid()
      ensures old(pos) == |content| ==> ch == -1 && pos == old(pos) && eof
      ensures old(pos) < |content| ==> pos == old(pos) + 1 && eof == old(eof)
      ensures old(pos) < |content| ==> ch == if content[old(pos)] == EOF_BYTE then -1 else content[old(pos)]
    {
      if pos == |content| {
        eof := true;
        return -1;
      }
      ch := if content[pos] == EOF_BYTE then -1 else content[pos];
      pos := pos + 1;
    }
  }

  const INITIAL_CAPACITY := 1024

  /** The first `used` bytes of the buffer are the file's from `start` on. */
  predicate Holds(b: seq<Byte>, used: nat, c: seq<Byte>, start: nat) {
    used <= |b| && start + used <= |c| && forall k :: 0 <= k < used ==> b[k] == c[start + k]
  }

  /** One more byte; the buffer is doubled when that fills it. */
  method Store(line: array<Byte>, used: nat, capacity: nat, ch: Byte, ghost c: seq<Byte>, ghost start: nat)
    returns (buf: array<Byte>, larger: nat)
    requires used < capacity <= line.Length && Holds(line[..], used, c, start)
    requires start + used < |c| && c[start + used] == ch
    modifies line
    ensures used + 1 < larger <= buf.Length && Holds(buf[..], used + 1, c, start)
    ensures buf == line || fresh(buf)
  {
    line[used] := ch;
    buf, larger := line, capacity;
    if used + 1 == capacity {
      larger := 2 * capacity;
      buf := new Byte[larger](i => 0);
      forall i | 0 <= i <= used {
        buf[i] := line[i];
      }
    }
  }

  /** `ch` is the byte at `i`, which was just read. */
  predicate JustRead(c: seq<Byte>, pos: nat, eof: bool, i: nat, ch: int) {
    && i <= |c|
    && (i == |c| ==> ch == -1 && eof && pos == i)
    && (i < |c| ==> pos == i + 1 && !eof && ch == if c[i] == EOF_BYTE then -1 else c[i])
  }

  /** The loop has read the line from `start` on. */
  predicate LineDone(c: seq<Byte>, start: nat, token: Byte, n: nat, pos: nat, eof: bool) {
    start <= |c| && pos <= |c| &&
    var j := StopAt(c, start, token);
    n == |LineTo(c, start, j)| && eof == (j == |c|) && pos == (if j == |c| then j else j + 1)
  }

  predicate NoBreak(c: seq<Byte>, start: nat, n: nat, token: Byte) {
    start + n <= |c| && forall k :: start <= k < start + n ==> !IsBreak(c[k], token) && c[k] != EOF_BYTE
  }

  /** The loop ends after the line break, or before the byte that is not kept. */
  predicate Ended(c: seq<Byte>, start: nat, token: Byte, n: nat, pos: nat, eof: bool) {
    || (n > 0 && NoBreak(c, start, n - 1, token) && start + n <= |c| && IsBreak(c[start + n - 1], token) &&
        c[start + n - 1] != EOF_BYTE && pos == start + n && !eof)
    || (NoBreak(c, start, n, token) && JustRead(c, pos, eof, start + n, -1))
  }

  lemma LineIsDone(c: seq<Byte>, start: nat, token: Byte, n: nat, pos: nat, eof: bool)
    requires start <= |c| && Ended(c, start, token, n, pos, eof)
    ensures LineDone(c, start, token, n, pos, eof)
  {
    var j := StopAt(c, start, token);
    if j < start + n && j < |c| {
      assert c[j] == EOF_BYTE || IsBreak(c[j], token);
    }
  }

  lemma LineIsChunk(c: seq<Byte>, start: nat, token: Byte, n: nat, pos: nat, eof: bool, b: seq<Byte>)
    requires LineDone(c, start, token, n, pos, eof) && Holds(b, n, c, start)
    ensures Chunks(c, start, false, token) == Chunk(b[..n], Chunks(c, pos, eof, token))
  {
    var j := StopAt(c, start, token);
    assert LineTo(c, start, j) == b[..n];
  }

  method GetLineSplitBy(lineIn: array?<Byte>, capacityIn: nat, file: InFile, token: Byte)
    returns (n: int, line: array?<Byte>, capacity: nat)
    requires file.Valid() && token != EOF_BYTE
    requires lineIn != null ==> lineIn.Length >= if capacityIn != 0 then capacityIn else INITIAL_CAPACITY
    requires lineIn == null ==> capacityIn == 0
    modifies file, lineIn
    ensures file.Valid()
    ensures old(file.Rest(token)).End? ==>
              (n == -1 && line == lineIn && capacity == capacityIn && file.Rest(token).End?)
    ensures old(file.Rest(token)).Chunk? ==>
              var chunk := old(file.Rest(token));
              n == |chunk.line| && file.Rest(token) == chunk.rest &&
              line != null && n < capacity <= line.Length && line[..n] == chunk.line && line[n] == 0
    ensures line == lineIn || fresh(line)
  {
    if file.eof {
      return -1, lineIn, capacityIn;
    }
    capacity := if capacityIn != 0 then capacityIn else INITIAL_CAPACITY;
    var buf: array<Byte>;
    if lineIn != null {
      buf := lineIn;
    } else {
      buf := new Byte[INITIAL_CAPACITY](i => 0);
    }
    ghost var c, start := file.content, file.pos;
    var ch := file.Fgetc();
    n := 0;
    while ch != -1
      invariant file.Valid() && file.content == c && n < capacity <= buf.Length && (buf == lineIn || fresh(buf))
      invariant Holds(buf[..], n, c, start) && NoBreak(c, start, n, token)
      invariant JustRead(c, file.pos, file.eof, start + n, ch)
      decreases |c| - start - n
    {
      buf, capacity := Store(buf, n, capacity, ch, c, start);
      n := n + 1;
      if ch == token || ch == LF {
        break;
      }
      ch := file.Fgetc();
    }
    buf[n] := 0;
    line := buf;
    LineIsDone(c, start, token, n, file.pos, file.eof);
    LineIsChunk(c, start, token, n, file.pos, file.eof, buf[..]);
    assert buf[..][..n] == buf[..n];
  }
}
