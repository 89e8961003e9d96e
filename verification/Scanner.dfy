/** The loop of `isolateFunction` that looks for the function, line by line. */
module Scanner {
  import opened Memory
  import opened LineReader
  import opened CText
  import opened Isolator
  import Machine

  /** `Aggregate`: the line starts a typedef, enum or struct. */
  datatype Branch = Define | Include | OtherDirective | Comment | BlockComment | Aggregate | Code

  const DEFINE: Line := [0x64, 0x65, 0x66, 0x69, 0x6E, 0x65]
  const INCLUDE: Line := [0x69, 0x6E, 0x63, 0x6C, 0x75, 0x64, 0x65]
  const BLOCK_COMMENT: Line := [0x2F, 0x2A]
  const TYPEDEF: Line := [0x74, 0x79, 0x70, 0x65, 0x64, 0x65, 0x66]
  const ENUM: Line := [0x65, 0x6E, 0x75, 0x6D]
  const STRUCT: Line := [0x73, 0x74, 0x72, 0x75, 0x63, 0x74]
  const STAR: Line := [0x2A]

  function BranchOf(s: Line): Branch {
    var i := FirstMeaningful(s, 0);
    if i < |s| && s[i] == HASH then
      if HasAt(s, i + 1, DEFINE) then Define
      else if HasAt(s, i + 1, INCLUDE) then Include
      else OtherDirective
    else if HasAt(s, i, SLASHES) then Comment
    else if HasAt(s, i, BLOCK_COMMENT) then BlockComment
    else if HasAt(s, i, TYPEDEF) || HasAt(s, i, ENUM) then Aggregate
    else if HasAt(s, i, STRUCT) && Find(s, i, [PAREN]).None? then Aggregate
    else Code
  }

  /** `Lost`: the scan does not end. */
  datatype Outcome = Missing | Isolated | Lost

  datatype Scanned = Scanned(outcome: Outcome, out: Line)

  /** A macro goes on with the next line. */
  predicate Continued(s: Line) {
    HasBackslash(s, FirstMeaningful(s, 0))
  }

  /** `back_slash_exists`. */
  predicate HasBackslash(s: Line, i: nat) {
    exists k :: i <= k < |s| && s[k] == BACKSLASH
  }

  /** `resolveDefine`: the lines up to one without a backslash. */
  function MacroLines(out: Line, input: Input): (r: Checked)
    ensures !r.verdict.Found?
    decreases input
  {
    if input.End? then Checked(Stuck, out, End, [])
    else if input.line == [] then Checked(NotFound, out, input.rest, [])
    else if !HasBackslash(Text(input.line), 0) then Checked(NotFound, out + input.line, input.rest, [])
    else MacroLines(out + input.line, input.rest)
  }

  /** The lines after a block comment, whose lines are led by a star; None if the file ends with one of these. */
  function AfterComment(starred: bool, input: Input): Option<Input>
    decreases input
  {
    if input.End? then if starred then Machine.None else Machine.Some(End)
    else if LedBy(Text(input.line), STAR) then AfterComment(true, input.rest)
    else Machine.Some(input)
  }

  // ----- typedef, enum and struct

  /**
   * What a pointer to character `i` of the line buffer shows when line `l` is read over what it showed
   * before: the rest of the line, or nothing new if the line is shorter.
   */
  function Seen(l: Line, i: nat, before: Line): Line {
    if i <= |l| then Text(l[i..]) else before
  }

  /** The C string in a buffer from `i` on. */
  function StringAt(buf: seq<Byte>, i: nat): Line
    requires i <= |buf|
  {
    Text(buf[i..])
  }

  /** The line with its NUL overwrites the beginning of the buffer. */
  lemma SeenInBuffer(buf: seq<Byte>, l: Line, i: nat)
    requires |l| < |buf| && i <= |buf|
    ensures StringAt(l + [0] + buf[|l| + 1..], i) == Seen(l, i, StringAt(buf, i))
  {
    var now := l + [0] + buf[|l| + 1..];
    if i <= |l| {
      var n := NulAt(l[i..], 0);
      assert forall k :: 0 <= k < |l| - i ==> now[i..][k] == l[i..][k];
      assert now[i..][|l| - i] == 0;
      assert NulAt(now[i..], 0) == n;
      assert now[i..][..n] == l[i..][..n];
    } else {
      assert now[i..] == buf[i..];
    }
  }

  /** A closing brace has been met on some line behind the first, and a semicolon is on this one. */
  predicate AggregateEnds(seen: Line, closed: bool) {
    (closed || CLOSE in seen) && SEMI in seen
  }

  /** The lines from the first on, as the pointer to its character `i` shows them. */
  function AggregateLines(out: Line, seen: Line, i: nat, closed: bool, input: Input): (r: Checked)
    ensures !r.verdict.Found?
    decreases input
  {
    var more := out + seen;
    if input.End? then
      if AggregateEnds(seen, closed) then Checked(NotFound, more + seen, End, []) else Checked(Stuck, more, End, [])
    else
      var now := Seen(input.line, i, seen);
      if AggregateEnds(now, closed) then Checked(NotFound, more + now, input.rest, [])
      else AggregateLines(more, now, i, closed || CLOSE in now, input.rest)
  }

  lemma {:induction false} CommentShrinks(starred: bool, input: Input)
    ensures var r := AfterComment(starred, input);
            r.Some? ==> Size(r.value) <= Size(input)
    decreases input
  {
    if input.Chunk? && LedBy(Text(input.line), STAR) {
      CommentShrinks(true, input.rest);
    }
  }

  lemma {:induction false} AggregateShrinks(out: Line, seen: Line, i: nat, closed: bool, input: Input)
    ensures Size(AggregateLines(out, seen, i, closed, input).rest) <= Size(input)
    decreases input
  {
    if input.Chunk? {
      var now := Seen(input.line, i, seen);
      AggregateShrinks(out + seen, now, i, closed || CLOSE in now, input.rest);
    }
  }

  function Size(input: Input): nat
    decreases input
  {
    if input.End? then 0 else 1 + Size(input.rest)
  }

  lemma {:induction false} MacroShrinks(out: Line, input: Input)
    ensures Size(MacroLines(out, input).rest) <= Size(input)
    decreases input
  {
    if input.Chunk? && input.line != [] {
      MacroShrinks(out + input.line, input.rest);
    }
  }

  lemma {:induction false} SignatureShrinks(out: Line, l: Line, rest: Input, before: Line)
    ensures var r := Signature(out, l, rest, before);
            !r.verdict.Found? ==> Size(r.rest) <= Size(rest)
    decreases rest
  {
    if CurlyFirst(Text(l)) == 0 && rest.Chunk? {
      SignatureShrinks(out, rest.line, rest.rest, before + Text(l));
    }
  }

  lemma {:induction false} CheckShrinks(out: Line, s: Line, name: Line, rest: Input, before: Line)
    ensures var r := Check(out, s, name, rest, before);
            !r.verdict.Found? ==> Size(r.rest) <= Size(rest)
    decreases rest, |s|
  {
    match KindOf(s)
    case Semicolon =>
      var next := Decider(s, 0, true) + 1;
      CheckShrinks(Declared(out, s, next), s[FirstMeaningful(s, next)..], name, rest, []);
    case Undefined =>
      if rest.Chunk? {
        CheckShrinks(out, Text(rest.line), name, rest.rest, before + Text(rest.line));
      }
    case LeftParenthesis => SignatureShrinks(out, s, rest, before);
    case NoContent =>
    case CurlyBracket =>
  }

  /** The scan; `expand` is what `resolveInclude` makes of the rest of the line. */
  function Scan(out: Line, input: Input, name: Line, depth: int, expand: Line -> Line): Scanned
    decreases Size(input)
  {
    if Over(input) then Scanned(Missing, out)
    else
      var s := Text(input.line);
      if depth != 0 then Scan(out, input.rest, name, depth + Braces(s), expand)
      else if BranchOf(s).Code? then
        var r := Check(out, s, name, input.rest, []);
        if r.verdict.Found? then Scanned(Isolated, r.out)
        else if r.verdict.Stuck? then Scanned(Lost, r.out)
        else
          assert Size(r.rest) < Size(input) by { CheckShrinks(out, s, name, input.rest, []); }
          Scan(r.out, r.rest, name, Braces(r.line), expand)
      else
        var r := Skip(out, input, expand);
        if r.verdict.Stuck? then Scanned(Lost, r.out)
        else
          assert Size(r.rest) < Size(input) by { SkipShrinks(out, input, expand); }
          Scan(r.out, r.rest, name, 0, expand)
  }

  /** A line at depth 0 that is no code. */
  function Skip(out: Line, input: Input, expand: Line -> Line): (r: Checked)
    requires input.Chunk?
    ensures !r.verdict.Found?
  {
    var s := Text(input.line);
    var i := FirstMeaningful(s, 0);
    match BranchOf(s)
    case Define =>
      var more := out + input.line[i..];
      if Continued(s) then MacroLines(more, input.rest) else Checked(NotFound, more, input.rest, s)
    case Include => Checked(NotFound, out + s[i..i + 8] + expand(s[i + 8..]), input.rest, s)
    case BlockComment =>
      var after := AfterComment(false, input.rest);
      if after.None? then Checked(Stuck, out, End, s) else Checked(NotFound, out, after.value, s)
    case Aggregate => AggregateLines(out, s[i..], i, false, input.rest)
    case _ => Checked(NotFound, out, input.rest, s)
  }

  lemma SkipShrinks(out: Line, input: Input, expand: Line -> Line)
    requires input.Chunk?
    ensures Size(Skip(out, input, expand).rest) < Size(input)
  {
    var s := Text(input.line);
    var i := FirstMeaningful(s, 0);
    MacroShrinks(out + input.line[i..], input.rest);
    CommentShrinks(false, input.rest);
    AggregateShrinks(out, s[i..], i, false, input.rest);
  }

  // ----- the program

  /** What has been read and is still to be looked at. */
  function Pending(n: int, line: Line, rest: Input): Input {
    if n < 0 then End else Chunk(line, rest)
  }

  method ReadPending(file: InFile) returns (n: int, line: Line)
    requires file.Valid()
    modifies file
    ensures file.Valid() && (n >= 0 ==> n == |line|)
    ensures Pending(n, line, file.Rest(CR)) == old(file.Rest(CR))
    ensures n < 0 ==> file.Rest(CR) == End
  {
    n, line := NextLine(file);
  }

  method ResolveDefine(file: InFile, out: OutFile) returns (verdict: Verdict)
    requires file.Valid()
    modifies file, out
    ensures file.Valid()
    ensures Checked(verdict, out.text, file.Rest(CR), []) == MacroLines(old(out.text), old(file.Rest(CR)))
  {
    ghost var whole := MacroLines(out.text, file.Rest(CR));
    while true
      invariant file.Valid() && MacroLines(out.text, file.Rest(CR)) == whole
      decreases file.Rest(CR)
    {
      var n, line := NextLine(file);
      if n < 0 {
        return Stuck;
      }
      if n == 0 {
        return NotFound;
      }
      out.Fwrite(line);
      if !HasBackslash(Text(line), 0) {
        return NotFound;
      }
    }
  }

  /** The line after a block comment is read already when the comment ends. */
  method SkipComment(file: InFile) returns (verdict: Verdict, n: int, line: Line)
    requires file.Valid()
    modifies file
    ensures file.Valid() && (n >= 0 ==> n == |line|) && (n < 0 ==> file.Rest(CR) == End)
    ensures match AfterComment(false, old(file.Rest(CR)))
            case None => verdict == Stuck
            case Some(rest) => verdict == NotFound && Pending(n, line, file.Rest(CR)) == rest
  {
    ghost var whole := AfterComment(false, file.Rest(CR));
    var starred := false;
    while true
      invariant file.Valid() && AfterComment(starred, file.Rest(CR)) == whole
      decreases file.Rest(CR)
    {
      n, line := NextLine(file);
      if n < 0 {
        return if starred then Stuck else NotFound, n, line;
      }
      starred := StrContainsAtBeginning(Text(line), FirstMeaningful(Text(line), 0), STAR);
      if !starred {
        return NotFound, n, line;
      }
    }
  }

  method WriteAggregate(s: Line, i: nat, file: InFile, out: OutFile) returns (verdict: Verdict)
    requires file.Valid() && i <= |s|
    modifies file, out
    ensures file.Valid()
    ensures var r := AggregateLines(old(out.text), s[i..], i, false, old(file.Rest(CR)));
            verdict == r.verdict && out.text == r.out && file.Rest(CR) == r.rest
  {
    ghost var whole := AggregateLines(out.text, s[i..], i, false, file.Rest(CR));
    var seen, closed := s[i..], false;
    while true
      invariant file.Valid() && AggregateLines(out.text, seen, i, closed, file.Rest(CR)) == whole
      decreases file.Rest(CR)
    {
      out.Fwrite(seen);
      var n, line := NextLine(file);
      if n >= 0 {
        seen := Seen(line, i, seen);
      }
      closed := closed || CLOSE in seen;
      if closed && SEMI in seen {
        break;
      }
      if n < 0 {
        return Stuck;
      }
    }
    out.Fwrite(seen);
    return NotFound;
  }

  /** A line at depth 0 that is no code, and the next line to look at. */
  method SkipLine(l: Line, file: InFile, out: OutFile, expand: Line -> Line)
    returns (verdict: Verdict, n: int, line: Line)
    requires file.Valid() && !BranchOf(Text(l)).Code?
    modifies file, out
    ensures file.Valid() && (n >= 0 ==> n == |line|) && (n < 0 ==> file.Rest(CR) == End)
    ensures var r := Skip(old(out.text), Chunk(l, old(file.Rest(CR))), expand);
            verdict == r.verdict && out.text == r.out &&
            (verdict.NotFound? ==> Pending(n, line, file.Rest(CR)) == r.rest)
  {
    var s := Text(l);
    var i := FirstMeaningful(s, 0);
    verdict, n, line := NotFound, 0, [];
    match BranchOf(s) {
      case Define =>
        out.Fwrite(l[i..]);
        if Continued(s) {
          verdict := ResolveDefine(file, out);
        }
      case Include =>
        out.Fwrite(s[i..i + 8]);
        out.Fwrite(expand(s[i + 8..]));
      case BlockComment =>
        verdict, n, line := SkipComment(file);
        return;
      case Aggregate =>
        verdict := WriteAggregate(s, i, file, out);
      case OtherDirective =>
      case Comment =>
    }
    n, line := ReadPending(file);
  }

  /** A line at depth 0 that is code, and the depth after it. */
  method ScanCode(l: Line, file: InFile, name: Line, out: OutFile, ghost expand: Line -> Line)
    returns (outcome: Outcome, next: int)
    requires file.Valid() && l != [] && BranchOf(Text(l)).Code?
    modifies file, out
    ensures file.Valid() && (outcome.Missing? ==> Size(file.Rest(CR)) <= Size(old(file.Rest(CR))))
    ensures Scan(old(out.text), Chunk(l, old(file.Rest(CR))), name, 0, expand) ==
            if outcome.Missing? then Scan(out.text, file.Rest(CR), name, next, expand) else Scanned(outcome, out.text)
  {
    TextOfText(l);
    CheckShrinks(out.text, Text(l), name, file.Rest(CR), []);
    var verdict, buffer := CheckAndWriteFunc(Text(l), name, file, out, []);
    if verdict != NotFound {
      return if verdict == Found then Isolated else Lost, 0;
    }
    next := CheckCurlyBrackets(buffer);
    outcome := Missing;
  }

  method ScanOther(l: Line, file: InFile, ghost name: Line, out: OutFile, expand: Line -> Line)
    returns (outcome: Outcome, n: int, line: Line)
    requires file.Valid() && l != [] && !BranchOf(Text(l)).Code?
    modifies file, out
    ensures file.Valid() && (n >= 0 ==> n == |line|) && (n < 0 ==> file.Rest(CR) == End)
    ensures outcome.Missing? ==> Size(Pending(n, line, file.Rest(CR))) <= Size(old(file.Rest(CR)))
    ensures Scan(old(out.text), Chunk(l, old(file.Rest(CR))), name, 0, expand) ==
            if outcome.Missing? then Scan(out.text, Pending(n, line, file.Rest(CR)), name, 0, expand)
            else Scanned(outcome, out.text)
  {
    SkipShrinks(out.text, Chunk(l, file.Rest(CR)), expand);
    var verdict;
    verdict, n, line := SkipLine(l, file, out, expand);
    outcome := if verdict == Stuck then Lost else Missing;
  }

  /** One round of the scan, up to the next line. */
  method ScanLine(l: Line, file: InFile, name: Line, out: OutFile, depth: int, expand: Line -> Line)
    returns (outcome: Outcome, next: int, n: int, line: Line)
    requires file.Valid() && l != []
    modifies file, out
    ensures file.Valid() && (n >= 0 ==> n == |line|) && (n < 0 ==> file.Rest(CR) == End)
    ensures outcome.Missing? ==> Size(Pending(n, line, file.Rest(CR))) <= Size(old(file.Rest(CR)))
    ensures Scan(old(out.text), Chunk(l, old(file.Rest(CR))), name, depth, expand) ==
            if outcome.Missing? then Scan(out.text, Pending(n, line, file.Rest(CR)), name, next, expand)
            else Scanned(outcome, out.text)
  {
    outcome, next, n, line := Missing, 0, 0, [];
    if depth != 0 {
      var braces := CheckCurlyBrackets(Text(l));
      next := depth + braces;
      n, line := ReadPending(file);
    } else if BranchOf(Text(l)).Code? {
      outcome, next := ScanCode(l, file, name, out, expand);
      if outcome == Missing {
        n, line := ReadPending(file);
      }
    } else {
      outcome, n, line := ScanOther(l, file, name, out, expand);
    }
  }

  /** `isolateFunction` on open files. */
  method IsolateFunction(file: InFile, name: Line, out: OutFile, expand: Line -> Line) returns (outcome: Outcome)
    requires file.Valid()
    modifies file, out
    ensures Scanned(outcome, out.text) == Scan(old(out.text), old(file.Rest(13)), name, 0, expand)
  {
    ghost var whole := Scan(out.text, file.Rest(CR), name, 0, expand);
    var depth := 0;
    var n, line := ReadPending(file);
    while n > 0
      invariant file.Valid() && (n >= 0 ==> n == |line|) && (n < 0 ==> file.Rest(CR) == End)
      invariant Scan(out.text, Pending(n, line, file.Rest(CR)), name, depth, expand) == whole
      decreases Size(Pending(n, line, file.Rest(CR)))
    {
      outcome, depth, n, line := ScanLine(line, file, name, out, depth, expand);
      if outcome != Missing {
        return;
      }
    }
    return Missing;
  }
}
