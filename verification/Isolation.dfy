/** Which function the scan of a whole file isolates. */
module Isolation {
  import opened LineReader
  import opened CText
  import opened Isolator
  import opened Extraction
  import opened Scanner
  import opened Units
  import opened CLines
  import opened Prelude
  import Machine

  // ----- what the scan takes in at depth 0

  /** How many lines the scan takes in at depth 0: a macro, comment, aggregate or declaration has all its lines. */
  function Taken(input: Input, name: Line): (n: nat)
    requires input.Chunk?
    ensures n > 0
  {
    var s := Text(input.line);
    match LineKind(s)
    case Define => if 0x5C in s then 1 + MacroReads(input.rest) else 1
    case BlockComment => 1 + StarLines(input.rest)
    case Aggregate =>
      var i := Indent(s);
      1 + AggregateReads(s[i..], i, false, input.rest)
    case Code => 1 + Reads(s, name, input.rest, [])
    case _ => 1
  }

  /** Their brace sum, where directives and comments count nothing. */
  function Counted(input: Input, name: Line): int
    requires input.Chunk?
  {
    if LineKind(Text(input.line)).Code? then TotalBraces(input, Taken(input, name)) else 0
  }

  /**
   * The text that they leave in the output: a macro with all its lines as it stands, an include with what
   * becomes of its rest, a typedef, enum or struct line by line, and the declarations of code. All else
   * leaves nothing.
   */
  function LineLeaves(input: Input, expand: Line -> Line): Line
    requires input.Chunk?
  {
    var s := Text(input.line);
    var i := Indent(s);
    if Leads(s, Ascii("#define")) then
      input.line[i..] + if 0x5C in s then First(input.rest, MacroReads(input.rest)) else []
    else if Leads(s, Ascii("#include")) then Ascii("#include") + expand(s[i + 8..])
    else if Leads(s, Ascii("#")) || Leads(s, Ascii("//")) || Leads(s, Ascii("/*")) then []
    else if Leads(s, Ascii("typedef")) || Leads(s, Ascii("enum")) || (Leads(s, Ascii("struct")) && 0x28 !in s) then
      AggregateText(s[i..], i, input.rest, AggregateShows(s[i..], i, false, input.rest))
    else Declarations(s, input.rest)
  }

  function TakenAt(input: Input, name: Line, depth: int): (n: nat)
    requires input.Chunk?
    ensures n > 0
  {
    if depth == 0 then Taken(input, name) else 1
  }

  function CountedAt(input: Input, name: Line, depth: int): int
    requires input.Chunk?
  {
    if depth == 0 then Counted(input, name) else Braces(Text(input.line))
  }

  lemma {:induction false} DropShrinks(input: Input, n: nat)
    ensures Size(Drop(input, n)) <= Size(input)
    ensures input.Chunk? && n > 0 ==> Size(Drop(input, n)) < Size(input)
    decreases n
  {
    if n > 0 && input.Chunk? {
      DropShrinks(input.rest, n - 1);
    }
  }

  // ----- depth, line by line

  /** The brace sum of the code lines before line `n`; None if an earlier line has taken that line in. */
  function DepthAt(input: Input, name: Line, depth: int, n: nat): Option<int>
    decreases n
  {
    if n == 0 then Machine.Some(depth)
    else if Over(input) then Machine.None
    else
      var k := TakenAt(input, name, depth);
      if n < k then Machine.None
      else DepthAt(Drop(input, k), name, depth + CountedAt(input, name, depth), n - k)
  }

  /** The text that a round leaves, at any depth. */
  function LeftAt(input: Input, depth: int, expand: Line -> Line): Line
    requires input.Chunk?
  {
    if depth == 0 then LineLeaves(input, expand) else []
  }

  /** The text that the lines before line `n` leave. */
  function LeftBefore(input: Input, name: Line, depth: int, n: nat, expand: Line -> Line): Line
    decreases n
  {
    if n == 0 || Over(input) then []
    else
      var k := TakenAt(input, name, depth);
      LeftAt(input, depth, expand) +
      if n < k then [] else LeftBefore(Drop(input, k), name, depth + CountedAt(input, name, depth), n - k, expand)
  }

  /** A line that starts the definition. */
  predicate IsTarget(input: Input, name: Line) {
    !Over(input) && LineKind(Text(input.line)).Code? && Defines(Text(input.line), name, input.rest, [])
  }

  /** The definition starts on line `n`, outside all braces. */
  predicate TargetAt(input: Input, name: Line, depth: int, n: nat) {
    DepthAt(input, name, depth, n) == Machine.Some(0) && IsTarget(Drop(input, n), name)
  }

  /** The input goes on to the end of what the line starts, and no unseen braces are left open. */
  predicate Plain(input: Input, name: Line)
    requires input.Chunk?
  {
    var s := Text(input.line);
    match LineKind(s)
    case BlockComment => CommentEnds(input.rest)
    case Aggregate =>
      var i := Indent(s);
      AggregateClosed(s[i..], i, false, input.rest)
    case Define => 0x5C in s ==> MacroEnds(input.rest)
    case Code =>
      !Unfinished(s, name, input.rest, []) &&
      (Defines(s, name, input.rest, []) || Swallowed(s, name, input.rest, []) == 0)
    case _ => true
  }

  /** So is every line that is looked at outside braces, up to the definition. */
  predicate PlainFrom(input: Input, name: Line, depth: int)
    decreases Size(input)
  {
    || Over(input)
    || ((depth == 0 ==> Plain(input, name)) &&
        ((depth == 0 && IsTarget(input, name)) ||
         (DropShrinks(input, TakenAt(input, name, depth));
          PlainFrom(Drop(input, TakenAt(input, name, depth)), name, depth + CountedAt(input, name, depth)))))
  }

  /** A byte that passes for the end of the file ends the scan when it starts a line. */
  lemma EofByteEndsScan(out: Line, c: Line, i: nat, name: Line, depth: int, expand: Line -> Line)
    requires i < |c| && c[i] == 0xFF
    ensures Scan(out, Chunks(c, i, false, 13), name, depth, expand) == Scanned(Missing, out)
  {
    assert StopAt(c, i, 13) == i;
  }

  /** It ends a body as well. */
  lemma EofByteEndsBody(out: Line, l: Line, c: Line, i: nat, sum: int)
    requires i < |c| && c[i] == 0xFF
    ensures Body(out, l, Chunks(c, i, false, 13), sum).out == out + Written(l)
  {
    assert StopAt(c, i, 13) == i;
  }

  // ----- one round of the scan

  /** Lines that are no code leave their text. */
  predicate SkipLeaves(out: Line, input: Input, name: Line, expand: Line -> Line)
    requires input.Chunk?
  {
    var r := Skip(out, input, expand);
    r.verdict.NotFound? && r.rest == Drop(input, Taken(input, name)) && r.out == out + LineLeaves(input, expand)
  }

  lemma MacroSkipped(out: Line, input: Input, name: Line, expand: Line -> Line)
    requires input.Chunk? && Plain(input, name) && LineKind(Text(input.line)).Define?
    ensures SkipLeaves(out, input, name, expand)
  {
    var s := Text(input.line);
    LineKindIs(s);
    BackslashIs(s);
    VisibleIs(s, 0);
    assert Drop(input, 1) == Drop(input.rest, 0) == input.rest;
    var more := input.line[Indent(s)..];
    if 0x5C in s {
      MacroIsRead(out + more, input.rest);
      Assoc(out, more, First(input.rest, MacroReads(input.rest)));
    } else {
      assert more + [] == more;
    }
  }

  lemma IncludeSkipped(out: Line, input: Input, name: Line, expand: Line -> Line)
    requires input.Chunk? && LineKind(Text(input.line)).Include?
    ensures SkipLeaves(out, input, name, expand)
  {
    var s := Text(input.line);
    LineKindIs(s);
    VisibleIs(s, 0);
    assert Drop(input, 1) == Drop(input.rest, 0) == input.rest;
    Assoc(out, Ascii("#include"), expand(s[Indent(s) + 8..]));
  }

  lemma CommentSkipped(out: Line, input: Input, name: Line, expand: Line -> Line)
    requires input.Chunk? && Plain(input, name)
    requires var k := LineKind(Text(input.line));
             k.OtherDirective? || k.Comment? || k.BlockComment?
    ensures SkipLeaves(out, input, name, expand)
  {
    LineKindIs(Text(input.line));
    assert Drop(input, 1) == Drop(input.rest, 0) == input.rest && out + [] == out;
    if LineKind(Text(input.line)).BlockComment? {
      CommentIsRead(false, input.rest);
    }
  }

  lemma AggregateSkipped(out: Line, input: Input, name: Line, expand: Line -> Line)
    requires input.Chunk? && Plain(input, name) && LineKind(Text(input.line)).Aggregate?
    ensures SkipLeaves(out, input, name, expand)
  {
    var s := Text(input.line);
    LineKindIs(s);
    VisibleIs(s, 0);
    AggregateIsRead(out, s[Indent(s)..], Indent(s), false, input.rest);
  }

  lemma SkippedScanned(out: Line, input: Input, name: Line, expand: Line -> Line)
    requires !Over(input) && Plain(input, name) && !LineKind(Text(input.line)).Code?
    ensures SkipLeaves(out, input, name, expand) && !BranchOf(Text(input.line)).Code?
  {
    LineKindIs(Text(input.line));
    match LineKind(Text(input.line))
    case Define => MacroSkipped(out, input, name, expand);
    case Include => IncludeSkipped(out, input, name, expand);
    case Aggregate => AggregateSkipped(out, input, name, expand);
    case _ => CommentSkipped(out, input, name, expand);
  }

  lemma PlainCode(input: Input, name: Line)
    requires !Over(input) && Plain(input, name) && LineKind(Text(input.line)).Code? && !IsTarget(input, name)
    ensures var s := Text(input.line);
            var n := Reads(s, name, input.rest, []);
            && !Unfinished(s, name, input.rest, []) && !Defines(s, name, input.rest, [])
            && Swallowed(s, name, input.rest, []) == 0
            && Taken(input, name) == 1 + n && Counted(input, name) == TotalBraces(input, 1 + n)
  {
  }

  lemma CheckTaken(out: Line, s: Line, name: Line, rest: Input)
    requires Text(s) == s && !Unfinished(s, name, rest, []) && !Defines(s, name, rest, [])
    requires Swallowed(s, name, rest, []) == 0
    ensures var r, n := Check(out, s, name, rest, []), Reads(s, name, rest, []);
            r.verdict.NotFound? && r.rest == Drop(rest, n) && Braces(r.line) == Braces(s) + TotalBraces(rest, n)
  {
    CheckFound(out, s, name, rest, []);
    CheckReads(out, s, name, rest, []);
    BracesAccounted(out, s, name, rest, []);
  }

  lemma CodeTaken(out: Line, input: Input, name: Line)
    requires !Over(input) && Plain(input, name) && LineKind(Text(input.line)).Code? && !IsTarget(input, name)
    ensures var r := Check(out, Text(input.line), name, input.rest, []);
            r.verdict.NotFound? && r.rest == Drop(input, Taken(input, name)) && Braces(r.line) == Counted(input, name)
  {
    TextOfText(input.line);
    PlainCode(input, name);
    CheckTaken(out, Text(input.line), name, input.rest);
    OneMoreLine(input, Reads(Text(input.line), name, input.rest, []));
  }

  lemma OneMoreLine(input: Input, n: nat)
    requires input.Chunk?
    ensures Drop(input, 1 + n) == Drop(input.rest, n)
    ensures TotalBraces(input, 1 + n) == Braces(Text(input.line)) + TotalBraces(input.rest, n)
  {
  }

  lemma CodeLeaves(input: Input, expand: Line -> Line)
    requires input.Chunk? && LineKind(Text(input.line)).Code?
    ensures LineLeaves(input, expand) == Declarations(Text(input.line), input.rest)
  {
  }

  lemma CodeScanned(out: Line, input: Input, name: Line, expand: Line -> Line)
    requires !Over(input) && Plain(input, name) && LineKind(Text(input.line)).Code? && !IsTarget(input, name)
    ensures Scan(out, input, name, 0, expand) ==
            Scan(out + LineLeaves(input, expand), Drop(input, Taken(input, name)), name, Counted(input, name), expand)
  {
    LineKindIs(Text(input.line));
    CodeTaken(out, input, name);
    CodeLeaves(input, expand);
    CheckLeaves(out, Text(input.line), name, input.rest, []);
  }

  lemma RoundScanned(out: Line, input: Input, name: Line, depth: int, expand: Line -> Line)
    requires !Over(input) && (depth == 0 ==> Plain(input, name) && !IsTarget(input, name))
    ensures Scan(out, input, name, depth, expand) ==
            Scan(out + LeftAt(input, depth, expand), Drop(input, TakenAt(input, name, depth)), name,
                 depth + CountedAt(input, name, depth), expand)
  {
    if depth != 0 {
      assert Drop(input, 1) == Drop(input.rest, 0) == input.rest && out + [] == out;
    } else if LineKind(Text(input.line)).Code? {
      CodeScanned(out, input, name, expand);
    } else {
      SkippedScanned(out, input, name, expand);
    }
  }

  lemma TargetScanned(out: Line, input: Input, name: Line, expand: Line -> Line)
    requires IsTarget(input, name)
    ensures Scan(out, input, name, 0, expand) ==
            Scanned(Isolated, Check(out, Text(input.line), name, input.rest, []).out)
  {
    LineKindIs(Text(input.line));
    CheckFound(out, Text(input.line), name, input.rest, []);
  }

  // ----- the first definition outside all braces

  lemma {:induction false} DropTwice(input: Input, k: nat, n: nat)
    ensures Drop(Drop(input, k), n) == Drop(input, k + n)
    decreases k
  {
    if k > 0 && input.Chunk? {
      DropTwice(input.rest, k - 1, n);
    }
  }

  lemma TargetLater(input: Input, name: Line, depth: int, n: nat)
    requires !Over(input) && n > 0
    ensures var k := TakenAt(input, name, depth);
            TargetAt(input, name, depth, n) <==>
            n >= k && TargetAt(Drop(input, k), name, depth + CountedAt(input, name, depth), n - k)
  {
    var k := TakenAt(input, name, depth);
    DepthLater(input, name, depth, n);
    if n >= k {
      SameTarget(input, name, depth, k, depth + CountedAt(input, name, depth), n);
    }
  }

  lemma SameTarget(input: Input, name: Line, depth: int, k: nat, below: int, n: nat)
    requires n >= k && DepthAt(input, name, depth, n) == DepthAt(Drop(input, k), name, below, n - k)
    ensures TargetAt(input, name, depth, n) <==> TargetAt(Drop(input, k), name, below, n - k)
  {
    DropTwice(input, k, n - k);
    EqualTargets(Drop(Drop(input, k), n - k), Drop(input, n), name);
  }

  lemma EqualTargets(a: Input, b: Input, name: Line)
    requires a == b
    ensures IsTarget(a, name) == IsTarget(b, name)
  {
  }

  lemma DepthLater(input: Input, name: Line, depth: int, n: nat)
    requires !Over(input) && n > 0
    ensures var k := TakenAt(input, name, depth);
            DepthAt(input, name, depth, n) ==
            if n < k then Machine.None else DepthAt(Drop(input, k), name, depth + CountedAt(input, name, depth), n - k)
  {
  }

  ghost predicate NoTargetBefore(input: Input, name: Line, depth: int, n: nat) {
    forall k: nat :: k < n ==> !TargetAt(input, name, depth, k)
  }

  ghost predicate NoTarget(input: Input, name: Line, depth: int) {
    forall n: nat :: !TargetAt(input, name, depth, n)
  }

  /** The definition on line `n` is the first, and `r` the output with it, behind `out` and what the lines leave. */
  ghost predicate IsolatedAt(out: Line, input: Input, name: Line, depth: int, n: nat, expand: Line -> Line, r: Line) {
    TargetAt(input, name, depth, n) && NoTargetBefore(input, name, depth, n) &&
    var at := Drop(input, n);
    r == Check(out + LeftBefore(input, name, depth, n, expand), Text(at.line), name, at.rest, []).out
  }

  /** The scan has come to the end, behind line `n`. */
  ghost predicate ScannedTo(out: Line, input: Input, name: Line, depth: int, n: nat, expand: Line -> Line, r: Line) {
    DepthAt(input, name, depth, n).Some? && Over(Drop(input, n)) &&
    r == out + LeftBefore(input, name, depth, n, expand)
  }

  ghost predicate ScannedThrough(out: Line, input: Input, name: Line, depth: int, expand: Line -> Line, r: Line) {
    exists n: nat :: ScannedTo(out, input, name, depth, n, expand, r)
  }

  /** The scan isolates the first definition that stands outside all braces, and nothing else. */
  ghost predicate ScansTo(out: Line, input: Input, name: Line, depth: int, expand: Line -> Line, r: Scanned) {
    if r.outcome.Isolated? then exists n: nat :: IsolatedAt(out, input, name, depth, n, expand, r.out)
    else
      && r.outcome.Missing? && NoTarget(input, name, depth)
      && ScannedThrough(out, input, name, depth, expand, r.out)
  }

  lemma ScansToHere(out: Line, input: Input, name: Line, expand: Line -> Line, r: Scanned)
    requires TargetAt(input, name, 0, 0) && r.outcome.Isolated?
    requires r.out == Check(out, Text(input.line), name, input.rest, []).out
    ensures ScansTo(out, input, name, 0, expand, r)
  {
    assert Drop(input, 0) == input && out + LeftBefore(input, name, 0, 0, expand) == out;
    assert IsolatedAt(out, input, name, 0, 0, expand, r.out);
  }

  lemma ScansToEnd(out: Line, input: Input, name: Line, depth: int, expand: Line -> Line, r: Scanned)
    requires Over(input) && r == Scanned(Missing, out)
    ensures ScansTo(out, input, name, depth, expand, r)
  {
    assert Drop(input, 0) == input && out + LeftBefore(input, name, depth, 0, expand) == out;
    assert ScannedTo(out, input, name, depth, 0, expand, r.out);
    forall n: nat
      ensures !TargetAt(input, name, depth, n)
    {
      NoTargetAtEnd(input, name, depth, n);
    }
  }

  lemma NoTargetEarlier(input: Input, name: Line, depth: int, n: nat)
    requires !Over(input) && !TargetAt(input, name, depth, 0)
    requires var k := TakenAt(input, name, depth);
             NoTargetBefore(Drop(input, k), name, depth + CountedAt(input, name, depth), n)
    ensures NoTargetBefore(input, name, depth, TakenAt(input, name, depth) + n)
  {
    forall j: nat | j < TakenAt(input, name, depth) + n
      ensures !TargetAt(input, name, depth, j)
    {
      if j > 0 {
        TargetLater(input, name, depth, j);
      }
    }
  }

  lemma LeftLater(out: Line, input: Input, name: Line, depth: int, n: nat, expand: Line -> Line)
    requires !Over(input)
    ensures var k := TakenAt(input, name, depth);
            out + LeftAt(input, depth, expand) +
            LeftBefore(Drop(input, k), name, depth + CountedAt(input, name, depth), n, expand) ==
            out + LeftBefore(input, name, depth, k + n, expand)
  {
    var k := TakenAt(input, name, depth);
    Assoc(out, LeftAt(input, depth, expand),
          LeftBefore(Drop(input, k), name, depth + CountedAt(input, name, depth), n, expand));
  }

  lemma IsolatedLater(out: Line, input: Input, name: Line, depth: int, n: nat, expand: Line -> Line, r: Line)
    requires !Over(input) && !TargetAt(input, name, depth, 0)
    requires var k := TakenAt(input, name, depth);
             IsolatedAt(out + LeftAt(input, depth, expand), Drop(input, k), name,
                        depth + CountedAt(input, name, depth), n, expand, r)
    ensures IsolatedAt(out, input, name, depth, TakenAt(input, name, depth) + n, expand, r)
  {
    var k := TakenAt(input, name, depth);
    TargetLater(input, name, depth, k + n);
    DropTwice(input, k, n);
    NoTargetEarlier(input, name, depth, n);
    LeftLater(out, input, name, depth, n, expand);
  }

  lemma ScannedLater(out: Line, input: Input, name: Line, depth: int, n: nat, expand: Line -> Line, r: Line)
    requires !Over(input)
    requires var k := TakenAt(input, name, depth);
             ScannedTo(out + LeftAt(input, depth, expand), Drop(input, k), name,
                       depth + CountedAt(input, name, depth), n, expand, r)
    ensures ScannedTo(out, input, name, depth, TakenAt(input, name, depth) + n, expand, r)
  {
    var k := TakenAt(input, name, depth);
    DepthLater(input, name, depth, k + n);
    DropTwice(input, k, n);
    LeftLater(out, input, name, depth, n, expand);
  }

  lemma NoTargetLater(input: Input, name: Line, depth: int)
    requires !Over(input) && !TargetAt(input, name, depth, 0)
    requires NoTarget(Drop(input, TakenAt(input, name, depth)), name, depth + CountedAt(input, name, depth))
    ensures NoTarget(input, name, depth)
  {
    forall n: nat
      ensures !TargetAt(input, name, depth, n)
    {
      if n > 0 {
        TargetLater(input, name, depth, n);
      }
    }
  }

  lemma MissingLater(out: Line, input: Input, name: Line, depth: int, expand: Line -> Line, r: Line)
    requires !Over(input)
    requires ScannedThrough(out + LeftAt(input, depth, expand), Drop(input, TakenAt(input, name, depth)), name,
                            depth + CountedAt(input, name, depth), expand, r)
    ensures ScannedThrough(out, input, name, depth, expand, r)
  {
    var n: nat :| ScannedTo(out + LeftAt(input, depth, expand), Drop(input, TakenAt(input, name, depth)), name,
                            depth + CountedAt(input, name, depth), n, expand, r);
    ScannedLater(out, input, name, depth, n, expand, r);
  }

  lemma ScansToLater(out: Line, input: Input, name: Line, depth: int, expand: Line -> Line, r: Scanned)
    requires !Over(input) && !TargetAt(input, name, depth, 0)
    requires ScansTo(out + LeftAt(input, depth, expand), Drop(input, TakenAt(input, name, depth)), name,
                     depth + CountedAt(input, name, depth), expand, r)
    ensures ScansTo(out, input, name, depth, expand, r)
  {
    if r.outcome.Isolated? {
      var n: nat :| IsolatedAt(out + LeftAt(input, depth, expand), Drop(input, TakenAt(input, name, depth)), name,
                               depth + CountedAt(input, name, depth), n, expand, r.out);
      IsolatedLater(out, input, name, depth, n, expand, r.out);
    } else {
      MissingLater(out, input, name, depth, expand, r.out);
      NoTargetLater(input, name, depth);
    }
  }

  lemma NoTargetAtEnd(input: Input, name: Line, depth: int, n: nat)
    requires Over(input)
    ensures !TargetAt(input, name, depth, n)
  {
  }

  lemma PlainLater(input: Input, name: Line, depth: int)
    requires PlainFrom(input, name, depth) && !Over(input) && !(depth == 0 && IsTarget(input, name))
    ensures depth == 0 ==> Plain(input, name)
    ensures var rest := Drop(input, TakenAt(input, name, depth));
            Size(rest) < Size(input) && PlainFrom(rest, name, depth + CountedAt(input, name, depth))
  {
    DropShrinks(input, TakenAt(input, name, depth));
  }

  lemma NotTargetHere(input: Input, name: Line, depth: int)
    requires !(depth == 0 && IsTarget(input, name))
    ensures !TargetAt(input, name, depth, 0)
  {
    assert Drop(input, 0) == input;
  }

  lemma {:induction false} ScanFindsFirst(out: Line, input: Input, name: Line, depth: int, expand: Line -> Line)
    requires PlainFrom(input, name, depth)
    ensures ScansTo(out, input, name, depth, expand, Scan(out, input, name, depth, expand))
    decreases Size(input)
  {
    if Over(input) {
      ScansToEnd(out, input, name, depth, expand, Scan(out, input, name, depth, expand));
    } else if depth == 0 && IsTarget(input, name) {
      TargetScanned(out, input, name, expand);
      ScansToHere(out, input, name, expand, Scan(out, input, name, 0, expand));
    } else {
      PlainLater(input, name, depth);
      RoundScanned(out, input, name, depth, expand);
      ScanFindsFirst(out + LeftAt(input, depth, expand), Drop(input, TakenAt(input, name, depth)), name,
                     depth + CountedAt(input, name, depth), expand);
      NotTargetHere(input, name, depth);
      ScansToLater(out, input, name, depth, expand, Scan(out, input, name, depth, expand));
    }
  }
}
