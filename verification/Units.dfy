/** How many lines the scan takes in at once, and what becomes of the braces on them. */
module Units {
  import opened LineReader
  import opened CText
  import opened Isolator
  import opened Extraction

  // ----- what is recognised

  /** What the lines from `l` on decide first: 1 a brace, -1 a semicolon, 0 neither. */
  function Opening(l: Line, rest: Input): int
    decreases rest
  {
    var c := CurlyFirst(Text(l));
    if c != 0 || rest.End? then c else Opening(rest.line, rest.rest)
  }

  /** The name is found in the text gathered before or on the line. */
  predicate Matches(s: Line, name: Line, before: Line) {
    (before != [] && Names(before, name)) || Names(s, name)
  }

  /** After its declarations the string `s` on, the lines start the definition of the function. */
  predicate Defines(s: Line, name: Line, rest: Input, before: Line)
    decreases rest, |s|
  {
    match KindOf(s)
    case Semicolon => Defines(s[FirstMeaningful(s, Decider(s, 0, true) + 1)..], name, rest, [])
    case Undefined =>
      rest.Chunk? && Defines(Text(rest.line), name, rest.rest, before + Text(rest.line))
    case LeftParenthesis => Matches(s, name, before) && Opening(s, rest) == 1
    case _ => false
  }

  /** The input ends inside a declaration that is still open. */
  predicate Unfinished(s: Line, name: Line, rest: Input, before: Line)
    decreases rest, |s|
  {
    match KindOf(s)
    case Semicolon => Unfinished(s[FirstMeaningful(s, Decider(s, 0, true) + 1)..], name, rest, [])
    case Undefined =>
      rest.End? || Unfinished(Text(rest.line), name, rest.rest, before + Text(rest.line))
    case LeftParenthesis => Matches(s, name, before) && Opening(s, rest) == 0
    case _ => false
  }

  lemma {:induction false} SignatureFound(out: Line, l: Line, rest: Input, before: Line)
    ensures Signature(out, l, rest, before).verdict.Found? <==> Opening(l, rest) == 1
    ensures Signature(out, l, rest, before).verdict.Stuck? <==> Opening(l, rest) == 0
    decreases rest
  {
    if CurlyFirst(Text(l)) == 0 && rest.Chunk? {
      SignatureFound(out, rest.line, rest.rest, before + Text(l));
    }
  }

  /** A declaration is passed over. */
  lemma CheckDeclaration(out: Line, s: Line, name: Line, rest: Input, before: Line)
    requires KindOf(s).Semicolon?
    ensures var next := Decider(s, 0, true) + 1;
            var i := FirstMeaningful(s, next);
            var r := Check(Declared(out, s, next), s[i..], name, rest, []);
            Check(out, s, name, rest, before) == r.(line := s[..i] + r.line)
  {
  }

  lemma {:induction false} CheckFound(out: Line, s: Line, name: Line, rest: Input, before: Line)
    ensures var r := Check(out, s, name, rest, before);
            (r.verdict.Found? <==> Defines(s, name, rest, before)) &&
            (r.verdict.Stuck? <==> Unfinished(s, name, rest, before))
    decreases rest, |s|
  {
    match KindOf(s)
    case Semicolon =>
      var next := Decider(s, 0, true) + 1;
      CheckDeclaration(out, s, name, rest, before);
      CheckFound(Declared(out, s, next), s[FirstMeaningful(s, next)..], name, rest, []);
    case Undefined =>
      if rest.Chunk? {
        CheckFound(out, Text(rest.line), name, rest.rest, before + Text(rest.line));
      }
    case LeftParenthesis => SignatureFound(out, s, rest, before);
    case NoContent =>
    case CurlyBracket =>
  }

  // ----- how many lines are read

  /** The lines read to find the brace or semicolon. */
  function SignatureReads(l: Line, rest: Input): nat
    decreases rest
  {
    if CurlyFirst(Text(l)) != 0 || rest.End? then 0 else 1 + SignatureReads(rest.line, rest.rest)
  }

  /** The lines that `checkAndWriteFunc` reads behind `s`, when it finds nothing. */
  function Reads(s: Line, name: Line, rest: Input, before: Line): nat
    decreases rest, |s|
  {
    match KindOf(s)
    case Semicolon => Reads(s[FirstMeaningful(s, Decider(s, 0, true) + 1)..], name, rest, [])
    case Undefined =>
      if rest.End? then 0 else 1 + Reads(Text(rest.line), name, rest.rest, before + Text(rest.line))
    case LeftParenthesis => if Matches(s, name, before) then SignatureReads(s, rest) else 0
    case _ => 0
  }

  /** The brace sum of the first `n` lines. */
  function TotalBraces(input: Input, n: nat): int
    decreases n
  {
    if n == 0 || input.End? then 0 else Braces(Text(input.line)) + TotalBraces(input.rest, n - 1)
  }

  lemma {:induction false} SignatureReadsOn(out: Line, l: Line, rest: Input, before: Line)
    requires Signature(out, l, rest, before).verdict.NotFound?
    ensures var n, r := SignatureReads(l, rest), Signature(out, l, rest, before);
            r.rest == Drop(rest, n) &&
            Braces(r.line) + (if n == 0 then 0 else Braces(Text(l)) + TotalBraces(rest, n - 1)) ==
            Braces(Text(l)) + TotalBraces(rest, n)
    decreases rest
  {
    if CurlyFirst(Text(l)) == 0 && rest.Chunk? {
      SignatureReadsOn(out, rest.line, rest.rest, before + Text(l));
    }
  }

  // ----- the braces that the scanner does not see

  /** The brace sum of the text that was read and is no longer in the caller's line buffer. */
  function Swallowed(s: Line, name: Line, rest: Input, before: Line): int
    decreases |s|
  {
    match KindOf(s)
    case Semicolon => Swallowed(s[FirstMeaningful(s, Decider(s, 0, true) + 1)..], name, rest, [])
    case Undefined => TotalBraces(rest, Reads(s, name, rest, before))
    case LeftParenthesis =>
      var n := Reads(s, name, rest, before);
      if n == 0 then 0 else Braces(s) + TotalBraces(rest, n - 1)
    case _ => 0
  }

  lemma BracesOfParts(s: Line, i: nat, t: Line)
    requires i <= |s|
    ensures Braces(s[..i] + t) - Braces(t) == Braces(s) - Braces(s[i..])
  {
    BraceSumOfJoin(s[..i], t, |t|);
    BraceSumOfJoin(s[..i], s[i..], |s| - i);
    assert s == s[..i] + s[i..];
  }

  lemma {:induction false} CheckReads(out: Line, s: Line, name: Line, rest: Input, before: Line)
    requires Check(out, s, name, rest, before).verdict.NotFound?
    ensures Check(out, s, name, rest, before).rest == Drop(rest, Reads(s, name, rest, before))
    decreases rest, |s|
  {
    match KindOf(s)
    case Semicolon =>
      var next := Decider(s, 0, true) + 1;
      CheckDeclaration(out, s, name, rest, before);
      CheckReads(Declared(out, s, next), s[FirstMeaningful(s, next)..], name, rest, []);
    case Undefined =>
      if rest.Chunk? {
        CheckReads(out, Text(rest.line), name, rest.rest, before + Text(rest.line));
      }
    case LeftParenthesis =>
      if Matches(s, name, before) {
        SignatureReadsOn(out, s, rest, before);
      }
    case NoContent =>
    case CurlyBracket =>
  }

  /** Whatever was read, the braces in the buffer and the swallowed ones make up those of the lines. */
  lemma {:induction false} BracesAccounted(out: Line, s: Line, name: Line, rest: Input, before: Line)
    requires Check(out, s, name, rest, before).verdict.NotFound? && Text(s) == s
    ensures Braces(Check(out, s, name, rest, before).line) + Swallowed(s, name, rest, before) ==
            Braces(s) + TotalBraces(rest, Reads(s, name, rest, before))
    decreases |s|
  {
    match KindOf(s)
    case Semicolon =>
      var next := Decider(s, 0, true) + 1;
      var i := FirstMeaningful(s, next);
      CheckDeclaration(out, s, name, rest, before);
      TextOfSuffix(s, i);
      BracesAccounted(Declared(out, s, next), s[i..], name, rest, []);
      BracesOfParts(s, i, Check(Declared(out, s, next), s[i..], name, rest, []).line);
    case Undefined =>
    case LeftParenthesis =>
      if Matches(s, name, before) {
        SignatureReadsOn(out, s, rest, before);
      }
    case NoContent =>
    case CurlyBracket =>
  }

  /**
   * After a line at depth 0 that is not the definition, with any number of lines read behind it, the
   * scanner's depth is the brace sum of all these lines exactly when the swallowed ones balance.
   */
  lemma DepthIsSumIff(out: Line, s: Line, name: Line, rest: Input)
    requires Check(out, s, name, rest, []).verdict.NotFound? && Text(s) == s
    ensures var r := Check(out, s, name, rest, []);
            Braces(r.line) == TotalBraces(Chunk(s, rest), 1 + Reads(s, name, rest, [])) <==>
            Swallowed(s, name, rest, []) == 0
  {
    BracesAccounted(out, s, name, rest, []);
  }
}
