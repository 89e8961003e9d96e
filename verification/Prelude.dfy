/** What the lines before the function leave in the output, in literal text. */
module Prelude {
  import opened LineReader
  import opened CText
  import opened Isolator
  import opened Extraction
  import opened Scanner
  import opened Units
  import opened BrokenLines
  import opened CLines
  import Machine

  // ----- declarations

  /** Every declaration, up to its semicolon, is made extern unless `static` occurs from its start on. */
  function Declarations(s: Line, rest: Input): Line
    decreases rest, |s|
  {
    var d := DecidedAt(s, 0);
    if VisibleFrom(s, 0) == |s| then []
    else if d == |s| then if rest.End? then [] else Declarations(Text(rest.line), rest.rest)
    else if s[d] == 0x3B then
      (if Occurs(Ascii("static"), s) then [] else Ascii("extern ") + s[..d + 1] + [13]) +
      Declarations(s[VisibleFrom(s, d + 1)..], rest)
    else []
  }

  lemma KindByText(s: Line)
    ensures var d := DecidedAt(s, 0);
            KindOf(s) ==
            if VisibleFrom(s, 0) == |s| then NoContent
            else if d == |s| then Undefined
            else if s[d] == 0x7B then CurlyBracket
            else if s[d] == 0x3B then Semicolon
            else LeftParenthesis
  {
    VisibleIs(s, 0);
    DeciderIs(s);
  }

  /** What a declaration that ends before `next` leaves. */
  function DeclarationText(s: Line, next: nat): Line
    requires next <= |s|
  {
    if Occurs(Ascii("static"), s) then [] else Ascii("extern ") + s[..next] + [13]
  }

  lemma DeclaredText(out: Line, s: Line, next: nat)
    requires next <= |s|
    ensures Declared(out, s, next) == out + DeclarationText(s, next)
  {
    Words();
    ContainsIff(s, STATIC);
    if Contains(s, STATIC) {
      assert out + [] == out;
    } else {
      assert out + EXTERN + s[..next] + [CR] == out + (EXTERN + s[..next] + [CR]);
    }
  }

  lemma FirstDeclaration(s: Line, rest: Input)
    requires KindOf(s).Semicolon?
    ensures var next := Decider(s, 0, true) + 1;
            Declarations(s, rest) == DeclarationText(s, next) + Declarations(s[FirstMeaningful(s, next)..], rest)
  {
    var d := EndsDeclaration(s);
    VisibleIs(s, d + 1);
    DeclarationAt(s, rest, d);
  }

  lemma EndsDeclaration(s: Line) returns (d: nat)
    requires KindOf(s).Semicolon?
    ensures d == Decider(s, 0, true) == DecidedAt(s, 0) < |s| && s[d] == 0x3B && VisibleFrom(s, 0) < |s|
  {
    d := DecidedAt(s, 0);
    KindByText(s);
    DeciderIs(s);
  }

  lemma DeclarationAt(s: Line, rest: Input, d: nat)
    requires d == DecidedAt(s, 0) < |s| && s[d] == 0x3B && VisibleFrom(s, 0) < |s|
    ensures Declarations(s, rest) == DeclarationText(s, d + 1) + Declarations(s[VisibleFrom(s, d + 1)..], rest)
  {
  }

  lemma DeclarationFirst(out: Line, s: Line, rest: Input)
    requires KindOf(s).Semicolon?
    ensures var next := Decider(s, 0, true) + 1;
            out + Declarations(s, rest) == Declared(out, s, next) + Declarations(s[FirstMeaningful(s, next)..], rest)
  {
    var next := Decider(s, 0, true) + 1;
    FirstDeclaration(s, rest);
    DeclaredText(out, s, next);
    Assoc(out, DeclarationText(s, next), Declarations(s[FirstMeaningful(s, next)..], rest));
  }

  lemma DeclarationChecked(out: Line, s: Line, name: Line, rest: Input, before: Line)
    requires KindOf(s).Semicolon?
    ensures var next := Decider(s, 0, true) + 1;
            var r := Check(Declared(out, s, next), s[FirstMeaningful(s, next)..], name, rest, []);
            Check(out, s, name, rest, before).out == r.out && Check(out, s, name, rest, before).verdict == r.verdict
  {
    CheckDeclaration(out, s, name, rest, before);
  }

  lemma NoDeclaration(out: Line, s: Line, rest: Input)
    requires !KindOf(s).Semicolon? && (KindOf(s).Undefined? ==> rest.End?)
    ensures out + Declarations(s, rest) == out
  {
    KindByText(s);
    assert out + [] == out;
  }

  lemma DeclarationsLater(s: Line, rest: Input)
    requires KindOf(s).Undefined? && rest.Chunk?
    ensures Declarations(s, rest) == Declarations(Text(rest.line), rest.rest)
  {
    KindByText(s);
  }

  lemma {:induction false} NothingWritten(out: Line, l: Line, rest: Input, before: Line)
    requires Signature(out, l, rest, before).verdict.NotFound?
    ensures Signature(out, l, rest, before).out == out
    decreases rest
  {
    if CurlyFirst(Text(l)) == 0 && rest.Chunk? {
      NothingWritten(out, rest.line, rest.rest, before + Text(l));
    }
  }

  /** Both calls write the same and find the same. */
  predicate CheckedAlike(out: Line, s: Line, before: Line, d: Line, t: Line, name: Line, rest: Input) {
    && Check(out, s, name, rest, before).out == Check(d, t, name, rest, []).out
    && Check(out, s, name, rest, before).verdict == Check(d, t, name, rest, []).verdict
  }

  lemma StartPassed(out: Line, s: Line, rest: Input)
    requires KindOf(s).Semicolon?
    ensures var next := Decider(s, 0, true) + 1;
            StartOf(out, s, rest) == StartOf(Declared(out, s, next), s[FirstMeaningful(s, next)..], rest)
  {
  }

  /** A declaration is passed: `d` is the output with it, `t` what follows it. */
  lemma PassDeclaration(out: Line, s: Line, name: Line, rest: Input, before: Line) returns (d: Line, t: Line)
    requires KindOf(s).Semicolon?
    ensures |t| < |s| && (Defines(s, name, rest, before) ==> Defines(t, name, rest, []))
    ensures StartOf(out, s, rest) == StartOf(d, t, rest) && CheckedAlike(out, s, before, d, t, name, rest)
    ensures out + Declarations(s, rest) == d + Declarations(t, rest)
  {
    var next := Decider(s, 0, true) + 1;
    d, t := Declared(out, s, next), s[FirstMeaningful(s, next)..];
    DeclarationFirst(out, s, rest);
    StartPassed(out, s, rest);
    DeclarationChecked(out, s, name, rest, before);
  }

  /** If the lines are not the definition, they leave their declarations. */
  predicate Leaves(out: Line, s: Line, name: Line, rest: Input, before: Line) {
    var r := Check(out, s, name, rest, before);
    r.verdict.NotFound? ==> r.out == out + Declarations(s, rest)
  }

  lemma LeavesDeclaration(out: Line, s: Line, name: Line, rest: Input, before: Line, d: Line, t: Line)
    requires CheckedAlike(out, s, before, d, t, name, rest) && Leaves(d, t, name, rest, [])
    requires out + Declarations(s, rest) == d + Declarations(t, rest)
    ensures Leaves(out, s, name, rest, before)
  {
  }

  lemma LeavesNextLine(out: Line, s: Line, name: Line, rest: Input, before: Line)
    requires KindOf(s).Undefined? && rest.Chunk?
    requires Leaves(out, Text(rest.line), name, rest.rest, before + Text(rest.line))
    ensures Leaves(out, s, name, rest, before)
  {
    DeclarationsLater(s, rest);
  }

  lemma LeavesNothing(out: Line, s: Line, name: Line, rest: Input, before: Line)
    requires !KindOf(s).Semicolon? && (KindOf(s).Undefined? ==> rest.End?)
    ensures Leaves(out, s, name, rest, before)
  {
    NoDeclaration(out, s, rest);
    if KindOf(s).LeftParenthesis? && Matches(s, name, before) && Signature(out, s, rest, before).verdict.NotFound? {
      NothingWritten(out, s, rest, before);
    }
  }

  lemma {:induction false} CheckLeaves(out: Line, s: Line, name: Line, rest: Input, before: Line)
    ensures Leaves(out, s, name, rest, before)
    decreases rest, |s|
  {
    if KindOf(s).Semicolon? {
      var d, t := PassDeclaration(out, s, name, rest, before);
      CheckLeaves(d, t, name, rest, []);
      LeavesDeclaration(out, s, name, rest, before, d, t);
    } else if KindOf(s).Undefined? && rest.Chunk? {
      CheckLeaves(out, Text(rest.line), name, rest.rest, before + Text(rest.line));
      LeavesNextLine(out, s, name, rest, before);
    } else {
      LeavesNothing(out, s, name, rest, before);
    }
  }

  lemma {:induction false} ChainHasNoDeclaration(s: Line, rest: Input)
    requires Chain(s, rest)
    ensures Declarations(s, rest) == []
    decreases rest
  {
    KindByText(s);
    if KindOf(s).Undefined? {
      ChainHasNoDeclaration(Text(rest.line), rest.rest);
    }
  }

  /** The output at the start of the definition is what was written before, and the declarations in front of it. */
  predicate StartsBehind(out: Line, s: Line, rest: Input) {
    StartOf(out, s, rest).out == out + Declarations(s, rest)
  }

  lemma StartsBehindDeclaration(out: Line, s: Line, rest: Input, d: Line, t: Line)
    requires StartOf(out, s, rest) == StartOf(d, t, rest) && out + Declarations(s, rest) == d + Declarations(t, rest)
    requires StartsBehind(d, t, rest)
    ensures StartsBehind(out, s, rest)
  {
  }

  lemma StartsHere(out: Line, s: Line, rest: Input)
    requires Chain(s, rest)
    ensures StartsBehind(out, s, rest)
  {
    ChainHasNoDeclaration(s, rest);
    assert out + [] == out;
  }

  lemma StartsOnLaterLine(out: Line, s: Line, rest: Input)
    requires KindOf(s).Undefined? && rest.Chunk? && !Chain(s, rest) && StartsBehind(out, Text(rest.line), rest.rest)
    ensures StartsBehind(out, s, rest)
  {
    DeclarationsLater(s, rest);
  }

  /** So do the lines that come before the definition itself. */
  lemma {:induction false} StartLeaves(out: Line, s: Line, name: Line, rest: Input, before: Line)
    requires Defines(s, name, rest, before)
    ensures StartsBehind(out, s, rest)
    decreases rest, |s|
  {
    if KindOf(s).Semicolon? {
      var d, t := PassDeclaration(out, s, name, rest, before);
      StartLeaves(d, t, name, rest, []);
      StartsBehindDeclaration(out, s, rest, d, t);
    } else if Chain(s, rest) {
      StartsHere(out, s, rest);
    } else {
      StartLeaves(out, Text(rest.line), name, rest.rest, before + Text(rest.line));
      StartsOnLaterLine(out, s, rest);
    }
  }

  // ----- macros

  /** The lines that continue a macro: up to the first without a backslash. */
  function MacroReads(input: Input): nat
    decreases input
  {
    if input.End? then 0
    else if 0x5C !in Text(input.line) then 1
    else 1 + MacroReads(input.rest)
  }

  predicate MacroEnds(input: Input)
    decreases input
  {
    input.Chunk? && (0x5C !in Text(input.line) || MacroEnds(input.rest))
  }

  lemma BackslashIs(s: Line)
    ensures HasBackslash(s, 0) <==> 0x5C in s
    ensures Continued(s) <==> 0x5C in s
  {
    if 0x5C in s {
      var k :| 0 <= k < |s| && s[k] == 0x5C;
      assert FirstMeaningful(s, 0) <= k;
    }
  }

  lemma {:induction false} MacroIsRead(out: Line, input: Input)
    requires MacroEnds(input)
    ensures var n, r := MacroReads(input), MacroLines(out, input);
            r.verdict.NotFound? && r.rest == Drop(input, n) && r.out == out + First(input, n)
    decreases input
  {
    BackslashIs(Text(input.line));
    assert First(input, 1) == input.line + First(input.rest, 0) == input.line;
    assert Drop(input, 1) == Drop(input.rest, 0) == input.rest;
    if input.line == [] {
      assert out + [] == out;
    } else if 0x5C in Text(input.line) {
      MacroIsRead(out + input.line, input.rest);
      Assoc(out, input.line, First(input.rest, MacroReads(input.rest)));
    }
  }

  // ----- comments

  /** The lines of a block comment after the first. */
  function StarLines(input: Input): nat
    decreases input
  {
    if input.Chunk? && Leads(Text(input.line), Ascii("*")) then 1 + StarLines(input.rest) else 0
  }

  predicate CommentEnds(input: Input) {
    StarLines(input) == 0 || Drop(input, StarLines(input)).Chunk?
  }

  lemma {:induction false} CommentIsRead(starred: bool, input: Input)
    requires Drop(input, StarLines(input)).Chunk? || (!starred && StarLines(input) == 0)
    ensures AfterComment(starred, input) == Machine.Some(Drop(input, StarLines(input)))
    decreases input
  {
    if input.Chunk? {
      Words();
      LedIff(Text(input.line), STAR);
      if Leads(Text(input.line), Ascii("*")) {
        CommentIsRead(true, input.rest);
      }
    }
  }

  // ----- typedef, enum and struct

  /** What the pointer to character `i` of the first line shows after the next line has been read. */
  function NextSeen(seen: Line, i: nat, input: Input): Line {
    if input.End? then seen else Seen(input.line, i, seen)
  }

  predicate Finishes(seen: Line, closed: bool) {
    (closed || 0x7D in seen) && 0x3B in seen
  }

  /** The lines of a typedef, enum or struct after the first. */
  function AggregateReads(seen: Line, i: nat, closed: bool, input: Input): nat
    decreases input
  {
    if input.End? then 0
    else
      var now := Seen(input.line, i, seen);
      if Finishes(now, closed) then 1 else 1 + AggregateReads(now, i, closed || 0x7D in now, input.rest)
  }

  predicate AggregateClosed(seen: Line, i: nat, closed: bool, input: Input)
    decreases input
  {
    if input.End? then Finishes(seen, closed)
    else
      var now := Seen(input.line, i, seen);
      Finishes(now, closed) || AggregateClosed(now, i, closed || 0x7D in now, input.rest)
  }

  /** What it shows at first and after each of the next `n` lines, one after the other. */
  function AggregateText(seen: Line, i: nat, input: Input, n: nat): Line
    decreases n
  {
    if n == 0 then seen
    else seen + AggregateText(NextSeen(seen, i, input), i, if input.End? then End else input.rest, n - 1)
  }

  /** At the end of the file the last line is shown once more. */
  function AggregateShows(seen: Line, i: nat, closed: bool, input: Input): nat {
    if input.End? then 1 else AggregateReads(seen, i, closed, input)
  }

  lemma FinishesIs(seen: Line, closed: bool)
    ensures Finishes(seen, closed) <==> AggregateEnds(seen, closed)
  {
  }

  lemma {:induction false} AggregateIsRead(out: Line, seen: Line, i: nat, closed: bool, input: Input)
    requires AggregateClosed(seen, i, closed, input)
    requires input.End? ==> !(closed && 0x3B in seen)
    ensures var r := AggregateLines(out, seen, i, closed, input);
            && r.verdict.NotFound? && r.rest == Drop(input, AggregateReads(seen, i, closed, input))
            && r.out == out + AggregateText(seen, i, input, AggregateShows(seen, i, closed, input))
    decreases input
  {
    FinishesIs(NextSeen(seen, i, input), closed);
    Assoc(out, seen, NextSeen(seen, i, input));
    if input.End? {
      assert AggregateText(seen, i, End, 1) == seen + AggregateText(seen, i, End, 0);
    } else {
      var now := Seen(input.line, i, seen);
      if Finishes(now, closed) {
        assert Drop(input, 1) == Drop(input.rest, 0) == input.rest;
        assert AggregateText(seen, i, input, 1) == seen + AggregateText(now, i, input.rest, 0);
      } else {
        AggregateIsRead(out + seen, now, i, closed || 0x7D in now, input.rest);
        Assoc(out, seen, AggregateText(now, i, input.rest, AggregateReads(now, i, closed || 0x7D in now, input.rest)));
      }
    }
  }
}
