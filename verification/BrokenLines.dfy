/** What is written for a function whose signature is broken before its parenthesis. */
module BrokenLines {
  import opened LineReader
  import opened CText
  import opened Isolator
  import opened Extraction
  import opened Units

  /** Lines without parenthesis, brace or semicolon, and then one whose parenthesis comes first. */
  predicate Chain(s: Line, rest: Input)
    decreases rest
  {
    match KindOf(s)
    case LeftParenthesis => true
    case Undefined => rest.Chunk? && Chain(Text(rest.line), rest.rest)
    case _ => false
  }

  /** The signature and body that the first line of the input starts. */
  function Block(input: Input): Line {
    var k := SignatureLines(input);
    var body := Drop(input, k);
    First(input, k) + if body.Chunk? then Kept(body, BodyLines(body, 0)) else []
  }

  /** The text of the function as it stands, from the line where its declaration starts. */
  function FunctionText(s: Line, rest: Input): Line
    requires Chain(s, rest)
    decreases rest
  {
    if KindOf(s).LeftParenthesis? then Block(Chunk(s, rest)) else s + FunctionText(Text(rest.line), rest.rest)
  }

  /** The part from the line with the parenthesis on. */
  function Tail(s: Line, rest: Input): Line
    requires Chain(s, rest)
    decreases rest
  {
    if KindOf(s).LeftParenthesis? then Block(Chunk(s, rest)) else Tail(Text(rest.line), rest.rest)
  }

  /** What stands before that part. */
  function Head(s: Line, rest: Input): Line
    requires Chain(s, rest)
    decreases rest
  {
    if KindOf(s).LeftParenthesis? then [] else s + Head(Text(rest.line), rest.rest)
  }

  /** What the program writes before that part: the lines after the first, the one with the parenthesis too. */
  function Gathered(s: Line, rest: Input): Line
    requires Chain(s, rest)
    decreases rest
  {
    if KindOf(s).LeftParenthesis? then [] else Text(rest.line) + Gathered(Text(rest.line), rest.rest)
  }

  lemma {:induction false} HeadAndTail(s: Line, rest: Input)
    requires Chain(s, rest)
    ensures FunctionText(s, rest) == Head(s, rest) + Tail(s, rest)
    decreases rest
  {
    if KindOf(s).LeftParenthesis? {
      assert [] + Tail(s, rest) == Tail(s, rest);
    } else {
      HeadAndTail(Text(rest.line), rest.rest);
      Assoc(s, Head(Text(rest.line), rest.rest), Tail(Text(rest.line), rest.rest));
    }
  }

  lemma BlockWritten(out: Line, s: Line, rest: Input, before: Line)
    requires Clean(Chunk(s, rest)) && Opening(s, rest) == 1
    ensures Signature(out, s, rest, before).out == out + (before + Block(Chunk(s, rest)))
  {
    var input := Chunk(s, rest);
    var k := SignatureLines(input);
    SignatureFound(out, s, rest, before);
    SignatureIsKept(out, input, before);
    TextsAreLines(input, k);
    var kept := Kept(Drop(input, k), BodyLines(Drop(input, k), 0));
    Assoc(out, before + First(input, k), kept);
    Assoc(before, First(input, k), kept);
  }

  lemma {:induction false} ChainWritten(out: Line, s: Line, name: Line, rest: Input, before: Line)
    requires Chain(s, rest) && Defines(s, name, rest, before) && Clean(Chunk(s, rest))
    ensures Check(out, s, name, rest, before).out == out + (before + (Gathered(s, rest) + Tail(s, rest)))
    decreases rest
  {
    if KindOf(s).LeftParenthesis? {
      BlockWritten(out, s, rest, before);
      assert [] + Tail(s, rest) == Tail(s, rest);
    } else {
      var next := Text(rest.line);
      ChainWritten(out, next, name, rest.rest, before + next);
      var more, tail := Gathered(next, rest.rest), Tail(next, rest.rest);
      Assoc(before, next, more + tail);
      Assoc(next, more, tail);
    }
  }

  /** A broken line has no parenthesis, and the line that completes it has one. */
  lemma {:induction false} ParenthesisGathered(s: Line, rest: Input)
    requires Chain(s, rest)
    ensures PAREN !in Head(s, rest)
    ensures KindOf(s).Undefined? ==> PAREN in Gathered(s, rest)
    decreases rest
  {
    if KindOf(s).Undefined? {
      assert forall k :: 0 <= k < |s| ==> !Decides(s[k], true);
      var next := Text(rest.line);
      ParenthesisGathered(next, rest.rest);
      if KindOf(next).LeftParenthesis? {
        assert next[Decider(next, 0, true)] == PAREN;
      }
    }
  }

  /**
   * What is written is the text of the function exactly when the parenthesis comes first on the line
   * where its declaration starts, however many broken lines there are else.
   */
  lemma WrittenFromStartIff(out: Line, s: Line, name: Line, rest: Input)
    requires Chain(s, rest) && Defines(s, name, rest, []) && Clean(Chunk(s, rest))
    ensures Check(out, s, name, rest, []).out == out + FunctionText(s, rest) <==> KindOf(s).LeftParenthesis?
  {
    var g, h, t := Gathered(s, rest), Head(s, rest), Tail(s, rest);
    ChainWritten(out, s, name, rest, []);
    HeadAndTail(s, rest);
    ParenthesisGathered(s, rest);
    assert [] + (g + t) == g + t;
    if out + (g + t) == out + (h + t) {
      SameFront(out, g, h, t);
    }
  }

  lemma SameFront(out: Line, g: Line, h: Line, t: Line)
    requires out + (g + t) == out + (h + t)
    ensures g == h
  {
    assert |g| == |h|;
    forall k | 0 <= k < |g|
      ensures g[k] == h[k]
    {
      assert (out + (g + t))[|out| + k] == g[k] && (out + (h + t))[|out| + k] == h[k];
    }
  }

  // ----- where a declaration starts

  /** The text that starts a declaration, the input behind it, and the output when it is reached. */
  datatype Start = Start(text: Line, rest: Input, out: Line)

  /** Declarations that end are passed, on the line or on the lines that complete it. */
  function StartOf(out: Line, s: Line, rest: Input): Start
    decreases rest, |s|
  {
    if KindOf(s).Semicolon? then
      var next := Decider(s, 0, true) + 1;
      StartOf(Declared(out, s, next), s[FirstMeaningful(s, next)..], rest)
    else if Chain(s, rest) || rest.End? then Start(s, rest, out)
    else StartOf(out, Text(rest.line), rest.rest)
  }

  /** The text `k` lines on. */
  function TextAt(s: Line, rest: Input, k: nat): Line {
    if k == 0 then s
    else
      var at := Drop(rest, k - 1);
      if at.Chunk? then Text(at.line) else []
  }

  /** Only blanks stand between a semicolon, or the beginning, and character `i`. */
  ghost predicate BehindSemicolon(l: Line, i: nat)
    requires i <= |l|
  {
    i == 0 || exists q: nat :: IsSemicolonBefore(l, q, i)
  }

  predicate IsSemicolonBefore(l: Line, q: nat, i: nat) {
    q < |l| && l[q] == SEMI && FirstMeaningful(l, q + 1) == i
  }

  /** The declaration starts `k` lines on, from character `i` on, behind a semicolon if not at the beginning. */
  ghost predicate StartsAt(p: Start, s: Line, rest: Input, k: nat, i: nat) {
    var l := TextAt(s, rest, k);
    i <= |l| && p.text == l[i..] && p.rest == Drop(rest, k) && BehindSemicolon(l, i)
  }

  lemma TextOnNextLine(s: Line, rest: Input, n: nat)
    requires rest.Chunk?
    ensures TextAt(s, rest, n + 1) == TextAt(Text(rest.line), rest.rest, n) && Drop(rest, n + 1) == Drop(rest.rest, n)
  {
  }

  lemma {:induction false} FirstMeaningfulShifts(s: Line, at: nat, i: nat)
    requires at + i <= |s|
    ensures FirstMeaningful(s, at + i) == at + FirstMeaningful(s[at..], i)
    decreases |s| - i
  {
    if at + i < |s| && !Meaningful(s[at + i]) {
      FirstMeaningfulShifts(s, at, i + 1);
    }
  }

  lemma BehindLaterSemicolon(s: Line, at: nat, j: nat)
    requires at <= |s| && j <= |s[at..]| && 0 < j && BehindSemicolon(s[at..], j)
    ensures BehindSemicolon(s, at + j)
  {
    var q: nat :| IsSemicolonBefore(s[at..], q, j);
    FirstMeaningfulShifts(s, at, q + 1);
    assert IsSemicolonBefore(s, at + q, at + j);
  }

  /** A start behind a declaration of the same line. */
  lemma StartsFurther(p: Start, s: Line, rest: Input, q: nat, at: nat, j: nat)
    requires q < |s| && s[q] == SEMI && at == FirstMeaningful(s, q + 1) && StartsAt(p, s[at..], rest, 0, j)
    ensures StartsAt(p, s, rest, 0, at + j)
  {
    assert s[at..][j..] == s[at + j..];
    if j > 0 {
      BehindLaterSemicolon(s, at, j);
    } else {
      assert IsSemicolonBefore(s, q, at);
    }
  }

  lemma StartsLater(p: Start, s: Line, t: Line, rest: Input, k: nat, j: nat)
    requires k > 0 && StartsAt(p, t, rest, k, j)
    ensures StartsAt(p, s, rest, k, j)
  {
    assert TextAt(s, rest, k) == TextAt(t, rest, k);
  }

  lemma StartsHere(out: Line, s: Line, rest: Input)
    ensures StartsAt(Start(s, rest, out), s, rest, 0, 0)
  {
    assert s[0..] == s;
  }

  lemma StartsOnNextLine(p: Start, s: Line, rest: Input, n: nat, i: nat)
    requires rest.Chunk? && StartsAt(p, Text(rest.line), rest.rest, n, i)
    ensures StartsAt(p, s, rest, n + 1, i)
  {
    TextOnNextLine(s, rest, n);
  }

  lemma StartsBehind(p: Start, s: Line, rest: Input, q: nat, at: nat, k: nat, x: nat)
    requires q < |s| && s[q] == SEMI && at == FirstMeaningful(s, q + 1) && StartsAt(p, s[at..], rest, k, x)
    ensures StartsAt(p, s, rest, k, if k == 0 then at + x else x)
  {
    if k == 0 {
      StartsFurther(p, s, rest, q, at, x);
    } else {
      StartsLater(p, s, s[at..], rest, k, x);
    }
  }

  lemma DeclarationPassed(out: Line, s: Line, rest: Input)
    requires KindOf(s).Semicolon?
    ensures var q := Decider(s, 0, true);
            q < |s| && s[q] == SEMI &&
            StartOf(out, s, rest) == StartOf(Declared(out, s, q + 1), s[FirstMeaningful(s, q + 1)..], rest)
  {
  }

  /** The start lies in the text. */
  lemma {:induction false} StartIsInText(out: Line, s: Line, rest: Input) returns (k: nat, i: nat)
    ensures StartsAt(StartOf(out, s, rest), s, rest, k, i)
    decreases rest, |s|
  {
    var p := StartOf(out, s, rest);
    if KindOf(s).Semicolon? {
      var q := Decider(s, 0, true);
      var at := FirstMeaningful(s, q + 1);
      var x;
      DeclarationPassed(out, s, rest);
      k, x := StartIsInText(Declared(out, s, q + 1), s[at..], rest);
      StartsBehind(p, s, rest, q, at, k, x);
      i := if k == 0 then at + x else x;
    } else if Chain(s, rest) || rest.End? {
      k, i := 0, 0;
      StartsHere(out, s, rest);
    } else {
      var n, x := StartIsInText(out, Text(rest.line), rest.rest);
      StartsOnNextLine(p, s, rest, n, x);
      k, i := n + 1, x;
    }
  }

  lemma CleanSuffix(s: Line, i: nat, rest: Input)
    requires i <= |s| && Clean(Chunk(s, rest))
    ensures Clean(Chunk(s[i..], rest))
  {
    TextOfSuffix(s, i);
  }

  /** Wherever a definition is found, it is the one that starts there, and what is written is written from there. */
  lemma {:induction false} WrittenFromStart(out: Line, s: Line, name: Line, rest: Input, before: Line)
    requires Defines(s, name, rest, before) && Clean(Chunk(s, rest)) && (before == [] || !Chain(s, rest))
    ensures var p := StartOf(out, s, rest);
            Chain(p.text, p.rest) && Defines(p.text, name, p.rest, []) && Clean(Chunk(p.text, p.rest)) &&
            Check(out, s, name, rest, before).out == Check(p.out, p.text, name, p.rest, []).out
    decreases rest, |s|
  {
    if KindOf(s).Semicolon? {
      var next := Decider(s, 0, true) + 1;
      var at := FirstMeaningful(s, next);
      CheckDeclaration(out, s, name, rest, before);
      CleanSuffix(s, at, rest);
      WrittenFromStart(Declared(out, s, next), s[at..], name, rest, []);
    } else if !Chain(s, rest) {
      WrittenFromStart(out, rest.line, name, rest.rest, before + rest.line);
    }
  }

  /**
   * For every definition that is found: behind the output when its declaration starts, the text of the
   * function is written exactly when that declaration is not broken before its parenthesis.
   */
  lemma WrittenIff(out: Line, s: Line, name: Line, rest: Input)
    requires Defines(s, name, rest, []) && Clean(Chunk(s, rest))
    ensures var p := StartOf(out, s, rest);
            Chain(p.text, p.rest) && Defines(p.text, name, p.rest, []) &&
            (Check(out, s, name, rest, []).out == p.out + FunctionText(p.text, p.rest) <==>
             KindOf(p.text).LeftParenthesis?)
  {
    var p := StartOf(out, s, rest);
    WrittenFromStart(out, s, name, rest, []);
    WrittenFromStartIff(p.out, p.text, name, p.rest);
  }
}
