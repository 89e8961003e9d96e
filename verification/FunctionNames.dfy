/** When the test for the name of the function means what it should. */
module FunctionNames {
  import opened Memory
  import opened LineReader
  import opened CText
  import opened Isolator
  import opened Extraction
  import opened Scanner
  import opened Units
  import opened CLines
  import opened Prelude
  import opened Isolation
  import opened BrokenLines
  import Machine

  /** A character of a C identifier. */
  predicate IdentChar(b: Byte) {
    0x41 <= b <= 0x5A || 0x61 <= b <= 0x7A || 0x30 <= b <= 0x39 || b == 0x5F
  }

  predicate IsIdentifier(name: Line) {
    name != [] && forall k :: 0 <= k < |name| ==> IdentChar(name[k])
  }

  /** Where the last visible character among the first `p` ends. */
  function LastVisible(s: Line, p: nat): (e: nat)
    requires p <= |s|
    ensures e <= p && (e > 0 ==> 33 <= s[e - 1] <= 126) && forall k :: e <= k < p ==> !(33 <= s[k] <= 126)
    decreases p
  {
    if p == 0 || 33 <= s[p - 1] <= 126 then p else LastVisible(s, p - 1)
  }

  /** Where the text in front of the first parenthesis ends. */
  function NameEnd(s: Line): (e: nat)
    ensures e <= Decider(s, 0, true) <= |s|
  {
    LastVisible(s, Decider(s, 0, true))
  }

  /** Where the identifier that ends at `e` starts. */
  function IdentStart(s: Line, e: nat): (b: nat)
    requires e <= |s|
    ensures b <= e && (b > 0 ==> !IdentChar(s[b - 1])) && forall k :: b <= k < e ==> IdentChar(s[k])
    decreases e
  {
    if e == 0 || !IdentChar(s[e - 1]) then e else IdentStart(s, e - 1)
  }

  /** The identifier in front of the first parenthesis is the name. */
  predicate Declares(s: Line, name: Line) {
    var e := NameEnd(s);
    s[IdentStart(s, e)..e] == name
  }

  /** The name occurs at `i`, and not as the end of a longer identifier. */
  predicate AloneAt(s: Line, i: int, name: Line) {
    0 <= i && HasAt(s, i, name) && (i == 0 || !IdentChar(s[i - 1]))
  }

  /** Where the name would have to start. */
  function NamePlace(s: Line, name: Line): int {
    NameEnd(s) - |name|
  }

  lemma DeclaresIffAlone(s: Line, name: Line)
    requires IsIdentifier(name)
    ensures Declares(s, name) <==> AloneAt(s, NamePlace(s, name), name)
  {
    var e, q := NameEnd(s), NamePlace(s, name);
    var b := IdentStart(s, e);
    if Declares(s, name) {
      assert b == q && forall k :: 0 <= k < |name| ==> s[b..e][k] == s[b + k];
    }
    if AloneAt(s, q, name) {
      forall k | q <= k < e
        ensures s[k] == name[k - q] && IdentChar(s[k])
      {
        assert s[q + (k - q)] == name[k - q];
      }
      assert b == q;
    }
  }

  /** A letter, '-' or '_': what `strstr_strict` looks for behind the first occurrence. */
  predicate GoesOn(s: Line, i: nat) {
    i < |s| && (0x41 <= s[i] <= 0x5A || 0x61 <= s[i] <= 0x7A || s[i] == 0x2D || s[i] == 0x5F)
  }

  /** `strstr_strict` on the string from `m` on. */
  predicate Passes(s: Line, m: nat, name: Line)
    requires m <= |s|
  {
    var f := Find(s, m, name);
    f.Some? && !GoesOn(s, f.value + |name|)
  }

  /** The first occurrence is right in front of the parenthesis, as the end of a longer identifier. */
  predicate IsTail(s: Line, name: Line) {
    var f, q := Find(s, 0, name), NamePlace(s, name);
    f.Some? && f.value == q && q > 0 && IdentChar(s[q - 1])
  }

  /** The first occurrence is behind that place and passes: a parameter, or a call in the body. */
  predicate IsBehind(s: Line, name: Line) {
    var f, q := Find(s, 0, name), NamePlace(s, name);
    f.Some? && f.value > q && !GoesOn(s, f.value + |name|)
  }

  /** The first occurrence is before that place, and it passes exactly when the name does not stand there. */
  predicate IsBefore(s: Line, name: Line) {
    var f, q := Find(s, 0, name), NamePlace(s, name);
    f.Some? && f.value < q && (GoesOn(s, f.value + |name|) <==> AloneAt(s, q, name))
  }

  predicate Misread(s: Line, name: Line) {
    IsTail(s, name) || IsBehind(s, name) || IsBefore(s, name)
  }

  lemma BehindTheName(s: Line)
    ensures !GoesOn(s, NameEnd(s))
  {
    var p, e := Decider(s, 0, true), NameEnd(s);
    if e < p {
      assert !(33 <= s[e] <= 126);
    }
  }

  /** `strstr_strict` tells whether a line declares the function exactly when it is not one of these three. */
  lemma NamesIffDeclares(s: Line, name: Line)
    requires IsIdentifier(name)
    ensures (Names(s, name) <==> Declares(s, name)) <==> !Misread(s, name)
  {
    DeclaresIffAlone(s, name);
    BehindTheName(s);
    var f, q := Find(s, 0, name), NamePlace(s, name);
    if f.None? {
      assert q >= 0 ==> !HasAt(s, q, name);
    } else {
      assert Names(s, name) <==> !GoesOn(s, f.value + |name|);
      assert 0 <= q < f.value ==> !HasAt(s, q, name);
    }
  }

  // ----- whole lines

  /**
   * From `s` on, the lines start the definition of the function of that name; `joint` is what precedes
   * `s` in the same declaration.
   */
  predicate ReallyDefines(s: Line, name: Line, rest: Input, joint: Line)
    decreases rest, |s|
  {
    match KindOf(s)
    case Semicolon => ReallyDefines(s[FirstMeaningful(s, Decider(s, 0, true) + 1)..], name, rest, [])
    case Undefined => rest.Chunk? && ReallyDefines(Text(rest.line), name, rest.rest, joint + s)
    case LeftParenthesis => Declares(joint + s, name) && Opening(s, rest) == 1
    case _ => false
  }

  /**
   * The declaration `joint + s` is searched from its second line on, at `m`, and on its last line. On
   * a single line that is one search.
   */
  predicate FoundIn(joint: Line, s: Line, name: Line, m: nat)
    requires m <= |joint|
  {
    Passes(joint + s, m, name) || Passes(joint + s, |joint|, name)
  }

  /** A search passes exactly when the name does not stand in front of the parenthesis. */
  predicate MisreadIn(joint: Line, s: Line, name: Line, m: nat)
    requires m <= |joint|
  {
    if joint == [] then Misread(s, name)
    else FoundIn(joint, s, name, m) <==> !AloneAt(joint + s, NamePlace(joint + s, name), name)
  }

  /** Where the second line starts, when one more follows. */
  function SecondLine(joint: Line, s: Line, m: nat): (n: nat)
    requires m <= |joint|
    ensures n <= |joint + s|
  {
    if joint == [] then |s| else m
  }

  /** The lines start a definition, and its name is misread. */
  predicate MisreadDefinition(s: Line, name: Line, rest: Input, joint: Line, m: nat)
    requires m <= |joint|
    decreases rest, |s|
  {
    match KindOf(s)
    case Semicolon => MisreadDefinition(s[FirstMeaningful(s, Decider(s, 0, true) + 1)..], name, rest, [], 0)
    case Undefined =>
      rest.Chunk? && MisreadDefinition(Text(rest.line), name, rest.rest, joint + s, SecondLine(joint, s, m))
    case LeftParenthesis => Opening(s, rest) == 1 && MisreadIn(joint, s, name, m)
    case _ => false
  }

  lemma OneSearch(joint: Line, s: Line, name: Line)
    requires joint == []
    ensures joint + s == s && (FoundIn(joint, s, name, 0) <==> Names(s, name))
  {
    assert joint + s == s;
    assert FoundIn(joint, s, name, 0) <==> Passes(s, 0, name);
  }

  lemma OneLineRead(joint: Line, s: Line, name: Line)
    requires IsIdentifier(name) && joint == []
    ensures (FoundIn(joint, s, name, 0) <==> Declares(joint + s, name)) <==> !MisreadIn(joint, s, name, 0)
  {
    OneSearch(joint, s, name);
    NamesIffDeclares(s, name);
  }

  /** A declaration is read rightly, on one line or on several, exactly when it is not misread so. */
  lemma FoundIffDeclares(joint: Line, s: Line, name: Line, m: nat)
    requires m <= |joint| && IsIdentifier(name)
    ensures (FoundIn(joint, s, name, m) <==> Declares(joint + s, name)) <==> !MisreadIn(joint, s, name, m)
  {
    if joint == [] {
      OneLineRead(joint, s, name);
    } else {
      DeclaresIffAlone(joint + s, name);
    }
  }

  lemma PassesIffNames(s: Line, m: nat, name: Line)
    requires m <= |s|
    ensures Passes(s, m, name) <==> Names(s[m..], name)
  {
    var f, g := Find(s, m, name), Find(s[m..], 0, name);
    assert forall i: nat :: m + i <= |s| ==> (HasAt(s[m..], i, name) <==> HasAt(s, m + i, name));
    if f.Some? {
      assert HasAt(s[m..], f.value - m, name);
    }
    if g.Some? {
      assert HasAt(s, m + g.value, name);
    }
  }

  /** What is gathered in `before` is the declaration from its second line on. */
  predicate Gathers(joint: Line, s: Line, m: nat, before: Line) {
    m <= |joint| && before == if joint == [] then [] else (joint + s)[m..]
  }

  lemma MatchesIffFound(joint: Line, s: Line, name: Line, m: nat, before: Line)
    requires Gathers(joint, s, m, before) && s != []
    ensures Matches(s, name, before) <==> FoundIn(joint, s, name, m)
  {
    PassesIffNames(joint + s, m, name);
    PassesIffNames(joint + s, |joint|, name);
    assert (joint + s)[|joint|..] == s;
  }

  lemma GathersOn(joint: Line, s: Line, m: nat, before: Line, next: Line)
    requires Gathers(joint, s, m, before) && s != []
    ensures Gathers(joint + s, next, SecondLine(joint, s, m), before + next)
  {
    if joint == [] {
      assert [] + s == s && (s + next)[|s|..] == next;
    } else {
      assert (joint + s + next)[m..] == (joint + s)[m..] + next;
    }
  }

  /** Lines are taken for the definition rightly or wrongly, as the name is read, whether broken or not. */
  lemma {:induction false} DefinesIff(s: Line, name: Line, rest: Input, joint: Line, m: nat, before: Line)
    requires IsIdentifier(name) && Gathers(joint, s, m, before)
    ensures (Defines(s, name, rest, before) <==> ReallyDefines(s, name, rest, joint)) <==>
            !MisreadDefinition(s, name, rest, joint, m)
    decreases rest, |s|
  {
    match KindOf(s)
    case Semicolon => DefinesIff(s[FirstMeaningful(s, Decider(s, 0, true) + 1)..], name, rest, [], 0, []);
    case Undefined =>
      if rest.Chunk? {
        var next := Text(rest.line);
        GathersOn(joint, s, m, before, next);
        DefinesIff(next, name, rest.rest, joint + s, SecondLine(joint, s, m), before + next);
      }
    case LeftParenthesis =>
      MatchesIffFound(joint, s, name, m, before);
      FoundIffDeclares(joint, s, name, m);
    case _ =>
  }

  /** `r(foo){`. */
  const PARAMETER: Line := [0x72, 0x28, 0x66, 0x6F, 0x6F, 0x29, 0x7B]
  const FOO: Line := [0x66, 0x6F, 0x6F]

  lemma KindOfParameter()
    ensures KindOf(PARAMETER).LeftParenthesis? && Decider(PARAMETER, 0, true) == 1 && Text(PARAMETER) == PARAMETER
  {
    assert Decides(PARAMETER[1], true) && !Decides(PARAMETER[0], true);
    assert Decider(PARAMETER, 1, true) == 1;
    assert FirstMeaningful(PARAMETER, 0) == 0;
  }

  lemma OpeningOfParameter()
    ensures CurlyFirst(PARAMETER) == 1
  {
    assert Decides(PARAMETER[6], false) && forall k :: 0 <= k < 6 ==> !Decides(PARAMETER[k], false);
  }

  lemma FindInParameter()
    ensures Find(PARAMETER, 0, FOO) == Machine.Some(2)
  {
    assert HasAt(PARAMETER, 2, FOO);
    assert PARAMETER[0 + 0] != FOO[0] && PARAMETER[1 + 0] != FOO[0];
    assert !HasAt(PARAMETER, 0, FOO) && !HasAt(PARAMETER, 1, FOO);
  }

  lemma NotDeclaredByParameter()
    requires Decider(PARAMETER, 0, true) == 1
    ensures !Declares([] + PARAMETER, FOO)
  {
    assert [] + PARAMETER == PARAMETER;
  }

  /** A parameter of the name is enough to be taken for the function. */
  lemma ParameterIsMisread()
    ensures Defines(PARAMETER, FOO, End, []) && !ReallyDefines(PARAMETER, FOO, End, [])
  {
    KindOfParameter();
    OpeningOfParameter();
    FindInParameter();
    NotDeclaredByParameter();
  }

  // ----- the whole file

  predicate IsCode(input: Input) {
    !Over(input) && LineKind(Text(input.line)).Code?
  }

  predicate IsDefinition(input: Input, name: Line) {
    IsCode(input) && ReallyDefines(Text(input.line), name, input.rest, [])
  }

  /** The function really is defined from line `n` on, outside all braces. */
  predicate DefinitionAt(input: Input, name: Line, depth: int, n: nat) {
    DepthAt(input, name, depth, n) == Machine.Some(0) && IsDefinition(Drop(input, n), name)
  }

  ghost predicate NoDefinitionBefore(input: Input, name: Line, depth: int, n: nat) {
    forall k: nat :: k < n ==> !DefinitionAt(input, name, depth, k)
  }

  /** Line `n` is code outside all braces, and the function is not defined before it. */
  ghost predicate LookedAt(input: Input, name: Line, depth: int, n: nat) {
    && DepthAt(input, name, depth, n) == Machine.Some(0) && NoDefinitionBefore(input, name, depth, n)
    && IsCode(Drop(input, n))
  }

  /** Up to the definition, no line of code outside braces starts a definition whose name is misread. */
  ghost predicate WellNamed(input: Input, name: Line, depth: int) {
    forall n: nat :: LookedAt(input, name, depth, n) ==> ReadRightly(Drop(input, n), name)
  }

  predicate ReadRightly(input: Input, name: Line)
    requires input.Chunk?
  {
    !MisreadDefinition(Text(input.line), name, input.rest, [], 0)
  }

  lemma TargetIsDefinition(input: Input, name: Line, depth: int, n: nat)
    requires WellNamed(input, name, depth) && IsIdentifier(name) && NoDefinitionBefore(input, name, depth, n)
    ensures TargetAt(input, name, depth, n) <==> DefinitionAt(input, name, depth, n)
  {
    if LookedAt(input, name, depth, n) {
      var at := Drop(input, n);
      assert ReadRightly(at, name);
      DefinesIff(Text(at.line), name, at.rest, [], 0, []);
    }
  }

  lemma NoneOnNextLine(input: Input, name: Line, depth: int, n: nat)
    requires WellNamed(input, name, depth) && IsIdentifier(name) && NoTargetBefore(input, name, depth, n + 1)
    requires NoDefinitionBefore(input, name, depth, n)
    ensures NoDefinitionBefore(input, name, depth, n + 1)
  {
    TargetIsDefinition(input, name, depth, n);
    assert !TargetAt(input, name, depth, n);
    forall k: nat | k < n + 1
      ensures !DefinitionAt(input, name, depth, k)
    {
      assert k < n || k == n;
    }
  }

  /** Where nothing is taken for the definition, there is none. */
  lemma {:induction false} NoTargetNoDefinition(input: Input, name: Line, depth: int, n: nat)
    requires WellNamed(input, name, depth) && IsIdentifier(name) && NoTargetBefore(input, name, depth, n)
    ensures NoDefinitionBefore(input, name, depth, n)
    decreases n
  {
    if n > 0 {
      NoTargetNoDefinition(input, name, depth, n - 1);
      NoneOnNextLine(input, name, depth, n - 1);
    }
  }

  /** On a plain file in which no name is misread, the scan isolates the first definition of the function. */
  lemma ScanFindsDefinition(out: Line, input: Input, name: Line, depth: int, expand: Line -> Line) returns (n: nat)
    requires PlainFrom(input, name, depth) && WellNamed(input, name, depth) && IsIdentifier(name)
    ensures var r := Scan(out, input, name, depth, expand);
            if r.outcome.Isolated? then
              IsolatedAt(out, input, name, depth, n, expand, r.out) && DefinitionAt(input, name, depth, n) &&
              NoDefinitionBefore(input, name, depth, n)
            else
              && r.outcome.Missing? && (forall k: nat :: !DefinitionAt(input, name, depth, k))
              && ScannedTo(out, input, name, depth, n, expand, r.out)
  {
    var r := Scan(out, input, name, depth, expand);
    ScanFindsFirst(out, input, name, depth, expand);
    n := 0;
    if r.outcome.Isolated? {
      n :| IsolatedAt(out, input, name, depth, n, expand, r.out);
      NoTargetNoDefinition(input, name, depth, n);
      TargetIsDefinition(input, name, depth, n);
    } else {
      n :| ScannedTo(out, input, name, depth, n, expand, r.out);
      forall k: nat
        ensures !DefinitionAt(input, name, depth, k)
      {
        NoTargetNoDefinition(input, name, depth, k + 1);
      }
    }
  }

  // ----- a condition on where the name occurs

  /**
   * The name occurs, if at all, as the whole identifier in front of the first parenthesis, and not on
   * the first of several lines.
   */
  predicate OnlyAsName(s: Line, m: nat, name: Line) {
    forall i: nat {:trigger HasAt(s, i, name)} ::
      i <= |s| && HasAt(s, i, name) ==> m <= i && i == NamePlace(s, name) && AloneAt(s, i, name)
  }

  lemma OnlyOnePlace(s: Line, m: nat, name: Line)
    requires m <= |s| && OnlyAsName(s, m, name)
    ensures Passes(s, m, name) <==> AloneAt(s, NamePlace(s, name), name)
    ensures Passes(s, m, name) <==> Contains(s, name)
  {
    var f, g := Find(s, m, name), Find(s, 0, name);
    BehindTheName(s);
    if g.Some? {
      assert HasAt(s, g.value, name);
      assert f == g;
    }
  }

  lemma OnlyOneSearch(joint: Line, s: Line, name: Line, m: nat)
    requires m <= |joint| && OnlyAsName(joint + s, m, name)
    ensures FoundIn(joint, s, name, m) <==> Passes(joint + s, m, name)
  {
    var t := joint + s;
    var f, g := Find(t, m, name), Find(t, |joint|, name);
    if g.Some? {
      assert HasAt(t, g.value, name);
      assert f == g;
    }
  }

  /** On such lines the test is right, and it says whether the name occurs. */
  lemma OnlyAsNameIsRead(joint: Line, s: Line, name: Line, m: nat)
    requires m <= |joint| && IsIdentifier(name) && OnlyAsName(joint + s, m, name)
    ensures !MisreadIn(joint, s, name, m) && (FoundIn(joint, s, name, m) <==> Contains(joint + s, name))
  {
    OnlyOneSearch(joint, s, name, m);
    OnlyOnePlace(joint + s, m, name);
    DeclaresIffAlone(joint + s, name);
    FoundIffDeclares(joint, s, name, m);
  }

  /** Where the lines from `s` on start a definition, the name occurs only so. */
  predicate OccursRightly(s: Line, name: Line, rest: Input, joint: Line, m: nat)
    requires m <= |joint|
    decreases rest, |s|
  {
    match KindOf(s)
    case Semicolon => OccursRightly(s[FirstMeaningful(s, Decider(s, 0, true) + 1)..], name, rest, [], 0)
    case Undefined =>
      rest.Chunk? ==> OccursRightly(Text(rest.line), name, rest.rest, joint + s, SecondLine(joint, s, m))
    case LeftParenthesis => Opening(s, rest) == 1 ==> OnlyAsName(joint + s, m, name)
    case _ => true
  }

  lemma {:induction false} OccursRightlyIsRead(s: Line, name: Line, rest: Input, joint: Line, m: nat)
    requires m <= |joint| && IsIdentifier(name) && OccursRightly(s, name, rest, joint, m)
    ensures !MisreadDefinition(s, name, rest, joint, m)
    decreases rest, |s|
  {
    match KindOf(s)
    case Semicolon => OccursRightlyIsRead(s[FirstMeaningful(s, Decider(s, 0, true) + 1)..], name, rest, [], 0);
    case Undefined =>
      if rest.Chunk? {
        OccursRightlyIsRead(Text(rest.line), name, rest.rest, joint + s, SecondLine(joint, s, m));
      }
    case LeftParenthesis =>
      if Opening(s, rest) == 1 {
        OnlyAsNameIsRead(joint, s, name, m);
      }
    case _ =>
  }

  /** Up to the definition, on lines of code outside braces that start a definition, the name occurs only so. */
  ghost predicate OccursOnlyAsName(input: Input, name: Line, depth: int) {
    forall n: nat :: LookedAt(input, name, depth, n) ==>
      var at := Drop(input, n);
      OccursRightly(Text(at.line), name, at.rest, [], 0)
  }

  lemma OccursOnlyIsWellNamed(input: Input, name: Line, depth: int)
    requires OccursOnlyAsName(input, name, depth) && IsIdentifier(name)
    ensures WellNamed(input, name, depth)
  {
    forall n: nat | LookedAt(input, name, depth, n)
      ensures ReadRightly(Drop(input, n), name)
    {
      var at := Drop(input, n);
      OccursRightlyIsRead(Text(at.line), name, at.rest, [], 0);
    }
  }

  lemma EqualDefinitions(a: Input, b: Input, name: Line)
    requires a == b
    ensures IsDefinition(a, name) == IsDefinition(b, name)
  {
  }

  lemma EqualCode(a: Input, b: Input)
    requires a == b
    ensures IsCode(a) == IsCode(b)
  {
  }

  lemma DepthBehind(input: Input, name: Line, n: nat)
    requires !Over(input) && !LineKind(Text(input.line)).Code? && n > 0
    ensures var k := Taken(input, name);
            DepthAt(input, name, 0, n) == if n < k then Machine.None else DepthAt(Drop(input, k), name, 0, n - k)
  {
    DepthLater(input, name, 0, n);
    assert CountedAt(input, name, 0) == 0;
  }

  lemma DefinitionLater(input: Input, name: Line, j: nat)
    requires !Over(input) && !LineKind(Text(input.line)).Code?
    ensures var k := Taken(input, name);
            DepthAt(input, name, 0, k + j) == DepthAt(Drop(input, k), name, 0, j) &&
            (DefinitionAt(input, name, 0, k + j) <==> DefinitionAt(Drop(input, k), name, 0, j))
  {
    var k := Taken(input, name);
    DepthBehind(input, name, k + j);
    DropTwice(input, k, j);
    EqualDefinitions(Drop(Drop(input, k), j), Drop(input, k + j), name);
  }

  lemma NotFirst(input: Input, n: nat)
    requires input.Chunk? && !LineKind(Text(input.line)).Code? && IsCode(Drop(input, n))
    ensures n > 0
  {
  }

  lemma DepthFrom(input: Input, name: Line, n: nat, k: nat)
    requires DepthAt(input, name, 0, n) == if n < k then Machine.None else DepthAt(Drop(input, k), name, 0, n - k)
    requires DepthAt(input, name, 0, n) == Machine.Some(0)
    ensures n >= k && DepthAt(Drop(input, k), name, 0, n - k) == Machine.Some(0)
  {
  }

  lemma CodeFrom(input: Input, n: nat, k: nat)
    requires n >= k && IsCode(Drop(input, n))
    ensures Drop(Drop(input, k), n - k) == Drop(input, n) && IsCode(Drop(Drop(input, k), n - k))
  {
    DropTwice(input, k, n - k);
    EqualCode(Drop(Drop(input, k), n - k), Drop(input, n));
  }

  lemma LookedAtFrom(input: Input, name: Line, n: nat, k: nat)
    requires n >= k && DepthAt(Drop(input, k), name, 0, n - k) == Machine.Some(0)
    requires NoDefinitionBefore(Drop(input, k), name, 0, n - k) && IsCode(Drop(Drop(input, k), n - k))
    ensures LookedAt(Drop(input, k), name, 0, n - k)
  {
  }

  lemma LookedAtLater(input: Input, name: Line, n: nat)
    requires !Over(input) && !LineKind(Text(input.line)).Code? && LookedAt(input, name, 0, n)
    ensures var k := Taken(input, name);
            n >= k && LookedAt(Drop(input, k), name, 0, n - k) && Drop(Drop(input, k), n - k) == Drop(input, n)
  {
    var k := Taken(input, name);
    NotFirst(input, n);
    DepthBehind(input, name, n);
    DepthFrom(input, name, n, k);
    CodeFrom(input, n, k);
    NoDefinitionLater(input, name, n);
    LookedAtFrom(input, name, n, k);
  }

  lemma NoDefinitionLater(input: Input, name: Line, n: nat)
    requires !Over(input) && !LineKind(Text(input.line)).Code? && NoDefinitionBefore(input, name, 0, n)
    ensures var k := Taken(input, name);
            n >= k ==> NoDefinitionBefore(Drop(input, k), name, 0, n - k)
  {
    var k := Taken(input, name);
    forall j: nat | j < n - k
      ensures !DefinitionAt(Drop(input, k), name, 0, j)
    {
      DefinitionLater(input, name, j);
      assert !DefinitionAt(input, name, 0, k + j);
    }
  }

  /** Lines that are no code do not matter: directives, macros, comments, typedefs, enums and structs. */
  lemma OtherLinesDoNotMatter(input: Input, name: Line)
    requires !Over(input) && !LineKind(Text(input.line)).Code?
    requires OccursOnlyAsName(Drop(input, Taken(input, name)), name, 0)
    ensures OccursOnlyAsName(input, name, 0)
  {
    forall n: nat | LookedAt(input, name, 0, n)
      ensures OccursRightly(Text(Drop(input, n).line), name, Drop(input, n).rest, [], 0)
    {
      LookedAtLater(input, name, n);
    }
  }

  // ----- the text that is written

  lemma {:induction false} CleanDrop(input: Input, n: nat)
    requires Clean(input)
    ensures Clean(Drop(input, n))
    decreases n
  {
    if n > 0 && input.Chunk? {
      CleanDrop(input.rest, n - 1);
    }
  }

  /**
   * The whole way, on a plain file without NULs in which no name is misread. If the function is defined
   * outside all braces, the output is, behind what was there: the text that the lines before its first
   * definition leave, the declarations in front of it, and its own text, unless its declaration is broken
   * before the parenthesis. Else the scan reports that there is none, and the output is the text that all
   * lines leave.
   */
  lemma IsolatesDefinition(out: Line, input: Input, name: Line, expand: Line -> Line) returns (n: nat, p: Start)
    requires PlainFrom(input, name, 0) && WellNamed(input, name, 0) && IsIdentifier(name) && Clean(input)
    ensures var r := Scan(out, input, name, 0, expand);
            if r.outcome.Isolated? then
              DefinitionAt(input, name, 0, n) && NoDefinitionBefore(input, name, 0, n) &&
              var at := Drop(input, n);
              && p.out == out + LeftBefore(input, name, 0, n, expand) + Declarations(at.line, at.rest)
              && (exists k: nat, i: nat :: StartsAt(p, at.line, at.rest, k, i)) && Chain(p.text, p.rest)
              && (r.out == p.out + FunctionText(p.text, p.rest) <==> KindOf(p.text).LeftParenthesis?)
            else
              && r.outcome.Missing? && (forall k: nat :: !DefinitionAt(input, name, 0, k))
              && Over(Drop(input, n)) && r.out == out + LeftBefore(input, name, 0, n, expand)
  {
    var r := Scan(out, input, name, 0, expand);
    n := ScanFindsDefinition(out, input, name, 0, expand);
    p := Start([], End, []);
    if r.outcome.Isolated? {
      var at := Drop(input, n);
      CleanDrop(input, n);
      p := WrittenAfter(out + LeftBefore(input, name, 0, n, expand), at.line, name, at.rest);
    }
  }

  lemma WrittenAfter(before: Line, s: Line, name: Line, rest: Input) returns (p: Start)
    requires Defines(s, name, rest, []) && Clean(Chunk(s, rest))
    ensures p.out == before + Declarations(s, rest) && (exists k: nat, i: nat :: StartsAt(p, s, rest, k, i))
    ensures Chain(p.text, p.rest)
    ensures Check(before, s, name, rest, []).out == p.out + FunctionText(p.text, p.rest) <==>
            KindOf(p.text).LeftParenthesis?
  {
    p := StartOf(before, s, rest);
    WrittenIff(before, s, name, rest);
    StartLeaves(before, s, name, rest, []);
    var k, i := StartIsInText(before, s, rest);
  }
}
