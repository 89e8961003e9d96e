/** What `checkAndWriteFunc` copies out: the signature and the shortest balanced block of lines after it. */
module Extraction {
  import opened LineReader
  import opened CText
  import opened Isolator

  // ----- lines by number

  function Drop(input: Input, n: nat): Input
    decreases n
  {
    if n == 0 || input.End? then input else Drop(input.rest, n - 1)
  }

  /** The first `n` lines as they stand in the file. */
  function First(input: Input, n: nat): Line
    decreases n
  {
    if n == 0 || input.End? then [] else input.line + First(input.rest, n - 1)
  }

  /** The first `n` lines without those led by `//`. */
  function Kept(input: Input, n: nat): Line
    decreases n
  {
    if n == 0 || input.End? then [] else Written(input.line) + Kept(input.rest, n - 1)
  }

  function BracesKept(input: Input, n: nat): int
    decreases n
  {
    if n == 0 || input.End? then 0 else BracesWritten(input.line) + BracesKept(input.rest, n - 1)
  }

  /** There are `n` lines, none of which ends the reading. */
  predicate Long(input: Input, n: nat)
    decreases n
  {
    n == 0 || (!Over(input) && Long(input.rest, n - 1))
  }

  /** The `n` lines balance, and the last of them counts. */
  predicate Balanced(input: Input, sum: int, n: nat) {
    n > 0 && Drop(input, n - 1).Chunk? && !LedBy(Text(Drop(input, n - 1).line), SLASHES) &&
    sum + BracesKept(input, n) == 0
  }

  lemma Assoc(a: Line, b: Line, c: Line)
    ensures a + b + c == a + (b + c)
  {
  }

  // ----- the body is the shortest balanced block

  function BodyLines(input: Input, sum: int): nat
    requires input.Chunk?
    decreases input
  {
    if Closes(input.line, sum) || Over(input.rest) then 1
    else 1 + BodyLines(input.rest, sum + BracesWritten(input.line))
  }

  lemma {:induction false} BodyIsKept(out: Line, input: Input, sum: int)
    requires input.Chunk?
    ensures Body(out, input.line, input.rest, sum).out == out + Kept(input, BodyLines(input, sum))
    decreases input
  {
    var w := Written(input.line);
    assert Kept(input, 1) == w + Kept(input.rest, 0) == w;
    if !Closes(input.line, sum) && !Over(input.rest) {
      BodyIsKept(out + w, input.rest, sum + BracesWritten(input.line));
      var n := BodyLines(input.rest, sum + BracesWritten(input.line));
      Assoc(out, w, Kept(input.rest, n));
    }
  }

  lemma BalancedStep(input: Input, sum: int, i: nat)
    requires input.Chunk?
    ensures Balanced(input, sum, 1) <==> Closes(input.line, sum)
    ensures i > 1 ==> (Balanced(input, sum, i) <==> Balanced(input.rest, sum + BracesWritten(input.line), i - 1))
  {
    assert BracesKept(input, 1) == BracesWritten(input.line) + BracesKept(input.rest, 0);
  }

  /** No shorter block of lines balances, and this one does unless the file ends first. */
  ghost predicate Shortest(input: Input, sum: int, n: nat) {
    && n > 0 && (Balanced(input, sum, n) || Over(Drop(input, n)))
    && forall i: nat {:trigger Balanced(input, sum, i)} :: 0 < i < n ==>
         !Balanced(input, sum, i) && !Over(Drop(input, i))
  }

  lemma ShortestHere(input: Input, sum: int)
    requires input.Chunk? && (Closes(input.line, sum) || Over(input.rest))
    ensures Shortest(input, sum, 1)
  {
    BalancedStep(input, sum, 1);
    assert Drop(input, 1) == Drop(input.rest, 0) == input.rest;
  }

  lemma ShortestLater(input: Input, sum: int, n: nat)
    requires input.Chunk? && !Closes(input.line, sum) && !Over(input.rest)
    requires Shortest(input.rest, sum + BracesWritten(input.line), n)
    ensures Shortest(input, sum, n + 1)
  {
    BalancedStep(input, sum, n + 1);
    forall i: nat | 0 < i < n + 1
      ensures !Balanced(input, sum, i) && !Over(Drop(input, i))
    {
      NotBalancedBefore(input, sum, n, i);
    }
  }

  lemma NotBalancedBefore(input: Input, sum: int, n: nat, i: nat)
    requires input.Chunk? && !Closes(input.line, sum) && !Over(input.rest) && 0 < i < n + 1
    requires Shortest(input.rest, sum + BracesWritten(input.line), n)
    ensures !Balanced(input, sum, i) && !Over(Drop(input, i))
  {
    BalancedStep(input, sum, i);
    if i == 1 {
      assert Drop(input, 1) == Drop(input.rest, 0) == input.rest;
    } else {
      assert 0 < i - 1 < n && Drop(input, i) == Drop(input.rest, i - 1);
    }
  }

  lemma ShortestStep(input: Input, sum: int)
    requires input.Chunk?
    requires Closes(input.line, sum) || Over(input.rest) ||
             Shortest(input.rest, sum + BracesWritten(input.line),
                      BodyLines(input.rest, sum + BracesWritten(input.line)))
    ensures Shortest(input, sum, BodyLines(input, sum))
  {
    if Closes(input.line, sum) || Over(input.rest) {
      ShortestHere(input, sum);
    } else {
      ShortestLater(input, sum, BodyLines(input.rest, sum + BracesWritten(input.line)));
    }
  }

  /** The body is the shortest such block. */
  lemma {:induction false} BodyIsShortest(input: Input, sum: int)
    requires input.Chunk?
    ensures Shortest(input, sum, BodyLines(input, sum))
    decreases input
  {
    if !Closes(input.line, sum) && !Over(input.rest) {
      BodyIsShortest(input.rest, sum + BracesWritten(input.line));
    }
    ShortestStep(input, sum);
  }

  // ----- the brace that closes the function

  /** No line holds a NUL. */
  predicate Clean(input: Input) {
    input.End? || (Text(input.line) == input.line && Clean(input.rest))
  }

  /** The brace at `first` opens a block outside all others, and the block ends before `m`. */
  predicate BlockEnds(t: Line, first: nat, m: nat) {
    && first < m <= |t| && t[first] == OPEN && BraceSum(t, first) == 0 && BraceSum(t, m) == 0
    && forall p :: first < p < m ==> BraceSum(t, p) != 0
  }

  lemma {:induction false} KeptBraces(input: Input, n: nat)
    requires Clean(input)
    ensures Braces(Kept(input, n)) == BracesKept(input, n)
    decreases n
  {
    if n > 0 && input.Chunk? {
      KeptBraces(input.rest, n - 1);
      var w, more := Written(input.line), Kept(input.rest, n - 1);
      BraceSumOfJoin(w, more, |more|);
      assert Braces(w) == BracesWritten(input.line);
    }
  }

  lemma {:induction false} KeptGrows(input: Input, n: nat, j: nat)
    requires n <= j
    ensures |Kept(input, n)| <= |Kept(input, j)| && Kept(input, j)[..|Kept(input, n)|] == Kept(input, n)
    decreases n
  {
    if n > 0 && input.Chunk? {
      KeptGrows(input.rest, n - 1, j - 1);
      var w, a, b := Written(input.line), Kept(input.rest, n - 1), Kept(input.rest, j - 1);
      assert (w + b)[..|w + a|] == w + b[..|a|];
    }
  }

  lemma BracesOfFewer(input: Input, n: nat, j: nat)
    requires Clean(input) && n <= j
    ensures |Kept(input, n)| <= |Kept(input, j)|
    ensures BraceSum(Kept(input, j), |Kept(input, n)|) == BracesKept(input, n)
  {
    KeptGrows(input, n, j);
    var t, u := Kept(input, j), Kept(input, n);
    forall k | 0 <= k < |u|
      ensures t[k] == u[k]
    {
      assert t[..|u|][k] == t[k];
    }
    BraceSumOfPrefix(t, u, |u|);
    KeptBraces(input, n);
  }

  lemma {:induction false} LongGoesOn(input: Input, n: nat, j: nat)
    requires Long(input, j) && n < j
    ensures !Over(Drop(input, n)) && Drop(input, n).Chunk?
    decreases n
  {
    if n > 0 {
      LongGoesOn(input.rest, n - 1, j - 1);
    }
  }

  lemma {:induction false} LastKept(input: Input, j: nat)
    requires j > 0 && |Kept(input, j - 1)| < |Kept(input, j)|
    ensures Drop(input, j - 1).Chunk? && !LedBy(Text(Drop(input, j - 1).line), SLASHES)
    decreases j
  {
    if j > 1 {
      LastKept(input.rest, j - 1);
    } else {
      assert Kept(input, 1) == Written(input.line) + Kept(input.rest, 0);
    }
  }

  /** A block of the text is opened on line 1, at `first`, and closed on line `j`, before `m`. */
  predicate ClosedOnLine(input: Input, j: nat, first: nat, m: nat) {
    && j > 0 && Long(input, j) && first < |Kept(input, 1)|
    && |Kept(input, j - 1)| < m <= |Kept(input, j)| && BlockEnds(Kept(input, j), first, m)
  }

  lemma OpenBefore(input: Input, j: nat, first: nat, m: nat, n: nat)
    requires Clean(input) && ClosedOnLine(input, j, first, m) && 0 < n < j
    ensures BracesKept(input, n) != 0 && !Over(Drop(input, n))
  {
    LongGoesOn(input, n, j);
    BracesOfFewer(input, n, j);
    KeptInOrder(input, 1, n);
    KeptInOrder(input, n, j - 1);
  }

  lemma KeptInOrder(input: Input, n: nat, j: nat)
    requires n <= j
    ensures |Kept(input, n)| <= |Kept(input, j)|
  {
    KeptGrows(input, n, j);
  }

  lemma BalancedOnLine(input: Input, j: nat, first: nat, m: nat)
    requires Clean(input) && ClosedOnLine(input, j, first, m)
    ensures Balanced(input, 0, j) <==> Braces(Kept(input, j)) == 0
  {
    KeptBraces(input, j);
    LastKept(input, j);
  }

  /**
   * The copy reaches the line with the brace that closes the block, and ends with that line exactly when
   * no later brace on it opens or closes another block, or the file ends there.
   */
  lemma StopsAtClosingBraceIff(input: Input, j: nat, first: nat, m: nat)
    requires Clean(input) && ClosedOnLine(input, j, first, m)
    ensures BodyLines(input, 0) >= j
    ensures BodyLines(input, 0) == j <==> Braces(Kept(input, j)) == 0 || Over(Drop(input, j))
  {
    var n := BodyLines(input, 0);
    BodyIsShortest(input, 0);
    BalancedOnLine(input, j, first, m);
    if n < j {
      OpenBefore(input, j, first, m, n);
      assert false;
    }
  }

  // ----- the whole function

  /** The lines before the one with the brace. */
  function SignatureLines(input: Input): nat
    decreases input
  {
    if input.End? || CurlyFirst(Text(input.line)) != 0 then 0 else 1 + SignatureLines(input.rest)
  }

  /** The first `n` lines up to their NULs. */
  function Texts(input: Input, n: nat): Line
    decreases n
  {
    if n == 0 || input.End? then [] else Text(input.line) + Texts(input.rest, n - 1)
  }

  lemma {:induction false} TextsAreLines(input: Input, n: nat)
    requires Clean(input)
    ensures Texts(input, n) == First(input, n)
    decreases n
  {
    if n > 0 && input.Chunk? {
      TextsAreLines(input.rest, n - 1);
    }
  }

  /** The signature is written up to the NULs of its lines, the body in full. */
  lemma {:induction false} SignatureIsKept(out: Line, input: Input, before: Line)
    requires input.Chunk? && Signature(out, input.line, input.rest, before).verdict.Found?
    ensures var k := SignatureLines(input);
            Drop(input, k).Chunk? && Signature(out, input.line, input.rest, before).out ==
            out + (before + Texts(input, k)) + Kept(Drop(input, k), BodyLines(Drop(input, k), 0))
    decreases input
  {
    if CurlyFirst(Text(input.line)) == 1 {
      BodyIsKept(out + before, input, 0);
      assert before + Texts(input, 0) == before;
    } else {
      SignatureIsKept(out, input.rest, before + Text(input.line));
      var k := SignatureLines(input.rest);
      Assoc(before, Text(input.line), Texts(input.rest, k));
    }
  }

  /** None of the `n` lines is led by `//`. */
  predicate NoComments(input: Input, n: nat)
    decreases n
  {
    n == 0 || input.End? || (!LedBy(Text(input.line), SLASHES) && NoComments(input.rest, n - 1))
  }

  lemma {:induction false} KeptIsFirst(input: Input, n: nat)
    requires NoComments(input, n)
    ensures Kept(input, n) == First(input, n)
    decreases n
  {
    if n > 0 && input.Chunk? {
      KeptIsFirst(input.rest, n - 1);
    }
  }

  lemma {:induction false} FirstOfDrop(input: Input, k: nat, n: nat)
    ensures First(input, k) + First(Drop(input, k), n) == First(input, k + n)
    decreases k
  {
    if k > 0 && input.Chunk? {
      FirstOfDrop(input.rest, k - 1, n);
      Assoc(input.line, First(input.rest, k - 1), First(Drop(input, k), n));
    } else if k == 0 {
      assert [] + First(input, n) == First(input, n);
    }
  }

  lemma {:induction false} FirstIsPrefix(input: Input, n: nat)
    ensures |First(input, n)| <= |Joined(input)| && Joined(input)[..|First(input, n)|] == First(input, n)
    decreases n
  {
    if n > 0 && input.Chunk? {
      FirstIsPrefix(input.rest, n - 1);
      var a, b, c := input.line, First(input.rest, n - 1), Joined(input.rest);
      assert (a + c)[..|a + b|] == a + c[..|b|];
    }
  }

  /** The lines of the whole function. */
  function FunctionLines(input: Input): nat {
    var k := SignatureLines(input);
    k + if Drop(input, k).Chunk? then BodyLines(Drop(input, k), 0) else 0
  }

  lemma {:induction false} Reassociate(out: Line, a: Line, b: Line)
    ensures out + ([] + a) + b == out + (a + b)
  {
  }

  /** The same without comments to leave out. */
  lemma FunctionKept(input: Input)
    requires Drop(input, SignatureLines(input)).Chunk?
    requires NoComments(Drop(input, SignatureLines(input)), FunctionLines(input) - SignatureLines(input))
    ensures var k := SignatureLines(input);
            First(input, k) + Kept(Drop(input, k), BodyLines(Drop(input, k), 0)) == First(input, FunctionLines(input))
  {
    var k := SignatureLines(input);
    var n := BodyLines(Drop(input, k), 0);
    KeptIsFirst(Drop(input, k), n);
    FirstOfDrop(input, k, n);
  }

  /** Without such comments, what is written is the text of the file from the line with the name on. */
  lemma WrittenIsContiguous(out: Line, input: Input)
    requires input.Chunk? && Clean(input) && Signature(out, input.line, input.rest, []).verdict.Found?
    requires NoComments(Drop(input, SignatureLines(input)), FunctionLines(input) - SignatureLines(input))
    ensures var t := First(input, FunctionLines(input));
            Signature(out, input.line, input.rest, []).out == out + t &&
            |t| <= |Joined(input)| && Joined(input)[..|t|] == t
  {
    var k := SignatureLines(input);
    SignatureIsKept(out, input, []);
    TextsAreLines(input, SignatureLines(input));
    FunctionKept(input);
    Reassociate(out, First(input, k), Kept(Drop(input, k), BodyLines(Drop(input, k), 0)));
    FirstIsPrefix(input, FunctionLines(input));
  }
}
