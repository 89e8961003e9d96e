/** Where the scan takes a typedef, enum or struct to end. */
module Aggregates {
  import opened LineReader
  import opened CText
  import opened Isolator
  import opened Extraction
  import opened Scanner
  import opened CLines
  import opened Prelude
  import opened Isolation
  import Machine

  /** What the pointer to character `i` of the first line shows when `k` more lines have been read. */
  function ShownAt(seen: Line, i: nat, input: Input, k: nat): Line
    decreases k
  {
    if k == 0 || input.End? then seen else ShownAt(Seen(input.line, i, seen), i, input.rest, k - 1)
  }

  predicate ClosedBy(seen: Line, i: nat, input: Input, k: nat) {
    exists j: nat :: 0 < j <= k && 0x7D in ShownAt(seen, i, input, j)
  }

  /** A semicolon is on the k-th line behind the first, and a closing brace on that or an earlier one. */
  predicate EndsAt(seen: Line, i: nat, closed: bool, input: Input, k: nat) {
    k > 0 && 0x3B in ShownAt(seen, i, input, k) && (closed || ClosedBy(seen, i, input, k))
  }

  lemma ClosedLater(seen: Line, i: nat, input: Input, k: nat)
    requires input.Chunk? && k > 0
    ensures var now := Seen(input.line, i, seen);
            ClosedBy(seen, i, input, k) <==> 0x7D in now || ClosedBy(now, i, input.rest, k - 1)
  {
    var now := Seen(input.line, i, seen);
    assert ShownAt(seen, i, input, 1) == ShownAt(now, i, input.rest, 0) == now;
    if ClosedBy(seen, i, input, k) {
      var j: nat :| 0 < j <= k && 0x7D in ShownAt(seen, i, input, j);
      assert ShownAt(seen, i, input, j) == ShownAt(now, i, input.rest, j - 1);
    }
    if ClosedBy(now, i, input.rest, k - 1) {
      var j: nat :| 0 < j <= k - 1 && 0x7D in ShownAt(now, i, input.rest, j);
      assert ShownAt(seen, i, input, j + 1) == ShownAt(now, i, input.rest, j);
    }
  }

  lemma EndsLater(seen: Line, i: nat, closed: bool, input: Input, k: nat)
    requires input.Chunk? && k > 0
    ensures var now := Seen(input.line, i, seen);
            EndsAt(seen, i, closed, input, k) <==>
            if k == 1 then Finishes(now, closed) else EndsAt(now, i, closed || 0x7D in now, input.rest, k - 1)
  {
    var now := Seen(input.line, i, seen);
    ClosedLater(seen, i, input, k);
    assert ShownAt(seen, i, input, k) == ShownAt(now, i, input.rest, k - 1);
  }

  /** The lines before the k-th one are all too few. */
  ghost predicate GoesOnBefore(seen: Line, i: nat, closed: bool, input: Input, k: nat) {
    forall j: nat :: 0 < j < k ==> !EndsAt(seen, i, closed, input, j)
  }

  lemma GoesOnLater(seen: Line, i: nat, closed: bool, input: Input, k: nat)
    requires input.Chunk? && k > 1
    ensures var now := Seen(input.line, i, seen);
            GoesOnBefore(seen, i, closed, input, k) <==>
            !Finishes(now, closed) && GoesOnBefore(now, i, closed || 0x7D in now, input.rest, k - 1)
  {
    var now := Seen(input.line, i, seen);
    var later := closed || 0x7D in now;
    EndsLater(seen, i, closed, input, 1);
    if GoesOnBefore(seen, i, closed, input, k) {
      forall j: nat | 0 < j < k - 1
        ensures !EndsAt(now, i, later, input.rest, j)
      {
        EndsLater(seen, i, closed, input, j + 1);
      }
    }
    if !Finishes(now, closed) && GoesOnBefore(now, i, later, input.rest, k - 1) {
      forall j: nat | 0 < j < k
        ensures !EndsAt(seen, i, closed, input, j)
      {
        EndsLater(seen, i, closed, input, j);
      }
    }
  }

  /** The scan takes in line `k` behind the first exactly when none before it ends the aggregate. */
  lemma {:induction false} ReadsUpTo(seen: Line, i: nat, closed: bool, input: Input, k: nat)
    requires k > 0 && Drop(input, k - 1).Chunk?
    ensures k <= AggregateReads(seen, i, closed, input) <==> GoesOnBefore(seen, i, closed, input, k)
    decreases k
  {
    if k > 1 {
      var now := Seen(input.line, i, seen);
      GoesOnLater(seen, i, closed, input, k);
      ReadsUpTo(now, i, closed || 0x7D in now, input.rest, k - 1);
    }
  }

  /**
   * Line `k` behind a typedef, enum or struct is taken in with it, whatever it is, exactly when no line
   * in between has a semicolon at or after a closing brace. The first line itself does not count: an
   * aggregate that is complete on one line takes at least the next one with it.
   */
  lemma SwallowedIff(input: Input, name: Line, k: nat)
    requires !Over(input) && LineKind(Text(input.line)).Aggregate? && k > 0 && Drop(input.rest, k - 1).Chunk?
    ensures var s := Text(input.line);
            var i := Indent(s);
            k < Taken(input, name) <==> GoesOnBefore(s[i..], i, false, input.rest, k)
    ensures k < Taken(input, name) ==> DepthAt(input, name, 0, k) == Machine.None && !TargetAt(input, name, 0, k)
    ensures 1 < Taken(input, name)
  {
    var s := Text(input.line);
    var i := Indent(s);
    ReadsUpTo(s[i..], i, false, input.rest, k);
  }

  ghost predicate EndsSomewhere(seen: Line, i: nat, closed: bool, input: Input) {
    exists k: nat :: 0 < k <= Size(input) && EndsAt(seen, i, closed, input, k)
  }

  /** The aggregate is closed, so that the scan goes on, exactly when some line behind the first ends it. */
  lemma {:induction false} ClosedIff(seen: Line, i: nat, closed: bool, input: Input)
    requires input.Chunk?
    ensures AggregateClosed(seen, i, closed, input) <==> EndsSomewhere(seen, i, closed, input)
    decreases input
  {
    var now := Seen(input.line, i, seen);
    EndsLater(seen, i, closed, input, 1);
    if Finishes(now, closed) {
      assert EndsAt(seen, i, closed, input, 1);
    } else {
      if input.rest.Chunk? {
        ClosedIff(now, i, closed || 0x7D in now, input.rest);
      }
      ClosedShift(seen, i, closed, input);
    }
  }

  lemma ClosedShift(seen: Line, i: nat, closed: bool, input: Input)
    requires input.Chunk? && !Finishes(Seen(input.line, i, seen), closed)
    ensures var now := Seen(input.line, i, seen);
            EndsSomewhere(seen, i, closed, input) <==> EndsSomewhere(now, i, closed || 0x7D in now, input.rest)
  {
    var now := Seen(input.line, i, seen);
    var later := closed || 0x7D in now;
    if k: nat :| 0 < k <= Size(input) && EndsAt(seen, i, closed, input, k) {
      EndsLater(seen, i, closed, input, k);
      assert EndsAt(now, i, later, input.rest, k - 1);
    }
    if k: nat :| 0 < k <= Size(input.rest) && EndsAt(now, i, later, input.rest, k) {
      EndsLater(seen, i, closed, input, k + 1);
      assert EndsAt(seen, i, closed, input, k + 1);
    }
  }
}
