/** The C string functions of `cparser.cpp`. A C string is the bytes before its NUL. */
module CText {
  import opened Memory
  import opened LineReader
  import Machine

  type Option<+T> = Machine.Option<T>

  const OPEN: Byte := 0x7B
  const CLOSE: Byte := 0x7D
  const PAREN: Byte := 0x28
  const SEMI: Byte := 0x3B
  const HASH: Byte := 0x23
  const BACKSLASH: Byte := 0x5C
  const CR: Byte := 13

  /** The first NUL from `i` on, or the end of the line, where the reader puts one. */
  function NulAt(l: Line, i: nat): (n: nat)
    requires i <= |l|
    ensures i <= n <= |l| && (n < |l| ==> l[n] == 0) && forall k :: i <= k < n ==> l[k] != 0
    decreases |l| - i
  {
    if i == |l| || l[i] == 0 then i else NulAt(l, i + 1)
  }

  /** A line as the string functions see it. */
  function Text(l: Line): Line {
    l[..NulAt(l, 0)]
  }

  lemma TextOfText(l: Line)
    ensures Text(Text(l)) == Text(l)
  {
  }

  lemma TextOfSuffix(s: Line, i: nat)
    requires i <= |s| && Text(s) == s
    ensures Text(s[i..]) == s[i..]
  {
    assert forall k :: 0 <= k < |s| ==> s[k] != 0;
  }

  // ----- braces

  function BraceOf(b: Byte): int {
    if b == OPEN then 1 else if b == CLOSE then -1 else 0
  }

  /** Braces opened less braces closed among the first `n` characters. */
  function BraceSum(s: Line, n: nat): int
    requires n <= |s|
    decreases n
  {
    if n == 0 then 0 else BraceSum(s, n - 1) + BraceOf(s[n - 1])
  }

  function Braces(s: Line): int {
    BraceSum(s, |s|)
  }

  method CheckCurlyBrackets(s: Line) returns (count: int)
    ensures count == Braces(s)
  {
    count := 0;
    var i := 0;
    while i < |s|
      invariant 0 <= i <= |s| && count == BraceSum(s, i)
    {
      if s[i] == OPEN {
        count := count + 1;
      } else if s[i] == CLOSE {
        count := count - 1;
      }
      i := i + 1;
    }
  }

  lemma {:induction false} BraceSumOfPrefix(s: Line, t: Line, n: nat)
    requires n <= |s| && n <= |t| && forall k :: 0 <= k < n ==> s[k] == t[k]
    ensures BraceSum(s, n) == BraceSum(t, n)
    decreases n
  {
    if n > 0 {
      BraceSumOfPrefix(s, t, n - 1);
    }
  }

  lemma {:induction false} BraceSumOfJoin(s: Line, t: Line, n: nat)
    requires n <= |t|
    ensures BraceSum(s + t, |s| + n) == Braces(s) + BraceSum(t, n)
    decreases n
  {
    if n == 0 {
      BraceSumOfPrefix(s + t, s, |s|);
    } else {
      BraceSumOfJoin(s, t, n - 1);
      assert (s + t)[|s| + n - 1] == t[n - 1];
    }
  }

  // ----- what a line starts with

  predicate Meaningful(b: Byte) {
    33 <= b <= 126
  }

  function FirstMeaningful(s: Line, i: nat): (j: nat)
    requires i <= |s|
    ensures i <= j <= |s| && (j < |s| ==> Meaningful(s[j])) && forall k :: i <= k < j ==> !Meaningful(s[k])
    decreases |s| - i
  {
    if i == |s| || Meaningful(s[i]) then i else FirstMeaningful(s, i + 1)
  }

  predicate HasAt(s: Line, i: nat, q: Line) {
    i + |q| <= |s| && forall k :: 0 <= k < |q| ==> s[i + k] == q[k]
  }

  /** `str_contains_at_beginning` on the string from `i` on. */
  method StrContainsAtBeginning(s: Line, i: nat, q: Line) returns (yes: bool)
    requires i <= |s|
    ensures yes == HasAt(s, i, q)
  {
    var k := 0;
    while i + k < |s| && k < |q| && s[i + k] == q[k]
      invariant 0 <= k <= |q| && i + k <= |s| && forall h :: 0 <= h < k ==> s[i + h] == q[h]
    {
      k := k + 1;
    }
    yes := k == |q|;
  }

  /** `strstr` from `i` on. */
  function Find(s: Line, i: nat, q: Line): (r: Option<nat>)
    requires i <= |s|
    ensures r.Some? ==> i <= r.value && HasAt(s, r.value, q) && forall k :: i <= k < r.value ==> !HasAt(s, k, q)
    ensures r.None? ==> forall k :: i <= k <= |s| ==> !HasAt(s, k, q)
    decreases |s| - i
  {
    if HasAt(s, i, q) then Machine.Some(i)
    else if i == |s| then Machine.None
    else Find(s, i + 1, q)
  }

  predicate Contains(s: Line, q: Line) {
    Find(s, 0, q).Some?
  }

  predicate Letter(b: Byte) {
    0x41 <= b <= 0x5A || 0x61 <= b <= 0x7A
  }

  /** `strstr_strict`: the first occurrence is not followed by a letter, '-' or '_'. */
  predicate Names(s: Line, q: Line) {
    var at := Find(s, 0, q);
    at.Some? &&
    var after := at.value + |q|;
    after == |s| || !(Letter(s[after]) || s[after] == 0x2D || s[after] == 0x5F)
  }

  // ----- what a line is

  /** A character that decides what a line is; `(` only in `determine_type`. */
  predicate Decides(b: Byte, paren: bool) {
    b == OPEN || b == SEMI || (paren && b == PAREN)
  }

  function Decider(s: Line, i: nat, paren: bool): (j: nat)
    requires i <= |s|
    ensures i <= j <= |s| && (j < |s| ==> Decides(s[j], paren)) && forall k :: i <= k < j ==> !Decides(s[k], paren)
    decreases |s| - i
  {
    if i == |s| || Decides(s[i], paren) then i else Decider(s, i + 1, paren)
  }

  /** 1 for a brace, -1 for a semicolon, whichever comes first; 0 for neither. */
  function CurlyFirst(s: Line): int {
    var j := Decider(s, 0, false);
    if j == |s| then 0 else if s[j] == OPEN then 1 else -1
  }

  method CurlyBracketBeforeSemicolon(s: Line) returns (r: int)
    ensures r == CurlyFirst(s)
  {
    var i := 0;
    while i < |s|
      invariant 0 <= i <= |s| && Decider(s, i, false) == Decider(s, 0, false)
    {
      if s[i] == OPEN {
        return 1;
      } else if s[i] == SEMI {
        return -1;
      }
      i := i + 1;
    }
    return 0;
  }

  datatype Kind = NoContent | CurlyBracket | Semicolon | LeftParenthesis | Undefined

  function KindOf(s: Line): Kind {
    var j := Decider(s, 0, true);
    if FirstMeaningful(s, 0) == |s| then NoContent
    else if j == |s| then Undefined
    else if s[j] == OPEN then CurlyBracket
    else if s[j] == SEMI then Semicolon
    else LeftParenthesis
  }

  /** `determine_type`; `next` is where the string goes on after a semicolon or parenthesis. */
  method DetermineType(s: Line) returns (kind: Kind, next: nat)
    ensures kind == KindOf(s)
    ensures kind.Semicolon? || kind.LeftParenthesis? ==> next == Decider(s, 0, true) + 1
  {
    next := 0;
    if FirstMeaningful(s, 0) == |s| {
      return NoContent, next;
    }
    var i := 0;
    while i < |s|
      invariant 0 <= i <= |s| && Decider(s, i, true) == Decider(s, 0, true)
    {
      if s[i] == OPEN {
        return CurlyBracket, next;
      } else if s[i] == SEMI {
        return Semicolon, i + 1;
      } else if s[i] == PAREN {
        return LeftParenthesis, i + 1;
      }
      i := i + 1;
    }
    return Undefined, next;
  }

  const SLASHES: Line := [0x2F, 0x2F]

  /** A line led by `//`. */
  predicate LedBy(s: Line, q: Line) {
    HasAt(s, FirstMeaningful(s, 0), q)
  }
}
