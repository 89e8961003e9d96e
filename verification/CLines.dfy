/** What the C string functions and tests find, in literal characters. */
module CLines {
  import opened Memory
  import opened LineReader
  import opened CText
  import opened Isolator
  import opened Scanner

  /** The characters of a text. */
  function Ascii(t: string): (b: Line)
    ensures |b| == |t|
  {
    seq(|t|, i requires 0 <= i < |t| => t[i] as int % 0x100)
  }

  /** The text stands at `i`. */
  predicate StandsAt(s: Line, i: nat, t: Line) {
    i + |t| <= |s| && s[i..i + |t|] == t
  }

  predicate Occurs(t: Line, s: Line) {
    exists i: nat :: i <= |s| && StandsAt(s, i, t)
  }

  /** Where the first visible character from `i` on is. */
  function VisibleFrom(s: Line, i: nat): (n: nat)
    requires i <= |s|
    ensures i <= n <= |s| && (n < |s| ==> 33 <= s[n] <= 126) && forall k :: i <= k < n ==> !(33 <= s[k] <= 126)
    decreases |s| - i
  {
    if i == |s| || 33 <= s[i] <= 126 then i else VisibleFrom(s, i + 1)
  }

  function Indent(s: Line): nat {
    VisibleFrom(s, 0)
  }

  /** Where the first of `{`, `;` and `(` is. */
  function DecidedAt(s: Line, i: nat): (n: nat)
    requires i <= |s|
    ensures i <= n <= |s| && (n < |s| ==> s[n] == 0x7B || s[n] == 0x3B || s[n] == 0x28)
    ensures forall k :: i <= k < n ==> s[k] != 0x7B && s[k] != 0x3B && s[k] != 0x28
    decreases |s| - i
  {
    if i == |s| || s[i] == 0x7B || s[i] == 0x3B || s[i] == 0x28 then i else DecidedAt(s, i + 1)
  }

  /** The visible part of the line begins with `t`. */
  predicate Leads(s: Line, t: Line) {
    StandsAt(s, Indent(s), t)
  }

  /** Character `j` is `b`, and the first of `{`, `;` and `(` on the line. */
  predicate Decided(s: Line, j: nat, b: Byte) {
    j < |s| && s[j] == b && forall k :: 0 <= k < j ==> s[k] != 0x7B && s[k] != 0x3B && s[k] != 0x28
  }

  /** Character `j` is `b`, and the first of `{` and `;` on the line. */
  predicate Opens(s: Line, j: nat, b: Byte) {
    j < |s| && s[j] == b && forall k :: 0 <= k < j ==> s[k] != 0x7B && s[k] != 0x3B
  }

  // ----- the functions of CText

  lemma VisibleIs(s: Line, i: nat)
    requires i <= |s|
    ensures FirstMeaningful(s, i) == VisibleFrom(s, i)
  {
  }

  lemma DeciderIs(s: Line)
    ensures Decider(s, 0, true) == DecidedAt(s, 0)
  {
  }

  lemma HasAtIff(s: Line, i: nat, t: Line)
    ensures HasAt(s, i, t) <==> StandsAt(s, i, t)
  {
    if StandsAt(s, i, t) {
      forall k | 0 <= k < |t|
        ensures s[i + k] == t[k]
      {
        assert s[i..i + |t|][k] == t[k];
      }
    }
  }

  lemma ContainsIff(s: Line, t: Line)
    ensures Contains(s, t) <==> Occurs(t, s)
  {
    forall i: nat
      ensures HasAt(s, i, t) <==> StandsAt(s, i, t)
    {
      HasAtIff(s, i, t);
    }
  }

  predicate FirstAt(s: Line, i: nat, t: Line) {
    StandsAt(s, i, t) && forall k: nat :: k < i ==> !StandsAt(s, k, t)
  }

  predicate EndsThere(s: Line, i: nat) {
    i < |s| ==> !(0x41 <= s[i] <= 0x5A) && !(0x61 <= s[i] <= 0x7A) && s[i] != 0x2D && s[i] != 0x5F
  }

  /** `strstr_strict`: the first occurrence is not followed by a letter, `-` or `_`. */
  lemma NamesIff(s: Line, t: Line)
    ensures Names(s, t) <==> exists i: nat :: i <= |s| && FirstAt(s, i, t) && EndsThere(s, i + |t|)
  {
    var f := Find(s, 0, t);
    forall i: nat
      ensures HasAt(s, i, t) <==> StandsAt(s, i, t)
    {
      HasAtIff(s, i, t);
    }
    if f.Some? {
      assert FirstAt(s, f.value, t);
    }
  }

  lemma {:induction false} BracesUpTo(s: Line, n: nat)
    requires n <= |s|
    ensures BraceSum(s, n) == multiset(s[..n])[0x7B] as int - multiset(s[..n])[0x7D]
    decreases n
  {
    if n > 0 {
      BracesUpTo(s, n - 1);
      assert s[..n] == s[..n - 1] + [s[n - 1]];
    }
  }

  /** Opening braces less closing ones. */
  lemma BracesCounted(s: Line)
    ensures Braces(s) == multiset(s)[0x7B] as int - multiset(s)[0x7D]
  {
    BracesUpTo(s, |s|);
    assert s[..|s|] == s;
  }

  lemma CurlyFirstIff(s: Line)
    ensures CurlyFirst(s) == 1 <==> exists j: nat :: Opens(s, j, 0x7B)
    ensures CurlyFirst(s) == -1 <==> exists j: nat :: Opens(s, j, 0x3B)
    ensures CurlyFirst(s) == 0 <==> 0x7B !in s && 0x3B !in s
  {
    var j := Decider(s, 0, false);
    if j < |s| {
      assert Opens(s, j, s[j]);
    }
  }

  lemma KindIff(s: Line)
    ensures KindOf(s).CurlyBracket? <==> exists j: nat :: Decided(s, j, 0x7B)
    ensures KindOf(s).Semicolon? <==> exists j: nat :: Decided(s, j, 0x3B)
    ensures KindOf(s).LeftParenthesis? <==> exists j: nat :: Decided(s, j, 0x28)
    ensures KindOf(s).NoContent? <==> forall k :: 0 <= k < |s| ==> !(33 <= s[k] <= 126)
    ensures KindOf(s).Undefined? <==> 0x7B !in s && 0x3B !in s && 0x28 !in s && !KindOf(s).NoContent?
  {
    var j := Decider(s, 0, true);
    if j < |s| {
      assert Decided(s, j, s[j]);
      assert 33 <= s[j] <= 126;
    }
  }

  // ----- kinds of lines

  lemma LedIff(s: Line, t: Line)
    ensures LedBy(s, t) <==> Leads(s, t)
  {
    VisibleIs(s, 0);
    HasAtIff(s, Indent(s), t);
  }

  lemma Words()
    ensures SLASHES == Ascii("//") && STAR == Ascii("*") && BLOCK_COMMENT == Ascii("/*")
    ensures TYPEDEF == Ascii("typedef") && ENUM == Ascii("enum") && STRUCT == Ascii("struct")
    ensures STATIC == Ascii("static") && EXTERN == Ascii("extern ")
  {
  }

  lemma Directives()
    ensures [HASH] == Ascii("#") && [HASH] + DEFINE == Ascii("#define") && [HASH] + INCLUDE == Ascii("#include")
  {
  }

  /** A line is left out of the copied function exactly when `//` leads it. */
  lemma WrittenPart(l: Line)
    ensures Written(l) == if Leads(Text(l), Ascii("//")) then [] else l
    ensures BracesWritten(l) == if Leads(Text(l), Ascii("//")) then 0 else Braces(Text(l))
  {
    Words();
    LedIff(Text(l), SLASHES);
  }

  /** What the scan takes a line for. */
  function LineKind(s: Line): Branch {
    if Leads(s, Ascii("#define")) then Define
    else if Leads(s, Ascii("#include")) then Include
    else if Leads(s, Ascii("#")) then OtherDirective
    else if Leads(s, Ascii("//")) then Comment
    else if Leads(s, Ascii("/*")) then BlockComment
    else if Leads(s, Ascii("typedef")) || Leads(s, Ascii("enum")) then Aggregate
    else if Leads(s, Ascii("struct")) && 0x28 !in s then Aggregate
    else Code
  }

  lemma StandsBehind(s: Line, i: nat, b: Byte, word: Line)
    ensures StandsAt(s, i, [b] + word) <==> i < |s| && s[i] == b && StandsAt(s, i + 1, word)
  {
    var n := i + 1 + |word|;
    if n <= |s| {
      assert s[i..n] == [s[i]] + s[i + 1..n];
      assert ([b] + word)[0] == b && ([b] + word)[1..] == word && ([s[i]] + s[i + 1..n])[1..] == s[i + 1..n];
    }
  }

  lemma Directive(s: Line, word: Line)
    ensures Leads(s, [HASH] + word) <==>
            Indent(s) < |s| && s[Indent(s)] == HASH && HasAt(s, Indent(s) + 1, word)
  {
    StandsBehind(s, Indent(s), HASH, word);
    HasAtIff(s, Indent(s) + 1, word);
  }

  lemma ParenthesisBehind(s: Line, i: nat)
    requires i <= |s| && forall k :: 0 <= k < i ==> !(33 <= s[k] <= 126)
    ensures Find(s, i, [PAREN]).None? <==> 0x28 !in s
  {
    var f := Find(s, i, [PAREN]);
    if f.Some? {
      assert s[f.value + 0] == [PAREN][0];
    } else {
      forall k | 0 <= k < |s|
        ensures s[k] != 0x28
      {
        if k >= i {
          assert !HasAt(s, k, [PAREN]);
        }
      }
    }
  }

  lemma LineKindIs(s: Line)
    ensures BranchOf(s) == LineKind(s)
  {
    Words();
    Directives();
    VisibleIs(s, 0);
    Directive(s, DEFINE);
    Directive(s, INCLUDE);
    Directive(s, []);
    assert [HASH] + [] == [HASH];
    LedIff(s, SLASHES);
    LedIff(s, BLOCK_COMMENT);
    LedIff(s, TYPEDEF);
    LedIff(s, ENUM);
    LedIff(s, STRUCT);
    ParenthesisBehind(s, Indent(s));
  }
}
