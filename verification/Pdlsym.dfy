/** `pdlsym`: looking a symbol up in the image that `loadelf` found. */
module Pdlsym {
  import opened Memory
  import opened RemoteRead
  import opened Elf
  import Machine

  const INT_MAX := 0x7FFF_FFFF
  const TWO_32 := 0x1_0000_0000

  function Mod64(x: int): Word {
    x % TWO_64
  }

  datatype Sym = Sym(stridx: nat, value: nat)

  /** The number of bytes between the tables, as the program computes it. */
  function TableSpan(e: Image): Word {
    Mod64(e.dyn.strtab - e.dyn.symtab)
  }

  /** Where a table really is: its address may be unrelocated. */
  function Relocated(e: Image, table: nat): Word {
    Mod64(if table < e.base then table + e.base else table)
  }

  function SymAddr(e: Image, i: nat): Word {
    Mod64(Relocated(e, e.dyn.symtab) + e.dyn.syment * i)
  }

  /** The test of the index, in 64-bit arithmetic. */
  predicate InBounds(e: Image, i: nat) {
    Mod64((i + 1) * e.dyn.syment - 1) < TableSpan(e)
  }

  /** `elf_sym_iter`. */
  function SymIter(e: Image, i: nat): Option<Sym> {
    if !InBounds(e, i) then Machine.None
    else
      var sym := SymAddr(e, i);
      var stridx := Get(e.r, sym, 4);
      if stridx >= e.dyn.strsz then Machine.None
      else
        var value := GetW(e.r, Add64(sym, Width(e.r.cls)));
        Machine.Some(Sym(stridx, if value != 0 && e.typ != ET_EXEC then Mod64(value + e.base) else value))
  }

  /** The byte `j` places into a C string. */
  function CharAt(q: seq<Byte>, j: nat): Byte {
    if j < |q| then q[j] else 0
  }

  /** The byte that the comparison reads; `names` is how `get8` gets at the process. */
  function NameByte(e: Image, names: Via, stridx: nat, j: nat): Byte {
    Get8(e.r.m, names, Add64(Relocated(e, e.dyn.strtab), stridx + j))
  }

  /** The test of the loops over a name. */
  predicate BeforeEnd(e: Image, stridx: nat, j: nat) {
    (stridx + j) % TWO_32 < e.dyn.strsz
  }

  predicate AgreesAt(e: Image, names: Via, q: seq<Byte>, stridx: nat, j: nat) {
    BeforeEnd(e, stridx, j) && NameByte(e, names, stridx, j) == CharAt(q, j)
  }

  /** The name at `stridx` agrees with the query up to the byte before `n`, all inside the string table. */
  predicate Agrees(e: Image, names: Via, q: seq<Byte>, stridx: nat, n: nat) {
    forall j :: 0 <= j < n ==> AgreesAt(e, names, q, stridx, j)
  }

  /** Symbol `i` has a value and the NUL-terminated name `q`. */
  predicate Hit(e: Image, names: Via, q: seq<Byte>, i: nat) {
    var s := SymIter(e, i);
    s.Some? && s.value.value != 0 && Agrees(e, names, q, s.value.stridx, |q| + 1)
  }

  /** The answer from symbol `i` on. The C program's index is an int. */
  function Lookup(e: Image, names: Via, q: seq<Byte>, i: nat): nat
    decreases INT_MAX - i
  {
    if i >= INT_MAX || SymIter(e, i).None? then 0
    else if Hit(e, names, q, i) then SymIter(e, i).value.value
    else Lookup(e, names, q, i + 1)
  }

  /** The search gets as far as symbol `i`. */
  predicate Accepts(e: Image, i: nat) {
    forall k :: 0 <= k <= i ==> SymIter(e, k).Some?
  }

  /** The comparison loop of `pdlsym`. */
  method SameName(e: Image, names: Via, q: seq<Byte>, stridx: nat) returns (same: bool)
    requires forall k :: 0 <= k < |q| ==> q[k] != 0
    ensures same <==> Agrees(e, names, q, stridx, |q| + 1)
  {
    var j := 0;
    while BeforeEnd(e, stridx, j)
      decreases |q| - j
      invariant 0 <= j <= |q| && Agrees(e, names, q, stridx, j)
    {
      var c := ReadByte(e.r.m, names, Add64(Relocated(e, e.dyn.strtab), stridx + j));
      if CharAt(q, j) != c {
        assert !AgreesAt(e, names, q, stridx, j);
        return false;
      }
      assert AgreesAt(e, names, q, stridx, j);
      if CharAt(q, j) == 0 {
        return true;
      }
      j := j + 1;
    }
    assert !AgreesAt(e, names, q, stridx, j);
    return false;
  }

  method ReadSym(e: Image, i: nat) returns (s: Option<Sym>)
    requires e.r.data == 1 || e.r.data == 2
    ensures s == SymIter(e, i)
  {
    if !InBounds(e, i) {
      return Machine.None;
    }
    var sym := SymAddr(e, i);
    var stridx := ReadNumber(e.r, sym, 4);
    if stridx >= e.dyn.strsz {
      return Machine.None;
    }
    var value := ReadNumber(e.r, Add64(sym, Width(e.r.cls)), Width(e.r.cls));
    return Machine.Some(Sym(stridx, if value != 0 && e.typ != ET_EXEC then Mod64(value + e.base) else value));
  }

  /** `pdlsym`'s two ways into the process: the image is read directly from the caller itself, names never. */
  function ImageVia(self: bool): Via {
    if self then Direct else Peek
  }

  function NamesVia(self: bool): Via {
    if self then Refused else Peek
  }

  function Answer(m: Mem, self: bool, littleHost: bool, base: Word, q: seq<Byte>): nat {
    match LoadedAt(m, ImageVia(self), littleHost, base)
    case None => 0
    case Some(e) => Lookup(e, NamesVia(self), q, 0)
  }

  /** `pdlsym`; 0 is NULL. `self` says that the process is the caller. */
  method Pdlsym(m: Mem, self: bool, littleHost: bool, base: Word, q: seq<Byte>) returns (v: nat)
    requires forall k :: 0 <= k < |q| ==> q[k] != 0
    ensures v == Answer(m, self, littleHost, base, q)
  {
    var elf := LoadElf(m, ImageVia(self), littleHost, base);
    if elf.None? {
      return 0;
    }
    var e, i := elf.value, 0;
    while i < INT_MAX
      invariant 0 <= i <= INT_MAX
      invariant Lookup(e, NamesVia(self), q, i) == Lookup(e, NamesVia(self), q, 0)
    {
      var s := ReadSym(e, i);
      if s.None? {
        return 0;
      }
      if s.value.value != 0 {
        var same := SameName(e, NamesVia(self), q, s.value.stridx);
        if same {
          return s.value.value;
        }
      }
      i := i + 1;
    }
    return 0;
  }

  // ----- what the search means

  /** `v` is the value of the first accepted symbol of that name, or 0 and there is none. */
  ghost predicate IsFirstHit(e: Image, names: Via, q: seq<Byte>, from: nat, v: nat) {
    if v == 0 then forall i :: from <= i < INT_MAX && Accepts(e, i) ==> !Hit(e, names, q, i)
    else exists i :: from <= i < INT_MAX && Accepts(e, i) && Hit(e, names, q, i) && SymIter(e, i).value.value == v &&
                     forall k :: from <= k < i ==> !Hit(e, names, q, k)
  }

  lemma FirstHitHere(e: Image, names: Via, q: seq<Byte>, i: nat)
    requires Accepts(e, i) && i < INT_MAX && Hit(e, names, q, i)
    ensures IsFirstHit(e, names, q, i, SymIter(e, i).value.value)
  {
  }

  lemma FirstHitLater(e: Image, names: Via, q: seq<Byte>, i: nat, v: nat)
    requires !Hit(e, names, q, i) && IsFirstHit(e, names, q, i + 1, v)
    ensures IsFirstHit(e, names, q, i, v)
  {
    if v != 0 {
      var h :| i + 1 <= h < INT_MAX && Accepts(e, h) && Hit(e, names, q, h) && SymIter(e, h).value.value == v &&
               forall k :: i + 1 <= k < h ==> !Hit(e, names, q, k);
      assert forall k :: i <= k < h ==> !Hit(e, names, q, k);
    }
  }

  lemma NoHitFrom(e: Image, names: Via, q: seq<Byte>, i: nat)
    requires i >= INT_MAX || SymIter(e, i).None?
    ensures IsFirstHit(e, names, q, i, 0)
  {
  }

  lemma {:induction false} LookupIsFirstHit(e: Image, names: Via, q: seq<Byte>, i: nat)
    requires forall k :: 0 <= k < i ==> SymIter(e, k).Some?
    ensures IsFirstHit(e, names, q, i, Lookup(e, names, q, i))
    decreases INT_MAX - i
  {
    if i >= INT_MAX || SymIter(e, i).None? {
      NoHitFrom(e, names, q, i);
    } else if Hit(e, names, q, i) {
      FirstHitHere(e, names, q, i);
    } else {
      LookupIsFirstHit(e, names, q, i + 1);
      FirstHitLater(e, names, q, i, Lookup(e, names, q, i + 1));
    }
  }

  // ----- where the search reads

  /** The size of a symbol record up to the end of its value. */
  function RecordSize(e: Image): nat {
    2 * Width(e.r.cls)
  }

  predicate InOrder(e: Image) {
    0 < e.dyn.syment < TWO_64 && e.dyn.symtab <= e.dyn.strtab && e.dyn.strtab - e.dyn.symtab < TWO_64
  }

  /** How many whole records there is room for. */
  function WholeRecords(e: Image): (n: nat)
    requires InOrder(e)
    ensures e.dyn.syment * n <= e.dyn.strtab - e.dyn.symtab < e.dyn.syment * n + e.dyn.syment
  {
    (e.dyn.strtab - e.dyn.symtab) / e.dyn.syment
  }

  /** The end of the record after the last does not wrap around. */
  predicate NoWrapUp(e: Image) {
    InOrder(e) && e.dyn.syment * WholeRecords(e) + e.dyn.syment <= TWO_64
  }

  /** The search is not stopped by the index before `i` or at it. */
  predicate BoundsUpTo(e: Image, i: nat) {
    forall k: nat :: k <= i ==> InBounds(e, k)
  }

  lemma Products(s: nat, i: nat, n: nat)
    requires i <= n
    ensures s * i <= s * n && (i + 1) * s == s * i + s && s * (n + 1) == s * n + s && (i < n ==> s * i + s <= s * n)
  {
    if i < n {
      assert s * (i + 1) <= s * n;
    }
  }

  /** The comparison of `elf_sym_iter`: of the numbers themselves up to 2^64, and passed by those up to 2^64 more. */
  lemma Compared(end: int, span: int)
    requires 0 < end && 0 <= span < TWO_64
    ensures end <= TWO_64 ==> (Mod64(end - 1) < Mod64(span) <==> end <= span)
    ensures TWO_64 < end <= TWO_64 + span ==> Mod64(end - 1) < Mod64(span)
  {
  }

  lemma BoundTest(e: Image, i: nat)
    requires InOrder(e) && i <= WholeRecords(e)
    ensures InBounds(e, i) <==> i < WholeRecords(e) || !NoWrapUp(e)
  {
    var n, s := WholeRecords(e), e.dyn.syment;
    Products(s, i, n);
    Compared(s * i + s, e.dyn.strtab - e.dyn.symtab);
  }

  lemma RecordInTable(e: Image, i: nat)
    requires BoundsUpTo(e, i) && NoWrapUp(e)
    ensures e.dyn.syment * i + e.dyn.syment <= e.dyn.strtab - e.dyn.symtab
  {
    var n := WholeRecords(e);
    BoundTest(e, n);
    assert i >= n ==> InBounds(e, n);
    Products(e.dyn.syment, i, n);
  }

  /** The search gets to `i` by the test of the index alone, and `i` is an int. */
  predicate Searched(e: Image, i: nat) {
    i < INT_MAX && BoundsUpTo(e, i)
  }

  /**
   * The test keeps every record of the search between the two tables exactly when the end of the record
   * after the last does not wrap around, or the search stops before that record.
   */
  lemma BoundsAreSafeIff(e: Image)
    requires InOrder(e)
    ensures (forall i: nat :: Searched(e, i) ==> e.dyn.syment * i + e.dyn.syment <= e.dyn.strtab - e.dyn.symtab)
       <==> NoWrapUp(e) || WholeRecords(e) >= INT_MAX
  {
    var n := WholeRecords(e);
    if NoWrapUp(e) || n >= INT_MAX {
      forall i: nat | Searched(e, i)
        ensures e.dyn.syment * i + e.dyn.syment <= e.dyn.strtab - e.dyn.symtab
      {
        if n >= INT_MAX {
          Products(e.dyn.syment, i, n);
        } else {
          RecordInTable(e, i);
        }
      }
    } else {
      forall k: nat | k <= n
        ensures InBounds(e, k)
      {
        BoundTest(e, k);
      }
      assert Searched(e, n);
    }
  }

  /** Every record that the search reads lies between the symbol table and the string table. */
  lemma RecordReadsInTable(e: Image, i: nat)
    requires Accepts(e, i) && e.dyn.syment >= RecordSize(e) && NoWrapUp(e)
    requires Relocated(e, e.dyn.symtab) + (e.dyn.strtab - e.dyn.symtab) <= TWO_64
    ensures Relocated(e, e.dyn.symtab) <= SymAddr(e, i)
    ensures SymAddr(e, i) + RecordSize(e) <= Relocated(e, e.dyn.symtab) + (e.dyn.strtab - e.dyn.symtab)
  {
    AcceptedInBounds(e, i);
    RecordInTable(e, i);
  }

  lemma AcceptedInBounds(e: Image, i: nat)
    requires Accepts(e, i)
    ensures BoundsUpTo(e, i)
  {
    forall k: nat | k <= i
      ensures InBounds(e, k)
    {
      assert SymIter(e, k).Some?;
    }
  }

  /** The loops over a name have read the byte `j` places into it: the test has let them get there. */
  predicate ReadsByte(e: Image, stridx: nat, j: nat) {
    forall k: nat :: k <= j ==> BeforeEnd(e, stridx, k)
  }

  /** Every byte that they read, the one that ends the comparison included, lies in the string table. */
  lemma {:induction false} NameReadsInTable(e: Image, stridx: nat, j: nat)
    requires ReadsByte(e, stridx, j) && stridx < e.dyn.strsz < TWO_32
    ensures stridx + j < e.dyn.strsz
    decreases j
  {
    assert BeforeEnd(e, stridx, j);
    if j > 0 {
      NameReadsInTable(e, stridx, j - 1);
    }
  }

  /**
   * Exactly then: in a table of 4 GiB or more the 32-bit index never stops the loops, so they leave the
   * table unless their int counter runs out before.
   */
  lemma NameReadsAreSafeIff(e: Image, stridx: nat)
    requires stridx < e.dyn.strsz
    ensures (forall j: nat :: j <= INT_MAX && ReadsByte(e, stridx, j) ==> stridx + j < e.dyn.strsz) <==>
            e.dyn.strsz < TWO_32 || e.dyn.strsz - stridx > INT_MAX
  {
    if e.dyn.strsz < TWO_32 {
      forall j: nat | j <= INT_MAX && ReadsByte(e, stridx, j)
        ensures stridx + j < e.dyn.strsz
      {
        NameReadsInTable(e, stridx, j);
      }
    } else {
      var j := e.dyn.strsz - stridx;
      forall k: nat | k <= j
        ensures BeforeEnd(e, stridx, k)
      {
      }
      assert ReadsByte(e, stridx, j);
    }
  }

  lemma {:induction false} AgreesInTable(e: Image, names: Via, q: seq<Byte>, stridx: nat, n: nat)
    requires Agrees(e, names, q, stridx, n) && stridx < e.dyn.strsz < TWO_32
    ensures stridx + n <= e.dyn.strsz
  {
    if n > 0 {
      forall k: nat | k <= n - 1
        ensures BeforeEnd(e, stridx, k)
      {
        assert AgreesAt(e, names, q, stridx, k);
      }
      NameReadsInTable(e, stridx, n - 1);
    }
  }

  /** `pdlsym` answers with the first symbol of that name and never with another. */
  lemma AnswerIsFirstHit(m: Mem, self: bool, littleHost: bool, base: Word, q: seq<Byte>)
    ensures match LoadedAt(m, ImageVia(self), littleHost, base)
            case None => Answer(m, self, littleHost, base, q) == 0
            case Some(e) => IsFirstHit(e, NamesVia(self), q, 0, Answer(m, self, littleHost, base, q))
  {
    var elf := LoadedAt(m, ImageVia(self), littleHost, base);
    if elf.Some? {
      LookupIsFirstHit(elf.value, NamesVia(self), q, 0);
    }
  }

  // ----- relocation

  /** As linked at 0: both tables below the base, and relocating them does not wrap around. */
  predicate Unrelocated(e: Image) {
    e.dyn.strtab < e.base && e.dyn.symtab < e.base && e.dyn.strtab + e.base < TWO_64 && e.dyn.symtab + e.base < TWO_64
  }

  /** The same image with the two table addresses already relocated. */
  function Relocate(e: Image): Image {
    e.(dyn := e.dyn.(strtab := e.dyn.strtab + e.base, symtab := e.dyn.symtab + e.base))
  }

  lemma SymIterRelocated(e: Image, i: nat)
    requires Unrelocated(e)
    ensures SymIter(Relocate(e), i) == SymIter(e, i)
  {
  }

  lemma {:induction false} AgreesRelocated(e: Image, names: Via, q: seq<Byte>, stridx: nat, n: nat)
    requires e.dyn.strtab < e.base
    ensures Agrees(Relocate(e), names, q, stridx, n) == Agrees(e, names, q, stridx, n)
  {
    assert Relocated(Relocate(e), e.dyn.strtab + e.base) == Relocated(e, e.dyn.strtab);
    forall j | 0 <= j < n
      ensures AgreesAt(Relocate(e), names, q, stridx, j) == AgreesAt(e, names, q, stridx, j)
    {
    }
  }

  lemma HitRelocated(e: Image, names: Via, q: seq<Byte>, i: nat)
    requires Unrelocated(e)
    ensures Hit(Relocate(e), names, q, i) == Hit(e, names, q, i)
  {
    SymIterRelocated(e, i);
    var s := SymIter(e, i);
    if s.Some? {
      AgreesRelocated(e, names, q, s.value.stridx, |q| + 1);
    }
  }

  /** A loader that relocates the dynamic section changes no answer. */
  lemma {:induction false} RelocationInvariance(e: Image, names: Via, q: seq<Byte>, i: nat)
    requires Unrelocated(e)
    ensures Lookup(Relocate(e), names, q, i) == Lookup(e, names, q, i)
    decreases INT_MAX - i
  {
    if i < INT_MAX {
      SymIterRelocated(e, i);
      HitRelocated(e, names, q, i);
      RelocationInvariance(e, names, q, i + 1);
    }
  }

  // ----- the caller as target

  /**
   * On the calling process itself the names are still fetched with ptrace, which fails there: every
   * name reads as empty, so no symbol is found by a name.
   */
  lemma {:induction false} NothingFoundInSelf(e: Image, q: seq<Byte>, i: nat)
    requires q != [] && q[0] != 0
    ensures Lookup(e, NamesVia(true), q, i) == 0
    decreases INT_MAX - i
  {
    if i < INT_MAX && SymIter(e, i).Some? {
      assert Hit(e, Refused, q, i) ==> AgreesAt(e, Refused, q, SymIter(e, i).value.stridx, 0);
      NothingFoundInSelf(e, q, i + 1);
    }
  }
}
