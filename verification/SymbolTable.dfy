/** `pdlsym` on a whole encoded file: the answer is the one that the file's own symbol table gives. */
module SymbolTable {
  import opened Memory
  import opened RemoteRead
  import opened Elf
  import opened ElfLayout
  import opened Pdlsym
  import opened ElfImage
  import Machine

  // ----- the answer, read off the file

  function LoadedValue(s: SymRec, typ: nat, base: Word): nat {
    if s.value != 0 && typ != 2 then Mod64(s.value + base) else s.value
  }

  /** The NUL-terminated string at `at` is `q`. */
  predicate NameAt(strings: seq<Byte>, at: nat, q: seq<Byte>) {
    at + |q| < |strings| && strings[at + |q|] == 0 && forall j :: 0 <= j < |q| ==> strings[at + j] == q[j]
  }

  predicate IsNamed(s: SymRec, strings: seq<Byte>, typ: nat, base: Word, q: seq<Byte>) {
    LoadedValue(s, typ, base) != 0 && NameAt(strings, s.name, q)
  }

  /** The value of the first symbol of that name, up to a symbol with no name in the table; 0 if there is none. */
  function FirstNamed(symbols: seq<SymRec>, strings: seq<Byte>, typ: nat, base: Word, q: seq<Byte>, i: nat): nat
    decreases |symbols| - i
  {
    if i >= |symbols| || symbols[i].name >= |strings| then 0
    else if IsNamed(symbols[i], strings, typ, base, q) then LoadedValue(symbols[i], typ, base)
    else FirstNamed(symbols, strings, typ, base, q, i + 1)
  }

  // ----- the tables in memory

  /** As many whole records as there is room for between the two tables. */
  predicate TableHasRoomFor(e: Image, n: nat) {
    NoWrapUp(e) && n == WholeRecords(e) && n < 0x7FFF_FFFF
  }

  predicate SymbolsEncoded(e: Image, symbols: seq<SymRec>) {
    forall i :: 0 <= i < |symbols| ==>
      Encoded(e.r.m, e.r.data, Relocated(e, e.dyn.symtab) + e.dyn.syment * i, SymFields(e.r.cls, symbols[i]))
  }

  predicate StringsPlaced(e: Image, strings: seq<Byte>) {
    |strings| == e.dyn.strsz < 0x1_0000_0000 && Placed(e.r.m, Relocated(e, e.dyn.strtab), strings)
  }

  predicate TablesInMemory(e: Image, symbols: seq<SymRec>, strings: seq<Byte>) {
    && Mappable(e.r) && e.r.via.Peek? && TableHasRoomFor(e, |symbols|)
    && SymbolsEncoded(e, symbols) && StringsPlaced(e, strings)
  }

  // ----- the search on those tables

  /** `elf_sym_iter`'s test accepts exactly the records that fit. */
  lemma RoomIffWithin(e: Image, n: nat, i: nat)
    requires TableHasRoomFor(e, n) && i <= n
    ensures InBounds(e, i) <==> i < n
  {
    BoundTest(e, i);
  }

  lemma RecordIsRead(r: Reader, a: nat, s: SymRec)
    requires Mappable(r) && Encoded(r.m, r.data, a, SymFields(r.cls, s))
    ensures var w := Width(r.cls);
            Mod64(a) == a && Get(r, a, 4) == s.name && GetW(r, Add64(a, w)) == s.value
  {
    EncodedHolds(r.m, r.data, a, SymFields(r.cls, s));
    SymRead(r, a, s);
  }

  lemma SymbolIsRead(e: Image, symbols: seq<SymRec>, i: nat)
    requires Mappable(e.r) && SymbolsEncoded(e, symbols) && i < |symbols|
    ensures var a, w := SymAddr(e, i), Width(e.r.cls);
            Get(e.r, a, 4) == symbols[i].name && GetW(e.r, Add64(a, w)) == symbols[i].value
  {
    var a := Relocated(e, e.dyn.symtab) + e.dyn.syment * i;
    RecordIsRead(e.r, a, symbols[i]);
  }

  lemma SymIterReads(e: Image, i: nat, s: SymRec)
    requires InBounds(e, i)
    requires Get(e.r, SymAddr(e, i), 4) == s.name && GetW(e.r, Add64(SymAddr(e, i), Width(e.r.cls))) == s.value
    ensures SymIter(e, i) ==
            if s.name >= e.dyn.strsz then Machine.None else Machine.Some(Sym(s.name, LoadedValue(s, e.typ, e.base)))
  {
  }

  lemma SymIterEnds(e: Image, i: nat)
    requires !InBounds(e, i)
    ensures SymIter(e, i) == Machine.None
  {
  }

  lemma SymbolIterated(e: Image, symbols: seq<SymRec>, strings: seq<Byte>, i: nat)
    requires TablesInMemory(e, symbols, strings) && i <= |symbols|
    ensures SymIter(e, i) ==
            if i == |symbols| || symbols[i].name >= |strings| then Machine.None
            else Machine.Some(Sym(symbols[i].name, LoadedValue(symbols[i], e.typ, e.base)))
  {
    RoomIffWithin(e, |symbols|, i);
    if i < |symbols| {
      SymbolIsRead(e, symbols, i);
      SymIterReads(e, i, symbols[i]);
    } else {
      SymIterEnds(e, i);
    }
  }

  lemma NameByteRead(e: Image, strings: seq<Byte>, at: nat)
    requires Mappable(e.r) && StringsPlaced(e, strings) && at < |strings|
    ensures NameByte(e, Peek, at, 0) == strings[at]
  {
    var a := Relocated(e, e.dyn.strtab) + at;
    assert e.r.m[a] == strings[at];
  }

  /** The comparison loop finds exactly the NUL-terminated name. */
  lemma NameCompared(e: Image, strings: seq<Byte>, at: nat, q: seq<Byte>)
    requires Mappable(e.r) && StringsPlaced(e, strings) && at < |strings|
    ensures Agrees(e, Peek, q, at, |q| + 1) <==> NameAt(strings, at, q)
  {
    forall j | 0 <= j && at + j < |strings|
      ensures AgreesAt(e, Peek, q, at, j) <==> strings[at + j] == CharAt(q, j)
    {
      NameByteRead(e, strings, at + j);
    }
    if Agrees(e, Peek, q, at, |q| + 1) {
      AgreesInTable(e, Peek, q, at, |q| + 1);
      assert AgreesAt(e, Peek, q, at, |q|);
      forall j | 0 <= j < |q|
        ensures strings[at + j] == q[j]
      {
        assert AgreesAt(e, Peek, q, at, j);
      }
    }
  }

  lemma {:induction false} LookupFindsNamed(e: Image, symbols: seq<SymRec>, strings: seq<Byte>, q: seq<Byte>, i: nat)
    requires TablesInMemory(e, symbols, strings) && i <= |symbols|
    ensures Lookup(e, Peek, q, i) == FirstNamed(symbols, strings, e.typ, e.base, q, i)
    decreases |symbols| - i
  {
    SymbolIterated(e, symbols, strings, i);
    if i < |symbols| && symbols[i].name < |strings| {
      NameCompared(e, strings, symbols[i].name, q);
      LookupFindsNamed(e, symbols, strings, q, i + 1);
    }
  }

  // ----- the whole way

  /** The process holds the file with its symbol and string tables, and `loadelf` accepts it. */
  predicate HoldsAll(m: Mem, littleHost: bool, f: File, base: Word, symbols: seq<SymRec>, strings: seq<Byte>) {
    Holding(m, Peek, f, base) &&
    var e := FromFile(f, ReaderOf(m, Peek, littleHost, f), base);
    e.Some? && TablesInMemory(e.value, symbols, strings)
  }

  /** `pdlsym` answers what the encoded file's own tables say, in every class, byte order and host. */
  lemma AnswerIsFirstNamed(m: Mem, littleHost: bool, f: File, base: Word, symbols: seq<SymRec>, strings: seq<Byte>,
                           q: seq<Byte>)
    requires HoldsAll(m, littleHost, f, base, symbols, strings)
    ensures Answer(m, false, littleHost, base, q) == FirstNamed(symbols, strings, f.ehdr.typ, base, q, 0)
  {
    LoadRoundTrip(m, Peek, littleHost, f, base);
    LookupFindsNamed(FromFile(f, ReaderOf(m, Peek, littleHost, f), base).value, symbols, strings, q, 0);
  }

  /** On the caller itself the file is read directly and loads as well; it is only the names that are not found. */
  lemma SelfIsLoaded(m: Mem, littleHost: bool, f: File, base: Word, q: seq<Byte>)
    requires Holding(m, Direct, f, base) && q != [] && q[0] != 0
    ensures LoadedAt(m, ImageVia(true), littleHost, base) == FromFile(f, ReaderOf(m, Direct, littleHost, f), base)
    ensures Answer(m, true, littleHost, base, q) == 0
  {
    LoadRoundTrip(m, Direct, littleHost, f, base);
    var e := LoadedAt(m, ImageVia(true), littleHost, base);
    if e.Some? {
      NothingFoundInSelf(e.value, q, 0);
    }
  }

  /**
   * The answer does not depend on whether the loader relocated the dynamic section, nor on the class, the
   * byte orders or where the records lie: only on the type, the base and the tables.
   */
  lemma SameTablesSameAnswer(m: Mem, n: Mem, littleM: bool, littleN: bool, f: File, g: File, base: Word,
                             symbols: seq<SymRec>, strings: seq<Byte>, q: seq<Byte>)
    requires HoldsAll(m, littleM, f, base, symbols, strings) && HoldsAll(n, littleN, g, base, symbols, strings)
    requires f.ehdr.typ == g.ehdr.typ
    ensures Answer(m, false, littleM, base, q) == Answer(n, false, littleN, base, q)
  {
    AnswerIsFirstNamed(m, littleM, f, base, symbols, strings, q);
    AnswerIsFirstNamed(n, littleN, g, base, symbols, strings, q);
  }
}
