/** An image that `loadelf` accepts and whose symbol table `pdlsym` leaves, because a product wraps around. */
module WrappingImage {
  import opened Memory
  import opened RemoteRead
  import opened Elf
  import opened ElfLayout
  import opened Pdlsym
  import opened ElfImage
  import Machine

  const BASE: Word := 128
  const SYMENT: Word := TWO_64 - 192
  const STRTAB: Word := TWO_64 - 16
  const SYMTAB: Word := 64
  const STRSZ: Word := 64

  /** The name that is looked for: "f". */
  const QUERY: seq<Byte> := [0x66]

  function LoadHeader(): Phdr {
    Phdr(1, 0, 0, 0, 0, 0, 0, 0)
  }

  function DynamicHeader(): Phdr {
    Phdr(2, 0, 0, 176, 0, 64, 64, 0)
  }

  function Entries(): seq<Entry> {
    [Entry(5, STRTAB), Entry(6, SYMTAB), Entry(10, STRSZ), Entry(11, SYMENT)]
  }

  function TheFile(): File {
    File(2, 1, Ehdr(3, 0, 0, 0, 64, 0, 0, 0, 56, 2, 0, 0, 0), [LoadHeader(), DynamicHeader()], [[], Entries()])
  }

  /** A record at address 0, far below the table, which starts at 192. */
  function StrayRecord(): SymRec {
    SymRec(40, 0, 0, 0, 1, 0)
  }

  function Zeros(n: nat): seq<Byte> {
    seq(n, _ => 0)
  }

  // ----- the memory, from its end to its beginning

  function EntryBytes(j: nat): seq<Byte>
    requires j < 4
  {
    Encode(EntryFields(8, Entries()[j]), 1)
  }

  function From304(): seq<Byte> {
    EntryBytes(0) + (EntryBytes(1) + (EntryBytes(2) + EntryBytes(3)))
  }

  function From192(): seq<Byte> {
    Encode(PhdrFields(2, LoadHeader()), 1) + (Encode(PhdrFields(2, DynamicHeader()), 1) + From304())
  }

  function From128(): seq<Byte> {
    Ident(TheFile()) + (Zeros(9) + (Encode(EhdrFields(8, TheFile().ehdr), 1) + From192()))
  }

  function TheMemory(): Mem {
    Encode(SymFields(2, StrayRecord()), 1) + ([0x66, 0] + (Zeros(102) + From128()))
  }

  function SizeOf(f: Fields): nat
    decreases f
  {
    if f.End? then 0 else f.size + SizeOf(f.rest)
  }

  lemma {:induction false} EncodedSize(f: Fields)
    ensures |Encode(f, 1)| == SizeOf(f)
    decreases f
  {
    if f.Field? {
      EncodedSize(f.rest);
    }
  }

  lemma Sizes()
    ensures |EntryBytes(0)| == |EntryBytes(1)| == |EntryBytes(2)| == |EntryBytes(3)| == 16
    ensures |Encode(PhdrFields(2, LoadHeader()), 1)| == |Encode(PhdrFields(2, DynamicHeader()), 1)| == 56
    ensures |Encode(EhdrFields(8, TheFile().ehdr), 1)| == 48
    ensures |Encode(SymFields(2, StrayRecord()), 1)| == 24
  {
    EncodedSize(EntryFields(8, Entries()[0]));
    EncodedSize(EntryFields(8, Entries()[1]));
    EncodedSize(EntryFields(8, Entries()[2]));
    EncodedSize(EntryFields(8, Entries()[3]));
    EncodedSize(PhdrFields(2, LoadHeader()));
    EncodedSize(PhdrFields(2, DynamicHeader()));
    EhdrSize(TheFile().ehdr);
    EncodedSize(SymFields(2, StrayRecord()));
  }

  lemma SizeOfThree(f: Fields)
    requires f.Field? && f.rest.Field? && f.rest.rest.Field?
    ensures SizeOf(f) == f.size + f.rest.size + f.rest.rest.size + SizeOf(f.rest.rest.rest)
  {
    assert SizeOf(f.rest) == f.rest.size + SizeOf(f.rest.rest);
  }

  lemma EhdrSize(h: Ehdr)
    ensures |Encode(EhdrFields(8, h), 1)| == 48
  {
    var f := EhdrFields(8, h);
    EncodedSize(f);
    SizeOfThree(f);
    SizeOfThree(EhdrTables(8, h));
    SizeOfThree(EhdrSizes(h));
    SizeOfThree(EhdrSizes(h).rest.rest.rest);
  }

  // ----- the pieces are where they belong

  lemma FileIsPlaced()
    ensures |TheMemory()| == 368
    ensures Placed(TheMemory(), 0, Encode(SymFields(2, StrayRecord()), 1)) && Placed(TheMemory(), 24, [0x66, 0])
    ensures Placed(TheMemory(), 128, From128())
  {
    Sizes();
    var m := TheMemory();
    PlacedParts(m, 0, Encode(SymFields(2, StrayRecord()), 1), [0x66, 0] + (Zeros(102) + From128()));
    PlacedParts(m, 24, [0x66, 0], Zeros(102) + From128());
    PlacedParts(m, 26, Zeros(102), From128());
  }

  lemma HeadIsPlaced(m: Mem)
    requires Placed(m, 128, From128())
    ensures Placed(m, 128, Ident(TheFile())) && Placed(m, 144, Encode(EhdrFields(8, TheFile().ehdr), 1))
    ensures Placed(m, 192, From192())
  {
    Sizes();
    var ehdr := Encode(EhdrFields(8, TheFile().ehdr), 1);
    PlacedParts(m, 128, Ident(TheFile()), Zeros(9) + (ehdr + From192()));
    PlacedParts(m, 135, Zeros(9), ehdr + From192());
    PlacedParts(m, 144, ehdr, From192());
  }

  lemma TablesArePlaced(m: Mem)
    requires Placed(m, 192, From192())
    ensures Placed(m, 192, Encode(PhdrFields(2, LoadHeader()), 1))
    ensures Placed(m, 248, Encode(PhdrFields(2, DynamicHeader()), 1)) && Placed(m, 304, From304())
  {
    Sizes();
    PlacedParts(m, 192, Encode(PhdrFields(2, LoadHeader()), 1), Encode(PhdrFields(2, DynamicHeader()), 1) + From304());
    PlacedParts(m, 248, Encode(PhdrFields(2, DynamicHeader()), 1), From304());
  }

  lemma EntriesArePlaced(m: Mem)
    requires Placed(m, 304, From304())
    ensures Placed(m, 304, EntryBytes(0)) && Placed(m, 320, EntryBytes(1))
    ensures Placed(m, 336, EntryBytes(2)) && Placed(m, 352, EntryBytes(3))
  {
    Sizes();
    PlacedParts(m, 304, EntryBytes(0), EntryBytes(1) + (EntryBytes(2) + EntryBytes(3)));
    PlacedParts(m, 320, EntryBytes(1), EntryBytes(2) + EntryBytes(3));
    PlacedParts(m, 336, EntryBytes(2), EntryBytes(3));
  }

  // ----- the values fit

  lemma SmallFits(v: nat, n: nat)
    requires v < 0x100 && n > 0
    ensures v < Pow256(n)
  {
  }

  lemma FitsField(f: Fields)
    requires f.Field? && f.size > 0 && f.value < 0x100 && Fits(f.rest)
    ensures Fits(f)
  {
    SmallFits(f.value, f.size);
  }

  lemma {:induction false} SmallFieldsFit(f: Fields)
    requires AllSmall(f)
    ensures Fits(f)
    decreases f
  {
    if f.Field? {
      SmallFieldsFit(f.rest);
      FitsField(f);
    }
  }

  predicate AllSmall(f: Fields)
    decreases f
  {
    f.End? || (f.size > 0 && f.value < 0x100 && AllSmall(f.rest))
  }

  lemma EntryFits(e: Entry)
    requires e.tag < 0x100 && e.val < TWO_64
    ensures Fits(EntryFields(8, e))
  {
    Pow256Values();
    SmallFits(e.tag, 8);
    assert Fits(EntryFields(8, e).rest);
  }

  lemma EhdrIsSmall(h: Ehdr)
    requires h == TheFile().ehdr
    ensures AllSmall(EhdrFields(8, h))
  {
    assert AllSmall(EhdrSizes(h).rest.rest.rest);
    assert AllSmall(EhdrSizes(h));
    assert AllSmall(EhdrTables(8, h));
  }

  // ----- the process holds the file

  lemma HeadersHeld(m: Mem)
    requires |m| == 368 && Placed(m, 128, From128())
    ensures HeadersEncoded(m, TheFile(), BASE)
    ensures Placed(m, BASE, Ident(TheFile())) && Encoded(m, 1, BASE + 0x10, EhdrFields(8, TheFile().ehdr))
  {
    HeadIsPlaced(m);
    TablesArePlaced(m);
    EhdrIsSmall(TheFile().ehdr);
    SmallFieldsFit(EhdrFields(8, TheFile().ehdr));
    SmallFieldsFit(PhdrFields(2, LoadHeader()));
    SmallFieldsFit(PhdrFields(2, DynamicHeader()));
    assert HeaderPlace(TheFile(), BASE, 0) == 192 && HeaderPlace(TheFile(), BASE, 1) == 248;
  }

  lemma SectionHeld(m: Mem)
    requires |m| == 368 && Placed(m, 128, From128())
    ensures SectionEncoded(m, TheFile(), 304, 64, Entries())
  {
    HeadIsPlaced(m);
    TablesArePlaced(m);
    EntriesArePlaced(m);
    EntryHeld(m, 0);
    EntryHeld(m, 1);
    EntryHeld(m, 2);
    EntryHeld(m, 3);
    FourEncoded(m, TheFile(), Entries());
  }

  lemma FourEncoded(m: Mem, f: File, es: seq<Entry>)
    requires f.cls == 2 && f.data == 1 && |es| == 4
    requires Encoded(m, 1, 304 + EntryOffset(8, 0), EntryFields(8, es[0]))
    requires Encoded(m, 1, 304 + EntryOffset(8, 1), EntryFields(8, es[1]))
    requires Encoded(m, 1, 304 + EntryOffset(8, 2), EntryFields(8, es[2]))
    requires Encoded(m, 1, 304 + EntryOffset(8, 3), EntryFields(8, es[3]))
    ensures SectionEncoded(m, f, 304, 64, es)
  {
  }

  lemma EntryHeld(m: Mem, j: nat)
    requires j < 4 && Placed(m, 304 + 16 * j, EntryBytes(j))
    ensures Encoded(m, 1, 304 + EntryOffset(8, j), EntryFields(8, Entries()[j]))
  {
    EntryFits(Entries()[j]);
  }

  lemma FileIsHeld()
    ensures Holding(TheMemory(), Peek, TheFile(), BASE)
  {
    FileIsPlaced();
    HeadersHeld(TheMemory());
    SectionHeld(TheMemory());
  }

  // ----- what loadelf makes of it

  function TheImage(): Image {
    Image(ReaderOf(TheMemory(), Peek, true, TheFile()), BASE, 3, Dyn(STRTAB, STRSZ, SYMTAB, SYMENT))
  }

  lemma AllEntriesLive()
    ensures Live(Entries(), 0) == 4 && DynAfter(Entries(), 4, NO_DYN) == TheImage().dyn
  {
    var d, es := NO_DYN, Entries();
    OneMoreEntry(es, 0, d);
    OneMoreEntry(es, 1, d);
    OneMoreEntry(es, 2, d);
    OneMoreEntry(es, 3, d);
    assert DynAfter(es, 0, d) == d;
  }

  lemma IsLoaded()
    ensures LoadedAt(TheMemory(), Peek, true, BASE) == Machine.Some(TheImage())
  {
    FileIsHeld();
    LoadRoundTrip(TheMemory(), Peek, true, TheFile(), BASE);
    HeadersSay(TheFile());
    ImageFromFile(TheFile(), ReaderOf(TheMemory(), Peek, true, TheFile()));
  }

  lemma HeadersSay(f: File)
    requires f == TheFile()
    ensures SaidBy(f, 2) == Dyn(STRTAB, STRSZ, SYMTAB, SYMENT) && Loads(f, 2) == 1
  {
    AllEntriesLive();
    assert SaidBy(f, 1) == NO_DYN && Loads(f, 1) == 1;
  }

  lemma ImageFromFile(f: File, r: Reader)
    requires f == TheFile() && SaidBy(f, 2) == Dyn(STRTAB, STRSZ, SYMTAB, SYMENT) && Loads(f, 2) == 1
    ensures FromFile(f, r, BASE) == Machine.Some(Image(r, BASE, 3, Dyn(STRTAB, STRSZ, SYMTAB, SYMENT)))
  {
  }

  // ----- where the search goes

  /** What the search reads of the two records and of the name. */
  predicate Reads(r: Reader) {
    && Mappable(r) && r.cls == 2
    && Get(r, 192, 4) == 1 && Get(r, 200, 8) == 0 && Get(r, 0, 4) == 40 && Get(r, 8, 8) == 1
    && Get8(r.m, Peek, 24) == 0x66 && Get8(r.m, Peek, 25) == 0
  }

  predicate Like(e: Image) {
    e.base == BASE && e.typ == 3 && e.dyn == Dyn(STRTAB, STRSZ, SYMTAB, SYMENT) && Reads(e.r)
  }

  lemma RecordsRead(r: Reader)
    requires r.via.Peek? && r.cls == 2 && r.data == 1 && |r.m| == 368
    requires Placed(r.m, 0, Encode(SymFields(2, StrayRecord()), 1)) && Placed(r.m, 24, [0x66, 0])
    requires Placed(r.m, 192, Encode(PhdrFields(2, LoadHeader()), 1))
    ensures Reads(r)
  {
    SmallFieldsFit(PhdrFields(2, LoadHeader()));
    EncodedHolds(r.m, 1, 192, PhdrFields(2, LoadHeader()));
    PhdrRead(r, 192, LoadHeader());
    SmallFieldsFit(SymFields(2, StrayRecord()));
    EncodedHolds(r.m, 1, 0, SymFields(2, StrayRecord()));
    SymRead(r, 0, StrayRecord());
    NameIsRead(r.m);
  }

  lemma NameIsRead(m: Mem)
    requires |m| == 368 && Placed(m, 24, [0x66, 0])
    ensures Get8(m, Peek, 24) == 0x66 && Get8(m, Peek, 25) == 0
  {
    assert m[24] == 0x66 && m[25] == 0;
  }

  lemma ImageIsLike()
    ensures Like(TheImage())
  {
    FileIsPlaced();
    HeadIsPlaced(TheMemory());
    TablesArePlaced(TheMemory());
    RecordsRead(TheImage().r);
  }

  lemma Addresses(e: Image)
    requires Like(e)
    ensures SymAddr(e, 0) == 192 && SymAddr(e, 1) == 0 && Relocated(e, SYMTAB) == 192 && Relocated(e, STRTAB) == STRTAB
    ensures InBounds(e, 0) && InBounds(e, 1)
  {
  }

  lemma FirstRecordHasNoValue(e: Image)
    requires Like(e)
    ensures SymIter(e, 0) == Machine.Some(Sym(1, 0))
  {
    Addresses(e);
    assert Add64(192, 8) == 200;
  }

  lemma SecondRecordIsStray(e: Image)
    requires Like(e)
    ensures SymIter(e, 1) == Machine.Some(Sym(40, 129))
  {
    Addresses(e);
    assert Add64(0, 8) == 8;
  }

  lemma NameStandsThere(e: Image)
    requires Like(e)
    ensures Agrees(e, Peek, QUERY, 40, 2)
  {
    Addresses(e);
    assert Add64(STRTAB, 40) == 24 && Add64(STRTAB, 41) == 25;
    assert NameByte(e, Peek, 40, 0) == 0x66 && NameByte(e, Peek, 40, 1) == 0;
    assert AgreesAt(e, Peek, QUERY, 40, 0) && AgreesAt(e, Peek, QUERY, 40, 1);
  }

  lemma FoundAtOne(e: Image)
    requires SymIter(e, 0) == Machine.Some(Sym(1, 0)) && SymIter(e, 1) == Machine.Some(Sym(40, 129))
    requires Agrees(e, Peek, QUERY, 40, 2)
    ensures Lookup(e, Peek, QUERY, 0) == 129
  {
    assert Hit(e, Peek, QUERY, 1) && !Hit(e, Peek, QUERY, 0);
    assert Lookup(e, Peek, QUERY, 1) == 129;
  }

  lemma RoomForOne(e: Image)
    requires Like(e)
    ensures InOrder(e) && WholeRecords(e) == 1 && SymAddr(e, 1) < Relocated(e, SYMTAB)
  {
    Addresses(e);
  }

  lemma LookedUp(m: Mem, e: Image, q: seq<Byte>)
    requires LoadedAt(m, Peek, true, BASE) == Machine.Some(e)
    ensures Answer(m, false, true, BASE, q) == Lookup(e, Peek, q, 0)
  {
  }

  lemma FoundOutside(m: Mem, e: Image)
    requires LoadedAt(m, Peek, true, BASE) == Machine.Some(e) && Like(e)
    ensures SymIter(e, 0) == Machine.Some(Sym(1, 0)) && Answer(m, false, true, BASE, QUERY) == 129
  {
    FirstRecordHasNoValue(e);
    SecondRecordIsStray(e);
    NameStandsThere(e);
    FoundAtOne(e);
    LookedUp(m, e, QUERY);
  }

  /**
   * An image that loads, with tables in order and room for one record, which has no value. `pdlsym`
   * answers all the same, from a record at address 0, below both tables.
   */
  lemma AnswersFromOutside() returns (m: Mem, e: Image)
    ensures LoadedAt(m, Peek, true, BASE) == Machine.Some(e)
    ensures e.dyn == Dyn(STRTAB, STRSZ, SYMTAB, SYMENT) && InOrder(e) && WholeRecords(e) == 1
    ensures SymIter(e, 0) == Machine.Some(Sym(1, 0)) && SymAddr(e, 1) < Relocated(e, SYMTAB)
    ensures Answer(m, false, true, BASE, QUERY) == 129
  {
    m, e := TheMemory(), TheImage();
    IsLoaded();
    ImageIsLike();
    RoomForOne(e);
    FoundOutside(m, e);
  }
}
