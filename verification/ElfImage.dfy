/** The round trip: `loadelf` and `pdlsym` on a whole image, encoded in either class and either byte order. */
module ElfImage {
  import opened Memory
  import opened RemoteRead
  import opened Elf
  import opened ElfLayout
  import Machine

  /**
   * An ELF file as its records say, before encoding; `dynamics[i]` is the section of the i-th header if
   * that is PT_DYNAMIC, type 2.
   */
  datatype File = File(cls: Byte, data: Byte, ehdr: Ehdr, headers: seq<Phdr>, dynamics: seq<seq<Entry>>)

  // ----- what the dynamic sections say

  /** The number of entries before DT_NULL, or all of them, when the first `k` are not DT_NULL. */
  function Live(es: seq<Entry>, k: nat): (n: nat)
    requires k <= |es|
    ensures k <= n <= |es| && (n < |es| ==> es[n].tag == 0) && forall j :: k <= j < n ==> es[j].tag != 0
    decreases |es| - k
  {
    if k == |es| || es[k].tag == 0 then k else Live(es, k + 1)
  }

  /** The value of the last of the first `n` entries that has the tag. */
  function LastValue(es: seq<Entry>, n: nat, tag: nat, otherwise: nat): nat
    requires n <= |es|
    decreases n
  {
    if n == 0 then otherwise
    else if es[n - 1].tag == tag then es[n - 1].val
    else LastValue(es, n - 1, tag, otherwise)
  }

  /** The last values of the tags 5 (DT_STRTAB), 10 (DT_STRSZ), 6 (DT_SYMTAB) and 11 (DT_SYMENT) of the gABI. */
  function DynAfter(es: seq<Entry>, n: nat, d: Dyn): Dyn
    requires n <= |es|
  {
    Dyn(LastValue(es, n, 5, d.strtab), LastValue(es, n, 10, d.strsz),
        LastValue(es, n, 6, d.symtab), LastValue(es, n, 11, d.syment))
  }

  predicate Complete(f: File) {
    |f.headers| == |f.dynamics| == f.ehdr.phnum
  }

  /** A segment of type 1 (PT_LOAD) or 2 (PT_DYNAMIC) that `loadelf` accepts at that base; type 2 is ET_EXEC too. */
  predicate GoodHeader(h: Phdr, typ: nat, base: nat) {
    (h.kind == 1 || h.kind == 2 ==> h.offset <= h.vaddr && h.filesz <= h.memsz) &&
    (h.kind == 1 && typ == 2 ==> base <= h.vaddr - h.offset)
  }

  /** What the first `n` headers' dynamic sections say. */
  function SaidBy(f: File, n: nat): Dyn
    requires Complete(f) && n <= |f.headers|
    decreases n
  {
    if n == 0 then NO_DYN
    else if f.headers[n - 1].kind == 2 then
      DynAfter(f.dynamics[n - 1], Live(f.dynamics[n - 1], 0), SaidBy(f, n - 1))
    else SaidBy(f, n - 1)
  }

  function Loads(f: File, n: nat): nat
    requires n <= |f.headers|
    decreases n
  {
    if n == 0 then 0 else Loads(f, n - 1) + (if f.headers[n - 1].kind == 1 then 1 else 0)
  }

  /** `loadelf` on the file as it stands: it must find everything it needs. */
  function FromFile(f: File, r: Reader, base: Word): Option<Image>
    requires Complete(f)
  {
    var d := SaidBy(f, |f.headers|);
    if AllGood(f, 0, base) && Loads(f, |f.headers|) > 0
       && d.strtab != 0 && d.strsz != 0 && d.symtab != 0 && d.syment != 0
    then Machine.Some(Image(r, base, f.ehdr.typ, d))
    else Machine.None
  }

  // ----- the file in memory

  function Ident(f: File): seq<Byte> {
    [0x7F, 0x45, 0x4C, 0x46, f.cls, f.data, 1]
  }

  /** The record is encoded at `a`, and its values fit its fields. */
  predicate Encoded(m: Mem, data: Byte, a: nat, g: Fields) {
    Fits(g) && Placed(m, a, Encode(g, data))
  }

  function HeaderPlace(f: File, base: Word, i: nat): nat {
    base + f.ehdr.phoff + i * f.ehdr.phentsize
  }

  function SectionPlace(f: File, base: Word, h: Phdr): nat {
    if f.ehdr.typ == 2 then h.vaddr else base + h.vaddr
  }

  predicate HeadersEncoded(m: Mem, f: File, base: Word) {
    forall i :: 0 <= i < |f.headers| ==>
      Encoded(m, f.data, HeaderPlace(f, base, i), PhdrFields(f.cls, f.headers[i]))
  }

  /** Where the j-th entry starts. */
  function EntryOffset(w: nat, j: nat): nat {
    2 * w * j
  }

  /** A dynamic section of exactly the size that its header gives. */
  predicate SectionEncoded(m: Mem, f: File, place: nat, memsz: nat, es: seq<Entry>) {
    var w := Width(f.cls);
    memsz == EntryOffset(w, |es|) &&
    forall j :: 0 <= j < |es| ==> Encoded(m, f.data, place + EntryOffset(w, j), EntryFields(w, es[j]))
  }

  predicate SectionsEncoded(m: Mem, f: File, base: Word)
    requires Complete(f)
  {
    forall i :: 0 <= i < |f.headers| && f.headers[i].kind == 2 &&
                GoodHeader(f.headers[i], f.ehdr.typ, base) ==>
      SectionEncoded(m, f, SectionPlace(f, base, f.headers[i]), f.headers[i].memsz, f.dynamics[i])
  }

  predicate InMemory(m: Mem, f: File, base: Word) {
    && (f.cls == 1 || f.cls == 2) && (f.data == 1 || f.data == 2) && Complete(f)
    && Placed(m, base, Ident(f))
    && Encoded(m, f.data, base + 0x10, EhdrFields(Width(f.cls), f.ehdr))
    && HeadersEncoded(m, f, base) && SectionsEncoded(m, f, base)
  }

  /** The resolver's reader for that file. */
  function ReaderOf(m: Mem, via: Via, littleHost: bool, f: File): Reader {
    Reader(m, via, littleHost, f.cls, f.data)
  }

  // ----- the round trip

  predicate EntriesRead(r: Reader, tag: nat, es: seq<Entry>) {
    forall j :: 0 <= j < |es| ==> EntryIs(r, tag + EntryOffset(Width(r.cls), j), es[j])
  }

  lemma EntryOffsets(w: nat, j: nat, n: nat)
    requires j < n && (w == 4 || w == 8)
    ensures EntryOffset(w, j) < EntryOffset(w, n) && EntryOffset(w, j + 1) == EntryOffset(w, j) + 2 * w
  {
    assert 8 * j < 8 * n && 16 * j < 16 * n;
  }

  predicate EntryIs(r: Reader, a: nat, e: Entry) {
    a + Width(r.cls) < |r.m| && GetW(r, a) == e.tag && GetW(r, a + Width(r.cls)) == e.val
  }

  lemma EntryScanned(r: Reader, tag: Word, memsz: nat, o: nat, e: Entry, d: Dyn)
    requires o < memsz && EntryIs(r, tag + o, e) && |r.m| < TWO_64
    ensures ScanDynamic(r, tag, memsz, o, d) ==
            if e.tag == 0 then d else ScanDynamic(r, tag, memsz, o + 2 * Width(r.cls), Update(d, e.tag, e.val))
  {
    assert Add64(tag, o) == tag + o && Add64(tag, o + Width(r.cls)) == tag + o + Width(r.cls);
  }

  lemma OneMoreEntry(es: seq<Entry>, k: nat, d: Dyn)
    requires k < |es|
    ensures DynAfter(es, k + 1, d) == Update(DynAfter(es, k, d), es[k].tag, es[k].val)
  {
  }

  lemma LiveStep(es: seq<Entry>, k: nat)
    requires k <= |es|
    ensures Live(es, k) == if k == |es| || es[k].tag == 0 then k else Live(es, k + 1)
  {
  }

  lemma SectionEnd(r: Reader, tag: Word, memsz: nat, d: Dyn)
    ensures ScanDynamic(r, tag, memsz, memsz, d) == d
  {
  }

  lemma SectionStep(r: Reader, tag: Word, es: seq<Entry>, k: nat, d: Dyn)
    requires k < |es| && EntriesRead(r, tag, es) && |r.m| < TWO_64
    ensures ScanDynamic(r, tag, EntryOffset(Width(r.cls), |es|), EntryOffset(Width(r.cls), k), DynAfter(es, k, d)) ==
            if es[k].tag == 0 then DynAfter(es, k, d)
            else
              ScanDynamic(r, tag, EntryOffset(Width(r.cls), |es|), EntryOffset(Width(r.cls), k + 1),
                          DynAfter(es, k + 1, d))
  {
    EntryOffsets(Width(r.cls), k, |es|);
    EntryScanned(r, tag, EntryOffset(Width(r.cls), |es|), EntryOffset(Width(r.cls), k), es[k], DynAfter(es, k, d));
    OneMoreEntry(es, k, d);
  }

  lemma {:induction false} SectionRead(r: Reader, tag: Word, es: seq<Entry>, k: nat, d: Dyn)
    requires k <= |es| && EntriesRead(r, tag, es) && |r.m| < TWO_64
    ensures var w := Width(r.cls);
            ScanDynamic(r, tag, EntryOffset(w, |es|), EntryOffset(w, k), DynAfter(es, k, d)) ==
            DynAfter(es, Live(es, k), d)
    decreases |es| - k
  {
    LiveStep(es, k);
    if k == |es| {
      SectionEnd(r, tag, EntryOffset(Width(r.cls), k), DynAfter(es, k, d));
    } else {
      SectionStep(r, tag, es, k, d);
      if es[k].tag != 0 {
        SectionRead(r, tag, es, k + 1, d);
      }
    }
  }

  function SectionAt(t: Table, h: Phdr): Word {
    Add64(if t.typ == 2 then 0 else t.base, h.vaddr)
  }

  /** Everything the scan reads of header `i` is what the file says. */
  predicate HeaderRead(t: Table, f: File, i: nat)
    requires Complete(f) && i < |f.headers|
  {
    var h := f.headers[i];
    && HeaderAt(t, i) == HeaderPlace(f, t.base, i) && PhdrIs(t.r, HeaderAt(t, i), h)
    && (h.kind == 2 && GoodHeader(h, t.typ, t.base) ==>
          h.memsz == EntryOffset(Width(t.r.cls), |f.dynamics[i]|) && EntriesRead(t.r, SectionAt(t, h), f.dynamics[i]))
  }

  lemma HeaderScanned(t: Table, f: File, i: nat, loads: nat, d: Dyn)
    requires Complete(f) && i < |f.headers| && HeaderRead(t, f, i) && |t.r.m| < TWO_64
    ensures ScanHeader(t, i, loads, d) ==
            var h := f.headers[i];
            if !GoodHeader(h, t.typ, t.base) then Failed
            else if h.kind == 1 then Scanned(loads + 1, d)
            else if h.kind == 2 then Scanned(loads, DynAfter(f.dynamics[i], Live(f.dynamics[i], 0), d))
            else Scanned(loads, d)
  {
    var ph, w, h := HeaderAt(t, i), Width(t.r.cls), f.headers[i];
    assert Add64(ph, w) == ph + w && Add64(ph, 2 * w) == ph + 2 * w;
    assert Add64(ph, 4 * w) == ph + 4 * w && Add64(ph, 5 * w) == ph + 5 * w;
    if h.kind == 2 && GoodHeader(h, t.typ, t.base) {
      SectionRead(t.r, SectionAt(t, h), f.dynamics[i], 0, d);
    }
  }

  predicate AllGood(f: File, from: nat, base: Word) {
    forall i :: from <= i < |f.headers| ==> GoodHeader(f.headers[i], f.ehdr.typ, base)
  }

  lemma {:induction false} HeadersScanned(t: Table, f: File, i: nat)
    requires Complete(f) && i <= |f.headers| && |t.r.m| < TWO_64 && t.typ == f.ehdr.typ && t.phnum == |f.headers|
    requires forall k :: 0 <= k < |f.headers| ==> HeaderRead(t, f, k)
    ensures ScanHeaders(t, i, Loads(f, i), SaidBy(f, i)) ==
            if AllGood(f, i, t.base) then Scanned(Loads(f, t.phnum), SaidBy(f, t.phnum)) else Failed
    decreases |f.headers| - i
  {
    if i < |f.headers| {
      HeaderScanned(t, f, i, Loads(f, i), SaidBy(f, i));
      if GoodHeader(f.headers[i], t.typ, t.base) {
        HeadersScanned(t, f, i + 1);
      }
      assert AllGood(f, i, t.base) <==> GoodHeader(f.headers[i], t.typ, t.base) && AllGood(f, i + 1, t.base);
    }
  }

  // ----- from the bytes to the records

  /** The process holds the file, and the resolver can read all of its memory. */
  predicate Holding(m: Mem, via: Via, f: File, base: Word) {
    !via.Refused? && |m| % 8 == 0 && |m| < TWO_64 && InMemory(m, f, base)
  }

  lemma IdentRead(m: Mem, via: Via, f: File, base: Word)
    requires Holding(m, via, f, base)
    ensures GoodIdent(m, via, base)
    ensures Get8(m, via, Add64(base, 4)) == f.cls && Get8(m, via, Add64(base, 5)) == f.data
  {
    assert m[base] == 0x7F && m[base + 1] == 0x45 && m[base + 2] == 0x4C && m[base + 3] == 0x46;
    assert m[base + 4] == f.cls && m[base + 5] == f.data && m[base + 6] == 1;
    assert Fetch(m, via, base, 4).value == MAGIC;
  }

  predicate HasMagic(m: Mem, base: nat) {
    base + 4 <= |m| && m[base] == 0x7F && m[base + 1] == 0x45 && m[base + 2] == 0x4C && m[base + 3] == 0x46
  }

  /** An ELF identification of a known class, byte order and version. */
  predicate IsElf(m: Mem, base: nat) {
    HasMagic(m, base) && base + 7 <= |m| && 1 <= m[base + 4] <= 2 && 1 <= m[base + 5] <= 2 && m[base + 6] == 1
  }

  lemma FourBytes(a: seq<Byte>, b: seq<Byte>)
    requires |a| == |b| == 4
    ensures a == b <==> a[0] == b[0] && a[1] == b[1] && a[2] == b[2] && a[3] == b[3]
  {
  }

  lemma MagicIff(m: Mem, via: Via, base: Word)
    requires !via.Refused? && |m| % 8 == 0
    ensures Fetch(m, via, base, 4) == Machine.Some(MAGIC) <==> HasMagic(m, base)
  {
    if Fetch(m, via, base, 4).Some? {
      FourBytes(Fetch(m, via, base, 4).value, MAGIC);
    }
  }

  lemma IdentIff(m: Mem, via: Via, base: Word)
    requires !via.Refused? && |m| % 8 == 0 && |m| < TWO_64
    ensures GoodIdent(m, via, base) <==> IsElf(m, base)
  {
    MagicIff(m, via, base);
  }

  /** `loadelf` accepts nothing else. */
  lemma OnlyElfIsLoaded(m: Mem, via: Via, littleHost: bool, base: Word)
    requires !via.Refused? && |m| % 8 == 0 && |m| < TWO_64 && LoadedAt(m, via, littleHost, base).Some?
    ensures IsElf(m, base)
    ensures var e := LoadedAt(m, via, littleHost, base).value;
            e.r.cls == m[base + 4] && e.r.data == m[base + 5] &&
            e.dyn.strtab != 0 && e.dyn.strsz != 0 && e.dyn.symtab != 0 && e.dyn.syment != 0
  {
    IdentIff(m, via, base);
  }

  /** The table that the ELF header gives. */
  function TableOf(r: Reader, f: File, base: Word): Table {
    Table(r, base, f.ehdr.typ, f.ehdr.phoff, f.ehdr.phentsize, f.ehdr.phnum)
  }

  lemma TableRead(m: Mem, via: Via, littleHost: bool, f: File, base: Word)
    requires Holding(m, via, f, base)
    ensures HeaderTable(m, via, littleHost, base) == TableOf(ReaderOf(m, via, littleHost, f), f, base)
  {
    IdentRead(m, via, f, base);
    var r := ReaderOf(m, via, littleHost, f);
    var w := Width(f.cls);
    EncodedHolds(m, f.data, base + 0x10, EhdrFields(w, f.ehdr));
    EhdrRead(r, base, f.ehdr);
  }

  lemma EntryIsRead(r: Reader, a: nat, e: Entry)
    requires Mappable(r) && Encoded(r.m, r.data, a, EntryFields(Width(r.cls), e))
    ensures EntryIs(r, a, e)
  {
    EncodedHolds(r.m, r.data, a, EntryFields(Width(r.cls), e));
    EntryRead(r, a, e);
  }

  lemma SectionEntriesRead(r: Reader, f: File, place: nat, memsz: nat, es: seq<Entry>)
    requires Mappable(r) && r.cls == f.cls && r.data == f.data && SectionEncoded(r.m, f, place, memsz, es)
    ensures memsz == EntryOffset(Width(r.cls), |es|) && EntriesRead(r, place, es) && (es != [] ==> place < TWO_64)
  {
    var w := Width(f.cls);
    forall j | 0 <= j < |es|
      ensures EntryIs(r, place + EntryOffset(Width(r.cls), j), es[j])
    {
      EntryIsRead(r, place + EntryOffset(w, j), es[j]);
    }
    if es != [] {
      assert EntryIs(r, place + EntryOffset(Width(r.cls), 0), es[0]);
    }
  }

  lemma PlaceRead(r: Reader, f: File, base: Word, i: nat)
    requires Mappable(r) && r.cls == f.cls && r.data == f.data && i < |f.headers|
    requires Encoded(r.m, f.data, HeaderPlace(f, base, i), PhdrFields(f.cls, f.headers[i]))
    ensures var t := TableOf(r, f, base);
            HeaderAt(t, i) == HeaderPlace(f, base, i) && PhdrIs(r, HeaderAt(t, i), f.headers[i])
  {
    EncodedHolds(r.m, f.data, HeaderPlace(f, base, i), PhdrFields(f.cls, f.headers[i]));
    PhdrRead(r, HeaderPlace(f, base, i), f.headers[i]);
  }

  lemma SectionIsRead(r: Reader, f: File, base: Word, h: Phdr, es: seq<Entry>)
    requires Mappable(r) && r.cls == f.cls && r.data == f.data
    requires SectionEncoded(r.m, f, SectionPlace(f, base, h), h.memsz, es)
    ensures h.memsz == EntryOffset(Width(r.cls), |es|) && EntriesRead(r, SectionAt(TableOf(r, f, base), h), es)
  {
    var place := SectionPlace(f, base, h);
    SectionEntriesRead(r, f, place, h.memsz, es);
    assert es != [] ==> SectionAt(TableOf(r, f, base), h) == place;
  }

  lemma HeaderIsRead(r: Reader, f: File, base: Word, i: nat)
    requires Mappable(r) && r.cls == f.cls && r.data == f.data && Complete(f) && i < |f.headers|
    requires HeadersEncoded(r.m, f, base) && SectionsEncoded(r.m, f, base)
    ensures HeaderRead(TableOf(r, f, base), f, i)
  {
    PlaceRead(r, f, base, i);
    if f.headers[i].kind == 2 && GoodHeader(f.headers[i], f.ehdr.typ, base) {
      SectionIsRead(r, f, base, f.headers[i], f.dynamics[i]);
    }
  }

  /**
   * The round trip: in either class and byte order, read on a host of either byte order, `loadelf` makes
   * of the encoded image exactly what the file says.
   */
  lemma LoadRoundTrip(m: Mem, via: Via, littleHost: bool, f: File, base: Word)
    requires Holding(m, via, f, base)
    ensures LoadedAt(m, via, littleHost, base) == FromFile(f, ReaderOf(m, via, littleHost, f), base)
  {
    var r := ReaderOf(m, via, littleHost, f);
    IdentRead(m, via, f, base);
    TableRead(m, via, littleHost, f, base);
    forall k | 0 <= k < |f.headers|
      ensures HeaderRead(TableOf(r, f, base), f, k)
    {
      HeaderIsRead(r, f, base, k);
    }
    HeadersScanned(TableOf(r, f, base), f, 0);
  }
}
