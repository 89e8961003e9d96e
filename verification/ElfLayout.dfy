/** The records of an ELF file as the System V gABI lays them out, and what the resolver reads of them. */
module ElfLayout {
  import opened Memory
  import opened RemoteRead

  /** A record: fields of 1, 2, 4 or 8 bytes one after the other. */
  datatype Fields = End | Field(size: nat, value: nat, rest: Fields)

  predicate Fits(f: Fields)
    decreases f
  {
    f.End? || (0 < f.size && f.value < Pow256(f.size) && Fits(f.rest))
  }

  // ----- encoding

  function Number(v: nat, n: nat, data: Byte): (b: seq<Byte>)
    ensures |b| == n
  {
    if data == 1 then Bytes(v, n) else Reversed(Bytes(v, n))
  }

  function Encode(f: Fields, data: Byte): seq<Byte>
    decreases f
  {
    if f.End? then [] else Number(f.value, f.size, data) + Encode(f.rest, data)
  }

  /** The bytes `b` lie at `a`. */
  predicate Placed(m: Mem, a: nat, b: seq<Byte>) {
    Mapped(m, a, |b|) && forall k :: a <= k < a + |b| ==> m[k] == b[k - a]
  }

  /** The record lies at `a`, each field in the file's byte order. */
  predicate Holds(m: Mem, data: Byte, a: nat, f: Fields)
    decreases f
  {
    f.End? || (Mapped(m, a, f.size) && FileValue(m, a, f.size, data) == f.value && Holds(m, data, a + f.size, f.rest))
  }

  lemma ValueOfBytes(v: nat, n: nat)
    requires v < Pow256(n)
    ensures Value(Bytes(v, n), 0, n) == v
  {
    ValueOfDigits(Bytes(v, n), 0, n, v);
  }

  lemma NumberIsRead(m: Mem, a: nat, v: nat, n: nat, data: Byte)
    requires v < Pow256(n) && Placed(m, a, Number(v, n, data))
    ensures FileValue(m, a, n, data) == v
  {
    var b := Bytes(v, n);
    ValueOfBytes(v, n);
    if data == 1 {
      ValueMoved(m, a, n, b, 0);
    } else {
      ValueMoved(m, a, n, Reversed(b), 0);
      ReversedValue(Reversed(b), b, n);
    }
  }

  lemma PlacedParts(m: Mem, a: nat, b: seq<Byte>, c: seq<Byte>)
    requires Placed(m, a, b + c)
    ensures Placed(m, a, b) && Placed(m, a + |b|, c)
  {
    forall k | a <= k < a + |b|
      ensures m[k] == b[k - a]
    {
      assert (b + c)[k - a] == b[k - a];
    }
    forall k | a + |b| <= k < a + |b| + |c|
      ensures m[k] == c[k - a - |b|]
    {
      assert (b + c)[k - a] == c[k - a - |b|];
    }
  }

  lemma FirstFieldHolds(m: Mem, data: Byte, a: nat, f: Fields)
    requires f.Field? && Fits(f) && Placed(m, a, Encode(f, data))
    ensures Mapped(m, a, f.size) && FileValue(m, a, f.size, data) == f.value
    ensures Placed(m, a + f.size, Encode(f.rest, data))
  {
    assert Encode(f, data) == Number(f.value, f.size, data) + Encode(f.rest, data);
    PlacedParts(m, a, Number(f.value, f.size, data), Encode(f.rest, data));
    NumberIsRead(m, a, f.value, f.size, data);
  }

  /** An encoded record reads back field by field, in either byte order. */
  lemma {:induction false} EncodedHolds(m: Mem, data: Byte, a: nat, f: Fields)
    requires Fits(f) && Placed(m, a, Encode(f, data))
    ensures Holds(m, data, a, f)
    decreases f
  {
    if f.Field? {
      FirstFieldHolds(m, data, a, f);
      EncodedHolds(m, data, a + f.size, f.rest);
    }
  }

  // ----- the records

  datatype Ehdr = Ehdr(typ: nat, machine: nat, version: nat, entry: nat, phoff: nat, shoff: nat, flags: nat,
                       ehsize: nat, phentsize: nat, phnum: nat, shentsize: nat, shnum: nat, shstrndx: nat)

  datatype Phdr = Phdr(kind: nat, flags: nat, offset: nat, vaddr: nat, paddr: nat, filesz: nat, memsz: nat, align: nat)

  datatype Entry = Entry(tag: nat, val: nat)

  datatype SymRec = SymRec(name: nat, info: nat, other: nat, shndx: nat, value: nat, size: nat)

  /** What follows `e_ident`, from 0x10 on. */
  function EhdrFields(w: nat, h: Ehdr): Fields {
    Field(2, h.typ, Field(2, h.machine, Field(4, h.version, EhdrTables(w, h))))
  }

  function EhdrTables(w: nat, h: Ehdr): Fields {
    Field(w, h.entry, Field(w, h.phoff, Field(w, h.shoff, EhdrSizes(h))))
  }

  function EhdrSizes(h: Ehdr): Fields {
    Field(4, h.flags, Field(2, h.ehsize, Field(2, h.phentsize, Field(2, h.phnum,
      Field(2, h.shentsize, Field(2, h.shnum, Field(2, h.shstrndx, End)))))))
  }

  /** The flags stand after the sizes in the 32-bit class, after the type in the 64-bit one. */
  function PhdrFields(cls: Byte, h: Phdr): Fields {
    if cls == 1 then
      Field(4, h.kind, Field(4, h.offset, Field(4, h.vaddr, Field(4, h.paddr,
        Field(4, h.filesz, Field(4, h.memsz, Field(4, h.flags, Field(4, h.align, End))))))))
    else
      Field(4, h.kind, Field(4, h.flags, Field(8, h.offset, Field(8, h.vaddr, Field(8, h.paddr,
        Field(8, h.filesz, Field(8, h.memsz, Field(8, h.align, End))))))))
  }

  function EntryFields(w: nat, e: Entry): Fields {
    Field(w, e.tag, Field(w, e.val, End))
  }

  function SymFields(cls: Byte, s: SymRec): Fields {
    if cls == 1 then
      Field(4, s.name, Field(4, s.value, Field(4, s.size, Field(1, s.info, Field(1, s.other, Field(2, s.shndx, End))))))
    else
      Field(4, s.name, Field(1, s.info, Field(1, s.other, Field(2, s.shndx, Field(8, s.value, Field(8, s.size, End))))))
  }

  // ----- one set of offsets for both classes

  predicate Mappable(r: Reader) {
    (r.cls == 1 || r.cls == 2) && !r.via.Refused? && |r.m| % 8 == 0 && |r.m| < TWO_64
  }

  /** What the resolver reads at `a + o` is the field, given what precedes it is `o` bytes long. */
  lemma FieldRead(r: Reader, a: nat, f: Fields)
    requires Mappable(r) && f.Field? && f.size > 0 && Holds(r.m, r.data, a, f)
    ensures a < TWO_64 && Get(r, a, f.size) == f.value && Holds(r.m, r.data, a + f.size, f.rest)
  {
  }

  lemma EhdrRead(r: Reader, base: nat, h: Ehdr)
    requires Mappable(r) && Holds(r.m, r.data, base + 0x10, EhdrFields(Width(r.cls), h))
    ensures var w := Width(r.cls);
            base + 0x10 + 24 + 3 * w <= |r.m| &&
            Get(r, base + 0x10, 2) == h.typ && GetW(r, base + 0x18 + w) == h.phoff &&
            Get(r, base + 0x18 + 3 * w + 6, 2) == h.phentsize && Get(r, base + 0x18 + 3 * w + 8, 2) == h.phnum
  {
    var w := Width(r.cls);
    var a := base + 0x10;
    FieldRead(r, a, EhdrFields(w, h));
    FieldRead(r, a + 2, EhdrFields(w, h).rest);
    FieldRead(r, a + 4, EhdrFields(w, h).rest.rest);
    TablesRead(r, base, h);
    SizesRead(r, base, h);
  }

  lemma TablesRead(r: Reader, base: nat, h: Ehdr)
    requires Mappable(r) && Holds(r.m, r.data, base + 0x18, EhdrTables(Width(r.cls), h))
    ensures var w := Width(r.cls);
            GetW(r, base + 0x18 + w) == h.phoff && Holds(r.m, r.data, base + 0x18 + 3 * w, EhdrSizes(h))
  {
    var w := Width(r.cls);
    var f, a := EhdrTables(w, h), base + 0x18;
    FieldRead(r, a, f);
    FieldRead(r, a + w, f.rest);
    FieldRead(r, a + 2 * w, f.rest.rest);
  }

  lemma SizesRead(r: Reader, base: nat, h: Ehdr)
    requires Mappable(r) && Holds(r.m, r.data, base + 0x18 + 3 * Width(r.cls), EhdrSizes(h))
    ensures var w := Width(r.cls);
            base + 0x10 + 24 + 3 * w <= |r.m| &&
            Get(r, base + 0x18 + 3 * w + 6, 2) == h.phentsize && Get(r, base + 0x18 + 3 * w + 8, 2) == h.phnum
  {
    var f, a := EhdrSizes(h), base + 0x18 + 3 * Width(r.cls);
    FieldRead(r, a, f);
    FieldRead(r, a + 4, f.rest);
    FieldRead(r, a + 6, f.rest.rest);
    FieldRead(r, a + 8, f.rest.rest.rest);
    FieldRead(r, a + 10, f.rest.rest.rest.rest);
    FieldRead(r, a + 12, f.rest.rest.rest.rest.rest);
    FieldRead(r, a + 14, f.rest.rest.rest.rest.rest.rest);
  }

  /** The program header's fields as the resolver reads them. */
  predicate PhdrIs(r: Reader, ph: nat, h: Phdr) {
    var w := Width(r.cls);
    && ph + 5 * w < |r.m|
    && Get(r, ph, 4) == h.kind && GetW(r, ph + w) == h.offset && GetW(r, ph + 2 * w) == h.vaddr
    && GetW(r, ph + 4 * w) == h.filesz && GetW(r, ph + 5 * w) == h.memsz
  }

  lemma PhdrRead(r: Reader, ph: nat, h: Phdr)
    requires Mappable(r) && Holds(r.m, r.data, ph, PhdrFields(r.cls, h))
    ensures PhdrIs(r, ph, h)
  {
    var f := PhdrFields(r.cls, h);
    FieldRead(r, ph, f);
    FieldRead(r, ph + 4, f.rest);
    var a: nat, g := ph + 8, f.rest.rest;
    if r.cls == 1 {
      FieldRead(r, ph + 8, g);
      FieldRead(r, ph + 12, g.rest);
      FieldRead(r, ph + 16, g.rest.rest);
      FieldRead(r, ph + 20, g.rest.rest.rest);
    } else {
      FieldRead(r, ph + 8, g);
      FieldRead(r, ph + 16, g.rest);
      FieldRead(r, ph + 24, g.rest.rest);
      FieldRead(r, ph + 32, g.rest.rest.rest);
      FieldRead(r, ph + 40, g.rest.rest.rest.rest);
    }
  }

  lemma EntryRead(r: Reader, a: nat, e: Entry)
    requires Mappable(r) && Holds(r.m, r.data, a, EntryFields(Width(r.cls), e))
    ensures var w := Width(r.cls);
            a + w < |r.m| && GetW(r, a) == e.tag && GetW(r, a + w) == e.val
  {
    var f := EntryFields(Width(r.cls), e);
    FieldRead(r, a, f);
    FieldRead(r, a + f.size, f.rest);
  }

  lemma SymRead(r: Reader, a: nat, s: SymRec)
    requires Mappable(r) && Holds(r.m, r.data, a, SymFields(r.cls, s))
    ensures var w := Width(r.cls);
            a + w < |r.m| && Get(r, a, 4) == s.name && GetW(r, a + w) == s.value
  {
    var f := SymFields(r.cls, s);
    FieldRead(r, a, f);
    FieldRead(r, a + 4, f.rest);
    if r.cls == 2 {
      FieldRead(r, a + 5, f.rest.rest);
      FieldRead(r, a + 6, f.rest.rest.rest);
      FieldRead(r, a + 8, f.rest.rest.rest.rest);
    }
  }
}
