/** `loadelf`: finding the dynamic symbol table of an ELF image in another process. */
module Elf {
  import opened Memory
  import opened RemoteRead
  import Machine

  /** What the dynamic section says, all 0 at first. */
  datatype Dyn = Dyn(strtab: nat, strsz: nat, symtab: nat, syment: nat)

  const NO_DYN := Dyn(0, 0, 0, 0)

  const DT_STRTAB := 5
  const DT_SYMTAB := 6
  const DT_STRSZ := 10
  const DT_SYMENT := 11

  const PT_LOAD := 1
  const PT_DYNAMIC := 2
  const ET_EXEC := 2

  function Update(d: Dyn, tag: nat, value: nat): Dyn {
    if tag == DT_STRTAB then d.(strtab := value)
    else if tag == DT_SYMTAB then d.(symtab := value)
    else if tag == DT_STRSZ then d.(strsz := value)
    else if tag == DT_SYMENT then d.(syment := value)
    else d
  }

  /** The program header table of an image, as the ELF header gives it. */
  datatype Table = Table(r: Reader, base: Word, typ: nat, phoff: nat, phsize: nat, phnum: nat)

  datatype Scan = Failed | Scanned(loads: nat, dyn: Dyn)

  datatype Image = Image(r: Reader, base: Word, typ: nat, dyn: Dyn)

  /** The dynamic entries from `o` bytes into the section on, up to DT_NULL or its end. */
  function ScanDynamic(r: Reader, tag: Word, memsz: nat, o: nat, d: Dyn): Dyn
    decreases memsz - o
  {
    var w := Width(r.cls);
    if o >= memsz then d
    else
      var t := GetW(r, Add64(tag, o));
      if t == 0 then d else ScanDynamic(r, tag, memsz, o + 2 * w, Update(d, t, GetW(r, Add64(tag, o + w))))
  }

  function HeaderAt(t: Table, i: nat): Word {
    Add64(t.base, t.phoff + i * t.phsize)
  }

  /** One program header. */
  function ScanHeader(t: Table, i: nat, loads: nat, d: Dyn): Scan {
    var ph, w := HeaderAt(t, i), Width(t.r.cls);
    var phtype := Get(t.r, ph, 4);
    if phtype != PT_LOAD && phtype != PT_DYNAMIC then Scanned(loads, d)
    else
      var offset, vaddr := GetW(t.r, Add64(ph, w)), GetW(t.r, Add64(ph, 2 * w));
      var filesz, memsz := GetW(t.r, Add64(ph, 4 * w)), GetW(t.r, Add64(ph, 5 * w));
      if vaddr < offset || memsz < filesz then Failed
      else if phtype == PT_LOAD then
        if t.typ == ET_EXEC && vaddr - offset < t.base then Failed else Scanned(loads + 1, d)
      else Scanned(loads, ScanDynamic(t.r, Add64(if t.typ == ET_EXEC then 0 else t.base, vaddr), memsz, 0, d))
  }

  function ScanHeaders(t: Table, i: nat, loads: nat, d: Dyn): Scan
    decreases t.phnum - i
  {
    if i >= t.phnum then Scanned(loads, d)
    else
      match ScanHeader(t, i, loads, d)
      case Failed => Failed
      case Scanned(l, e) => ScanHeaders(t, i + 1, l, e)
  }

  const MAGIC: seq<Byte> := [0x7F, 0x45, 0x4C, 0x46]

  predicate GoodIdent(m: Mem, via: Via, base: Word) {
    && Fetch(m, via, base, 4) == Machine.Some(MAGIC)
    && (Get8(m, via, Add64(base, 4)) == 1 || Get8(m, via, Add64(base, 4)) == 2)
    && (Get8(m, via, Add64(base, 5)) == 1 || Get8(m, via, Add64(base, 5)) == 2)
    && Get8(m, via, Add64(base, 6)) == 1
  }

  function HeaderTable(m: Mem, via: Via, littleHost: bool, base: Word): Table {
    var r := Reader(m, via, littleHost, Get8(m, via, Add64(base, 4)), Get8(m, via, Add64(base, 5)));
    var w := Width(r.cls);
    Table(r, base, Get(r, Add64(base, 0x10), 2), GetW(r, Add64(base, 0x18 + w)),
          Get(r, Add64(base, 0x18 + 3 * w + 6), 2), Get(r, Add64(base, 0x18 + 3 * w + 8), 2))
  }

  /** What a complete scan makes of the table. */
  function Loaded(t: Table, s: Scan): Option<Image> {
    if s.Scanned? && s.loads > 0 && s.dyn.strtab != 0 && s.dyn.strsz != 0 && s.dyn.symtab != 0 && s.dyn.syment != 0
    then Machine.Some(Image(t.r, t.base, t.typ, s.dyn))
    else Machine.None
  }

  function LoadedAt(m: Mem, via: Via, littleHost: bool, base: Word): Option<Image> {
    if !GoodIdent(m, via, base) then Machine.None
    else
      var t := HeaderTable(m, via, littleHost, base);
      Loaded(t, ScanHeaders(t, 0, 0, NO_DYN))
  }

  // ----- the loops of the program

  /** The scan of the dynamic section; `o` is the program's `2*j*elf->W`. */
  method ReadDynamic(r: Reader, tag: Word, memsz: nat, d: Dyn) returns (e: Dyn)
    requires r.data == 1 || r.data == 2
    ensures e == ScanDynamic(r, tag, memsz, 0, d)
  {
    var w, o := Width(r.cls), 0;
    e := d;
    while o < memsz
      invariant ScanDynamic(r, tag, memsz, o, e) == ScanDynamic(r, tag, memsz, 0, d)
      decreases memsz - o
    {
      var t := ReadNumber(r, Add64(tag, o), w);
      if t == 0 {
        return;
      }
      var value := ReadNumber(r, Add64(tag, o + w), w);
      e := Update(e, t, value);
      o := o + 2 * w;
    }
  }

  method ReadHeader(t: Table, i: nat, loads: nat, d: Dyn) returns (s: Scan)
    requires t.r.data == 1 || t.r.data == 2
    ensures s == ScanHeader(t, i, loads, d)
  {
    var ph, w := HeaderAt(t, i), Width(t.r.cls);
    var phtype := ReadNumber(t.r, ph, 4);
    if phtype != PT_LOAD && phtype != PT_DYNAMIC {
      return Scanned(loads, d);
    }
    var offset := ReadNumber(t.r, Add64(ph, w), w);
    var vaddr := ReadNumber(t.r, Add64(ph, 2 * w), w);
    var filesz := ReadNumber(t.r, Add64(ph, 4 * w), w);
    var memsz := ReadNumber(t.r, Add64(ph, 5 * w), w);
    if vaddr < offset || memsz < filesz {
      return Failed;
    }
    if phtype == PT_LOAD {
      return if t.typ == ET_EXEC && vaddr - offset < t.base then Failed else Scanned(loads + 1, d);
    }
    var e := ReadDynamic(t.r, Add64(if t.typ == ET_EXEC then 0 else t.base, vaddr), memsz, d);
    return Scanned(loads, e);
  }

  method ReadIdent(m: Mem, via: Via, base: Word) returns (good: bool)
    ensures good == GoodIdent(m, via, base)
  {
    var magic := new Byte[4](i => 0);
    ghost var peeked;
    var ok;
    ok, peeked := ReadN(m, via, base, magic, 4);
    assert magic[..4] == magic[..];
    var cls := ReadByte(m, via, Add64(base, 4));
    var data := ReadByte(m, via, Add64(base, 5));
    var version := ReadByte(m, via, Add64(base, 6));
    good := ok && magic[..] == MAGIC && (cls == 1 || cls == 2) && (data == 1 || data == 2) && version == 1;
  }

  method ReadTable(m: Mem, via: Via, littleHost: bool, base: Word) returns (t: Table)
    requires GoodIdent(m, via, base)
    ensures t == HeaderTable(m, via, littleHost, base)
  {
    var cls := ReadByte(m, via, Add64(base, 4));
    var data := ReadByte(m, via, Add64(base, 5));
    var r := Reader(m, via, littleHost, cls, data);
    var w := Width(cls);
    var typ := ReadNumber(r, Add64(base, 0x10), 2);
    var phoff := ReadNumber(r, Add64(base, 0x18 + w), w);
    var phsize := ReadNumber(r, Add64(base, 0x18 + 3 * w + 6), 2);
    var phnum := ReadNumber(r, Add64(base, 0x18 + 3 * w + 8), 2);
    t := Table(r, base, typ, phoff, phsize, phnum);
  }

  /** `loadelf`. */
  method LoadElf(m: Mem, via: Via, littleHost: bool, base: Word) returns (elf: Option<Image>)
    ensures elf == LoadedAt(m, via, littleHost, base)
  {
    var good := ReadIdent(m, via, base);
    if !good {
      return Machine.None;
    }
    var t := ReadTable(m, via, littleHost, base);
    var s, i := Scanned(0, NO_DYN), 0;
    while i < t.phnum && s.Scanned?
      invariant 0 <= i <= t.phnum
      invariant (if s.Failed? then Failed else ScanHeaders(t, i, s.loads, s.dyn)) == ScanHeaders(t, 0, 0, NO_DYN)
      decreases t.phnum - i
    {
      s := ReadHeader(t, i, s.loads, s.dyn);
      i := i + 1;
    }
    return Loaded(t, s);
  }
}
