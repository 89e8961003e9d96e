/** Reading numbers out of another process, the first half of `libs/pdlsym.c`. */
module RemoteRead {
  import opened Memory
  import Machine

  type Option<+T> = Machine.Option<T>

  /** `readN` copies directly for pid 0, else peeks; ptrace refuses to peek at the caller itself. */
  datatype Via = Direct | Peek | Refused

  function AlignDown(a: int): int {
    a / 8 * 8
  }

  /** Every aligned word that overlaps the range is mapped. */
  predicate Readable(m: Mem, via: Via, a: nat, len: nat) {
    len == 0 ||
    match via
    case Direct => Mapped(m, a, len)
    case Peek => AlignDown(a + len - 1) + 8 <= |m|
    case Refused => false
  }

  /** What `readN` delivers. */
  function Fetch(m: Mem, via: Via, a: nat, len: nat): Option<seq<Byte>> {
    if len == 0 then Machine.Some([])
    else if Readable(m, via, a, len) then Machine.Some(seq(len, k requires 0 <= k < len => m[a + k]))
    else Machine.None
  }

  predicate Peekable(m: Mem, via: Via, word: nat) {
    via.Peek? && word + 8 <= |m|
  }

  /** Only aligned words that overlap the range. */
  predicate PeeksInside(peeked: seq<nat>, a: nat, len: nat) {
    forall p :: p in peeked ==> p % 8 == 0 && p < a + len && a < p + 8
  }

  /** The first `done` bytes are in the buffer and were readable. */
  predicate Copied(m: Mem, via: Via, addr: nat, b: seq<Byte>, done: nat) {
    done <= |b| && Readable(m, via, addr, done) && addr + done <= (if done == 0 then addr else |m|) &&
    forall k :: 0 <= k < done ==> addr + k < |m| && b[k] == m[addr + k]
  }

  /** A word that cannot be peeked at and overlaps the range makes the range unreadable. */
  lemma MissingWord(m: Mem, via: Via, addr: nat, len: nat, word: nat)
    requires !via.Direct? && !Peekable(m, via, word) && word % 8 == 0 && word < addr + len && addr < word + 8
    requires len > 0
    ensures !Readable(m, via, addr, len)
  {
  }

  lemma OneMorePeek(peeked: seq<nat>, addr: nat, len: nat, at: nat)
    requires PeeksInside(peeked, addr, len) && addr <= at < addr + len
    ensures at % 8 == 0 ==> PeeksInside(peeked + [at], addr, len)
    ensures PeeksInside(peeked + [at - at % 8], addr, len)
  {
  }

  /** The part of one aligned word: `data.buf` from byte `i` on. */
  method CopyPart(m: Mem, via: Via, addr: nat, buf: array<Byte>, done: nat, i: nat, len: nat) returns (n: nat)
    requires done < len <= buf.Length && i == (addr + done) % 8 && Peekable(m, via, addr + done - i)
    requires Copied(m, via, addr, buf[..], done)
    modifies buf
    ensures n == (if 8 - i <= len - done then 8 - i else len - done)
    ensures Copied(m, via, addr, buf[..], done + n)
    ensures forall k :: len <= k < buf.Length ==> buf[k] == old(buf[k])
  {
    var j := i;
    while j < 8 && j - i < len - done
      invariant i <= j <= 8 && j - i <= len - done
      invariant forall k :: 0 <= k < done + j - i ==> addr + k < |m| && buf[k] == m[addr + k]
      invariant forall k :: len <= k < buf.Length ==> buf[k] == old(buf[k])
    {
      buf[done + j - i] := m[addr + done - i + j];
      j := j + 1;
    }
    n := j - i;
  }

  method CopyWord(m: Mem, via: Via, addr: nat, buf: array<Byte>, done: nat, len: nat)
    requires done + 8 <= len <= buf.Length && (addr + done) % 8 == 0 && Peekable(m, via, addr + done)
    requires Copied(m, via, addr, buf[..], done)
    modifies buf
    ensures Copied(m, via, addr, buf[..], done + 8)
    ensures forall k :: len <= k < buf.Length ==> buf[k] == old(buf[k])
  {
    forall k | 0 <= k < 8 {
      buf[done + k] := m[addr + done + k];
    }
  }

  /** The aligned words; `data` goes straight into the buffer. */
  method CopyWords(m: Mem, via: Via, addr: nat, buf: array<Byte>, start: nat, len: nat)
    returns (ok: bool, done: nat, ghost peeked: seq<nat>)
    requires !via.Direct? && start + 8 <= len <= buf.Length && (addr + start) % 8 == 0
    requires Copied(m, via, addr, buf[..], start)
    modifies buf
    ensures start <= done <= len && PeeksInside(peeked, addr, len)
    ensures ok ==> done == start + (len - start) / 8 * 8 && Copied(m, via, addr, buf[..], done)
    ensures !ok ==> !Readable(m, via, addr, len)
    ensures forall k :: len <= k < buf.Length ==> buf[k] == old(buf[k])
  {
    var i, words := 0, (len - start) / 8;
    done, peeked := start, [];
    while i < words
      invariant 0 <= i <= words && done == start + 8 * i && (addr + done) % 8 == 0
      invariant Copied(m, via, addr, buf[..], done)
      invariant PeeksInside(peeked, addr, len)
      invariant forall k :: len <= k < buf.Length ==> buf[k] == old(buf[k])
    {
      OneMorePeek(peeked, addr, len, addr + done);
      peeked := peeked + [addr + done];
      if !Peekable(m, via, addr + done) {
        MissingWord(m, via, addr, len, addr + done);
        return false, done, peeked;
      }
      CopyWord(m, via, addr, buf, done, len);
      done := done + 8;
      i := i + 1;
    }
    ok := true;
  }

  lemma MorePeeks(peeked: seq<nat>, more: seq<nat>, addr: nat, len: nat)
    requires PeeksInside(peeked, addr, len) && PeeksInside(more, addr, len)
    ensures PeeksInside(peeked + more, addr, len)
  {
  }

  /** One round of the loop of `readN`: the rest of a word, or as many whole words as there are. */
  method PeekSome(m: Mem, via: Via, addr: nat, buf: array<Byte>, start: nat, len: nat)
    returns (ok: bool, done: nat, ghost peeked: seq<nat>)
    requires !via.Direct? && start < len <= buf.Length
    requires Copied(m, via, addr, buf[..], start)
    modifies buf
    ensures ok ==> start < done <= len && Copied(m, via, addr, buf[..], done)
    ensures !ok ==> !Readable(m, via, addr, len)
    ensures PeeksInside(peeked, addr, len)
    ensures forall k :: len <= k < buf.Length ==> buf[k] == old(buf[k])
  {
    var i := (addr + start) % 8;
    if i != 0 || len - start < 8 {
      OneMorePeek([], addr, len, addr + start);
      done, peeked := start, [] + [addr + start - i];
      if !Peekable(m, via, addr + start - i) {
        MissingWord(m, via, addr, len, addr + start - i);
        return false, done, peeked;
      }
      var n := CopyPart(m, via, addr, buf, start, i, len);
      return true, start + n, peeked;
    } else {
      ok, done, peeked := CopyWords(m, via, addr, buf, start, len);
    }
  }

  /** `readN`; `peeked` records the words that ptrace was asked for. */
  method ReadN(m: Mem, via: Via, addr: nat, buf: array<Byte>, len: nat) returns (ok: bool, ghost peeked: seq<nat>)
    requires len <= buf.Length
    modifies buf
    ensures ok <==> Fetch(m, via, addr, len).Some?
    ensures ok ==> buf[..len] == Fetch(m, via, addr, len).value
    ensures forall k :: len <= k < buf.Length ==> buf[k] == old(buf[k])
    ensures PeeksInside(peeked, addr, len)
  {
    peeked := [];
    if via.Direct? {
      ok := Memmove(m, addr, buf, len);
      return;
    }
    var done := 0;
    ok := true;
    while ok && done < len
      invariant done <= len
      invariant if ok then Copied(m, via, addr, buf[..], done) else !Readable(m, via, addr, len)
      invariant PeeksInside(peeked, addr, len)
      invariant forall k :: len <= k < buf.Length ==> buf[k] == old(buf[k])
      decreases ok, len - done
    {
      ghost var more;
      var next;
      ok, next, more := PeekSome(m, via, addr, buf, done, len);
      MorePeeks(peeked, more, addr, len);
      peeked := peeked + more;
      if ok {
        done := next;
      }
    }
    if ok {
      CopiedIsFetched(m, via, addr, buf[..], len);
      assert buf[..len] == buf[..][..len];
    }
  }

  lemma CopiedIsFetched(m: Mem, via: Via, addr: nat, b: seq<Byte>, len: nat)
    requires Copied(m, via, addr, b, len)
    ensures Fetch(m, via, addr, len) == Machine.Some(b[..len])
  {
    if len > 0 {
      assert Fetch(m, via, addr, len).value == b[..len];
    }
  }

  /** `memmove` from the process itself. */
  method Memmove(m: Mem, addr: nat, buf: array<Byte>, len: nat) returns (ok: bool)
    requires len <= buf.Length
    modifies buf
    ensures ok <==> Fetch(m, Direct, addr, len).Some?
    ensures ok ==> buf[..len] == Fetch(m, Direct, addr, len).value
    ensures forall k :: len <= k < buf.Length ==> buf[k] == old(buf[k])
  {
    ok := len == 0 || Mapped(m, addr, len);
    if ok {
      forall k | 0 <= k < len {
        buf[k] := m[addr + k];
      }
      CopiedIsFetched(m, Direct, addr, buf[..], len);
      assert buf[..len] == buf[..][..len];
    }
  }

  // ----- the byte order of the file

  function Reversed(b: seq<Byte>): (r: seq<Byte>)
    ensures |r| == |b|
    ensures forall k :: 0 <= k < |b| ==> r[k] == b[|b| - 1 - k]
  {
    seq(|b|, k requires 0 <= k < |b| => b[|b| - 1 - k])
  }

  /** `Ndaer`: what `readN` delivers, reversed in place. */
  method Ndaer(m: Mem, via: Via, addr: nat, buf: array<Byte>, len: nat) returns (ok: bool)
    requires len <= buf.Length
    modifies buf
    ensures ok <==> Fetch(m, via, addr, len).Some?
    ensures ok ==> buf[..len] == Reversed(Fetch(m, via, addr, len).value)
  {
    ghost var peeked;
    ok, peeked := ReadN(m, via, addr, buf, len);
    if !ok {
      return;
    }
    ghost var was := buf[..len];
    var i, j := 0, len - 1;
    while i < j
      invariant 0 <= i <= len && i + j == len - 1
      invariant forall k :: 0 <= k < i || j < k < len ==> buf[k] == was[len - 1 - k]
      invariant forall k :: i <= k <= j ==> buf[k] == was[k]
    {
      buf[i], buf[j] := buf[j], buf[i];
      i, j := i + 1, j - 1;
    }
    assert buf[..len] == Reversed(was);
  }

  /** The number that bytes in the host's memory are. */
  function HostValue(littleHost: bool, b: seq<Byte>): nat {
    if littleHost then Value(b, 0, |b|) else BigValue(b, 0, |b|)
  }

  /** The most significant byte comes first. */
  function BigValue(m: Mem, a: int, n: nat): nat
    requires Mapped(m, a, n)
    decreases |m|, n
  {
    if n == 0 then 0
    else
      var low: int := m[a + n - 1];
      low + 0x100 * BigValue(m, a, n - 1)
  }

  /** The number that bytes of the file are: ELFDATA2LSB is 1, ELFDATA2MSB is 2. */
  function FileValue(m: Mem, a: int, n: nat, data: Byte): nat
    requires Mapped(m, a, n)
  {
    if data == 1 then Value(m, a, n) else BigValue(m, a, n)
  }

  /** `data.buf[0] & elf->data` with 0x1122 in the union: true selects `Ndaer`. */
  predicate Foreign(littleHost: bool, data: Byte) {
    if littleHost then data / 2 % 2 == 1 else data % 2 == 1
  }

  lemma {:induction false} ValueMoved(m: Mem, a: int, n: nat, k: Mem, b: int)
    requires Mapped(m, a, n) && Mapped(k, b, n) && forall x :: a <= x < a + n ==> m[x] == k[x - a + b]
    ensures Value(m, a, n) == Value(k, b, n) && BigValue(m, a, n) == BigValue(k, b, n)
    decreases n
  {
    if n > 0 {
      ValueMoved(m, a, n - 1, k, b);
      ValueMoved(m, a + 1, n - 1, k, b + 1);
    }
  }

  /** Read from the other end, a number is read in the other order. */
  lemma {:induction false} ReversedValue(b: seq<Byte>, r: seq<Byte>, n: nat)
    requires n <= |b| == |r| && forall k :: 0 <= k < |b| ==> r[k] == b[|b| - 1 - k]
    ensures Value(r, |r| - n, n) == BigValue(b, 0, n)
    decreases n
  {
    if n > 0 {
      ReversedValue(b, r, n - 1);
      assert r[|r| - n] == b[n - 1];
    }
  }

  /** The chosen reader decodes the file's byte order on a host of either order. */
  lemma ReaderDecodesFileOrder(littleHost: bool, data: Byte, m: Mem, a: int, n: nat, b: seq<Byte>)
    requires data == 1 || data == 2
    requires Mapped(m, a, n) && |b| == n && forall x :: a <= x < a + n ==> m[x] == b[x - a]
    ensures HostValue(littleHost, if Foreign(littleHost, data) then Reversed(b) else b) == FileValue(m, a, n, data)
  {
    assert Foreign(littleHost, data) <==> (littleHost <==> data == 2);
    ValueMoved(m, a, n, b, 0);
    if Foreign(littleHost, data) {
      ReversedValue(b, Reversed(b), n);
      ReversedValue(Reversed(b), b, n);
    }
  }

  /** The reader that `loadelf` chose for a file of this class and byte order. */
  datatype Reader = Reader(m: Mem, via: Via, littleHost: bool, cls: Byte, data: Byte)

  /** What `get16`, `get32` and `get64` return; 0 when the bytes cannot be read. */
  function Get(r: Reader, a: nat, n: nat): nat {
    if n > 0 && Readable(r.m, r.via, a, n) then FileValue(r.m, a, n, r.data) else 0
  }

  function Get8(m: Mem, via: Via, a: nat): Byte {
    var b := Fetch(m, via, a, 1);
    if b.None? then 0 else b.value[0]
  }

  function Width(cls: Byte): nat {
    if cls == 1 then 4 else 8
  }

  function GetW(r: Reader, a: nat): nat {
    Get(r, a, Width(r.cls))
  }

  /** A number in the process, read by the reader's `getN` into a variable of the host. */
  method ReadNumber(r: Reader, a: nat, n: nat) returns (v: nat)
    requires n > 0 && (r.data == 1 || r.data == 2)
    ensures v == Get(r, a, n)
  {
    var ret := new Byte[n](i => 0);
    var ok;
    if Foreign(r.littleHost, r.data) {
      ok := Ndaer(r.m, r.via, a, ret, n);
    } else {
      ghost var peeked;
      ok, peeked := ReadN(r.m, r.via, a, ret, n);
    }
    assert ret[..n] == ret[..];
    v := if ok then HostValue(r.littleHost, ret[..]) else 0;
    if ok {
      ReaderDecodesFileOrder(r.littleHost, r.data, r.m, a, n, Fetch(r.m, r.via, a, n).value);
    }
  }

  method ReadByte(m: Mem, via: Via, a: nat) returns (v: Byte)
    ensures v == Get8(m, via, a)
  {
    var ret := new Byte[1](i => 0);
    ghost var peeked;
    var ok;
    ok, peeked := ReadN(m, via, a, ret, 1);
    assert ok ==> ret[..1][0] == Fetch(m, via, a, 1).value[0];
    v := if ok then ret[0] else 0;
  }
}
