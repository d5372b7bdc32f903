/** Transfers to a paged EEPROM: the range is cut into chunks, because the device's write address
    wraps inside a page. */
module Eeprom {
  import opened Bits
  import opened Bytes

  /** Remainder, by repeated subtraction: the proofs follow its steps. */
  function Rem(a: nat, p: nat): (r: nat)
    requires p >= 1
    ensures r < p && r <= a && (a < p ==> r == a)
    decreases a
  {
    if a < p then a else Rem(a - p, p)
  }

  /** Build options: page size 2^bits, largest transfer, and which offsets meet a bus error. */
  datatype Config = Config(bits: nat, rxtx: nat, fails: nat -> bool)

  ghost predicate IsConfig(c: Config) {
    c.rxtx >= 1
  }

  /** `eeprom_len`; masking with a power of two less one is a remainder. */
  function ChunkLen(c: Config, offset: nat, end: nat): (len: nat)
    requires IsConfig(c) && offset < end
    ensures 1 <= len <= end - offset && len <= c.rxtx
  {
    var page := Pow2(c.bits);
    var maxlen := page - Rem(Rem(offset, 256), page);
    var limit := if maxlen > c.rxtx then c.rxtx else maxlen;
    if end - offset > limit then limit else end - offset
  }

  /** The bytes `offset` up to `offset + len` lie in more than one page. */
  predicate Crosses(page: nat, offset: nat, len: nat)
    requires page >= 1 && len >= 1
  {
    Rem(offset, page) + len > page
  }

  lemma Pow2Values(bits: nat)
    ensures bits <= 8 <==> Pow2(bits) <= 256
    ensures bits <= 8 ==> Rem(256, Pow2(bits)) == 0
    ensures bits > 8 ==> Pow2(bits) >= 512 && Rem(Pow2(bits) - 1, 256) == 255
  {
    assert Pow2(0) == 1 && Pow2(1) == 2 && Pow2(2) == 4 && Pow2(3) == 8 && Pow2(4) == 16;
    assert Pow2(5) == 32 && Pow2(6) == 64 && Pow2(7) == 128 && Pow2(8) == 256 && Pow2(9) == 512;
    if bits > 9 {
      Pow2Values(bits - 1);
      var h := Pow2(bits - 1);
      RemShift(h - 1, 256, h);
    } else if bits <= 8 {
      Divides(bits);
    } else {
      assert Rem(511, 256) == Rem(255, 256);
    }
  }

  lemma {:induction false} Divides(bits: nat)
    requires bits <= 8
    ensures Pow2(bits) <= 256 && Rem(256, Pow2(bits)) == 0
    decreases 8 - bits
  {
    if bits == 8 {
      assert Pow2(8) == 256;
    } else {
      Divides(bits + 1);
      RemHalves(256, Pow2(bits));
    }
  }

  /** What twice `p` divides, `p` divides. */
  lemma {:induction false} RemHalves(a: nat, p: nat)
    requires p >= 1 && Rem(a, 2 * p) == 0
    ensures Rem(a, p) == 0
    decreases a
  {
    if a != 0 {
      RemHalves(a - 2 * p, p);
      assert Rem(a, p) == Rem(a - p, p) == Rem(a - p - p, p);
    }
  }

  /** Adding a multiple of `p` that is itself one more than a number with remainder `p - 1`. */
  lemma {:induction false} RemShift(a: nat, p: nat, m: nat)
    requires p >= 1 && m >= p && Rem(m - 1, p) == p - 1 && Rem(a, p) == p - 1
    ensures Rem(a + m, p) == p - 1
    decreases m
  {
    if m == p {
      assert Rem(a + p, p) == Rem(a, p);
    } else {
      assert Rem(m - 1, p) == Rem(m - 1 - p, p);
      assert m - 1 - p >= p - 1;
      RemShift(a, p, m - p);
      assert Rem(a + m, p) == Rem(a + m - p, p);
    }
  }

  lemma {:induction false} BlockOffset(page: nat, offset: nat)
    requires page >= 1 && Rem(256, page) == 0
    ensures Rem(Rem(offset, 256), page) == Rem(offset, page)
    decreases offset
  {
    if offset >= 256 {
      BlockOffset(page, offset - 256);
      RemDrop(offset, 256, page);
    }
  }

  lemma {:induction false} RemDrop(a: nat, m: nat, p: nat)
    requires p >= 1 && Rem(m, p) == 0 && a >= m
    ensures Rem(a, p) == Rem(a - m, p)
    decreases m
  {
    if m != 0 {
      RemDrop(a - p, m - p, p);
    }
  }

  lemma ChunkInPage(c: Config, offset: nat, end: nat)
    requires IsConfig(c) && offset < end && (c.bits <= 8 || c.rxtx == 1)
    ensures !Crosses(Pow2(c.bits), offset, ChunkLen(c, offset, end))
  {
    Pow2Values(c.bits);
    if c.bits <= 8 { BlockOffset(Pow2(c.bits), offset); }
  }

  /** No chunk crosses a page exactly when pages have at most 256 bytes or only single bytes are
      transferred: the offset inside the page is taken from the low eight bits alone. */
  lemma ChunksStayInPages(c: Config)
    requires IsConfig(c)
    ensures (forall offset, end | 0 <= offset < end :: !Crosses(Pow2(c.bits), offset, ChunkLen(c, offset, end)))
            <==> c.bits <= 8 || c.rxtx == 1
  {
    if c.bits <= 8 || c.rxtx == 1 {
      forall offset, end | 0 <= offset < end ensures !Crosses(Pow2(c.bits), offset, ChunkLen(c, offset, end)) {
        ChunkInPage(c, offset, end);
      }
    } else {
      Pow2Values(c.bits);
      var offset := Pow2(c.bits) - 1;
      assert Crosses(Pow2(c.bits), offset, ChunkLen(c, offset, offset + 2));
    }
  }

  // ----- the device -----

  /** Where byte `k` of a write at `offset` lands. */
  function Lands(page: nat, offset: nat, k: nat): nat
    requires page >= 1
  {
    offset - Rem(offset, page) + Rem(Rem(offset, page) + k, page)
  }

  /** The device takes a write: the address counter stays inside the page. */
  function DeviceWrite(page: nat, mem: seq<Byte>, offset: nat, data: seq<Byte>, k: nat): (mem': seq<Byte>)
    requires page >= 1 && k <= |data|
    ensures |mem'| == |mem|
    decreases |data| - k
  {
    if k == |data| then mem
    else
      var at := Lands(page, offset, k);
      DeviceWrite(page, if at < |mem| then mem[at := data[k]] else mem, offset, data, k + 1)
  }

  /** Memory with `data` at `offset`. */
  function Flat(mem: seq<Byte>, offset: nat, data: seq<Byte>): (mem': seq<Byte>)
    requires offset + |data| <= |mem|
    ensures |mem'| == |mem|
    decreases |data|
  {
    if data == [] then mem else Flat(mem[offset := data[0]], offset + 1, data[1..])
  }

  lemma {:induction false} FlatAt(mem: seq<Byte>, offset: nat, data: seq<Byte>, i: nat)
    requires offset + |data| <= |mem| && i < |mem|
    ensures Flat(mem, offset, data)[i] == if offset <= i < offset + |data| then data[i - offset] else mem[i]
    decreases |data|
  {
    if data != [] { FlatAt(mem[offset := data[0]], offset + 1, data[1..], i); }
  }

  lemma FlatHolds(mem: seq<Byte>, offset: nat, data: seq<Byte>)
    requires offset + |data| <= |mem|
    ensures Flat(mem, offset, data)[offset..offset + |data|] == data
  {
    forall i | 0 <= i < |data| ensures Flat(mem, offset, data)[offset + i] == data[i] {
      FlatAt(mem, offset, data, offset + i);
    }
  }

  lemma {:induction false} FlatParts(mem: seq<Byte>, offset: nat, data: seq<Byte>, len: nat)
    requires offset + |data| <= |mem| && len <= |data|
    ensures Flat(Flat(mem, offset, data[..len]), offset + len, data[len..]) == Flat(mem, offset, data)
    decreases len
  {
    if len == 0 {
      assert data[..0] == [] && data[0..] == data;
    } else {
      var rest := data[1..];
      FlatParts(mem[offset := data[0]], offset + 1, rest, len - 1);
      assert data[..len][1..] == rest[..len - 1] && data[len..] == rest[len - 1..];
    }
  }

  lemma LandsStraight(page: nat, offset: nat, k: nat)
    requires page >= 1 && Rem(offset, page) + k < page
    ensures Lands(page, offset, k) == offset + k
  {
  }

  lemma {:induction false} WriteInPage(page: nat, mem: seq<Byte>, offset: nat, data: seq<Byte>, k: nat)
    requires page >= 1 && k <= |data| && data != [] && !Crosses(page, offset, |data|) && offset + |data| <= |mem|
    ensures DeviceWrite(page, mem, offset, data, k) == Flat(mem, offset + k, data[k..])
    decreases |data| - k
  {
    if k < |data| {
      LandsStraight(page, offset, k);
      WriteInPage(page, mem[offset + k := data[k]], offset, data, k + 1);
      assert data[k..][1..] == data[k + 1..] && offset + (k + 1) == offset + k + 1;
    }
  }

  // ----- the chunk loop, over any way to cut a range and to write a chunk -----

  datatype Bus = Bus(len: (nat, nat) -> nat, put: (seq<Byte>, nat, seq<Byte>) -> seq<Byte>, fails: nat -> bool)

  /** Every chunk makes progress and stays in the range. */
  ghost predicate IsCut(b: Bus) {
    forall offset: nat, end: nat :: offset < end ==> 1 <= b.len(offset, end) <= end - offset
  }

  /** Besides, writing keeps the size of the memory. */
  ghost predicate IsBus(b: Bus) {
    && IsCut(b)
    && (forall mem: seq<Byte>, offset: nat, data: seq<Byte> :: |b.put(mem, offset, data)| == |mem|)
  }

  /** A chunk is written as to flat memory. */
  ghost predicate PutsFlat(b: Bus, mem: seq<Byte>, offset: nat, end: nat, data: seq<Byte>) {
    offset < end <= |mem| && |data| == b.len(offset, end) && offset + |data| <= |mem| ==>
      b.put(mem, offset, data) == Flat(mem, offset, data)
  }

  /** Every chunk is, and no transfer fails. */
  ghost predicate IsSound(b: Bus) {
    && (forall mem: seq<Byte>, offset: nat, end: nat, data: seq<Byte> :: PutsFlat(b, mem, offset, end, data))
    && (forall offset: nat :: !b.fails(offset))
  }

  /** The code of the transfer at an offset. */
  function Code(b: Bus, offset: nat): int {
    if b.fails(offset) then 1 else 0
  }

  /** The memory after the write loop, and the code returned. */
  ghost function WriteLoop(b: Bus, mem: seq<Byte>, offset: nat, data: seq<Byte>, rcode: int): (r: (seq<Byte>, int))
    requires IsBus(b)
    ensures |r.0| == |mem|
    decreases |data|
  {
    if data == [] then (mem, rcode)
    else
      var len := b.len(offset, offset + |data|);
      var mem' := if b.fails(offset) then mem else b.put(mem, offset, data[..len]);
      WriteLoop(b, mem', offset + len, data[len..], Code(b, offset))
  }

  lemma {:induction false} WritesFlat(b: Bus, mem: seq<Byte>, offset: nat, data: seq<Byte>)
    requires IsBus(b) && IsSound(b) && offset + |data| <= |mem|
    ensures WriteLoop(b, mem, offset, data, 0) == (Flat(mem, offset, data), 0)
    decreases |data|
  {
    if data != [] {
      var len := b.len(offset, offset + |data|);
      var mid, tail := Flat(mem, offset, data[..len]), data[len..];
      WritesFlat(b, mid, offset + len, tail);
      WritesChunk(b, mem, offset, data, 0, len, mid, tail);
    }
  }

  /** A chunk and what follows it. */
  lemma WritesChunk(b: Bus, mem: seq<Byte>, offset: nat, data: seq<Byte>, rcode: int, len: nat, mid: seq<Byte>,
                    tail: seq<Byte>)
    requires IsBus(b) && IsSound(b) && offset + |data| <= |mem| && data != [] && len == b.len(offset, offset + |data|)
    requires mid == Flat(mem, offset, data[..len]) && tail == data[len..]
    requires WriteLoop(b, mid, offset + len, tail, 0) == (Flat(mid, offset + len, tail), 0)
    ensures WriteLoop(b, mem, offset, data, rcode) == (Flat(mem, offset, data), 0)
  {
    FirstFlat(b, mem, offset, data, rcode, len);
    FlatParts(mem, offset, data, len);
  }

  /** One turn of the loop. */
  lemma WriteStep(b: Bus, mem: seq<Byte>, offset: nat, data: seq<Byte>, rcode: int, len: nat, mem': seq<Byte>)
    requires IsBus(b) && data != [] && len == b.len(offset, offset + |data|)
    requires mem' == if b.fails(offset) then mem else b.put(mem, offset, data[..len])
    ensures WriteLoop(b, mem, offset, data, rcode)
         == WriteLoop(b, mem', offset + len, data[len..], Code(b, offset))
  {
  }

  lemma FirstFlat(b: Bus, mem: seq<Byte>, offset: nat, data: seq<Byte>, rcode: int, len: nat)
    requires IsBus(b) && IsSound(b) && offset + |data| <= |mem| && data != [] && len == b.len(offset, offset + |data|)
    ensures WriteLoop(b, mem, offset, data, rcode)
         == WriteLoop(b, Flat(mem, offset, data[..len]), offset + len, data[len..], 0)
  {
    var head := data[..len];
    assert |head| == b.len(offset, offset + |data|);
    assert PutsFlat(b, mem, offset, offset + |data|, head);
    WriteStep(b, mem, offset, data, rcode, len, Flat(mem, offset, head));
  }

  /** The offset of the chunk that holds byte `i` of a range. */
  ghost function ChunkOf(b: Bus, offset: nat, end: nat, i: nat): (at: nat)
    requires IsCut(b) && offset <= i < end
    ensures offset <= at <= i < at + b.len(at, end) <= end
    decreases end - offset
  {
    var len := b.len(offset, end);
    if i < offset + len then offset else ChunkOf(b, offset + len, end, i)
  }

  /** A byte of the buffer after a read: the device's exactly where the transfer of its chunk went well,
      else what was there. */
  ghost predicate ByteRead(b: Bus, mem: seq<Byte>, offset: nat, end: nat, i: nat, was: Byte, now: Byte)
    requires IsCut(b) && offset <= i < end <= |mem|
  {
    now == if b.fails(ChunkOf(b, offset, end, i)) then was else mem[i]
  }

  /** The code after the chunks below `offset + n`: that of the last of them alone. */
  ghost function CodeRead(b: Bus, offset: nat, end: nat, n: nat): int
    requires IsCut(b) && offset + n <= end
  {
    if n == 0 then 0 else Code(b, ChunkOf(b, offset, end, offset + n - 1))
  }

  /** The first `n` bytes of a range have been read into a buffer that held `was`. */
  ghost predicate BytesRead(b: Bus, mem: seq<Byte>, offset: nat, was: seq<Byte>, n: nat, now: seq<Byte>) {
    && IsCut(b) && offset + |was| <= |mem| && n <= |was| == |now|
    && (forall i :: 0 <= i < n ==> ByteRead(b, mem, offset, offset + |was|, offset + i, was[i], now[i]))
    && (forall i :: n <= i < |was| ==> now[i] == was[i])
  }

  /** The same with the code returned. */
  ghost predicate ReadInto(b: Bus, mem: seq<Byte>, offset: nat, was: seq<Byte>, n: nat, now: seq<Byte>, rcode: int) {
    BytesRead(b, mem, offset, was, n, now) && rcode == CodeRead(b, offset, offset + |was|, n)
  }

  /** `from` is where a chunk of the range starts, or its end. */
  ghost predicate ChunkStart(b: Bus, offset: nat, end: nat, from: nat)
    requires IsCut(b)
    decreases end - offset
  {
    offset <= from <= end && (offset == from || ChunkStart(b, offset + b.len(offset, end), end, from))
  }

  /** After a chunk the next one starts. */
  lemma {:induction false} NextChunk(b: Bus, offset: nat, end: nat, from: nat, len: nat)
    requires IsCut(b) && ChunkStart(b, offset, end, from) && from < end && len == b.len(from, end)
    ensures from + len <= end && ChunkStart(b, offset, end, from + len)
    decreases end - offset
  {
    if offset != from { NextChunk(b, offset + b.len(offset, end), end, from, len); }
  }

  /** Every byte of the chunk belongs to it. */
  lemma {:induction false} InChunk(b: Bus, offset: nat, end: nat, from: nat, i: nat)
    requires IsCut(b) && ChunkStart(b, offset, end, from) && from <= i < from + b.len(from, end) && i < end
    ensures ChunkOf(b, offset, end, i) == from
    decreases end - offset
  {
    if offset != from { InChunk(b, offset + b.len(offset, end), end, from, i); }
  }

  lemma NoneRead(b: Bus, mem: seq<Byte>, offset: nat, was: seq<Byte>)
    requires IsCut(b) && offset + |was| <= |mem|
    ensures ReadInto(b, mem, offset, was, 0, was, 0) && ChunkStart(b, offset, offset + |was|, offset)
  {
  }

  /** One turn of the read loop: the bytes of the chunk, and the rest as before. */
  lemma ReadStep(b: Bus, mem: seq<Byte>, offset: nat, was: seq<Byte>, n: nat, before: seq<Byte>, len: nat,
                 now: seq<Byte>)
    requires BytesRead(b, mem, offset, was, n, before) && n < |was| && len == b.len(offset + n, offset + |was|)
    requires ChunkStart(b, offset, offset + |was|, offset + n)
    requires |now| == |was| && forall i :: 0 <= i < |was| && !(n <= i < n + len) ==> now[i] == before[i]
    requires forall i :: n <= i < n + len ==> now[i] == if b.fails(offset + n) then was[i] else mem[offset + i]
    ensures ReadInto(b, mem, offset, was, n + len, now, Code(b, offset + n))
    ensures ChunkStart(b, offset, offset + |was|, offset + (n + len))
  {
    var end := offset + |was|;
    NextChunk(b, offset, end, offset + n, len);
    InChunk(b, offset, end, offset + n, offset + (n + len) - 1);
    BytesStep(b, mem, offset, end, was, n, before, len, now);
  }

  lemma BytesStep(b: Bus, mem: seq<Byte>, offset: nat, end: nat, was: seq<Byte>, n: nat, before: seq<Byte>, len: nat,
                  now: seq<Byte>)
    requires BytesRead(b, mem, offset, was, n, before) && end == offset + |was| && n + len <= |was|
    requires n < |was| && len == b.len(offset + n, end) && ChunkStart(b, offset, end, offset + n)
    requires |now| == |was| && forall i :: 0 <= i < |was| && !(n <= i < n + len) ==> now[i] == before[i]
    requires forall i :: n <= i < n + len ==> now[i] == if b.fails(offset + n) then was[i] else mem[offset + i]
    ensures BytesRead(b, mem, offset, was, n + len, now)
  {
    forall i | 0 <= i < n + len ensures ByteRead(b, mem, offset, end, offset + i, was[i], now[i]) {
      if i < n {
        assert ByteRead(b, mem, offset, end, offset + i, was[i], before[i]);
      } else {
        ChunkByte(b, mem, offset, end, offset + n, offset + i, was[i], now[i]);
      }
    }
  }

  lemma ChunkByte(b: Bus, mem: seq<Byte>, offset: nat, end: nat, from: nat, i: nat, was: Byte, now: Byte)
    requires IsCut(b) && end <= |mem| && ChunkStart(b, offset, end, from) && from <= i < from + b.len(from, end)
        && i < end
    requires now == if b.fails(from) then was else mem[i]
    ensures offset <= i && ByteRead(b, mem, offset, end, i, was, now)
  {
    InChunk(b, offset, end, from, i);
  }

  /** The offset of the last chunk of a range. */
  ghost function LastChunk(b: Bus, offset: nat, end: nat): (last: nat)
    requires IsCut(b) && offset < end
    ensures offset <= last < end && last + b.len(last, end) == end
    decreases end - offset
  {
    var len := b.len(offset, end);
    if offset + len == end then offset else LastChunk(b, offset + len, end)
  }

  lemma LastStep(b: Bus, offset: nat, end: nat, len: nat)
    requires IsCut(b) && offset < end && len == b.len(offset, end)
    ensures LastChunk(b, offset, end) == if offset + len == end then offset else LastChunk(b, offset + len, end)
  {
  }

  lemma WriteEnds(b: Bus, mem: seq<Byte>, offset: nat, rcode: int)
    requires IsBus(b)
    ensures WriteLoop(b, mem, offset, [], rcode) == (mem, rcode)
  {
  }

  /** The code returned is that of the last chunk alone: a bus error before it goes unreported. */
  lemma {:induction false} OnlyLastErrorReported(b: Bus, mem: seq<Byte>, offset: nat, data: seq<Byte>, rcode: int,
                                                 end: nat)
    requires IsBus(b) && data != [] && end == offset + |data|
    ensures WriteLoop(b, mem, offset, data, rcode).1 == Code(b, LastChunk(b, offset, end))
    decreases |data|
  {
    var len := b.len(offset, end);
    var mem' := if b.fails(offset) then mem else b.put(mem, offset, data[..len]);
    var tail := data[len..];
    WriteStep(b, mem, offset, data, rcode, len, mem');
    LastStep(b, offset, end, len);
    if tail != [] {
      OnlyLastErrorReported(b, mem', offset + len, tail, Code(b, offset), end);
    } else {
      WriteEnds(b, mem', offset + len, Code(b, offset));
    }
  }

  lemma {:induction false} LastByteInLastChunk(b: Bus, offset: nat, end: nat)
    requires IsCut(b) && offset < end
    ensures ChunkOf(b, offset, end, end - 1) == LastChunk(b, offset, end)
    decreases end - offset
  {
    var len := b.len(offset, end);
    if offset + len < end { LastByteInLastChunk(b, offset + len, end); }
  }

  /** So is the code of a read: 0 says nothing about the chunks before the last. */
  lemma OnlyLastReadErrorReported(b: Bus, mem: seq<Byte>, offset: nat, was: seq<Byte>, now: seq<Byte>, rcode: int)
    requires ReadInto(b, mem, offset, was, |was|, now, rcode) && was != []
    ensures rcode == Code(b, LastChunk(b, offset, offset + |was|))
  {
    LastByteInLastChunk(b, offset, offset + |was|);
  }

  lemma ReadsFlat(b: Bus, mem: seq<Byte>, offset: nat, was: seq<Byte>, now: seq<Byte>, rcode: int)
    requires ReadInto(b, mem, offset, was, |was|, now, rcode) && forall o :: !b.fails(o)
    ensures now == mem[offset..offset + |was|] && rcode == 0
  {
    forall i | 0 <= i < |was| ensures now[i] == mem[offset..offset + |was|][i] {
      assert ByteRead(b, mem, offset, offset + |was|, offset + i, was[i], now[i]);
    }
  }

  // ----- the configured device -----

  function BusOf(c: Config): Bus {
    Bus((offset, end) => if c.rxtx >= 1 && offset < end then ChunkLen(c, offset, end) else 0,
        (mem, offset, data) => DeviceWrite(Pow2(c.bits), mem, offset, data, 0),
        c.fails)
  }

  lemma BusOfIsBus(c: Config)
    requires IsConfig(c)
    ensures IsBus(BusOf(c))
  {
  }

  lemma BusOfIsSound(c: Config)
    requires IsConfig(c) && (c.bits <= 8 || c.rxtx == 1)
    requires forall o :: !c.fails(o)
    ensures IsSound(BusOf(c))
  {
    var b := BusOf(c);
    forall mem: seq<Byte>, offset: nat, end: nat, data: seq<Byte> ensures PutsFlat(b, mem, offset, end, data) {
      if offset < end <= |mem| && |data| == b.len(offset, end) && offset + |data| <= |mem| {
        ChunkWrites(c, mem, offset, end, data);
      }
    }
  }

  lemma ChunkWrites(c: Config, mem: seq<Byte>, offset: nat, end: nat, data: seq<Byte>)
    requires IsConfig(c) && (c.bits <= 8 || c.rxtx == 1) && offset < end <= |mem|
    requires |data| == ChunkLen(c, offset, end) && offset + |data| <= |mem|
    ensures DeviceWrite(Pow2(c.bits), mem, offset, data, 0) == Flat(mem, offset, data)
  {
    ChunkInPage(c, offset, end);
    WriteInPage(Pow2(c.bits), mem, offset, data, 0);
    assert data[0..] == data && offset + 0 == offset;
  }

  /** With no bus errors and pages of at most 256 bytes, writing any range and then reading any range
      is a flat memory update and lookup. */
  lemma WriteThenRead(c: Config, mem: seq<Byte>, offset: nat, data: seq<Byte>, from: nat, was: seq<Byte>,
                      now: seq<Byte>, rcode: int)
    requires IsConfig(c) && (c.bits <= 8 || c.rxtx == 1) && offset + |data| <= |mem| && from + |was| <= |mem|
    requires forall o :: !c.fails(o)
    ensures IsBus(BusOf(c)) && WriteLoop(BusOf(c), mem, offset, data, 0) == (Flat(mem, offset, data), 0)
    ensures ReadInto(BusOf(c), Flat(mem, offset, data), from, was, |was|, now, rcode) ==>
            now == Flat(mem, offset, data)[from..from + |was|] && rcode == 0
  {
    BusOfIsBus(c);
    BusOfIsSound(c);
    WritesFlat(BusOf(c), mem, offset, data);
    if ReadInto(BusOf(c), Flat(mem, offset, data), from, was, |was|, now, rcode) {
      ReadsFlat(BusOf(c), Flat(mem, offset, data), from, was, now, rcode);
    }
  }

  /** In particular what was written is read back. */
  lemma ReadsBack(c: Config, mem: seq<Byte>, offset: nat, data: seq<Byte>, was: seq<Byte>, now: seq<Byte>, rcode: int)
    requires IsConfig(c) && (c.bits <= 8 || c.rxtx == 1) && offset + |data| <= |mem| && |was| == |data|
    requires (forall o :: !c.fails(o)) && IsBus(BusOf(c))
    requires ReadInto(BusOf(c), WriteLoop(BusOf(c), mem, offset, data, 0).0, offset, was, |was|, now, rcode)
    ensures now == data && rcode == 0
  {
    WriteThenRead(c, mem, offset, data, offset, was, now, rcode);
    FlatHolds(mem, offset, data);
  }

  /** The driver on a board: how ranges are cut and how the device takes a chunk are fixed by the
      configuration. */
  class Device {
    const b: Bus
    var mem: seq<Byte>

    constructor (c: Config, mem: seq<Byte>)
      requires IsConfig(c)
      ensures b == BusOf(c) && IsBus(b) && this.mem == mem
    {
      BusOfIsBus(c);
      b, this.mem := BusOf(c), mem;
    }

    /** `eeprom_rw` for a write.  The end of the range is computed in 32 bits: a range that wraps has
        an end below its start and nothing is written. */
    method Write(offset: Word, buffer: seq<Byte>) returns (rcode: int)
      requires IsBus(b) && |buffer| < U32
      modifies this
      ensures offset + |buffer| < U32 ==> (mem, rcode) == WriteLoop(b, old(mem), offset, buffer, 0)
      ensures offset + |buffer| >= U32 ==> mem == old(mem) && rcode == 0
    {
      rcode := 0;
      var end := if offset + |buffer| < U32 then offset + |buffer| else offset + |buffer| - U32;
      if offset < end { rcode := WriteRange(offset, end, buffer); }
    }

    method WriteRange(offset0: nat, end: nat, buffer: seq<Byte>) returns (rcode: int)
      requires IsBus(b) && end == offset0 + |buffer|
      modifies this
      ensures (mem, rcode) == WriteLoop(b, old(mem), offset0, buffer, 0)
    {
      rcode := 0;
      var offset, rest := offset0, buffer;
      while offset < end
        invariant offset + |rest| == end
        invariant WriteLoop(b, old(mem), offset0, buffer, 0) == WriteLoop(b, mem, offset, rest, rcode)
        decreases |rest|
      {
        var len := b.len(offset, end);
        ghost var was, code := mem, rcode;
        rcode := WriteBlock(offset, rest[..len]);
        WriteStep(b, was, offset, rest, code, len, mem);
        rest, offset := rest[len..], offset + len;
      }
    }

    /** `eeprom_rw_block` for a write. */
    method WriteBlock(offset: nat, data: seq<Byte>) returns (ret: int)
      modifies this
      ensures mem == if b.fails(offset) then old(mem) else b.put(old(mem), offset, data)
      ensures ret == Code(b, offset)
    {
      if b.fails(offset) { return 1; }
      mem := b.put(mem, offset, data);
      return 0;
    }

    /** `eeprom_rw` for a read, with the same 32-bit end. */
    method Read(offset: Word, buffer: array<Byte>) returns (rcode: int)
      requires IsBus(b) && buffer.Length < U32 && (offset + buffer.Length < U32 ==> offset + buffer.Length <= |mem|)
      modifies buffer
      ensures offset + buffer.Length < U32 ==>
                ReadInto(b, mem, offset, old(buffer[..]), buffer.Length, buffer[..], rcode)
      ensures offset + buffer.Length >= U32 ==> buffer[..] == old(buffer[..]) && rcode == 0
    {
      rcode := 0;
      var end := if offset + buffer.Length < U32 then offset + buffer.Length else offset + buffer.Length - U32;
      if offset < end { rcode := ReadRange(offset, end, buffer); }
    }

    method ReadRange(offset0: nat, end: nat, buffer: array<Byte>) returns (rcode: int)
      requires IsBus(b) && end == offset0 + buffer.Length <= |mem|
      modifies buffer
      ensures ReadInto(b, mem, offset0, old(buffer[..]), buffer.Length, buffer[..], rcode)
    {
      rcode := 0;
      ghost var was := buffer[..];
      var offset, at := offset0, 0;
      NoneRead(b, mem, offset0, was);
      while offset < end
        invariant offset == offset0 + at && at <= |was| && ChunkStart(b, offset0, end, offset0 + at)
        invariant ReadInto(b, mem, offset0, was, at, buffer[..], rcode)
        decreases end - offset
      {
        var len := b.len(offset0 + at, end);
        rcode := ReadChunk(offset0, end, buffer, at, len, was, rcode);
        offset, at := offset + len, at + len;
      }
    }

    method ReadChunk(offset0: nat, ghost end: nat, buffer: array<Byte>, at: nat, len: nat, ghost was: seq<Byte>,
                     ghost code: int)
      returns (rcode: int)
      requires end == offset0 + |was| && at < |was| && ReadInto(b, mem, offset0, was, at, buffer[..], code)
      requires IsCut(b) && ChunkStart(b, offset0, end, offset0 + at) && len == b.len(offset0 + at, end)
      modifies buffer
      ensures 1 <= len && at + len <= |was| && ReadInto(b, mem, offset0, was, at + len, buffer[..], rcode)
      ensures ChunkStart(b, offset0, end, offset0 + (at + len))
    {
      ghost var before := buffer[..];
      rcode := ReadBlock(offset0 + at, buffer, at, len);
      ReadStep(b, mem, offset0, was, at, before, len, buffer[..]);
    }

    /** `eeprom_rw_block` for a read. */
    method ReadBlock(offset: nat, buffer: array<Byte>, at: nat, len: nat) returns (ret: int)
      requires at + len <= buffer.Length && offset + len <= |mem|
      modifies buffer
      ensures forall i :: 0 <= i < buffer.Length ==>
                buffer[i] == if at <= i < at + len && !b.fails(offset) then mem[offset + (i - at)] else old(buffer[i])
      ensures ret == Code(b, offset)
    {
      if b.fails(offset) { return 1; }
      forall k | 0 <= k < len { buffer[at + k] := mem[offset + k]; }
      return 0;
    }
  }
}
