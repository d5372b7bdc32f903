/** Stashing the boot timing records into a buffer for the next stage, and reading them back. */
module Bootstage {
  import opened Options
  import opened Bytes
  import opened CStrings

  const MAGIC: Word := 0xb00757a3
  const HDR_SIZE := 16
  const REC_SIZE := 32

  /** `struct bootstage_record` on a 64-bit machine: two words of time, the start time, padding, the
      name pointer and what it points to, flags and id. */
  datatype Record = Record(timeLo: Word, timeHi: Word, start: Word, pad: Word, ptrLo: Word, ptrHi: Word,
                           flags: Word, id: Word, name: Option<Name>)

  predicate Used(r: Record) {
    r.timeLo != 0 || r.timeHi != 0
  }

  // ----- printable names -----

  /** `%d` of a non-negative number. */
  function Decimal(n: nat): Name {
    if n < 10 then [48 + n] else Decimal(n / 10) + [48 + n % 10]
  }

  const USER_PREFIX: Name := [117, 115, 101, 114, 95]
  const ID_PREFIX: Name := [105, 100, 61]

  /** `get_record_name`; `user` is BOOTSTAGE_ID_USER. */
  function NameOf(r: Record, user: nat): Name {
    if r.name.Some? then r.name.value
    else if r.id >= user then USER_PREFIX + Decimal(r.id - user)
    else ID_PREFIX + Decimal(r.id)
  }

  lemma DecimalIsName(n: nat)
    ensures IsName(Decimal(n))
  {
  }

  lemma NameIsName(r: Record, user: nat)
    requires r.name.Some? ==> IsName(r.name.value)
    ensures IsName(NameOf(r, user))
  {
    if !r.name.Some? {
      DecimalIsName(if r.id >= user then r.id - user else r.id);
    }
  }

  // ----- the stash as a byte string -----

  /** The records with a time, in order. */
  function Live(rs: seq<Record>): (live: seq<Record>)
    ensures |live| <= |rs|
  {
    if rs == [] then []
    else Live(rs[..|rs| - 1]) + if Used(rs[|rs| - 1]) then [rs[|rs| - 1]] else []
  }

  function RecWords(r: Record): (ws: seq<Word>)
    ensures |ws| == 8
  {
    [r.timeLo, r.timeHi, r.start, r.pad, r.ptrLo, r.ptrHi, r.flags, r.id]
  }

  /** The records as `memcpy` writes them. */
  function RecBytes(rs: seq<Record>): (b: seq<Byte>)
    ensures |b| == REC_SIZE * |rs|
  {
    if rs == [] then [] else Words(RecWords(rs[0])) + RecBytes(rs[1..])
  }

  function NamesOf(rs: seq<Record>, user: nat): (n: seq<Name>)
    ensures |n| == |rs| && forall i :: 0 <= i < |n| ==> n[i] == NameOf(rs[i], user)
  {
    if rs == [] then [] else [NameOf(rs[0], user)] + NamesOf(rs[1..], user)
  }

  /** Everything after the header: the records, then the names. */
  function Body(live: seq<Record>, names: seq<Name>): seq<Byte> {
    RecBytes(live) + Packed(names)
  }

  function Header(count: Word, size: Word): (b: seq<Byte>)
    ensures |b| == HDR_SIZE
  {
    Words([0, count, size, MAGIC])
  }

  // ----- reading a stash -----

  function ReadRecord(b: seq<Byte>, at: nat): Record
    requires at + REC_SIZE <= |b|
  {
    Record(Read32(b, at), Read32(b, at + 4), Read32(b, at + 8), Read32(b, at + 12), Read32(b, at + 16),
           Read32(b, at + 20), Read32(b, at + 24), Read32(b, at + 28), Null)
  }

  function Clip(b: seq<Byte>, at: nat): nat {
    if at <= |b| then at else |b|
  }

  /** Record `i` of a stash of `count`, with its name found by walking over the names before it. */
  function Unpacked(b: seq<Byte>, count: nat, i: nat, at: nat): (rs: seq<Record>)
    requires i <= count && HDR_SIZE + REC_SIZE * count <= at <= |b|
    ensures |rs| == count - i
    decreases count - i
  {
    if i == count then []
    else
      var name := ReadString(b, at);
      ReadStringFits(b, at);
      var next := at + |name| + 1;
      [ReadRecord(b, HDR_SIZE + REC_SIZE * i).(name := Some(name))] +
      Unpacked(b, count, i + 1, Clip(b, next))
  }

  lemma {:induction false} ReadStringFits(b: seq<Byte>, at: nat)
    requires at <= |b|
    ensures at + |ReadString(b, at)| <= |b|
    decreases |b| - at
  {
    if at < |b| { ReadStringFits(b, at + 1); }
  }

  datatype Table = Table(record: seq<Record>, nextId: nat)

  /** The checks on the four header fields.  The one on the record count leaves out the header. */
  predicate Accepted(size: int, t: Table, version: Word, count: Word, total: Word, magic: Word) {
    && magic == MAGIC && (size == -1 || total <= size) && count * REC_SIZE <= total && version == 0
    && t.nextId + count <= |t.record|
  }

  /** The memory that is read is there: a header if the size allows one, and the records if the header
      is accepted. */
  predicate Readable(b: seq<Byte>, size: int, t: Table) {
    size == -1 || HDR_SIZE <= size ==>
      && HDR_SIZE <= |b|
      && (Accepted(size, t, Read32(b, 0), Read32(b, 4), Read32(b, 8), Read32(b, 12)) ==>
            HDR_SIZE + REC_SIZE * Read32(b, 4) <= |b|)
  }

  /** `bootstage_unstash` of the memory `b` from the base on; `size` -1 means unlimited. */
  function Unstashed(b: seq<Byte>, size: int, t: Table): Option<Table>
    requires Readable(b, size, t)
  {
    if size != -1 && size < HDR_SIZE then Null
    else Checked(b, size, t, Read32(b, 0), Read32(b, 4), Read32(b, 8), Read32(b, 12))
  }

  function Checked(b: seq<Byte>, size: int, t: Table, version: Word, count: Word, total: Word, magic: Word)
    : Option<Table>
    requires Accepted(size, t, version, count, total, magic) ==> HDR_SIZE + REC_SIZE * count <= |b|
  {
    if !Accepted(size, t, version, count, total, magic) then Null
    else Some(Stored(t, Unpacked(b, count, 0, HDR_SIZE + REC_SIZE * count)))
  }

  /** The records copied in from `next_id` on. */
  function Stored(t: Table, rs: seq<Record>): Table
    requires t.nextId + |rs| <= |t.record|
  {
    Table(t.record[..t.nextId] + rs + t.record[t.nextId + |rs|..], t.nextId + |rs|)
  }

  // ----- round trip -----

  function Total(live: seq<Record>, names: seq<Name>): (n: nat)
    ensures n >= HDR_SIZE + REC_SIZE * |live|
  {
    HDR_SIZE + |Body(live, names)|
  }

  /** What arrives for a record: its fields, and the name stashed for it. */
  function Arrived(rs: seq<Record>, names: seq<Name>): (s: seq<Record>)
    requires |rs| == |names|
    ensures |s| == |rs| && forall i :: 0 <= i < |s| ==> s[i] == rs[i].(name := Some(names[i]))
  {
    if rs == [] then [] else [rs[0].(name := Some(names[0]))] + Arrived(rs[1..], names[1..])
  }

  /** `b` starts with a stash of `live` under the names `names`. */
  ghost predicate Holds(b: seq<Byte>, live: seq<Record>, names: seq<Name>) {
    && |names| == |live|
    && (forall i :: 0 <= i < |names| ==> IsName(names[i]))
    && Total(live, names) < 0x1_0000_0000 && Total(live, names) <= |b|
    && b[..HDR_SIZE] == Header(|live|, Total(live, names))
    && b[HDR_SIZE..Total(live, names)] == Body(live, names)
  }

  lemma {:induction false} RecBytesAt(rs: seq<Record>, i: nat)
    requires i < |rs|
    ensures RecBytes(rs)[REC_SIZE * i..REC_SIZE * i + REC_SIZE] == Words(RecWords(rs[i]))
  {
    var a, c := Words(RecWords(rs[0])), RecBytes(rs[1..]);
    if i != 0 {
      RecBytesAt(rs[1..], i - 1);
      var k := REC_SIZE * (i - 1);
      assert (a + c)[REC_SIZE + k..REC_SIZE + k + REC_SIZE] == c[k..k + REC_SIZE];
    }
  }

  lemma ReadsRecord(b: seq<Byte>, at: nat, r: Record)
    requires at + REC_SIZE <= |b| && b[at..at + REC_SIZE] == Words(RecWords(r))
    ensures ReadRecord(b, at) == r.(name := Null)
  {
    var ws := RecWords(r);
    forall j | 0 <= j < 8 ensures Read32(b, at + 4 * j) == ws[j] {
      WordsAt(ws, j);
      SliceOfSlice(b, at, REC_SIZE, 4 * j, 4);
      ReadSlice(b, at + 4 * j, ws[j]);
    }
    assert Read32(b, at + 4 * 0) == ws[0] && Read32(b, at + 4 * 1) == ws[1] && Read32(b, at + 4 * 2) == ws[2]
        && Read32(b, at + 4 * 3) == ws[3] && Read32(b, at + 4 * 4) == ws[4] && Read32(b, at + 4 * 5) == ws[5]
        && Read32(b, at + 4 * 6) == ws[6] && Read32(b, at + 4 * 7) == ws[7];
  }

  lemma RecordIsThere(b: seq<Byte>, live: seq<Record>, names: seq<Name>, i: nat)
    requires Holds(b, live, names) && i < |live|
    ensures ReadRecord(b, HDR_SIZE + REC_SIZE * i) == live[i].(name := Null)
  {
    var at, body := REC_SIZE * i, Body(live, names);
    RecBytesAt(live, i);
    SliceOfSlice(b, HDR_SIZE, |body|, at, REC_SIZE);
    assert body[at..at + REC_SIZE] == RecBytes(live)[at..at + REC_SIZE];
    ReadsRecord(b, HDR_SIZE + at, live[i]);
  }

  /** Where the name of record `i` starts in a stash. */
  function NameAt(live: seq<Record>, names: seq<Name>, i: nat): nat
    requires i <= |names|
  {
    HDR_SIZE + REC_SIZE * |live| + OffsetOf(names, i)
  }

  lemma {:induction false} OffsetNext(names: seq<Name>, i: nat)
    requires i < |names|
    ensures OffsetOf(names, i + 1) == OffsetOf(names, i) + |names[i]| + 1
  {
    if i != 0 { OffsetNext(names[1..], i - 1); } else { assert OffsetOf(names[1..], 0) == 0; }
  }

  lemma NamesAreThere(b: seq<Byte>, live: seq<Record>, names: seq<Name>)
    requires Holds(b, live, names)
    ensures var p, from := Packed(names), HDR_SIZE + REC_SIZE * |live|;
            from + |p| <= |b| && b[from..from + |p|] == p
  {
    var p, body, k := Packed(names), Body(live, names), REC_SIZE * |live|;
    SliceOfSlice(b, HDR_SIZE, |body|, k, |p|);
    assert body[k..k + |p|] == p;
  }

  lemma NameIsThere(b: seq<Byte>, live: seq<Record>, names: seq<Name>, i: nat, from: nat, p: seq<Byte>)
    requires i < |live| == |names| && IsName(names[i]) && from == HDR_SIZE + REC_SIZE * |live| && p == Packed(names)
    requires from + |p| <= |b| && b[from..from + |p|] == p
    ensures var at := NameAt(live, names, i);
            && at + |names[i]| + 1 <= |b| && ReadString(b, at) == names[i]
            && NameAt(live, names, i + 1) == at + |names[i]| + 1
  {
    NameInside(b, from, names, p, i, OffsetOf(names, i));
    OffsetNext(names, i);
  }

  lemma NameInside(b: seq<Byte>, from: nat, names: seq<Name>, p: seq<Byte>, i: nat, at: nat)
    requires i < |names| && IsName(names[i]) && p == Packed(names) && at == OffsetOf(names, i)
    requires from + |p| <= |b| && b[from..from + |p|] == p
    ensures from + at + |names[i]| < |b| && ReadString(b, from + at) == names[i]
  {
    PackedAt(names, i);
    ReadsInside(b, from, p, at, names[i]);
  }

  lemma UnpackStep(b: seq<Byte>, count: nat, i: nat, at: nat, r: Record, n: Name)
    requires i < count && HDR_SIZE + REC_SIZE * count <= at <= |b|
    requires ReadString(b, at) == n && ReadRecord(b, HDR_SIZE + REC_SIZE * i) == r
    ensures Unpacked(b, count, i, at) == [r.(name := Some(n))] + Unpacked(b, count, i + 1, Clip(b, at + |n| + 1))
  {
  }

  lemma UnpackOne(b: seq<Byte>, count: nat, i: nat, at: nat, r: Record, n: Name, rs: seq<Record>)
    requires i < count && HDR_SIZE + REC_SIZE * count <= at <= |b|
    requires ReadString(b, at) == n && ReadRecord(b, HDR_SIZE + REC_SIZE * i).(name := Some(n)) == r
    ensures rs + Unpacked(b, count, i, at) == rs + [r] + Unpacked(b, count, i + 1, Clip(b, at + |n| + 1))
  {
    UnpackStep(b, count, i, at, ReadRecord(b, HDR_SIZE + REC_SIZE * i), n);
  }

  /** Record `i` and its name read back right, and the next name follows. */
  ghost predicate EntryReads(b: seq<Byte>, live: seq<Record>, names: seq<Name>, i: nat)
    requires i < |live| == |names|
  {
    var at := NameAt(live, names, i);
    && HDR_SIZE + REC_SIZE * |live| <= at && at + |names[i]| + 1 <= |b|
    && ReadString(b, at) == names[i]
    && NameAt(live, names, i + 1) == at + |names[i]| + 1
    && ReadRecord(b, HDR_SIZE + REC_SIZE * i) == live[i].(name := Null)
  }

  lemma HoldsReads(b: seq<Byte>, live: seq<Record>, names: seq<Name>)
    requires Holds(b, live, names)
    ensures forall i :: 0 <= i < |live| ==> EntryReads(b, live, names, i)
  {
    NamesAreThere(b, live, names);
    forall i | 0 <= i < |live| ensures EntryReads(b, live, names, i) {
      RecordIsThere(b, live, names, i);
      NameIsThere(b, live, names, i, HDR_SIZE + REC_SIZE * |live|, Packed(names));
    }
  }

  lemma {:induction false} UnpacksAll(b: seq<Byte>, live: seq<Record>, names: seq<Name>, i: nat)
    requires i <= |live| == |names| && HDR_SIZE + REC_SIZE * |live| <= NameAt(live, names, i) <= |b|
    requires forall j :: 0 <= j < |live| ==> EntryReads(b, live, names, j)
    ensures Unpacked(b, |live|, i, NameAt(live, names, i)) == Arrived(live[i..], names[i..])
    decreases |live| - i
  {
    if i < |live| {
      assert EntryReads(b, live, names, i);
      UnpackStep(b, |live|, i, NameAt(live, names, i), live[i].(name := Null), names[i]);
      UnpacksAll(b, live, names, i + 1);
      assert live[i..][1..] == live[i + 1..] && names[i..][1..] == names[i + 1..];
    }
  }

  lemma UnpacksStash(b: seq<Byte>, live: seq<Record>, names: seq<Name>)
    requires Holds(b, live, names)
    ensures Unpacked(b, |live|, 0, HDR_SIZE + REC_SIZE * |live|) == Arrived(live, names)
  {
    HoldsReads(b, live, names);
    UnpacksAll(b, live, names, 0);
    assert live[0..] == live && names[0..] == names;
  }

  lemma HeaderIsThere(b: seq<Byte>, count: Word, size: Word)
    requires |b| >= HDR_SIZE && b[..HDR_SIZE] == Header(count, size)
    ensures Read32(b, 0) == 0 && Read32(b, 4) == count && Read32(b, 8) == size && Read32(b, 12) == MAGIC
  {
    var ws: seq<Word> := [0, count, size, MAGIC];
    assert b == b[..HDR_SIZE] + b[HDR_SIZE..];
    ReadWords(ws, 0);
    ReadWords(ws, 1);
    ReadWords(ws, 2);
    ReadWords(ws, 3);
    ReadFirst(b[..HDR_SIZE], b[HDR_SIZE..], 0);
    ReadFirst(b[..HDR_SIZE], b[HDR_SIZE..], 4);
    ReadFirst(b[..HDR_SIZE], b[HDR_SIZE..], 8);
    ReadFirst(b[..HDR_SIZE], b[HDR_SIZE..], 12);
  }

  lemma ChecksPass(b: seq<Byte>, size: int, t: Table, count: Word, total: Word)
    requires |b| >= HDR_SIZE && HDR_SIZE + REC_SIZE * count <= |b| && b[..HDR_SIZE] == Header(count, total)
    requires size == -1 || HDR_SIZE <= size
    ensures Readable(b, size, t) && Unstashed(b, size, t) == Checked(b, size, t, 0, count, total, MAGIC)
  {
    HeaderIsThere(b, count, total);
  }

  /** Reading back a buffer that holds a stash appends exactly its records, in order, each with its
      name, whenever the table has room; without room nothing is taken. */
  lemma RoundTrip(b: seq<Byte>, size: int, live: seq<Record>, names: seq<Name>, t: Table)
    requires Holds(b, live, names)
    requires size == -1 || Total(live, names) <= size
    ensures Readable(b, size, t)
    ensures Unstashed(b, size, t) ==
            if t.nextId + |live| > |t.record| then Null else Some(Stored(t, Arrived(live, names)))
  {
    ChecksPass(b, size, t, |live|, Total(live, names));
    UnpacksStash(b, live, names);
  }

  /** A stash that did not fit says size 0 and at least one record, and is refused. */
  lemma FailedStashIsRefused(b: seq<Byte>, size: int, count: Word, t: Table)
    requires |b| >= HDR_SIZE && b[..HDR_SIZE] == Header(count, 0) && count > 0
    ensures Readable(b, size, t) && Unstashed(b, size, t) == Null
  {
    HeaderIsThere(b, count, 0);
  }

  // ----- the header left out of the count check -----

  /** `c` has the bytes of `b` as far as its header says it goes, and as far as the header itself. */
  ghost predicate SameStash(b: seq<Byte>, c: seq<Byte>, total: nat) {
    |c| == |b| && forall k :: 0 <= k < |b| && (k < HDR_SIZE || k < total) ==> c[k] == b[k]
  }

  ghost predicate SameRecords(b: seq<Byte>, c: seq<Byte>, count: nat)
    requires HDR_SIZE + REC_SIZE * count <= |b| == |c|
  {
    forall i :: 0 <= i < count ==> ReadRecord(c, HDR_SIZE + REC_SIZE * i) == ReadRecord(b, HDR_SIZE + REC_SIZE * i)
  }

  /** A change to the last byte copied changes the last record. */
  lemma LastByteMatters(b: seq<Byte>, count: nat, x: Byte)
    requires 0 < count && HDR_SIZE + REC_SIZE * count <= |b|
    requires x != b[HDR_SIZE + REC_SIZE * count - 1]
    ensures !SameRecords(b, b[HDR_SIZE + REC_SIZE * count - 1 := x], count)
  {
    var at := HDR_SIZE + REC_SIZE * (count - 1);
    var c := b[at + 31 := x];
    assert ReadRecord(c, at).id != ReadRecord(b, at).id;
  }

  /** The records copied from an accepted stash are determined by the bytes its header counts exactly
      when header and records together fit into them. */
  lemma CopyStaysInside(b: seq<Byte>, size: int, t: Table, count: Word, total: Word)
    requires Accepted(size, t, 0, count, total, MAGIC) && HDR_SIZE + REC_SIZE * count <= |b|
    ensures (forall c :: SameStash(b, c, total) ==> SameRecords(b, c, count))
       <==> (count == 0 || HDR_SIZE + REC_SIZE * count <= total)
  {
    if count != 0 && HDR_SIZE + REC_SIZE * count > total {
      var last := HDR_SIZE + REC_SIZE * count - 1;
      var x: Byte := if b[last] == 0 then 1 else 0;
      LastByteMatters(b, count, x);
      assert SameStash(b, b[last := x], total);
    }
  }

  /** Such a header is accepted: one record in 32 bytes of which the header takes 16. */
  lemma OverrunIsAccepted(b: seq<Byte>, t: Table)
    requires HDR_SIZE + REC_SIZE <= |b| && b[..HDR_SIZE] == Header(1, REC_SIZE) && t.nextId < |t.record|
    ensures Readable(b, REC_SIZE, t) && Unstashed(b, REC_SIZE, t).Some?
    ensures exists c :: SameStash(b, c, REC_SIZE) && !SameRecords(b, c, 1)
  {
    HeaderIsThere(b, 1, REC_SIZE);
    CopyStaysInside(b, REC_SIZE, t, 1, REC_SIZE);
  }

  /** What a stash writes never is. */
  lemma StashStaysInside(b: seq<Byte>, live: seq<Record>, names: seq<Name>, c: seq<Byte>)
    requires Holds(b, live, names) && SameStash(b, c, Total(live, names))
    ensures Holds(c, live, names) && SameRecords(b, c, |live|)
  {
    var n := Total(live, names);
    assert c[..HDR_SIZE] == b[..HDR_SIZE] && c[HDR_SIZE..n] == b[HDR_SIZE..n];
    forall i | 0 <= i < |live|
      ensures ReadRecord(c, HDR_SIZE + REC_SIZE * i) == ReadRecord(b, HDR_SIZE + REC_SIZE * i)
    {
      RecordIsThere(b, live, names, i);
      RecordIsThere(c, live, names, i);
    }
  }

  // ----- the static record table -----

  /** Memory `now` differs from `was` only inside the buffer; the pointer has moved over all of
      `data`; as long as it has not left the buffer, all of `data` is in it; the header always is. */
  ghost predicate Wrote(was: seq<Byte>, now: seq<Byte>, base: nat, end: nat, ptr: nat, data: seq<Byte>) {
    && |now| == |was| && base + HDR_SIZE <= end <= |now| && |data| >= HDR_SIZE
    && ptr == base + |data|
    && now[..base] == was[..base] && now[end..] == was[end..]
    && now[base..base + HDR_SIZE] == data[..HDR_SIZE]
    && (ptr <= end ==> now[base..ptr] == data)
  }

  lemma LiveAppend(rs: seq<Record>, i: nat)
    requires i < |rs|
    ensures Live(rs[..i + 1]) == Live(rs[..i]) + if Used(rs[i]) then [rs[i]] else []
  {
    assert rs[..i + 1][..i] == rs[..i];
  }

  lemma {:induction false} RecBytesAppend(rs: seq<Record>, r: Record)
    ensures RecBytes(rs + [r]) == RecBytes(rs) + Words(RecWords(r))
  {
    if rs == [] {
      assert (rs + [r])[1..] == [];
    } else {
      assert (rs + [r])[1..] == rs[1..] + [r];
      RecBytesAppend(rs[1..], r);
    }
  }

  lemma {:induction false} NamesAppend(rs: seq<Record>, r: Record, user: nat)
    ensures NamesOf(rs + [r], user) == NamesOf(rs, user) + [NameOf(r, user)]
  {
  }

  class Stage {
    var record: seq<Record>
    var nextId: nat
    const user: nat

    constructor (record: seq<Record>, user: nat)
      requires user <= |record|
      ensures this.record == record && nextId == user == this.user
    {
      this.record, nextId, this.user := record, user, user;
    }

    ghost function State(): Table
      reads this
    {
      Table(record, nextId)
    }

    /** `append_data`: moves the pointer in any case, writes only what fits. */
    static method AppendData(mem: array<Byte>, ghost was: seq<Byte>, ghost base: nat, ptr: nat, end: nat,
                             data: seq<Byte>, ghost sofar: seq<Byte>) returns (ptr': nat)
      requires Wrote(was, mem[..], base, end, ptr, sofar)
      modifies mem
      ensures Wrote(was, mem[..], base, end, ptr', sofar + data)
    {
      ptr' := ptr + |data|;
      if ptr' > end { return; }
      forall i | 0 <= i < |data| { mem[ptr + i] := data[i]; }
      assert mem[base..ptr'] == sofar + data by {
        assert mem[base..ptr] == old(mem[base..ptr]) == old(mem[..])[base..ptr];
        assert mem[ptr..ptr'] == data;
        assert mem[base..ptr'] == mem[base..ptr] + mem[ptr..ptr'];
      }
      Frame(old(mem[..]), mem[..], base, end, ptr, ptr');
    }

    /** Writing inside the buffer changes nothing outside it, nor the header. */
    static lemma Frame(a: seq<Byte>, c: seq<Byte>, base: nat, end: nat, ptr: nat, ptr': nat)
      requires |a| == |c| && base + HDR_SIZE <= ptr <= ptr' <= end <= |a|
      requires forall i :: 0 <= i < |a| && !(ptr <= i < ptr') ==> a[i] == c[i]
      ensures c[..base] == a[..base] && c[end..] == a[end..] && c[base..base + HDR_SIZE] == a[base..base + HDR_SIZE]
    {
    }

    method CountRecords() returns (count: nat)
      ensures count == |Live(record)| <= |record|
    {
      count := 0;
      var id := 0;
      while id < |record|
        invariant 0 <= id <= |record| && count == |Live(record[..id])| <= id
      {
        LiveAppend(record, id);
        if Used(record[id]) { count := count + 1; }
        id := id + 1;
      }
      assert record[..id] == record;
    }

    method AppendRecords(mem: array<Byte>, ghost was: seq<Byte>, ghost base: nat, ptr0: nat, end: nat,
                         ghost hdr: seq<Byte>)
      returns (ptr: nat)
      requires Wrote(was, mem[..], base, end, ptr0, hdr)
      modifies mem
      ensures Wrote(was, mem[..], base, end, ptr, hdr + RecBytes(Live(record)))
    {
      ptr := ptr0;
      var id := 0;
      assert hdr + RecBytes(Live(record[..0])) == hdr;
      while id < |record|
        invariant 0 <= id <= |record|
        invariant Wrote(was, mem[..], base, end, ptr, hdr + RecBytes(Live(record[..id])))
      {
        ghost var live := Live(record[..id]);
        LiveAppend(record, id);
        if Used(record[id]) {
          RecBytesAppend(live, record[id]);
          ptr := AppendData(mem, was, base, ptr, end, Words(RecWords(record[id])), hdr + RecBytes(live));
          assert hdr + RecBytes(live) + Words(RecWords(record[id])) == hdr + RecBytes(live + [record[id]]);
        } else {
          assert live + [] == live;
        }
        id := id + 1;
      }
      assert record[..id] == record;
    }

    method AppendNames(mem: array<Byte>, ghost was: seq<Byte>, ghost base: nat, ptr0: nat, end: nat,
                       ghost sofar: seq<Byte>)
      returns (ptr: nat)
      requires Wrote(was, mem[..], base, end, ptr0, sofar)
      modifies mem
      ensures Wrote(was, mem[..], base, end, ptr, sofar + Packed(NamesOf(Live(record), user)))
    {
      ptr := ptr0;
      var id := 0;
      assert sofar + Packed(NamesOf(Live(record[..0]), user)) == sofar;
      while id < |record|
        invariant 0 <= id <= |record|
        invariant Wrote(was, mem[..], base, end, ptr, sofar + Packed(NamesOf(Live(record[..id]), user)))
      {
        ghost var live := Live(record[..id]);
        LiveAppend(record, id);
        if Used(record[id]) {
          ptr := AppendName(mem, was, base, ptr, end, sofar, live, record[id]);
        } else {
          assert live + [] == live;
        }
        id := id + 1;
      }
      assert record[..id] == record;
    }

    /** The name of one record, after those of the records `live`. */
    method AppendName(mem: array<Byte>, ghost was: seq<Byte>, ghost base: nat, ptr0: nat, end: nat,
                      ghost sofar: seq<Byte>, ghost live: seq<Record>, r: Record) returns (ptr: nat)
      requires Wrote(was, mem[..], base, end, ptr0, sofar + Packed(NamesOf(live, user)))
      modifies mem
      ensures Wrote(was, mem[..], base, end, ptr, sofar + Packed(NamesOf(live + [r], user)))
    {
      var name := NameOf(r, user);
      var data := name + [0];
      ghost var before := Packed(NamesOf(live, user));
      NamesAppend(live, r, user);
      PackedAppend(NamesOf(live, user), name);
      ptr := AppendData(mem, was, base, ptr0, end, data, sofar + before);
      assert sofar + before + data == sofar + (before + data);
    }

    ghost predicate Storable()
      reads this
    {
      |record| < 0x8000_0000 && forall i :: 0 <= i < |record| && record[i].name.Some? ==> IsName(record[i].name.value)
    }

    /** `bootstage_stash` into `mem[base..base + size]`. */
    method Stash(mem: array<Byte>, base: nat, size: int) returns (rc: int)
      requires Storable() && base <= mem.Length && size < 0x8000_0000 && base + size <= mem.Length
      modifies mem
      ensures var live, names := Live(record), NamesOf(Live(record), user);
              && (rc == 0 <==> HDR_SIZE <= size && Total(live, names) <= size)
              && (rc == 0 ==> Holds(mem[base..], live, names))
              && (rc != 0 && HDR_SIZE <= size ==> |live| > 0 && mem[base..base + HDR_SIZE] == Header(|live|, 0))
      ensures mem[..base] == old(mem[..base])
      ensures mem[base + (if size < 0 then 0 else size)..] == old(mem[base + (if size < 0 then 0 else size)..])
    {
      if HDR_SIZE > size { return -1; }
      ghost var was := mem[..];
      var end := base + size;
      var count := CountRecords();
      var hdr := Header(count, 0);
      var ptr := PutHeader(mem, base, end, hdr);
      ptr := AppendRecords(mem, was, base, ptr, end, hdr);
      ptr := AppendNames(mem, was, base, ptr, end, hdr + RecBytes(Live(record)));
      ghost var live, names := Live(record), NamesOf(Live(record), user);
      assert hdr + RecBytes(live) + Packed(names) == hdr + Body(live, names);
      if ptr > end {
        FailedIsNonEmpty(live, names);
        return -1;
      }
      FinishStash(mem, was, base, end, ptr, count, live, names);
      return 0;
    }

    static method PutHeader(mem: array<Byte>, base: nat, end: nat, hdr: seq<Byte>) returns (ptr: nat)
      requires |hdr| == HDR_SIZE && base + HDR_SIZE <= end <= mem.Length
      modifies mem
      ensures Wrote(old(mem[..]), mem[..], base, end, ptr, hdr)
    {
      forall i | 0 <= i < HDR_SIZE { mem[base + i] := hdr[i]; }
      assert mem[base..base + HDR_SIZE] == hdr;
      ptr := base + HDR_SIZE;
    }

    static lemma FailedIsNonEmpty(live: seq<Record>, names: seq<Name>)
      requires |live| == |names| && Total(live, names) > HDR_SIZE
      ensures |live| > 0
    {
    }

    /** The last step of a successful stash: store the total size in the header. */
    method FinishStash(mem: array<Byte>, ghost was: seq<Byte>, base: nat, end: nat, ptr: nat, count: Word,
                       ghost live: seq<Record>, ghost names: seq<Name>)
      requires count == |live| && live == Live(record) && names == NamesOf(live, user) && Storable()
      requires Wrote(was, mem[..], base, end, ptr, Header(count, 0) + Body(live, names))
      requires ptr <= end && ptr - base < 0x8000_0000
      modifies mem
      ensures Holds(mem[base..], live, names)
      ensures |was| == mem.Length && mem[..base] == was[..base] && mem[end..] == was[end..]
    {
      var hdr := Header(count, ptr - base);
      ghost var before := mem[..];
      forall i | 0 <= i < HDR_SIZE { mem[base + i] := hdr[i]; }
      NewHeader(before, mem[..], base, end, ptr, hdr);
      assert before[base..ptr][HDR_SIZE..] == Body(live, names);
      assert mem[..][base..] == mem[base..];
      NamesAreNames(record, user);
    }

    /** Replacing the header leaves the rest. */
    static lemma NewHeader(before: seq<Byte>, now: seq<Byte>, base: nat, end: nat, ptr: nat, hdr: seq<Byte>)
      requires |hdr| == HDR_SIZE && |before| == |now| && base + HDR_SIZE <= ptr <= end <= |now|
      requires forall i :: 0 <= i < HDR_SIZE ==> now[base + i] == hdr[i]
      requires forall i :: 0 <= i < |now| && !(base <= i < base + HDR_SIZE) ==> now[i] == before[i]
      ensures now[base..][..HDR_SIZE] == hdr && now[base..][HDR_SIZE..ptr - base] == before[base..ptr][HDR_SIZE..]
      ensures now[..base] == before[..base] && now[end..] == before[end..]
    {
    }

    /** `bootstage_unstash` of the memory from the base on. */
    method Unstash(b: seq<Byte>, size: int) returns (rc: int)
      requires Readable(b, size, State())
      modifies this`record, this`nextId
      ensures var r := Unstashed(b, size, old(State()));
              (rc == 0 <==> r.Some?) && State() == if rc == 0 then r.value else old(State())
    {
      if size != -1 && HDR_SIZE > size { return -1; }
      rc := Accept(b, size, Read32(b, 0), Read32(b, 4), Read32(b, 8), Read32(b, 12));
    }

    /** The checks on the header, and the copy. */
    method Accept(b: seq<Byte>, size: int, version: Word, count: Word, total: Word, magic: Word) returns (rc: int)
      requires Accepted(size, State(), version, count, total, magic) ==> HDR_SIZE + REC_SIZE * count <= |b|
      modifies this`record, this`nextId
      ensures var r := Checked(b, size, old(State()), version, count, total, magic);
              (rc == 0 <==> r.Some?) && State() == if rc == 0 then r.value else old(State())
    {
      if magic != MAGIC { return -1; }
      if size != -1 && total > size { return -1; }
      if count * REC_SIZE > total { return -1; }
      if version != 0 { return -1; }
      if nextId + count > |record| { return -1; }
      var rs := ReadStash(b, count);
      Store(rs);
      return 0;
    }

    method Store(rs: seq<Record>)
      requires nextId + |rs| <= |record|
      modifies this`record, this`nextId
      ensures State() == Stored(old(State()), rs)
    {
      record := record[..nextId] + rs + record[nextId + |rs|..];
      nextId := nextId + |rs|;
    }

    static method ReadOne(b: seq<Byte>, id: nat) returns (r: Record)
      requires HDR_SIZE + REC_SIZE * id + REC_SIZE <= |b|
      ensures r == ReadRecord(b, HDR_SIZE + REC_SIZE * id)
    {
      r := ReadRecord(b, HDR_SIZE + REC_SIZE * id);
    }

    /** Copy the records, then walk over the names. */
    static method ReadStash(b: seq<Byte>, count: nat) returns (rs: seq<Record>)
      requires HDR_SIZE + REC_SIZE * count <= |b|
      ensures rs == Unpacked(b, count, 0, HDR_SIZE + REC_SIZE * count)
    {
      rs := [];
      var ptr := HDR_SIZE + REC_SIZE * count;
      var id := 0;
      ghost var all := Unpacked(b, count, 0, ptr);
      while id < count
        invariant 0 <= id <= count && HDR_SIZE + REC_SIZE * count <= ptr <= |b|
        invariant all == rs + Unpacked(b, count, id, ptr)
      {
        var name := ReadString(b, ptr);
        var r := ReadOne(b, id);
        r := r.(name := Some(name));
        UnpackOne(b, count, id, ptr, r, name, rs);
        rs := rs + [r];
        ptr := Clip(b, ptr + |name| + 1);
        id := id + 1;
      }
    }
  }

  // ----- the layout, word by word -----

  /** A stash starts with version, count, size and magic number. */
  lemma HeaderLayout(b: seq<Byte>, live: seq<Record>, names: seq<Name>)
    requires Holds(b, live, names)
    ensures Read32(b, 0) == 0 && Read32(b, 4) == |live| && Read32(b, 8) == Total(live, names)
    ensures Read32(b, 12) == 0xb00757a3
  {
    HeaderIsThere(b, |live|, Total(live, names));
  }

  /** Each of its records has the eight words of the structure in order. */
  lemma RecordLayout(b: seq<Byte>, live: seq<Record>, names: seq<Name>, i: nat, at: nat)
    requires Holds(b, live, names) && i < |live| && at == 16 + 32 * i
    ensures at + 32 <= |b| && Read32(b, at) == live[i].timeLo && Read32(b, at + 4) == live[i].timeHi
    ensures Read32(b, at + 8) == live[i].start && Read32(b, at + 12) == live[i].pad
    ensures Read32(b, at + 16) == live[i].ptrLo && Read32(b, at + 20) == live[i].ptrHi
    ensures Read32(b, at + 24) == live[i].flags && Read32(b, at + 28) == live[i].id
  {
    RecordIsThere(b, live, names, i);
    assert ReadRecord(b, at) == live[i].(name := Null);
  }

  // ----- which records arrive, and under which names -----

  /** `time_us` */
  function Time(r: Record): nat {
    r.timeLo + 0x1_0000_0000 * r.timeHi
  }

  /** `idx` are the places of the records with a time, in order. */
  ghost predicate Picks(rs: seq<Record>, idx: seq<nat>) {
    && (forall k :: 0 <= k < |idx| ==> idx[k] < |rs| && Time(rs[idx[k]]) != 0)
    && (forall k, l :: 0 <= k < l < |idx| ==> idx[k] < idx[l])
    && (forall i :: 0 <= i < |rs| && Time(rs[i]) != 0 ==> i in idx)
  }

  /** The live records are those with a time other than 0, in the order of the table. */
  lemma {:induction false} LiveHaveTime(rs: seq<Record>) returns (idx: seq<nat>)
    ensures Picks(rs, idx) && |Live(rs)| == |idx| && forall k :: 0 <= k < |idx| ==> Live(rs)[k] == rs[idx[k]]
  {
    if rs == [] {
      idx := [];
    } else {
      var n := |rs| - 1;
      var front := rs[..n];
      idx := LiveHaveTime(front);
      forall i | 0 <= i < n ensures rs[i] == front[i] {
      }
      if Time(rs[n]) != 0 { idx := PickLast(rs, idx); } else { StillPicks(rs, idx); }
    }
  }

  lemma StillPicks(rs: seq<Record>, idx: seq<nat>)
    requires rs != [] && Time(rs[|rs| - 1]) == 0 && Picks(rs[..|rs| - 1], idx)
    ensures Picks(rs, idx)
  {
    var front := rs[..|rs| - 1];
    forall i | 0 <= i < |rs| && Time(rs[i]) != 0 ensures i in idx { assert front[i] == rs[i]; }
  }

  lemma PickLast(rs: seq<Record>, idx: seq<nat>) returns (idx': seq<nat>)
    requires rs != [] && Time(rs[|rs| - 1]) != 0 && Picks(rs[..|rs| - 1], idx)
    ensures Picks(rs, idx') && idx' == idx + [|rs| - 1]
  {
    idx' := idx + [|rs| - 1];
    var front := rs[..|rs| - 1];
    forall i | 0 <= i < |rs| && Time(rs[i]) != 0 ensures i in idx' {
      if i < |rs| - 1 { assert front[i] == rs[i] && i in idx; } else { assert idx'[|idx|] == i; }
    }
  }

  /** The value of a string of decimal digits. */
  function Value(digits: Name): int {
    if digits == [] then 0 else 10 * Value(digits[..|digits| - 1]) - 48 + digits[|digits| - 1]
  }

  predicate AreDigits(s: Name) {
    s != [] && forall i :: 0 <= i < |s| ==> 48 <= s[i] <= 57
  }

  lemma {:induction false} DecimalReads(n: nat)
    ensures AreDigits(Decimal(n)) && Value(Decimal(n)) == n && (n > 0 ==> Decimal(n)[0] != 48)
  {
    if n < 10 {
      assert Value([]) == 0;
    } else {
      DecimalReads(n / 10);
      var front, last := Decimal(n / 10), 48 + n % 10;
      assert (front + [last])[..|front|] == front;
    }
  }

  /** The name a record is stashed under: its own, or `user_` or `id=` and a number in decimal digits. */
  ghost predicate IsNameOf(n: Name, r: Record, user: nat) {
    if r.name.Some? then n == r.name.value
    else if r.id >= user then
      |n| > 5 && n[..5] == [117, 115, 101, 114, 95] && AreDigits(n[5..]) && Value(n[5..]) == r.id - user
    else
      |n| > 3 && n[..3] == [105, 100, 61] && AreDigits(n[3..]) && Value(n[3..]) == r.id
  }

  lemma NameOfIs(r: Record, user: nat)
    ensures IsNameOf(NameOf(r, user), r, user)
  {
    if r.name.Null? {
      var n := NameOf(r, user);
      if r.id >= user {
        DecimalReads(r.id - user);
        assert n[..5] == USER_PREFIX && n[5..] == Decimal(r.id - user);
      } else {
        DecimalReads(r.id);
        assert n[..3] == ID_PREFIX && n[3..] == Decimal(r.id);
      }
    }
  }

  /** A record with all its fields, and for the name pointer the name it is stashed under. */
  ghost predicate Handed(r: Record, user: nat, arrived: Record) {
    arrived.name.Some? && arrived == r.(name := arrived.name) && IsNameOf(arrived.name.value, r, user)
  }

  /** The records handed on: those of `rs` at the places `idx`, in that order. */
  ghost predicate AllHanded(rs: seq<Record>, user: nat, idx: seq<nat>, got: seq<Record>) {
    Picks(rs, idx) && |got| == |idx| && forall k :: 0 <= k < |idx| ==> Handed(rs[idx[k]], user, got[k])
  }

  /** The table `now` is `was` with the records `got` behind those it had in use. */
  ghost predicate Gained(was: Table, got: seq<Record>, now: Table) {
    && was.nextId + |got| <= |was.record| == |now.record| && now.nextId == was.nextId + |got|
    && (forall k :: 0 <= k < |got| ==> now.record[was.nextId + k] == got[k])
    && (forall i :: 0 <= i < |now.record| && !(was.nextId <= i < now.nextId) ==> now.record[i] == was.record[i])
  }

  lemma StoredIsGained(was: Table, got: seq<Record>)
    requires was.nextId + |got| <= |was.record|
    ensures Gained(was, got, Stored(was, got))
  {
  }

  /** What arrives of a table is its records with a time, each with its name. */
  lemma ArrivedIsHanded(rs: seq<Record>, user: nat) returns (idx: seq<nat>)
    ensures AllHanded(rs, user, idx, Arrived(Live(rs), NamesOf(Live(rs), user)))
  {
    idx := LiveHaveTime(rs);
    var live := Live(rs);
    var names := NamesOf(live, user);
    forall k | 0 <= k < |idx| ensures Handed(rs[idx[k]], user, Arrived(live, names)[k]) {
      OneIsHanded(live, names, user, k);
    }
  }

  lemma OneIsHanded(live: seq<Record>, names: seq<Name>, user: nat, k: nat)
    requires names == NamesOf(live, user) && k < |live|
    ensures Handed(live[k], user, Arrived(live, names)[k])
  {
    NameOfIs(live[k], user);
  }

  /** Stash into a buffer and unstash the same buffer, given its size or no limit. */
  method PassOn(from: Stage, to: Stage, mem: array<Byte>, base: nat, size: nat, limit: int) returns (rc: int)
    requires from != to && from.Storable() && base + size <= mem.Length && size < 0x8000_0000
    requires limit == size || (limit == -1 && HDR_SIZE <= size)
    modifies mem, to`record, to`nextId
    ensures var live, names := Live(from.record), NamesOf(Live(from.record), from.user);
            && (rc == 0 <==>
                  HDR_SIZE <= size && Total(live, names) <= size && old(to.nextId) + |live| <= |old(to.record)|)
            && to.State() == if rc == 0 then Stored(old(to.State()), Arrived(live, names)) else old(to.State())
    ensures rc == 0 ==> exists idx, got ::
                          AllHanded(from.record, from.user, idx, got) && Gained(old(to.State()), got, to.State())
  {
    var stashed := from.Stash(mem, base, size);
    ghost var live, names := Live(from.record), NamesOf(Live(from.record), from.user);
    var b := mem[base..];
    if stashed == 0 {
      RoundTrip(b, limit, live, names, to.State());
    } else if HDR_SIZE <= size {
      assert b[..HDR_SIZE] == mem[base..base + HDR_SIZE];
      FailedStashIsRefused(b, limit, |live|, to.State());
    }
    ghost var was := to.State();
    rc := to.Unstash(b, limit);
    if rc == 0 {
      ghost var idx := ArrivedIsHanded(from.record, from.user);
      StoredIsGained(was, Arrived(live, names));
    }
  }

  lemma NamesAreNames(rs: seq<Record>, user: nat)
    requires forall i :: 0 <= i < |rs| && rs[i].name.Some? ==> IsName(rs[i].name.value)
    ensures forall i :: 0 <= i < |Live(rs)| ==> IsName(NamesOf(Live(rs), user)[i])
  {
    forall i | 0 <= i < |Live(rs)| ensures IsName(NamesOf(Live(rs), user)[i]) {
      LiveIsSome(rs, i);
      NameIsName(Live(rs)[i], user);
    }
  }

  lemma {:induction false} LiveIsSome(rs: seq<Record>, i: nat)
    requires i < |Live(rs)|
    ensures Live(rs)[i] in rs
  {
    var front := rs[..|rs| - 1];
    if i < |Live(front)| { LiveIsSome(front, i); }
  }
}
