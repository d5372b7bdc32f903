/** Where the bytes of any ELF file end up in memory: each loaded range holds bytes of the file or zeros, and
    nothing else changes. */
module ElfPlaces {
  import opened Bytes
  import opened ElfImage
  import opened ElfLoader

  // ----- several ranges of memory -----

  /** Bytes to lie at an address. */
  datatype Load = Load(at: nat, bytes: seq<Byte>)

  ghost predicate Inside(l: Load, a: nat) {
    l.at <= a < l.at + |l.bytes|
  }

  ghost predicate AllApart(ls: seq<Load>) {
    forall i, j :: 0 <= i < j < |ls| ==> Apart(ls[i].at, |ls[i].bytes|, ls[j].at, |ls[j].bytes|)
  }

  ghost predicate InSpace(ls: seq<Load>) {
    forall i :: 0 <= i < |ls| ==> ls[i].at + |ls[i].bytes| <= SPACE
  }

  ghost predicate HasBytes(m: Mem, l: Load) {
    IsMem(m) && l.at + |l.bytes| <= SPACE && forall k :: 0 <= k < |l.bytes| ==> m[l.at + k] == l.bytes[k]
  }

  /** `m'` has the loads and is otherwise `m`. */
  ghost predicate Laid(m: Mem, m': Mem, ls: seq<Load>) {
    && IsMem(m) && IsMem(m') && InSpace(ls)
    && (forall i :: 0 <= i < |ls| ==> HasBytes(m', ls[i]))
    && (forall a :: 0 <= a < SPACE && (forall i :: 0 <= i < |ls| ==> !Inside(ls[i], a)) ==> m'[a] == m[a])
  }

  /** One load and then the others. */
  lemma LaidStep(m: Mem, m1: Mem, m': Mem, ls: seq<Load>)
    requires ls != [] && AllApart(ls) && Stored(m, m1, ls[0].at, ls[0].bytes) && Laid(m1, m', ls[1..])
    ensures Laid(m, m', ls)
  {
    var l, rest := ls[0], ls[1..];
    forall i | 0 <= i < |ls| ensures HasBytes(m', ls[i]) {
      if i == 0 {
        forall k | 0 <= k < |l.bytes| ensures m'[l.at + k] == l.bytes[k] {
          forall j | 0 <= j < |rest| ensures !Inside(rest[j], l.at + k) { assert rest[j] == ls[j + 1]; }
        }
      } else {
        assert ls[i] == rest[i - 1];
      }
    }
    forall a | 0 <= a < SPACE && (forall i :: 0 <= i < |ls| ==> !Inside(ls[i], a)) ensures m'[a] == m[a] {
      assert !Inside(ls[0], a);
      forall j | 0 <= j < |rest| ensures !Inside(rest[j], a) { assert rest[j] == ls[j + 1]; }
    }
    assert InSpace(ls) by {
      forall i | 0 <= i < |ls| ensures ls[i].at + |ls[i].bytes| <= SPACE {
        if i > 0 { assert ls[i] == rest[i - 1]; }
      }
    }
  }

  lemma NothingLaid(m: Mem)
    requires IsMem(m)
    ensures Laid(m, m, [])
  {
  }

  /** Clearing, cell by cell. */
  lemma {:induction false} ClearAt(m: Mem, dst: nat, n: nat, a: nat)
    requires IsMem(m) && dst + n <= SPACE && a < SPACE
    ensures Clear(m, dst, n)[a] == if dst <= a < dst + n then 0 else m[a]
    decreases n
  {
    if n != 0 { ClearAt(m[dst := 0], dst + 1, n - 1, a); }
  }

  lemma ClearStores(m: Mem, dst: nat, n: nat, b: seq<Byte>)
    requires IsMem(m) && dst + n <= SPACE && |b| == n && forall k :: 0 <= k < n ==> b[k] == 0
    ensures Stored(m, Clear(m, dst, n), dst, b)
  {
    forall a | 0 <= a < SPACE ensures Clear(m, dst, n)[a] == if dst <= a < dst + n then b[a - dst] else m[a] {
      ClearAt(m, dst, n, a);
    }
  }

  lemma StoredTwice(m: Mem, m1: Mem, m2: Mem, at: nat, b: seq<Byte>, c: seq<Byte>)
    requires Stored(m, m1, at, b) && Stored(m1, m2, at + |b|, c)
    ensures Stored(m, m2, at, b + c)
  {
  }

  // ----- what is taken for a file -----

  /** Only the four identifying characters and the file type are looked at. */
  lemma ValidIff(m: Mem, addr: Word, f: seq<Byte>)
    requires Placed(m, addr, f) && |f| >= EHDR_SIZE
    ensures ValidImage(m, addr) <==>
              f[0] == 0x7f && f[1] == 'E' as int && f[2] == 'L' as int && f[3] == 'F' as int && f[16] == 2 && f[17] == 0
  {
    assert f[0] == m[addr] && f[1] == m[addr + 1] && f[2] == m[addr + 2] && f[3] == m[addr + 3];
    assert f[16] == m[addr + 16] && f[17] == m[addr + 17];
  }

  // ----- program headers -----

  /** The fields of a program header the loader looks at. */
  datatype Segment = Segment(offset: Word, addr: Word, filesz: Word, memsz: Word)

  function SegmentAt(f: seq<Byte>, at: nat): Segment
    requires at + PHDR_SIZE <= |f|
  {
    Segment(Read32(f, at + 4), Read32(f, at + 12), Read32(f, at + 16), Read32(f, at + 20))
  }

  /** The file has its program headers at `phoff`, and they say `segs`. */
  ghost predicate HasSegments(f: seq<Byte>, phoff: nat, segs: seq<Segment>) {
    && |f| >= EHDR_SIZE && Read32(f, 28) == phoff && Read32(f, 44) % 65536 == |segs|
    && phoff + PHDR_SIZE * |segs| <= |f|
    && forall i :: 0 <= i < |segs| ==> SegmentIs(f, phoff + PHDR_SIZE * i, segs[i])
  }

  ghost predicate SegmentIs(f: seq<Byte>, at: nat, s: Segment) {
    at + PHDR_SIZE <= |f| && SegmentAt(f, at) == s
  }

  /** The bytes are in the file, and the destination is in the space and apart from the file. */
  ghost predicate Loadable(f: seq<Byte>, addr: Word, s: Segment) {
    && s.offset + s.filesz <= |f| && s.filesz <= s.memsz && s.addr + s.memsz <= SPACE
    && Apart(addr, |f|, s.addr, s.memsz)
  }

  function LoadOf(f: seq<Byte>, s: Segment): (l: Load)
    requires s.offset + s.filesz <= |f| && s.filesz <= s.memsz
    ensures l.at == s.addr && |l.bytes| == s.memsz
    ensures forall k :: 0 <= k < s.memsz ==> l.bytes[k] == if k < s.filesz then f[s.offset + k] else 0
  {
    Load(s.addr, f[s.offset..s.offset + s.filesz] + Zeros(s.memsz - s.filesz))
  }

  /** The header as it is read from memory. */
  function MemSegment(m: Mem, ph: nat): Segment
    requires IsMem(m)
  {
    Segment(MemWord(m, ph + 4), MemWord(m, ph + 12), MemWord(m, ph + 16), MemWord(m, ph + 20))
  }

  lemma WordAt(m: Mem, addr: Word, f: seq<Byte>, at: nat, a: nat)
    requires Placed(m, addr, f) && at + 4 <= |f| && a == addr + at
    ensures MemWord(m, a) == Read32(f, at)
  {
    WordPlaced(m, addr, f, at);
  }

  lemma SegmentPlaced(m: Mem, addr: Word, f: seq<Byte>, at: nat, ph: nat, s: Segment)
    requires Placed(m, addr, f) && SegmentIs(f, at, s) && ph == addr + at
    ensures MemSegment(m, ph) == s
  {
    WordAt(m, addr, f, at + 4, ph + 4);
    WordAt(m, addr, f, at + 12, ph + 12);
    WordAt(m, addr, f, at + 16, ph + 16);
    WordAt(m, addr, f, at + 20, ph + 20);
  }

  /** A copy and the zeros after it. */
  lemma FillStores(m: Mem, addr: Word, f: seq<Byte>, dst: nat, off: nat, n: nat, memsz: nat, b: seq<Byte>, z: seq<Byte>)
    requires Placed(m, addr, f) && off + n <= |f| && n <= memsz && dst + memsz <= SPACE && Apart(addr, |f|, dst, memsz)
    requires b == f[off..off + n] && z == Zeros(memsz - n)
    ensures var m1 := Copy(m, dst, addr + off, n);
            && Placed(m1, addr, f)
            && Stored(m, Clear(m1, dst + n, memsz - n), dst, b + z) && Placed(Clear(m1, dst + n, memsz - n), addr, f)
  {
    CopyStores(m, addr, f, dst, off, b);
    var m1 := Copy(m, dst, addr + off, n);
    ClearStores(m1, dst + n, memsz - n, z);
    var m2 := Clear(m1, dst + n, memsz - n);
    StoredTwice(m, m1, m2, dst, b, z);
    StoredApart(m, m2, dst, b + z, addr, f);
  }

  lemma PaddedIsClear(m: Mem, dst: Word, filesz: Word, memsz: Word)
    requires IsMem(m) && filesz <= memsz
    ensures Padded(m, dst, filesz, memsz) == Clear(m, dst + filesz, memsz - filesz)
  {
  }

  /** A segment is copied and filled up. */
  function Filled(m: Mem, addr: Word, s: Segment): (m': Mem)
    requires IsMem(m)
    ensures IsMem(m')
  {
    Padded(Copy(m, s.addr, addr + s.offset, s.filesz), s.addr, s.filesz, s.memsz)
  }

  lemma FilledIs(m: Mem, addr: Word, s: Segment)
    requires IsMem(m) && s.filesz <= s.memsz
    ensures Filled(m, addr, s) ==
            Clear(Copy(m, s.addr, addr + s.offset, s.filesz), s.addr + s.filesz, s.memsz - s.filesz)
  {
    PaddedIsClear(Copy(m, s.addr, addr + s.offset, s.filesz), s.addr, s.filesz, s.memsz);
  }

  lemma FilledStores(m: Mem, addr: Word, f: seq<Byte>, s: Segment)
    requires Placed(m, addr, f) && Loadable(f, addr, s)
    ensures Stored(m, Filled(m, addr, s), s.addr, LoadOf(f, s).bytes) && Placed(Filled(m, addr, s), addr, f)
  {
    FilledIs(m, addr, s);
    var b, z := f[s.offset..s.offset + s.filesz], Zeros(s.memsz - s.filesz);
    FillStores(m, addr, f, s.addr, s.offset, s.filesz, s.memsz, b, z);
  }

  lemma SegmentIsFilled(m: Mem, addr: Word, ph: nat, s: Segment, m1: Mem)
    requires IsMem(m) && MemSegment(m, ph) == s && m1 == Copy(m, s.addr, addr + s.offset, s.filesz)
    requires MemSegment(m1, ph) == s
    ensures LoadSegment(m, addr, ph) == Filled(m, addr, s)
  {
  }

  /** One program header of a file in its place. */
  lemma SegmentLoads(m: Mem, addr: Word, f: seq<Byte>, at: nat, ph: nat, s: Segment)
    requires Placed(m, addr, f) && SegmentIs(f, at, s) && Loadable(f, addr, s) && ph == addr + at
    ensures LoadSegment(m, addr, ph) == Filled(m, addr, s)
  {
    var m1 := Copy(m, s.addr, addr + s.offset, s.filesz);
    CopyKeeps(m, addr, f, s);
    SegmentPlaced(m, addr, f, at, ph, s);
    SegmentPlaced(m1, addr, f, at, ph, s);
    SegmentIsFilled(m, addr, ph, s, m1);
  }

  lemma CopyKeeps(m: Mem, addr: Word, f: seq<Byte>, s: Segment)
    requires Placed(m, addr, f) && Loadable(f, addr, s)
    ensures Placed(Copy(m, s.addr, addr + s.offset, s.filesz), addr, f)
  {
    CopyStores(m, addr, f, s.addr, s.offset, f[s.offset..s.offset + s.filesz]);
  }

  function LoadsOf(f: seq<Byte>, segs: seq<Segment>): (ls: seq<Load>)
    requires forall i :: 0 <= i < |segs| ==> segs[i].offset + segs[i].filesz <= |f| && segs[i].filesz <= segs[i].memsz
    ensures |ls| == |segs| && forall i :: 0 <= i < |segs| ==> ls[i] == LoadOf(f, segs[i])
  {
    if segs == [] then [] else [LoadOf(f, segs[0])] + LoadsOf(f, segs[1..])
  }

  ghost predicate AllLoadable(f: seq<Byte>, addr: Word, segs: seq<Segment>) {
    forall i :: 0 <= i < |segs| ==> Loadable(f, addr, segs[i])
  }

  /** The segments one after the other. */
  ghost function FillAll(m: Mem, addr: Word, f: seq<Byte>, segs: seq<Segment>): (m': Mem)
    requires IsMem(m) && AllLoadable(f, addr, segs)
    ensures IsMem(m')
    decreases |segs|
  {
    if segs == [] then m
    else
      assert Loadable(f, addr, segs[0]);
      FillAll(Filled(m, addr, segs[0]), addr, f, segs[1..])
  }

  /** One round of the loop, and its end. */
  lemma OneRound(m: Mem, addr: Word, f: seq<Byte>, phoff: nat, segs: seq<Segment>, i: nat, ph: nat)
    requires Placed(m, addr, f) && HasSegments(f, phoff, segs) && AllLoadable(f, addr, segs) && i < |segs|
    requires ph == addr + (phoff + PHDR_SIZE * i)
    ensures segs[i].filesz <= segs[i].memsz
    ensures LoadSegments(m, addr, ph, i) == LoadSegments(Filled(m, addr, segs[i]), addr, ph + PHDR_SIZE, i + 1)
    ensures Placed(Filled(m, addr, segs[i]), addr, f)
  {
    var at, s := phoff + PHDR_SIZE * i, segs[i];
    assert Loadable(f, addr, s) && SegmentIs(f, at, s);
    SegmentLoads(m, addr, f, at, ph, s);
    FilledStores(m, addr, f, s);
    HalfPlaced(m, addr, f, 44);
    SegmentsStep(m, addr, ph, i);
  }

  lemma NoRound(m: Mem, addr: Word, f: seq<Byte>, phoff: nat, segs: seq<Segment>, ph: nat)
    requires Placed(m, addr, f) && HasSegments(f, phoff, segs)
    ensures LoadSegments(m, addr, ph, |segs|) == m
  {
    HalfPlaced(m, addr, f, 44);
  }

  /** The loop from header `i` on. */
  lemma {:induction false} SegmentsLoad(m: Mem, addr: Word, f: seq<Byte>, phoff: nat, segs: seq<Segment>, i: nat,
                                        ph: nat)
    requires Placed(m, addr, f) && HasSegments(f, phoff, segs) && AllLoadable(f, addr, segs) && i <= |segs|
    requires ph == addr + (phoff + PHDR_SIZE * i)
    ensures AllLoadable(f, addr, segs[i..]) && LoadSegments(m, addr, ph, i) == FillAll(m, addr, f, segs[i..])
    decreases |segs| - i
  {
    if i == |segs| {
      NoRound(m, addr, f, phoff, segs, ph);
      assert segs[i..] == [];
    } else {
      OneRound(m, addr, f, phoff, segs, i, ph);
      SegmentsLoad(Filled(m, addr, segs[i]), addr, f, phoff, segs, i + 1, ph + PHDR_SIZE);
      FillStep(m, addr, f, segs, i);
    }
  }

  lemma FillStep(m: Mem, addr: Word, f: seq<Byte>, segs: seq<Segment>, i: nat)
    requires IsMem(m) && i < |segs| && AllLoadable(f, addr, segs)
    ensures segs[i].filesz <= segs[i].memsz && AllLoadable(f, addr, segs[i..]) && AllLoadable(f, addr, segs[i + 1..])
    ensures FillAll(m, addr, f, segs[i..]) == FillAll(Filled(m, addr, segs[i]), addr, f, segs[i + 1..])
  {
    assert Loadable(f, addr, segs[i]);
    assert segs[i..][0] == segs[i] && segs[i..][1..] == segs[i + 1..];
  }

  lemma {:induction false} SegmentsLay(m: Mem, addr: Word, f: seq<Byte>, segs: seq<Segment>)
    requires Placed(m, addr, f) && AllLoadable(f, addr, segs) && AllApart(LoadsOf(f, segs))
    ensures Placed(FillAll(m, addr, f, segs), addr, f) && Laid(m, FillAll(m, addr, f, segs), LoadsOf(f, segs))
    decreases |segs|
  {
    if segs == [] {
      NothingLaid(m);
    } else {
      var ls, rest := LoadsOf(f, segs), segs[1..];
      assert Loadable(f, addr, segs[0]);
      FilledStores(m, addr, f, segs[0]);
      var m1 := Filled(m, addr, segs[0]);
      assert ls[1..] == LoadsOf(f, rest);
      RestApart(ls);
      SegmentsLay(m1, addr, f, rest);
      LaidStep(m, m1, FillAll(m1, addr, f, rest), ls);
    }
  }

  lemma RestApart(ls: seq<Load>)
    requires ls != [] && AllApart(ls)
    ensures AllApart(ls[1..])
  {
  }

  ghost predicate SegmentsApart(segs: seq<Segment>) {
    forall i, j :: 0 <= i < j < |segs| ==> Apart(segs[i].addr, segs[i].memsz, segs[j].addr, segs[j].memsz)
  }

  /** The destination of the segment holds its bytes of the file, and zeros up to the memory size. */
  ghost predicate Holds(m: Mem, f: seq<Byte>, s: Segment)
    requires IsMem(m) && s.addr + s.memsz <= SPACE && s.offset + s.filesz <= |f|
  {
    forall a :: s.addr <= a < s.addr + s.memsz ==>
      m[a] == if a < s.addr + s.filesz then f[s.offset + (a - s.addr)] else 0
  }

  ghost predicate Covered(segs: seq<Segment>, a: nat) {
    exists i :: 0 <= i < |segs| && segs[i].addr <= a < segs[i].addr + segs[i].memsz
  }

  /** For every file that lies in memory, with any program headers whose destinations are apart from the file
      and from each other: after loading, each destination holds the file's bytes and then zeros up to the
      memory size, every other cell is as before, and the entry point is the one of the file. */
  lemma LoadsByPhdr(m: Mem, addr: Word, f: seq<Byte>, phoff: nat, segs: seq<Segment>)
    requires Placed(m, addr, f) && HasSegments(f, phoff, segs) && AllLoadable(f, addr, segs) && SegmentsApart(segs)
    ensures var (m', entry) := LoadByPhdr(m, addr);
            && entry == Read32(f, 24) && IsMem(m')
            && (forall i :: 0 <= i < |segs| ==> Holds(m', f, segs[i]))
            && (forall a :: 0 <= a < SPACE && !Covered(segs, a) ==> m'[a] == m[a])
  {
    var m' := FillAll(m, addr, f, segs);
    LoadIsFillAll(m, addr, f, phoff, segs);
    LoadsAreApart(f, segs);
    SegmentsLay(m, addr, f, segs);
    WordPlaced(m', addr, f, 24);
    LaidHolds(m, m', f, segs);
  }

  lemma StartsAt(m: Mem, addr: Word, off: nat, m': Mem)
    requires IsMem(m) && MemWord(m, addr + 28) == off && LoadSegments(m, addr, addr + off, 0) == m'
    ensures LoadByPhdr(m, addr).0 == m'
  {
  }

  lemma AllLoad(m: Mem, addr: Word, f: seq<Byte>, phoff: nat, segs: seq<Segment>, ph: nat)
    requires Placed(m, addr, f) && HasSegments(f, phoff, segs) && AllLoadable(f, addr, segs) && ph == addr + phoff
    ensures LoadSegments(m, addr, ph, 0) == FillAll(m, addr, f, segs)
  {
    SegmentsLoad(m, addr, f, phoff, segs, 0, ph);
    assert segs[0..] == segs;
  }

  lemma LoadIsFillAll(m: Mem, addr: Word, f: seq<Byte>, phoff: nat, segs: seq<Segment>)
    requires Placed(m, addr, f) && HasSegments(f, phoff, segs) && AllLoadable(f, addr, segs)
    ensures LoadByPhdr(m, addr).0 == FillAll(m, addr, f, segs)
  {
    WordPlaced(m, addr, f, 28);
    AllLoad(m, addr, f, phoff, segs, addr + phoff);
    StartsAt(m, addr, phoff, FillAll(m, addr, f, segs));
  }

  lemma LoadsAreApart(f: seq<Byte>, segs: seq<Segment>)
    requires forall i :: 0 <= i < |segs| ==> segs[i].offset + segs[i].filesz <= |f| && segs[i].filesz <= segs[i].memsz
    requires SegmentsApart(segs)
    ensures AllApart(LoadsOf(f, segs))
  {
    var ls := LoadsOf(f, segs);
    forall i, j | 0 <= i < j < |ls| ensures Apart(ls[i].at, |ls[i].bytes|, ls[j].at, |ls[j].bytes|) {
      assert ls[i] == LoadOf(f, segs[i]) && ls[j] == LoadOf(f, segs[j]);
    }
  }

  lemma LaidHolds(m: Mem, m': Mem, f: seq<Byte>, segs: seq<Segment>)
    requires forall i :: 0 <= i < |segs| ==>
               && segs[i].offset + segs[i].filesz <= |f| && segs[i].filesz <= segs[i].memsz
               && segs[i].addr + segs[i].memsz <= SPACE
    requires Laid(m, m', LoadsOf(f, segs))
    ensures forall i :: 0 <= i < |segs| ==> Holds(m', f, segs[i])
    ensures forall a :: 0 <= a < SPACE && !Covered(segs, a) ==> m'[a] == m[a]
  {
    var ls := LoadsOf(f, segs);
    forall i | 0 <= i < |segs| ensures Holds(m', f, segs[i]) {
      LaidAt(m, m', ls, i);
      LoadHolds(m', f, segs[i], ls[i]);
    }
    forall a | 0 <= a < SPACE && !Covered(segs, a) ensures m'[a] == m[a] {
      forall i | 0 <= i < |ls| ensures !Inside(ls[i], a) { assert ls[i] == LoadOf(f, segs[i]); }
      LaidElsewhere(m, m', ls, a);
    }
  }

  lemma LaidAt(m: Mem, m': Mem, ls: seq<Load>, i: nat)
    requires Laid(m, m', ls) && i < |ls|
    ensures HasBytes(m', ls[i])
  {
  }

  lemma LaidElsewhere(m: Mem, m': Mem, ls: seq<Load>, a: nat)
    requires Laid(m, m', ls) && a < SPACE && forall i :: 0 <= i < |ls| ==> !Inside(ls[i], a)
    ensures m'[a] == m[a]
  {
  }

  lemma LoadHolds(m: Mem, f: seq<Byte>, s: Segment, l: Load)
    requires IsMem(m) && s.addr + s.memsz <= SPACE && s.offset + s.filesz <= |f| && s.filesz <= s.memsz
    requires l == LoadOf(f, s) && HasBytes(m, l)
    ensures Holds(m, f, s)
  {
    forall a | s.addr <= a < s.addr + s.memsz
      ensures m[a] == if a < s.addr + s.filesz then f[s.offset + (a - s.addr)] else 0
    {
      assert m[l.at + (a - s.addr)] == l.bytes[a - s.addr];
    }
  }

  // ----- a memory size below the file size -----

  lemma {:induction false} ClearParts(m: Mem, dst: nat, n: nat, k: nat)
    requires IsMem(m) && k <= n
    ensures Clear(m, dst, n) == Clear(Clear(m, dst, k), dst + k, n - k)
    decreases k
  {
    if k != 0 { ClearParts(m[Cell(dst) := 0], dst + 1, n - 1, k - 1); }
  }

  lemma {:induction false} ClearAgain(m: Mem, dst: nat, n: nat)
    requires IsMem(m)
    ensures Clear(m, SPACE + dst, n) == Clear(m, dst, n)
    decreases n
  {
    if n != 0 { ClearAgain(m[Cell(dst) := 0], dst + 1, n - 1); }
  }

  /** The length of the fill is computed in 32 bits: with a memory size below the file size it runs once round
      the address space and clears everything but the cells between the two sizes. */
  lemma ShortSegmentWipes(m: Mem, dst: Word, filesz: Word, memsz: Word, a: nat)
    requires IsMem(m) && memsz < filesz && dst + filesz <= SPACE && a < SPACE
    ensures Padded(m, dst, filesz, memsz)[a] == if dst + memsz <= a < dst + filesz then m[a] else 0
  {
    var d := dst + filesz;
    var n, k := SPACE - filesz + memsz, SPACE - d;
    var m1 := Clear(m, d, k);
    ClearParts(m, d, n, k);
    ClearAgain(m1, 0, n - k);
    ClearAt(m, d, k, a);
    ClearAt(m1, 0, n - k, a);
  }

  // ----- section headers -----

  /** A section that is loaded: marked for allocation, with an address and a size. */
  predicate IsLoaded(s: Section) {
    s.flags / 2 % 2 == 1 && s.addr != 0 && s.size != 0
  }

  /** The destination is in the space and apart from the file, and so is what is copied to it. */
  ghost predicate SectionFits(f: seq<Byte>, addr: Word, s: Section) {
    IsLoaded(s) ==>
      && s.addr + s.size <= SPACE && Apart(addr, |f|, s.addr, s.size)
      && (s.typ != 8 ==> s.offset + s.size <= |f|)
  }

  /** The zeros of a section without bits, the bytes of any other that is loaded. */
  function SectionLoad(f: seq<Byte>, s: Section): (l: Load)
    requires IsLoaded(s) && s.typ != 8 ==> s.offset + s.size <= |f|
  {
    if !IsLoaded(s) then Load(0, [])
    else Load(s.addr, if s.typ == 8 then Zeros(s.size) else f[s.offset..s.offset + s.size])
  }

  lemma SectionStores(m: Mem, addr: Word, f: seq<Byte>, s: Section)
    requires Placed(m, addr, f) && SectionFits(f, addr, s)
    ensures var l := SectionLoad(f, s); Stored(m, LoadSection(m, addr, s), l.at, l.bytes)
    ensures Placed(LoadSection(m, addr, s), addr, f)
  {
    var b := SectionLoad(f, s).bytes;
    if !IsLoaded(s) {
      SectionSkipped(m, addr, s);
    } else if s.typ == 8 {
      ClearStores(m, s.addr, s.size, b);
      StoredApart(m, Clear(m, s.addr, s.size), s.addr, b, addr, f);
    } else {
      CopyStores(m, addr, f, s.addr, s.offset, b);
    }
  }

  lemma SectionSkipped(m: Mem, addr: Word, s: Section)
    requires IsMem(m) && !IsLoaded(s)
    ensures LoadSection(m, addr, s) == m
  {
  }

  ghost predicate AllFit(f: seq<Byte>, addr: Word, secs: seq<Section>) {
    forall i :: 0 <= i < |secs| ==> SectionFits(f, addr, secs[i])
  }

  ghost predicate SectionsApart(secs: seq<Section>) {
    forall i, j :: 0 <= i < j < |secs| && IsLoaded(secs[i]) && IsLoaded(secs[j]) ==>
      Apart(secs[i].addr, secs[i].size, secs[j].addr, secs[j].size)
  }

  ghost function SectionLoads(f: seq<Byte>, addr: Word, secs: seq<Section>): (ls: seq<Load>)
    requires AllFit(f, addr, secs)
    ensures |ls| == |secs|
    ensures forall i :: 0 <= i < |secs| ==> SectionFits(f, addr, secs[i]) && ls[i] == SectionLoad(f, secs[i])
    decreases |secs|
  {
    if secs == [] then []
    else
      assert SectionFits(f, addr, secs[0]);
      [SectionLoad(f, secs[0])] + SectionLoads(f, addr, secs[1..])
  }

  lemma LoadsApart(f: seq<Byte>, addr: Word, secs: seq<Section>)
    requires AllFit(f, addr, secs) && SectionsApart(secs)
    ensures AllApart(SectionLoads(f, addr, secs))
  {
    var ls := SectionLoads(f, addr, secs);
    forall i, j | 0 <= i < j < |ls| ensures Apart(ls[i].at, |ls[i].bytes|, ls[j].at, |ls[j].bytes|) {
      assert ls[i] == SectionLoad(f, secs[i]) && ls[j] == SectionLoad(f, secs[j]);
    }
  }

  /** The loop over the sections themselves. */
  lemma {:induction false} SectionsLay(m: Mem, addr: Word, f: seq<Byte>, secs: seq<Section>)
    requires Placed(m, addr, f) && AllFit(f, addr, secs) && AllApart(SectionLoads(f, addr, secs))
    ensures StaysPlaced(m, addr, f, secs) && Laid(m, LoadAll(m, addr, secs), SectionLoads(f, addr, secs))
    ensures Placed(LoadAll(m, addr, secs), addr, f)
    decreases |secs|
  {
    if secs == [] {
      NothingLaid(m);
    } else {
      var ls, rest := SectionLoads(f, addr, secs), secs[1..];
      var m1 := LoadSection(m, addr, secs[0]);
      assert SectionFits(f, addr, secs[0]);
      SectionStores(m, addr, f, secs[0]);
      assert ls[1..] == SectionLoads(f, addr, rest);
      RestApart(ls);
      SectionsLay(m1, addr, f, rest);
      LaidStep(m, m1, LoadAll(m1, addr, rest), ls);
    }
  }

  /** The destination of a section holds zeros if it has no bits, else its bytes of the file. */
  ghost predicate SectionHeld(m: Mem, f: seq<Byte>, s: Section)
    requires IsMem(m) && s.addr + s.size <= SPACE && (s.typ != 8 ==> s.offset + s.size <= |f|)
  {
    forall a :: s.addr <= a < s.addr + s.size ==> m[a] == if s.typ == 8 then 0 else f[s.offset + (a - s.addr)]
  }

  ghost predicate SectionCovered(secs: seq<Section>, a: nat) {
    exists i :: 0 <= i < |secs| && IsLoaded(secs[i]) && secs[i].addr <= a < secs[i].addr + secs[i].size
  }

  /** The same by section headers: every section that is marked for allocation and has an address and a size
      holds zeros or its bytes of the file, and every other cell is as before. */
  lemma LoadsByShdr(m: Mem, addr: Word, f: seq<Byte>, shoff: nat, secs: seq<Section>)
    requires Placed(m, addr, f) && HasTable(f, shoff, secs) && AllFit(f, addr, secs) && SectionsApart(secs)
    ensures var (m', entry) := LoadByShdr(m, addr);
            && entry == Read32(f, 24) && IsMem(m')
            && (forall i :: 0 <= i < |secs| && IsLoaded(secs[i]) ==>
                  SectionFits(f, addr, secs[i]) && SectionHeld(m', f, secs[i]))
            && (forall a :: 0 <= a < SPACE && !SectionCovered(secs, a) ==> m'[a] == m[a])
  {
    LoadsApart(f, addr, secs);
    SectionsLay(m, addr, f, secs);
    assert secs[0..] == secs;
    LoadsTable(m, addr, f, shoff, secs, 0);
    var m' := LoadByShdr(m, addr).0;
    WordPlaced(m', addr, f, 24);
    SectionsHeld(m, m', addr, f, secs);
  }

  lemma SectionsHeld(m: Mem, m': Mem, addr: Word, f: seq<Byte>, secs: seq<Section>)
    requires AllFit(f, addr, secs) && Laid(m, m', SectionLoads(f, addr, secs))
    ensures forall i :: 0 <= i < |secs| && IsLoaded(secs[i]) ==>
              SectionFits(f, addr, secs[i]) && SectionHeld(m', f, secs[i])
    ensures forall a :: 0 <= a < SPACE && !SectionCovered(secs, a) ==> m'[a] == m[a]
  {
    var ls := SectionLoads(f, addr, secs);
    forall i | 0 <= i < |secs| && IsLoaded(secs[i])
      ensures SectionFits(f, addr, secs[i]) && SectionHeld(m', f, secs[i])
    {
      assert SectionFits(f, addr, secs[i]) && ls[i] == SectionLoad(f, secs[i]);
      LaidAt(m, m', ls, i);
      SectionIsHeld(m', addr, f, secs[i], ls[i]);
    }
    forall a | 0 <= a < SPACE && !SectionCovered(secs, a) ensures m'[a] == m[a] {
      forall i | 0 <= i < |ls| ensures !Inside(ls[i], a) { assert ls[i] == SectionLoad(f, secs[i]); }
      LaidElsewhere(m, m', ls, a);
    }
  }

  lemma SectionIsHeld(m: Mem, addr: Word, f: seq<Byte>, s: Section, l: Load)
    requires IsMem(m) && SectionFits(f, addr, s) && IsLoaded(s) && l == SectionLoad(f, s) && HasBytes(m, l)
    ensures SectionHeld(m, f, s)
  {
    forall a | s.addr <= a < s.addr + s.size
      ensures m[a] == if s.typ == 8 then 0 else f[s.offset + (a - s.addr)]
    {
      assert m[l.at + (a - s.addr)] == l.bytes[a - s.addr];
    }
  }
}
