/** Loading an ELF file that lies in memory (System V gABI, chapter 5 Program Loading), by program
    headers or by section headers.  Memory is the whole 32-bit address space and addresses wrap. */
module ElfLoader {
  import opened Bytes
  import opened ElfImage

  const SPACE := 0x1_0000_0000

  type Mem = seq<Byte>

  predicate IsMem(m: Mem) { |m| == SPACE }

  /** The cell an address denotes. */
  function Cell(a: nat): (c: nat)
    ensures c < SPACE && (a < SPACE ==> c == a)
  {
    if a < SPACE then a else Cell(a - SPACE)
  }

  function MemWord(m: Mem, a: nat): Word
    requires IsMem(m)
  {
    Join(m[Cell(a)], m[Cell(a + 1)], m[Cell(a + 2)], m[Cell(a + 3)])
  }

  function MemHalf(m: Mem, a: nat): (h: nat)
    requires IsMem(m)
    ensures h < 65536
  {
    var lo: nat, hi: nat := m[Cell(a)], m[Cell(a + 1)];
    lo + 256 * hi
  }

  /** `memcpy`, byte by byte upwards. */
  function Copy(m: Mem, dst: nat, src: nat, n: nat): (m': Mem)
    requires IsMem(m)
    ensures IsMem(m')
    decreases n
  {
    if n == 0 then m else Copy(m[Cell(dst) := m[Cell(src)]], dst + 1, src + 1, n - 1)
  }

  /** `memset` to 0. */
  function Clear(m: Mem, dst: nat, n: nat): (m': Mem)
    requires IsMem(m)
    ensures IsMem(m')
    decreases n
  {
    if n == 0 then m else Clear(m[Cell(dst) := 0], dst + 1, n - 1)
  }

  /** 32-bit subtraction. */
  function Minus(a: Word, b: Word): Word {
    if a >= b then a - b else a - b + SPACE
  }

  /** Zeros from the file size of a segment up to its memory size. */
  function Padded(m: Mem, dst: Word, filesz: Word, memsz: Word): (m': Mem)
    requires IsMem(m)
    ensures IsMem(m')
  {
    if filesz != memsz then Clear(m, dst + filesz, Minus(memsz, filesz)) else m
  }

  /** The zero fill of a segment; its sizes are read again after the copy. */
  function ZeroFill(m: Mem, dst: Word, ph: nat): (m': Mem)
    requires IsMem(m)
    ensures IsMem(m')
  {
    Padded(m, dst, MemWord(m, ph + 16), MemWord(m, ph + 20))
  }

  /** One program header. */
  function LoadSegment(m: Mem, addr: Word, ph: nat): (m': Mem)
    requires IsMem(m)
    ensures IsMem(m')
  {
    var dst := MemWord(m, ph + 12);
    ZeroFill(Copy(m, dst, addr + MemWord(m, ph + 4), MemWord(m, ph + 16)), dst, ph)
  }

  function LoadSegments(m: Mem, addr: Word, ph: nat, i: nat): (m': Mem)
    requires IsMem(m)
    ensures IsMem(m')
    decreases 65536 - i
  {
    if i >= MemHalf(m, addr + 44) then m
    else LoadSegments(LoadSegment(m, addr, ph), addr, ph + PHDR_SIZE, i + 1)
  }

  lemma SegmentsStep(m: Mem, addr: Word, ph: nat, i: nat)
    requires IsMem(m) && i < MemHalf(m, addr + 44)
    ensures LoadSegments(m, addr, ph, i) == LoadSegments(LoadSegment(m, addr, ph), addr, ph + PHDR_SIZE, i + 1)
  {
  }

  /** `load_elf_image_phdr`: the memory afterwards and the entry point. */
  function LoadByPhdr(m: Mem, addr: Word): (Mem, Word)
    requires IsMem(m)
  {
    var m' := LoadSegments(m, addr, addr + MemWord(m, addr + 28), 0);
    (m', MemWord(m', addr + 24))
  }

  const ALLOC := 2
  const NOBITS := 8

  /** The fields of a section header the loader looks at. */
  datatype Section = Section(typ: Word, flags: Word, addr: Word, offset: Word, size: Word)

  function MemSection(m: Mem, a: nat): Section
    requires IsMem(m)
  {
    Section(MemWord(m, a + 4), MemWord(m, a + 8), MemWord(m, a + 12), MemWord(m, a + 16), MemWord(m, a + 20))
  }

  function LoadSection(m: Mem, addr: Word, h: Section): (m': Mem)
    requires IsMem(m)
    ensures IsMem(m')
  {
    if h.flags / ALLOC % 2 == 0 || h.addr == 0 || h.size == 0 then m
    else if h.typ == NOBITS then Clear(m, h.addr, h.size)
    else Copy(m, h.addr, addr + h.offset, h.size)
  }

  function LoadSections(m: Mem, addr: Word, i: nat): (m': Mem)
    requires IsMem(m)
    ensures IsMem(m')
    decreases 65536 - i
  {
    if i >= MemHalf(m, addr + 48) then m
    else LoadSections(LoadSection(m, addr, MemSection(m, addr + (MemWord(m, addr + 32) + SHDR_SIZE * i))), addr, i + 1)
  }

  /** `load_elf_image_shdr` */
  function LoadByShdr(m: Mem, addr: Word): (Mem, Word)
    requires IsMem(m)
  {
    var m' := LoadSections(m, addr, 0);
    (m', MemWord(m', addr + 24))
  }

  /** `valid_elf_image`: the magic number, and an executable. */
  predicate ValidImage(m: Mem, addr: Word)
    requires IsMem(m)
  {
    MemWord(m, addr) == 0x464c457f && MemHalf(m, addr + 16) == 2
  }

  // ----- files in memory -----

  ghost predicate Placed(m: Mem, addr: Word, f: seq<Byte>) {
    IsMem(m) && addr + |f| <= SPACE && m[addr..addr + |f|] == f
  }

  ghost predicate Apart(a: nat, n: nat, b: nat, k: nat) {
    a + n <= b || b + k <= a
  }

  lemma WordPlaced(m: Mem, addr: Word, f: seq<Byte>, at: nat)
    requires Placed(m, addr, f) && at + 4 <= |f|
    ensures MemWord(m, addr + at) == Read32(f, at)
  {
    assert f[at] == m[addr + at] && f[at + 1] == m[addr + at + 1] && f[at + 2] == m[addr + at + 2]
        && f[at + 3] == m[addr + at + 3];
  }

  lemma HalfPlaced(m: Mem, addr: Word, f: seq<Byte>, at: nat)
    requires Placed(m, addr, f) && at + 4 <= |f|
    ensures MemHalf(m, addr + at) == Read32(f, at) % 65536
  {
    assert f[at] == m[addr + at] && f[at + 1] == m[addr + at + 1];
    HalfOfJoin(f[at], f[at + 1], f[at + 2], f[at + 3]);
  }

  lemma HalfOfJoin(a: Byte, b: Byte, c: Byte, d: Byte)
    ensures Join(a, b, c, d) % 65536 == a + 256 * b as int
  {
  }

  function SectionOf(h: Shdr): Section {
    Section(h.typ, h.flags, h.addr, h.offset, h.size)
  }

  lemma ShdrPlaced(m: Mem, addr: Word, f: seq<Byte>, at: nat)
    requires Placed(m, addr, f) && at + SHDR_SIZE <= |f|
    ensures MemSection(m, addr + at) == SectionOf(ReadShdr(f, at))
  {
    WordPlaced(m, addr, f, at + 4);
    WordPlaced(m, addr, f, at + 8);
    WordPlaced(m, addr, f, at + 12);
    WordPlaced(m, addr, f, at + 16);
    WordPlaced(m, addr, f, at + 20);
  }

  /** A copy between separate ranges, cell by cell. */
  lemma {:induction false} CopyApart(m: Mem, dst: nat, src: nat, n: nat, a: nat)
    requires IsMem(m) && dst + n <= SPACE && src + n <= SPACE && Apart(dst, n, src, n) && a < SPACE
    ensures Copy(m, dst, src, n)[a] == if dst <= a < dst + n then m[src + (a - dst)] else m[a]
    decreases n
  {
    if n != 0 {
      CopyApart(m[dst := m[src]], dst + 1, src + 1, n - 1, a);
    }
  }

  /** Memory with `b` stored at `at`. */
  ghost predicate Stored(m: Mem, m': Mem, at: nat, b: seq<Byte>) {
    IsMem(m) && IsMem(m') && at + |b| <= SPACE &&
    forall a :: 0 <= a < SPACE ==> m'[a] == if at <= a < at + |b| then b[a - at] else m[a]
  }

  lemma StoredApart(m: Mem, m': Mem, at: nat, b: seq<Byte>, addr: Word, f: seq<Byte>)
    requires Placed(m, addr, f) && Stored(m, m', at, b) && Apart(addr, |f|, at, |b|)
    ensures Placed(m', addr, f)
  {
  }

  /** Copying a slice of a placed file to a place apart from the file stores that slice. */
  lemma CopyStores(m: Mem, addr: Word, f: seq<Byte>, dst: nat, off: nat, b: seq<Byte>)
    requires Placed(m, addr, f) && off + |b| <= |f| && f[off..off + |b|] == b
    requires dst + |b| <= SPACE && Apart(addr, |f|, dst, |b|)
    ensures Stored(m, Copy(m, dst, addr + off, |b|), dst, b)
    ensures Placed(Copy(m, dst, addr + off, |b|), addr, f)
  {
    var m' := Copy(m, dst, addr + off, |b|);
    forall a | 0 <= a < SPACE ensures m'[a] == if dst <= a < dst + |b| then b[a - dst] else m[a] {
      CopyApart(m, dst, addr + off, |b|, a);
      if dst <= a < dst + |b| {
        assert m[addr + (off + (a - dst))] == f[off + (a - dst)] == f[off..off + |b|][a - dst];
      }
    }
    StoredApart(m, m', dst, b, addr, f);
  }

  // ----- loading what was wrapped -----

  /** The wrapped file is in memory, and the ROM's destination is in memory apart from it. */
  ghost predicate ReadyToLoad(m: Mem, addr: Word, img: Image) {
    && Fits(img) && Placed(m, addr, File(img))
    && img.base + |img.rom| <= SPACE && Apart(addr, |File(img)|, img.base, |img.rom|)
  }

  lemma RomSlice(img: Image)
    requires Fits(img)
    ensures PG_SIZE + |img.rom| <= |File(img)| && File(img)[PG_SIZE..PG_SIZE + |img.rom|] == img.rom
    ensures PartOffset(img, 0) == PG_SIZE
  {
    PartIsThere(img, 0);
  }

  lemma WrappedIsValid(m: Mem, addr: Word, img: Image)
    requires Fits(img) && Placed(m, addr, File(img))
    ensures ValidImage(m, addr)
  {
    EhdrReads(img, 0);
    EhdrReads(img, 4);
    WordPlaced(m, addr, File(img), 0);
    HalfPlaced(m, addr, File(img), 16);
  }

  /** The fields of the file header the loaders use. */
  lemma HeaderPlaced(m: Mem, addr: Word, f: seq<Byte>)
    requires Placed(m, addr, f) && |f| >= EHDR_SIZE
    ensures MemWord(m, addr + 24) == Read32(f, 24) && MemWord(m, addr + 28) == Read32(f, 28)
        && MemWord(m, addr + 32) == Read32(f, 32)
    ensures MemHalf(m, addr + 44) == Read32(f, 44) % 65536 && MemHalf(m, addr + 48) == Read32(f, 48) % 65536
  {
    WordPlaced(m, addr, f, 24);
    WordPlaced(m, addr, f, 28);
    WordPlaced(m, addr, f, 32);
    HalfPlaced(m, addr, f, 44);
    HalfPlaced(m, addr, f, 48);
  }

  lemma HeaderReads(img: Image)
    requires Fits(img)
    ensures var f := File(img);
            && |f| >= PG_SIZE && Read32(f, 24) == img.entry && Read32(f, 28) == EHDR_SIZE && Read32(f, 32) == ShOff(img)
            && Read32(f, 44) % 65536 == 1 && Read32(f, 48) % 65536 == |Headers(img)|
  {
    HeaderWords(img);
    HeaderCounts(img);
  }

  lemma HeaderWords(img: Image)
    requires Fits(img)
    ensures |File(img)| >= PG_SIZE && Read32(File(img), 24) == img.entry
    ensures Read32(File(img), 28) == EHDR_SIZE && Read32(File(img), 32) == ShOff(img)
  {
    EhdrReads(img, 6);
    EhdrReads(img, 7);
    EhdrReads(img, 8);
  }

  lemma HeaderCounts(img: Image)
    requires Fits(img)
    ensures |File(img)| >= PG_SIZE
    ensures Read32(File(img), 44) % 65536 == 1 && Read32(File(img), 48) % 65536 == |Headers(img)|
  {
    EhdrReads(img, 11);
    EhdrReads(img, 12);
  }

  lemma PhdrPlaced(m: Mem, addr: Word, img: Image)
    requires Fits(img) && Placed(m, addr, File(img))
    ensures var ph := addr + EHDR_SIZE;
            && MemWord(m, ph + 4) == PG_SIZE && MemWord(m, ph + 12) == img.base
            && MemWord(m, ph + 16) == |img.rom| == MemWord(m, ph + 20)
  {
    PhdrReads(img, 1);
    PhdrReads(img, 3);
    PhdrReads(img, 4);
    PhdrReads(img, 5);
    WordPlaced(m, addr, File(img), EHDR_SIZE + 4);
    WordPlaced(m, addr, File(img), EHDR_SIZE + 12);
    WordPlaced(m, addr, File(img), EHDR_SIZE + 16);
    WordPlaced(m, addr, File(img), EHDR_SIZE + 20);
  }

  /** Loading a wrapped file by program headers puts the ROM at its base, changes nothing else, and
      returns the entry point. */
  lemma WrapThenLoadByPhdr(m: Mem, addr: Word, img: Image)
    requires ReadyToLoad(m, addr, img)
    ensures var (m', entry) := LoadByPhdr(m, addr);
            Stored(m, m', img.base, img.rom) && entry == img.entry
  {
    RomSlice(img);
    CopyStores(m, addr, File(img), img.base, PG_SIZE, img.rom);
    var m' := Copy(m, img.base, addr + PG_SIZE, |img.rom|);
    HeaderReads(img);
    HeaderPlaced(m, addr, File(img));
    HeaderPlaced(m', addr, File(img));
    PhdrPlaced(m, addr, img);
    PhdrPlaced(m', addr, img);
    var ph := addr + EHDR_SIZE;
    assert LoadSegment(m, addr, ph) == m';
    assert LoadSegments(m', addr, ph + PHDR_SIZE, 1) == m';
  }

  /** The file `f` has its section headers at `shoff`, and they say `secs`. */
  ghost predicate HasTable(f: seq<Byte>, shoff: nat, secs: seq<Section>) {
    && |f| >= EHDR_SIZE && Read32(f, 32) == shoff && Read32(f, 48) % 65536 == |secs|
    && shoff + SHDR_SIZE * |secs| <= |f|
    && forall i :: 0 <= i < |secs| ==> SectionAt(f, shoff, i) == secs[i]
  }

  function SectionAt(f: seq<Byte>, shoff: nat, i: nat): Section
    requires shoff + SHDR_SIZE * (i + 1) <= |f|
  {
    SectionOf(ReadShdr(f, shoff + SHDR_SIZE * i))
  }

  ghost function SectionsOf(img: Image): (s: seq<Section>)
    requires Fits(img)
    ensures |s| == |Headers(img)| && forall i :: 0 <= i < |s| ==> s[i] == SectionOf(Headers(img)[i])
  {
    seq(|Headers(img)|, i requires 0 <= i < |Headers(img)| => SectionOf(Headers(img)[i]))
  }

  lemma EntryIsThere(img: Image, i: nat)
    requires Fits(img) && i < |Headers(img)|
    ensures ShOff(img) + SHDR_SIZE * (i + 1) <= |File(img)|
    ensures SectionAt(File(img), ShOff(img), i) == SectionsOf(img)[i]
  {
    ShdrReads(img, i);
  }

  lemma FileHasTable(img: Image)
    requires Fits(img)
    ensures HasTable(File(img), ShOff(img), SectionsOf(img))
  {
    HeaderReads(img);
    FileSize(img);
    var f, shoff, secs := File(img), ShOff(img), SectionsOf(img);
    forall i | 0 <= i < |secs| ensures SectionAt(f, shoff, i) == secs[i] {
      EntryIsThere(img, i);
    }
  }

  /** The section loop over the sections themselves. */
  function LoadAll(m: Mem, addr: Word, secs: seq<Section>): (m': Mem)
    requires IsMem(m)
    ensures IsMem(m')
    decreases |secs|
  {
    if secs == [] then m else LoadAll(LoadSection(m, addr, secs[0]), addr, secs[1..])
  }

  /** The file is still in place before each round. */
  ghost predicate StaysPlaced(m: Mem, addr: Word, f: seq<Byte>, secs: seq<Section>)
    decreases |secs|
  {
    Placed(m, addr, f) && (secs != [] ==> StaysPlaced(LoadSection(m, addr, secs[0]), addr, f, secs[1..]))
  }

  /** One round of the loop, with what is read from memory given. */
  lemma LoadStep(m: Mem, addr: Word, i: nat, n: nat, shoff: nat, s: Section, next: Mem)
    requires IsMem(m) && n == MemHalf(m, addr + 48) && shoff == MemWord(m, addr + 32) && i < n
    requires s == MemSection(m, addr + (shoff + SHDR_SIZE * i)) && next == LoadSection(m, addr, s)
    ensures LoadSections(m, addr, i) == LoadSections(next, addr, i + 1)
  {
  }

  lemma LoadEnds(m: Mem, addr: Word, i: nat)
    requires IsMem(m) && i >= MemHalf(m, addr + 48)
    ensures LoadSections(m, addr, i) == m
  {
  }

  /** What is read from memory while the file is in place. */
  lemma TablePlaced(m: Mem, addr: Word, f: seq<Byte>, shoff: nat, secs: seq<Section>, i: nat)
    requires Placed(m, addr, f) && HasTable(f, shoff, secs)
    ensures MemHalf(m, addr + 48) == |secs| && MemWord(m, addr + 32) == shoff
    ensures i < |secs| ==> MemSection(m, addr + (shoff + SHDR_SIZE * i)) == secs[i]
  {
    WordPlaced(m, addr, f, 32);
    HalfPlaced(m, addr, f, 48);
    if i < |secs| { EntryPlaced(m, addr, f, shoff, i, secs[i]); }
  }

  lemma EntryPlaced(m: Mem, addr: Word, f: seq<Byte>, shoff: nat, i: nat, s: Section)
    requires Placed(m, addr, f) && shoff + SHDR_SIZE * (i + 1) <= |f| && SectionAt(f, shoff, i) == s
    ensures MemSection(m, addr + (shoff + SHDR_SIZE * i)) == s
  {
    ShdrPlaced(m, addr, f, shoff + SHDR_SIZE * i);
  }

  /** As long as loading leaves the file alone, the loop loads the sections of its table. */
  lemma {:induction false} LoadsTable(m: Mem, addr: Word, f: seq<Byte>, shoff: nat, secs: seq<Section>, i: nat)
    requires HasTable(f, shoff, secs) && i <= |secs| && StaysPlaced(m, addr, f, secs[i..])
    ensures LoadSections(m, addr, i) == LoadAll(m, addr, secs[i..])
    decreases |secs| - i
  {
    TablePlaced(m, addr, f, shoff, secs, i);
    if i < |secs| {
      var next, rest := LoadSection(m, addr, secs[i]), secs[i + 1..];
      assert secs[i..][0] == secs[i] && secs[i..][1..] == rest;
      LoadStep(m, addr, i, |secs|, shoff, secs[i], next);
      LoadsTable(next, addr, f, shoff, secs, i + 1);
    } else {
      LoadEnds(m, addr, i);
      assert secs[i..] == [];
    }
  }

  predicate Allocates(s: Section) {
    s.flags / ALLOC % 2 != 0
  }

  lemma {:induction false} SkipsAll(m: Mem, addr: Word, f: seq<Byte>, secs: seq<Section>)
    requires Placed(m, addr, f) && forall j :: 0 <= j < |secs| ==> !Allocates(secs[j])
    ensures StaysPlaced(m, addr, f, secs) && LoadAll(m, addr, secs) == m
    decreases |secs|
  {
    if secs != [] {
      SkipsOne(m, addr, secs[0]);
      SkipsAll(m, addr, f, secs[1..]);
    }
  }

  lemma SkipsOne(m: Mem, addr: Word, s: Section)
    requires IsMem(m) && !Allocates(s)
    ensures LoadSection(m, addr, s) == m
  {
  }

  /** Of the sections a wrapped file has, only the ROM is marked for allocation. */
  lemma OnlyRomAllocates(img: Image)
    requires Fits(img)
    ensures forall i :: 0 <= i < |SectionsOf(img)| ==> (Allocates(SectionsOf(img)[i]) <==> i == 1)
  {
    forall i | 0 <= i < |Headers(img)| ensures Headers(img)[i].flags / ALLOC % 2 != 0 <==> i == 1 {
    }
  }

  /** What loading the ROM section alone does. */
  function RomLoaded(m: Mem, addr: Word, img: Image): (m': Mem)
    requires IsMem(m)
    ensures IsMem(m')
  {
    if img.base == 0 || img.rom == [] then m else Copy(m, img.base, addr + PG_SIZE, |img.rom|)
  }

  lemma RomSectionLoads(m: Mem, addr: Word, img: Image)
    requires ReadyToLoad(m, addr, img)
    ensures Placed(RomLoaded(m, addr, img), addr, File(img))
    ensures img.base != 0 ==> Stored(m, RomLoaded(m, addr, img), img.base, img.rom)
    ensures LoadSection(m, addr, SectionsOf(img)[1]) == RomLoaded(m, addr, img)
  {
    RomSlice(img);
    RomSection(img);
    CopyStores(m, addr, File(img), img.base, PG_SIZE, img.rom);
  }

  lemma RomSection(img: Image)
    requires Fits(img)
    ensures SectionsOf(img)[1] == Section(PROGBITS, 6, img.base, PG_SIZE, |img.rom|)
  {
    assert SectionsOf(img)[1] == SectionOf(Headers(img)[1]);
    assert Start(Parts(img), 0) == 0;
  }

  /** In a table where only section 1 allocates, the loop does what loading that section does. */
  lemma LoadsSectionOne(m: Mem, m': Mem, addr: Word, f: seq<Byte>, secs: seq<Section>)
    requires Placed(m, addr, f) && Placed(m', addr, f) && 1 < |secs| && m' == LoadSection(m, addr, secs[1])
    requires forall j :: 0 <= j < |secs| ==> (Allocates(secs[j]) <==> j == 1)
    ensures StaysPlaced(m, addr, f, secs) && LoadAll(m, addr, secs) == m'
  {
    var one, rest := secs[1..], secs[2..];
    SkipsOne(m, addr, secs[0]);
    SkipsAll(m', addr, f, rest);
    assert one[0] == secs[1] && one[1..] == rest;
    assert LoadAll(m, addr, one) == m' && StaysPlaced(m, addr, f, one);
  }

  /** Loading by section headers does the same exactly when the base is not 0; at base 0 it leaves
      memory as it was. */
  lemma WrapThenLoadByShdr(m: Mem, addr: Word, img: Image)
    requires ReadyToLoad(m, addr, img)
    ensures var (m', entry) := LoadByShdr(m, addr);
            && entry == img.entry
            && (img.base != 0 ==> Stored(m, m', img.base, img.rom))
            && (img.base == 0 ==> m' == m)
  {
    RomSectionLoads(m, addr, img);
    FileHasTable(img);
    OnlyRomAllocates(img);
    var m1 := RomLoaded(m, addr, img);
    var secs := SectionsOf(img);
    LoadsSectionOne(m, m1, addr, File(img), secs);
    assert secs[0..] == secs;
    LoadsTable(m, addr, File(img), ShOff(img), secs, 0);
    HeaderReads(img);
    HeaderPlaced(m1, addr, File(img));
  }

  // ----- the loaders, in place -----

  class Memory {
    var bytes: Mem

    constructor (bytes: Mem)
      requires IsMem(bytes)
      ensures this.bytes == bytes
    {
      this.bytes := bytes;
    }

    method Memcpy(dst: nat, src: nat, n: nat)
      requires IsMem(bytes)
      modifies this
      ensures bytes == Copy(old(bytes), dst, src, n)
    {
      var i := 0;
      while i < n
        invariant i <= n && IsMem(bytes) && Copy(old(bytes), dst, src, n) == Copy(bytes, dst + i, src + i, n - i)
      {
        bytes := bytes[Cell(dst + i) := bytes[Cell(src + i)]];
        i := i + 1;
      }
    }

    method Memset0(dst: nat, n: nat)
      requires IsMem(bytes)
      modifies this
      ensures bytes == Clear(old(bytes), dst, n)
    {
      var i := 0;
      while i < n
        invariant i <= n && IsMem(bytes) && Clear(old(bytes), dst, n) == Clear(bytes, dst + i, n - i)
      {
        bytes := bytes[Cell(dst + i) := 0];
        i := i + 1;
      }
    }

    method LoadElfImagePhdr(addr: Word) returns (entry: Word)
      requires IsMem(bytes)
      modifies this
      ensures (bytes, entry) == LoadByPhdr(old(bytes), addr)
    {
      LoadAllSegments(addr, addr + MemWord(bytes, addr + 28));
      entry := MemWord(bytes, addr + 24);
    }

    method LoadAllSegments(addr: Word, start: nat)
      requires IsMem(bytes)
      modifies this
      ensures bytes == LoadSegments(old(bytes), addr, start, 0)
    {
      var phdr: nat, i: nat := start, 0;
      while i < MemHalf(bytes, addr + 44)
        invariant IsMem(bytes) && LoadSegments(old(bytes), addr, start, 0) == LoadSegments(bytes, addr, phdr, i)
        decreases 65536 - i
      {
        SegmentsStep(bytes, addr, phdr, i);
        LoadOneSegment(addr, phdr);
        phdr, i := phdr + PHDR_SIZE, i + 1;
      }
    }

    method LoadOneSegment(addr: Word, phdr: nat)
      requires IsMem(bytes)
      modifies this
      ensures bytes == LoadSegment(old(bytes), addr, phdr)
    {
      var dst, size := MemWord(bytes, phdr + 12), MemWord(bytes, phdr + 16);
      if size != 0 { Memcpy(dst, addr + MemWord(bytes, phdr + 4), size); }
      var filesz, memsz := MemWord(bytes, phdr + 16), MemWord(bytes, phdr + 20);
      FillSegment(dst, filesz, memsz);
    }

    method FillSegment(dst: Word, filesz: Word, memsz: Word)
      requires IsMem(bytes)
      modifies this
      ensures bytes == Padded(old(bytes), dst, filesz, memsz)
    {
      if filesz != memsz { Memset0(dst + filesz, Minus(memsz, filesz)); }
    }

    method LoadElfImageShdr(addr: Word) returns (entry: Word)
      requires IsMem(bytes)
      modifies this
      ensures (bytes, entry) == LoadByShdr(old(bytes), addr)
    {
      var i := 0;
      while i < MemHalf(bytes, addr + 48)
        invariant IsMem(bytes) && LoadSections(old(bytes), addr, 0) == LoadSections(bytes, addr, i)
        decreases 65536 - i
      {
        LoadOneSection(addr, MemSection(bytes, addr + (MemWord(bytes, addr + 32) + SHDR_SIZE * i)));
        i := i + 1;
      }
      entry := MemWord(bytes, addr + 24);
    }

    method LoadOneSection(addr: Word, s: Section)
      requires IsMem(bytes)
      modifies this
      ensures bytes == LoadSection(old(bytes), addr, s)
    {
      if s.flags / ALLOC % 2 == 0 || s.addr == 0 || s.size == 0 { return; }
      if s.typ == NOBITS {
        Memset0(s.addr, s.size);
      } else {
        Memcpy(s.addr, addr + s.offset, s.size);
      }
    }
  }
}
