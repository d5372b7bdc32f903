/** The ELF file that wraps a ROM image (System V gABI, chapter 4 Object Files). */
module ElfImage {
  import opened Bytes
  import opened CStrings

  const PG_SIZE := 8192
  const EHDR_SIZE := 52
  const PHDR_SIZE := 32
  const SHDR_SIZE := 40
  const SYM_SIZE := 16

  datatype Sym = Sym(name: Name, addr: Word)

  /** What the command line and the input files give; `gIndex` is the section name the program
      never sets. */
  datatype Image = Image(rom: seq<Byte>, base: Word, entry: Word, hasSyms: bool, syms: seq<Sym>, gIndex: Word)

  // ----- string tables -----

  function NamesOf(syms: seq<Sym>): seq<Name> {
    if syms == [] then [] else [syms[0].name] + NamesOf(syms[1..])
  }

  /** `finish_string` */
  function Evened(b: seq<Byte>): seq<Byte> {
    if |b| % 2 == 1 then b + [0] else b
  }

  function StringTable(names: seq<Name>): seq<Byte> {
    Evened(Packed(names))
  }

  lemma TableAt(names: seq<Name>, i: nat)
    requires i < |names| && IsName(names[i])
    ensures StringAt(StringTable(names), OffsetOf(names, i), names[i])
  {
    PackedAt(names, i);
    var at := OffsetOf(names, i);
    assert StringTable(names)[at..at + |names[i]|] == Packed(names)[at..at + |names[i]|];
  }

  // ----- symbols -----

  /** `st_info` of a global function, `st_shndx` 1. */
  const FUNC_WORD := Pair(0x12, 1)

  function SymWords(syms: seq<Sym>, i: nat): (ws: seq<Word>)
    requires i <= |syms| && OffsetsFit(syms)
    ensures |ws| == 4 * (|syms| - i)
    decreases |syms| - i
  {
    if i == |syms| then [] else [NameOffset(syms, i), syms[i].addr, 0, FUNC_WORD] + SymWords(syms, i + 1)
  }

  /** Every name offset fits a word (the string buffer holds 8192 bytes). */
  predicate OffsetsFit(syms: seq<Sym>) {
    |Packed(NamesOf(syms))| <= PG_SIZE
  }

  lemma {:induction false} NamesLength(syms: seq<Sym>)
    ensures |NamesOf(syms)| == |syms|
    ensures forall i :: 0 <= i < |syms| ==> NamesOf(syms)[i] == syms[i].name
  {
    if syms != [] { NamesLength(syms[1..]); }
  }

  function NameOffset(syms: seq<Sym>, i: nat): Word
    requires i <= |syms| && OffsetsFit(syms)
  {
    NamesLength(syms);
    OffsetBound(NamesOf(syms), i);
    OffsetOf(NamesOf(syms), i)
  }

  /** The null symbol, then one entry a symbol. */
  function SymTab(syms: seq<Sym>): (s: seq<Byte>)
    requires OffsetsFit(syms)
    ensures |s| == SYM_SIZE * (|syms| + 1)
  {
    Words([0, 0, 0, 0] + SymWords(syms, 0))
  }

  lemma {:induction false} SymWordsAt(syms: seq<Sym>, from: nat, i: nat)
    requires from <= i < |syms| && OffsetsFit(syms)
    ensures SymWords(syms, from)[4 * (i - from)..4 * (i - from) + 4]
        == [NameOffset(syms, i), syms[i].addr, 0, FUNC_WORD]
    decreases i - from
  {
    var head := [NameOffset(syms, from), syms[from].addr, 0, FUNC_WORD];
    var tail := SymWords(syms, from + 1);
    if from < i {
      SymWordsAt(syms, from + 1, i);
      var k := 4 * (i - from - 1);
      assert (head + tail)[4 + k..4 + k + 4] == tail[k..k + 4];
    }
  }

  // ----- headers -----

  const PROGBITS := 1
  const SYMTAB := 2
  const STRTAB := 3

  datatype Shdr = Shdr(name: Word, typ: Word, flags: Word, addr: Word, offset: Word, size: Word,
                       link: Word, info: Word, align: Word, entsize: Word)
  {
    function Fields(): (ws: seq<Word>)
      ensures |ws| == 10
    {
      [name, typ, flags, addr, offset, size, link, info, align, entsize]
    }
  }

  function ReadShdr(f: seq<Byte>, at: nat): Shdr
    requires at + SHDR_SIZE <= |f|
  {
    Shdr(Read32(f, at), Read32(f, at + 4), Read32(f, at + 8), Read32(f, at + 12), Read32(f, at + 16),
         Read32(f, at + 20), Read32(f, at + 24), Read32(f, at + 28), Read32(f, at + 32), Read32(f, at + 36))
  }

  const GNU_EXTRA: seq<Byte> :=
    [0x47, 0x43, 0x43, 0x3a, 0x20, 0x28, 0x47, 0x4e, 0x55, 0x29, 0x20, 0x34, 0x2e, 0x37, 0x2e, 0x32, 0]
  const DOT_SHSTRTAB: Name := [0x2e, 0x73, 0x68, 0x73, 0x74, 0x72, 0x74, 0x61, 0x62]
  const DOT_TEXT: Name := [0x2e, 0x74, 0x65, 0x78, 0x74]
  const DOT_SYMTAB: Name := [0x2e, 0x73, 0x79, 0x6d, 0x74, 0x61, 0x62]
  const DOT_STRTAB: Name := [0x2e, 0x73, 0x74, 0x72, 0x74, 0x61, 0x62]

  function SegNames(hasSyms: bool): seq<Name> {
    [[], DOT_SHSTRTAB, DOT_TEXT] + if hasSyms then [DOT_SYMTAB, DOT_STRTAB] else []
  }

  /** The limits of the tables the program allocates. */
  predicate Fits(m: Image) {
    && |m.rom| <= 65536
    && |m.syms| + 1 <= 400
    && OffsetsFit(m.syms)
    && forall i :: 0 <= i < |m.syms| ==> IsName(m.syms[i].name)
  }

  /** The contents of sections 1 to 3, or 1 to 5. */
  function Parts(m: Image): (p: seq<seq<Byte>>)
    requires Fits(m)
    ensures |p| == if m.hasSyms then 5 else 3
    ensures p[0] == m.rom
  {
    [m.rom, GNU_EXTRA, StringTable(SegNames(m.hasSyms))] +
    if m.hasSyms then [SymTab(m.syms), StringTable(NamesOf(m.syms))] else []
  }

  lemma SegSize(hasSyms: bool)
    ensures |Packed(SegNames(hasSyms))| <= 33
    ensures forall i :: 0 <= i < |SegNames(hasSyms)| ==> OffsetOf(SegNames(hasSyms), i) <= 33
  {
    var n := SegNames(hasSyms);
    assert n[1..][1..] == n[2..] && n[2..][1..] == n[3..];
    assert Packed(n[3..]) == if hasSyms then DOT_SYMTAB + [0] + (DOT_STRTAB + [0]) else [] by {
      if hasSyms {
        assert n[3..][1..] == [DOT_STRTAB] && [DOT_STRTAB][1..] == [];
        assert Packed([DOT_STRTAB]) == DOT_STRTAB + [0] + Packed([]);
      } else {
        assert n[3..] == [];
      }
    }
    assert Packed(n) == [] + [0] + Packed(n[1..]);
    assert Packed(n[1..]) == DOT_SHSTRTAB + [0] + Packed(n[2..]);
    assert Packed(n[2..]) == DOT_TEXT + [0] + Packed(n[3..]);
    forall i | 0 <= i < |n| ensures OffsetOf(n, i) <= 33 { OffsetBound(n, i); }
  }

  /** File offset of the content of section `i + 1`; the last one is the offset of the section headers. */
  function PartOffset(m: Image, i: nat): Word
    requires Fits(m) && i <= |Parts(m)|
  {
    PartsAreSmall(m);
    StartMonotone(Parts(m), i);
    PG_SIZE + Start(Parts(m), i)
  }

  lemma {:induction false} StartMonotone(parts: seq<seq<Byte>>, i: nat)
    requires i <= |parts|
    ensures Start(parts, i) <= Start(parts, |parts|)
  {
    if parts != [] && i != 0 { StartMonotone(parts[1..], i - 1); }
  }

  lemma {:induction false} StartBound(parts: seq<seq<Byte>>, bound: nat)
    requires forall i :: 0 <= i < |parts| ==> |parts[i]| <= bound
    ensures Start(parts, |parts|) <= |parts| * bound
  {
    if parts != [] { StartBound(parts[1..], bound); }
  }

  lemma PartsAreSmall(m: Image)
    requires Fits(m)
    ensures forall i :: 0 <= i < |Parts(m)| ==> |Parts(m)[i]| <= 65536
    ensures Start(Parts(m), |Parts(m)|) <= 5 * 65536
  {
    SegSize(m.hasSyms);
    StartBound(Parts(m), 65536);
  }

  function SegOffset(hasSyms: bool, i: nat): Word
    requires i < |SegNames(hasSyms)|
  {
    SegSize(hasSyms);
    OffsetOf(SegNames(hasSyms), i)
  }

  /** The section header table. */
  function Headers(m: Image): (h: seq<Shdr>)
    requires Fits(m)
    ensures |h| == |Parts(m)| + 1
  {
    PartsAreSmall(m);
    var p := Parts(m);
    [ Shdr(0, 0, 0, 0, 0, 0, 0, 0, 0, 0),
      Shdr(SegOffset(m.hasSyms, 2), PROGBITS, 6, m.base, PartOffset(m, 0), |p[0]|, 0, 0, 4, 0),
      Shdr(m.gIndex, PROGBITS, 0x30, 0, PartOffset(m, 1), |p[1]|, 0, 0, 1, 1),
      Shdr(SegOffset(m.hasSyms, 1), STRTAB, 0, 0, PartOffset(m, 2), |p[2]|, 0, 0, 1, 0) ] +
    if !m.hasSyms then [] else
    [ Shdr(SegOffset(true, 3), SYMTAB, 0, 0, PartOffset(m, 3), |p[3]|, 5, 0, 1, SYM_SIZE),
      Shdr(SegOffset(true, 4), STRTAB, 0, 0, PartOffset(m, 4), |p[4]|, 0, 0, 1, 0) ]
  }

  function ShOff(m: Image): Word
    requires Fits(m)
  {
    PartOffset(m, |Parts(m)|)
  }

  /** The file header as thirteen words: identification, then the fields in order. */
  function Ehdr(m: Image): (ws: seq<Word>)
    requires Fits(m)
    ensures |ws| == 13
  {
    [0x464c457f, 0x00010101, 0, 0, Pair(2, 40), 1, m.entry, EHDR_SIZE, ShOff(m), 0x01000000,
     Pair(EHDR_SIZE, PHDR_SIZE), Pair(1, SHDR_SIZE), Pair(|Headers(m)|, 3)]
  }

  function Phdr(m: Image): (ws: seq<Word>)
    requires Fits(m)
    ensures |ws| == 8
  {
    [1, PG_SIZE, m.base, m.base, |m.rom|, |m.rom|, 5, PG_SIZE]
  }

  function ShdrWords(h: seq<Shdr>): (ws: seq<Word>)
    ensures |ws| == 10 * |h|
  {
    if h == [] then [] else h[0].Fields() + ShdrWords(h[1..])
  }

  function Front(m: Image): (s: seq<Byte>)
    requires Fits(m)
    ensures |s| == PG_SIZE
  {
    Words(Ehdr(m)) + Words(Phdr(m)) + Zeros(PG_SIZE - EHDR_SIZE - PHDR_SIZE)
  }

  function File(m: Image): seq<Byte>
    requires Fits(m)
  {
    Front(m) + Concat(Parts(m)) + Words(ShdrWords(Headers(m)))
  }

  // ----- the file is what its headers say -----

  lemma EhdrReads(m: Image, i: nat)
    requires Fits(m) && i < 13
    ensures |File(m)| >= PG_SIZE && Read32(File(m), 4 * i) == Ehdr(m)[i]
  {
    var a, b := Words(Ehdr(m)), Words(Phdr(m)) + Zeros(PG_SIZE - EHDR_SIZE - PHDR_SIZE);
    ReadWords(Ehdr(m), i);
    ReadFirst(a, b, 4 * i);
    assert Front(m) == a + b;
    var rest := Concat(Parts(m)) + Words(ShdrWords(Headers(m)));
    assert File(m) == Front(m) + rest;
    ReadFirst(Front(m), rest, 4 * i);
  }

  lemma PhdrReads(m: Image, i: nat)
    requires Fits(m) && i < 8
    ensures |File(m)| >= PG_SIZE && Read32(File(m), EHDR_SIZE + 4 * i) == Phdr(m)[i]
  {
    var a, b, z := Words(Ehdr(m)), Words(Phdr(m)), Zeros(PG_SIZE - EHDR_SIZE - PHDR_SIZE);
    ReadWords(Phdr(m), i);
    ReadSecond(a, b, 4 * i);
    ReadFirst(a + b, z, EHDR_SIZE + 4 * i);
    var rest := Concat(Parts(m)) + Words(ShdrWords(Headers(m)));
    assert File(m) == Front(m) + rest;
    ReadFirst(Front(m), rest, EHDR_SIZE + 4 * i);
  }

  /** The fields of the file header: magic number, 32-bit little-endian current version, executable for ARM,
      entry point. */
  lemma FileHeader(m: Image)
    requires Fits(m)
    ensures |File(m)| >= PG_SIZE
    ensures Read32(File(m), 0) == 0x464c457f && Read32(File(m), 4) == 0x10101
    ensures Read32(File(m), 8) == 0 && Read32(File(m), 12) == 0
    ensures Read32(File(m), 16) == 2 + 65536 * 40 && Read32(File(m), 20) == 1 && Read32(File(m), 24) == m.entry
  {
    EhdrReads(m, 0);
    EhdrReads(m, 1);
    EhdrReads(m, 2);
    EhdrReads(m, 3);
    EhdrReads(m, 4);
    EhdrReads(m, 5);
    EhdrReads(m, 6);
  }

  /** Then one program header behind the file header, flags, and section headers with the names in section 3. */
  lemma FileTables(m: Image)
    requires Fits(m)
    ensures |File(m)| >= PG_SIZE
    ensures Read32(File(m), 28) == 52 && Read32(File(m), 36) == 0x1000000 && Read32(File(m), 40) == 52 + 65536 * 32
    ensures Read32(File(m), 44) == 1 + 65536 * 40 && Read32(File(m), 48) == (if m.hasSyms then 6 else 4) + 65536 * 3
  {
    EhdrReads(m, 7);
    EhdrReads(m, 9);
    EhdrReads(m, 10);
    EhdrReads(m, 11);
    EhdrReads(m, 12);
  }

  /** The fields of the program header: loadable, at offset 8192, both addresses the base, both sizes that of the
      ROM, readable and executable, aligned to 8192. */
  lemma ProgramHeader(m: Image)
    requires Fits(m)
    ensures |File(m)| >= PG_SIZE
    ensures Read32(File(m), 52) == 1 && Read32(File(m), 56) == 8192
    ensures Read32(File(m), 60) == m.base && Read32(File(m), 64) == m.base
    ensures Read32(File(m), 68) == |m.rom| && Read32(File(m), 72) == |m.rom|
    ensures Read32(File(m), 76) == 5 && Read32(File(m), 80) == 8192
  {
    PhdrReads(m, 0);
    PhdrReads(m, 1);
    PhdrReads(m, 2);
    PhdrReads(m, 3);
    PhdrReads(m, 4);
    PhdrReads(m, 5);
    PhdrReads(m, 6);
    PhdrReads(m, 7);
  }

  lemma {:induction false} ShdrWordsAt(h: seq<Shdr>, i: nat, k: nat)
    requires i < |h| && k == 10 * i
    ensures k + 10 <= |ShdrWords(h)| && ShdrWords(h)[k..k + 10] == h[i].Fields()
  {
    var a, b := h[0].Fields(), ShdrWords(h[1..]);
    if i != 0 {
      ShdrWordsAt(h[1..], i - 1, k - 10);
      assert (a + b)[k..k + 10] == b[k - 10..k];
    }
  }

  lemma FileSize(m: Image)
    requires Fits(m)
    ensures |File(m)| == ShOff(m) + SHDR_SIZE * |Headers(m)|
  {
    ConcatSlice(Parts(m), 0);
  }

  lemma ShdrReads(m: Image, i: nat)
    requires Fits(m) && i < |Headers(m)|
    ensures |File(m)| == ShOff(m) + SHDR_SIZE * |Headers(m)|
    ensures ReadShdr(File(m), ShOff(m) + SHDR_SIZE * i) == Headers(m)[i]
  {
    FileSize(m);
    TableIsThere(m);
    TableReads(File(m), ShOff(m), Headers(m), i, ShdrWords(Headers(m)));
  }

  lemma TableIsThere(m: Image)
    requires Fits(m)
    ensures ShOff(m) <= |File(m)| && File(m)[ShOff(m)..] == Words(ShdrWords(Headers(m)))
  {
    FileSize(m);
    ConcatSlice(Parts(m), 0);
    var front := Front(m) + Concat(Parts(m));
    assert |front| == ShOff(m);
  }

  /** The words `ws` can be read at `off`. */
  ghost predicate Readable(f: seq<Byte>, off: nat, ws: seq<Word>) {
    off + 4 * |ws| <= |f| && forall k :: 0 <= k < |ws| ==> Read32(f, off + 4 * k) == ws[k]
  }

  lemma WordsAreReadable(f: seq<Byte>, off: nat, ws: seq<Word>)
    requires off <= |f| && f[off..] == Words(ws)
    ensures Readable(f, off, ws)
  {
    forall k | 0 <= k < |ws| ensures Read32(f, off + 4 * k) == ws[k] { TailReads(f, off, ws, k); }
  }

  lemma TableReads(f: seq<Byte>, off: nat, h: seq<Shdr>, i: nat, ws: seq<Word>)
    requires i < |h| && off + SHDR_SIZE * |h| <= |f| && ws == ShdrWords(h) && f[off..] == Words(ws)
    ensures ReadShdr(f, off + SHDR_SIZE * i) == h[i]
  {
    WordsAreReadable(f, off, ws);
    EntryOf(f, off, h, i, 10 * i, off + SHDR_SIZE * i, ws);
  }

  lemma EntryOf(f: seq<Byte>, off: nat, h: seq<Shdr>, i: nat, k: nat, at: nat, ws: seq<Word>)
    requires i < |h| && Readable(f, off, ws) && ws == ShdrWords(h) && k == 10 * i && at == off + 4 * k
    ensures at + SHDR_SIZE <= |f| && ReadShdr(f, at) == h[i]
  {
    ShdrWordsAt(h, i, k);
    EntryReads(f, off, ws, k, at, h[i]);
  }

  /** Ten words that are those of `h` are read as `h`. */
  lemma EntryReads(f: seq<Byte>, off: nat, ws: seq<Word>, k: nat, at: nat, h: Shdr)
    requires Readable(f, off, ws) && k + 10 <= |ws| && ws[k..k + 10] == h.Fields() && at == off + 4 * k
    ensures at + SHDR_SIZE <= |f| && ReadShdr(f, at) == h
  {
    var w := h.Fields();
    forall j | 0 <= j < 10 ensures Read32(f, at + 4 * j) == w[j] {
      SliceWord(ws, k, w, j);
      assert Read32(f, off + 4 * (k + j)) == ws[k + j];
    }
    ShdrFields(f, at, h, w);
  }

  lemma SliceWord(ws: seq<Word>, k: nat, w: seq<Word>, j: nat)
    requires k + 10 <= |ws| && ws[k..k + 10] == w && j < 10
    ensures ws[k + j] == w[j]
  {
  }

  lemma TailReads(f: seq<Byte>, off: nat, ws: seq<Word>, k: nat)
    requires k < |ws| && off <= |f| && f[off..] == Words(ws)
    ensures Read32(f, off + 4 * k) == ws[k]
  {
    var at := 4 * k;
    ReadWords(ws, k);
    ReadTail(f, off, at);
  }

  lemma ShdrFields(f: seq<Byte>, at: nat, h: Shdr, w: seq<Word>)
    requires at + SHDR_SIZE <= |f| && w == h.Fields()
    requires forall j :: 0 <= j < 10 ==> Read32(f, at + 4 * j) == w[j]
    ensures ReadShdr(f, at) == h
  {
    assert Read32(f, at + 4 * 0) == w[0] && Read32(f, at + 4 * 1) == w[1] && Read32(f, at + 4 * 2) == w[2];
    assert Read32(f, at + 4 * 3) == w[3] && Read32(f, at + 4 * 4) == w[4] && Read32(f, at + 4 * 5) == w[5];
    assert Read32(f, at + 4 * 6) == w[6] && Read32(f, at + 4 * 7) == w[7];
    assert Read32(f, at + 4 * 8) == w[8] && Read32(f, at + 4 * 9) == w[9];
  }

  /** The section headers lie at `e_shoff` and fill the file to its end; every section slice holds
      exactly its content. */
  lemma SectionsAreThere(m: Image, i: nat)
    requires Fits(m) && 1 <= i < |Headers(m)|
    ensures |File(m)| == ShOff(m) + SHDR_SIZE * |Headers(m)| && Read32(File(m), 32) == ShOff(m)
    ensures var h := ReadShdr(File(m), ShOff(m) + SHDR_SIZE * i);
            h.offset + h.size <= ShOff(m) && File(m)[h.offset..h.offset + h.size] == Parts(m)[i - 1]
  {
    EhdrReads(m, 8);
    ShdrReads(m, i);
    HeaderNamesPart(m, i);
    PartIsThere(m, i - 1);
  }

  lemma HeaderNamesPart(m: Image, i: nat)
    requires Fits(m) && 1 <= i < |Headers(m)|
    ensures Headers(m)[i].offset == PartOffset(m, i - 1) && Headers(m)[i].size == |Parts(m)[i - 1]|
  {
  }

  lemma PartIsThere(m: Image, i: nat)
    requires Fits(m) && i < |Parts(m)|
    ensures PartOffset(m, i) + |Parts(m)[i]| <= ShOff(m) <= |File(m)|
    ensures File(m)[PartOffset(m, i)..PartOffset(m, i) + |Parts(m)[i]|] == Parts(m)[i]
  {
    FileSize(m);
    PartSlice(Front(m), Parts(m), Words(ShdrWords(Headers(m))), i);
  }

  lemma PartSlice(front: seq<Byte>, p: seq<seq<Byte>>, rest: seq<Byte>, i: nat)
    requires i < |p|
    ensures var at := |front| + Start(p, i);
            && at + |p[i]| <= |front| + Start(p, |p|) == |front + Concat(p)|
            && (front + Concat(p) + rest)[at..at + |p[i]|] == p[i]
  {
    ConcatSlice(p, i);
    StartMonotone(p, i + 1);
    MiddleSlice(front, Concat(p), rest, Start(p, i), Start(p, i + 1));
  }

  lemma MiddleSlice(x: seq<Byte>, y: seq<Byte>, z: seq<Byte>, a: nat, b: nat)
    requires a <= b <= |y|
    ensures (x + y + z)[|x| + a..|x| + b] == y[a..b]
  {
  }

  /** The bytes of a text. */
  ghost predicate Spells(b: seq<Byte>, s: string) {
    |b| == |s| && forall i :: 0 <= i < |s| ==> b[i] == s[i] as int
  }

  lemma NamesSpell()
    ensures Spells(DOT_TEXT, ".text") && Spells(DOT_SHSTRTAB, ".shstrtab")
    ensures Spells(DOT_SYMTAB, ".symtab") && Spells(DOT_STRTAB, ".strtab")
    ensures |GNU_EXTRA| == 17 && Spells(GNU_EXTRA[..16], "GCC: (GNU) 4.7.2") && GNU_EXTRA[16] == 0
  {
  }

  /** The names of the sections the program names resolve in section 3. */
  lemma SectionNamesResolve(m: Image)
    requires Fits(m)
    ensures var h, t := Headers(m), Parts(m)[2];
            && StringAt(t, h[1].name, DOT_TEXT) && StringAt(t, h[3].name, DOT_SHSTRTAB)
            && (m.hasSyms ==> StringAt(t, h[4].name, DOT_SYMTAB) && StringAt(t, h[5].name, DOT_STRTAB))
    ensures Spells(DOT_TEXT, ".text") && Spells(DOT_SHSTRTAB, ".shstrtab")
    ensures Spells(DOT_SYMTAB, ".symtab") && Spells(DOT_STRTAB, ".strtab")
    ensures |Parts(m)[1]| == 17 && Spells(Parts(m)[1][..16], "GCC: (GNU) 4.7.2") && Parts(m)[1][16] == 0
  {
    NamesSpell();
    var n := SegNames(m.hasSyms);
    TableAt(n, 1);
    TableAt(n, 2);
    if m.hasSyms {
      TableAt(n, 3);
      TableAt(n, 4);
    }
  }

  /** The section headers as they are in the file. */
  function SectionOf(m: Image, i: nat): Shdr
    requires Fits(m) && i < |Headers(m)|
  {
    FileSize(m);
    ReadShdr(File(m), ShOff(m) + SHDR_SIZE * i)
  }

  /** A null entry, the loadable code at the base, a comment, and the section names. */
  lemma SectionHeaders(m: Image)
    requires Fits(m)
    ensures SectionOf(m, 0) == Shdr(0, 0, 0, 0, 0, 0, 0, 0, 0, 0)
    ensures var s := SectionOf(m, 1); s == Shdr(s.name, 1, 6, m.base, 8192, |m.rom|, 0, 0, 4, 0)
    ensures SectionOf(m, 2) == Shdr(m.gIndex, 1, 0x30, 0, 8192 + |m.rom|, 17, 0, 0, 1, 1)
    ensures var s := SectionOf(m, 3); s == Shdr(s.name, 3, 0, 0, 8192 + |m.rom| + 17, s.size, 0, 0, 1, 0)
  {
    SectionIs(m, 0);
    SectionIs(m, 1);
    SectionIs(m, 2);
    SectionIs(m, 3);
    FirstOffsets(m);
  }

  /** Then, if there are symbols, their table, linked to section 5, and their names. */
  lemma SymbolHeaders(m: Image)
    requires Fits(m) && m.hasSyms
    ensures var s := SectionOf(m, 4); s == Shdr(s.name, 2, 0, 0, s.offset, 16 * (|m.syms| + 1), 5, 0, 1, 16)
    ensures var s := SectionOf(m, 5); s == Shdr(s.name, 3, 0, 0, s.offset, s.size, 0, 0, 1, 0)
  {
    SectionIs(m, 4);
    SectionIs(m, 5);
  }

  lemma SectionIs(m: Image, i: nat)
    requires Fits(m) && i < |Headers(m)|
    ensures SectionOf(m, i) == Headers(m)[i]
  {
    ShdrReads(m, i);
  }

  lemma FirstOffsets(m: Image)
    requires Fits(m)
    ensures PartOffset(m, 0) == 8192 && PartOffset(m, 1) == 8192 + |m.rom| && PartOffset(m, 2) == 8192 + |m.rom| + 17
  {
    StartsAre(Parts(m));
  }

  lemma StartsAre(p: seq<seq<Byte>>)
    requires |p| >= 2
    ensures Start(p, 0) == 0 && Start(p, 1) == |p[0]| && Start(p, 2) == |p[0]| + |p[1]|
  {
    assert Start(p[1..], 0) == 0 && Start(p[1..], 1) == |p[1..][0]| + Start(p[1..][1..], 0);
  }

  lemma SymTabWord(syms: seq<Sym>, i: nat, j: nat)
    requires OffsetsFit(syms) && i < |syms| && j < 4
    ensures Read32(SymTab(syms), SYM_SIZE * (i + 1) + 4 * j) == [NameOffset(syms, i), syms[i].addr, 0, FUNC_WORD][j]
  {
    var z: seq<Word> := [0, 0, 0, 0];
    var ws := SymWords(syms, 0);
    SymWordsAt(syms, 0, i);
    assert ws[4 * i..4 * i + 4][j] == ws[4 * i + j] == (z + ws)[4 * (i + 1) + j];
    ReadWords(z + ws, 4 * (i + 1) + j);
  }

  /** Entry `i + 1` of the symbol table holds symbol `i`: its name resolves in the table its section
      links to, its value is the address, and it is a global function of the ROM section. */
  lemma SymbolsResolve(m: Image, i: nat)
    requires Fits(m) && m.hasSyms && i < |m.syms|
    ensures var t, at := Parts(m)[3], SYM_SIZE * (i + 1);
            && Headers(m)[4].link == 5
            && at + SYM_SIZE <= |t|
            && StringAt(Parts(m)[4], Read32(t, at), m.syms[i].name)
            && Read32(t, at + 4) == m.syms[i].addr && Read32(t, at + 8) == 0 && Read32(t, at + 12) == 0x12 + 65536 * 1
  {
    SymbolResolves(m.syms, i);
    SymParts(m);
  }

  lemma SymParts(m: Image)
    requires Fits(m) && m.hasSyms
    ensures Parts(m)[3] == SymTab(m.syms) && Parts(m)[4] == StringTable(NamesOf(m.syms)) && Headers(m)[4].link == 5
  {
  }

  lemma SymbolResolves(syms: seq<Sym>, i: nat)
    requires OffsetsFit(syms) && i < |syms| && IsName(syms[i].name)
    ensures var t, at := SymTab(syms), SYM_SIZE * (i + 1);
            && StringAt(StringTable(NamesOf(syms)), Read32(t, at), syms[i].name)
            && Read32(t, at + 4) == syms[i].addr && Read32(t, at + 8) == 0 && Read32(t, at + 12) == 0x12 + 65536 * 1
  {
    SymbolFields(syms, i);
    SymbolName(syms, i);
  }

  lemma SymbolFields(syms: seq<Sym>, i: nat)
    requires OffsetsFit(syms) && i < |syms|
    ensures var t, at := SymTab(syms), SYM_SIZE * (i + 1);
            && Read32(t, at) == NameOffset(syms, i)
            && Read32(t, at + 4) == syms[i].addr && Read32(t, at + 8) == 0 && Read32(t, at + 12) == FUNC_WORD
  {
    SymTabWord(syms, i, 0);
    SymTabWord(syms, i, 1);
    SymTabWord(syms, i, 2);
    SymTabWord(syms, i, 3);
  }

  lemma SymbolName(syms: seq<Sym>, i: nat)
    requires OffsetsFit(syms) && i < |syms| && IsName(syms[i].name)
    ensures StringAt(StringTable(NamesOf(syms)), NameOffset(syms, i), syms[i].name)
  {
    NamesLength(syms);
    TableAt(NamesOf(syms), i);
  }

  /** The symbol string table has no leading NUL: the first symbol, and only the first, gets name
      offset 0, which the gABI reserves for "no name". */
  lemma FirstSymbolIsNameless(m: Image, i: nat)
    requires Fits(m) && i < |m.syms|
    ensures NameOffset(m.syms, i) == 0 <==> i == 0
  {
    NamesLength(m.syms);
  }
}
