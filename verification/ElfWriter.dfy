/** Writing the ELF file step by step: the string tables, the symbol table and the running offset
    grow as the pieces go out. */
module ElfWriter {
  import opened Bytes
  import opened CStrings
  import opened ElfImage

  lemma {:induction false} ConcatAppend(parts: seq<seq<Byte>>, p: seq<Byte>)
    ensures Concat(parts + [p]) == Concat(parts) + p
  {
    if parts == [] {
      assert (parts + [p])[1..] == [];
      assert Concat([p]) == p + Concat([]);
    } else {
      assert (parts + [p])[1..] == parts[1..] + [p];
      ConcatAppend(parts[1..], p);
      assert parts[0] + (Concat(parts[1..]) + p) == parts[0] + Concat(parts[1..]) + p;
    }
  }

  /** `struct string` */
  class Strings {
    var buf: seq<Byte>
    ghost var names: seq<Name>

    constructor ()
      ensures buf == Packed(names) && names == []
    {
      buf, names := [], [];
    }

    /** `add_string`: the offset of the string just stored. */
    method Add(s: Name) returns (rv: nat)
      requires buf == Packed(names)
      modifies this
      ensures names == old(names) + [s] && buf == Packed(names)
      ensures rv == |old(buf)| == OffsetOf(names, |old(names)|)
    {
      rv := |buf|;
      PackedAppend(names, s);
      buf, names := buf + s + [0], names + [s];
    }

    /** `finish_string` */
    method Finish()
      requires buf == Packed(names)
      modifies this
      ensures names == old(names) && buf == StringTable(names)
    {
      if |buf| % 2 == 1 { buf := buf + [0]; }
    }
  }

  lemma NamesPrefix(syms: seq<Sym>, i: nat)
    requires OffsetsFit(syms) && i < |syms|
    ensures |NamesOf(syms)| == |syms| && NamesOf(syms)[..i + 1] == NamesOf(syms)[..i] + [syms[i].name]
    ensures NameOffset(syms, i) == |Packed(NamesOf(syms)[..i])|
  {
    NamesLength(syms);
    var n := NamesOf(syms);
    assert n == n[..i + 1] + n[i + 1..];
    OffsetAppend(n[..i + 1], n[i + 1..], i);
    assert n[..i + 1] == n[..i] + [syms[i].name];
    PackedAppend(n[..i], syms[i].name);
  }

  /** `load_syms` once the lines are split: each name into the string table, each entry into the
      symbol table. */
  method LoadSyms(syms: seq<Sym>, strings: Strings) returns (words: seq<Word>)
    requires OffsetsFit(syms) && strings.names == [] && strings.buf == []
    modifies strings
    ensures words == [0, 0, 0, 0] + SymWords(syms, 0)
    ensures strings.buf == StringTable(NamesOf(syms))
  {
    words := [0, 0, 0, 0];
    var i := 0;
    NamesLength(syms);
    while i < |syms|
      invariant 0 <= i <= |syms|
      invariant strings.names == NamesOf(syms)[..i] && strings.buf == Packed(strings.names)
      invariant words + SymWords(syms, i) == [0, 0, 0, 0] + SymWords(syms, 0)
    {
      var ix := strings.Add(syms[i].name);
      NamesPrefix(syms, i);
      var entry: seq<Word> := [ix, syms[i].addr, 0, FUNC_WORD];
      assert words + SymWords(syms, i) == words + entry + SymWords(syms, i + 1);
      words := words + entry;
      i := i + 1;
    }
    assert NamesOf(syms)[..i] == NamesOf(syms);
    strings.Finish();
  }

  /** The output file and the global `offset` that the section headers advance. */
  class Writer {
    var out: seq<Byte>
    var offset: nat

    constructor ()
      ensures out == [] && offset == 0
    {
      out, offset := [], 0;
    }

    method Write(b: seq<Byte>)
      modifies this`out
      ensures out == old(out) + b
    {
      out := out + b;
    }

    /** The common shape of the `mk_shdr_` functions: the section lies at the running offset. */
    method MkShdr(name: Word, typ: Word, flags: Word, addr: Word, size: Word, link: Word, align: Word, entsize: Word)
      requires offset + size < 0x1_0000_0000
      modifies this
      ensures out == old(out) + Words(Shdr(name, typ, flags, addr, old(offset), size, link, 0, align, entsize).Fields())
      ensures offset == old(offset) + size
    {
      Write(Words(Shdr(name, typ, flags, addr, offset, size, link, 0, align, entsize).Fields()));
      offset := offset + size;
    }
  }

  /** The section name table and the index of each name; the last two stay unset without symbols. */
  method SegmentNames(hasSyms: bool) returns (table: seq<Byte>, s: Word, t: Word, sy: Word, sys: Word)
    ensures table == StringTable(SegNames(hasSyms))
    ensures s == SegOffset(hasSyms, 1) && t == SegOffset(hasSyms, 2)
    ensures hasSyms ==> sy == SegOffset(true, 3) && sys == SegOffset(true, 4)
  {
    SegSize(hasSyms);
    var seg := new Strings();
    var rv := seg.Add([]);
    rv := seg.Add(DOT_SHSTRTAB);
    ghost var n2 := seg.names;
    var s', t' := rv, 0;
    t' := seg.Add(DOT_TEXT);
    ghost var n3 := seg.names;
    assert n3 == SegNames(false) && n2 + [DOT_TEXT] == n3;
    OffsetAppend(n2, [DOT_TEXT], 1);
    sy, sys := 0, 0;
    ghost var more: seq<Name> := if hasSyms then [DOT_SYMTAB, DOT_STRTAB] else [];
    assert SegNames(hasSyms) == n3 + more;
    OffsetAppend(n3, more, 1);
    OffsetAppend(n3, more, 2);
    OffsetsSmall(hasSyms);
    s, t := s', t';
    if hasSyms {
      var a := seg.Add(DOT_SYMTAB);
      ghost var n4 := seg.names;
      var b := seg.Add(DOT_STRTAB);
      assert seg.names == SegNames(true) && n4 + [DOT_STRTAB] == SegNames(true);
      OffsetAppend(n4, [DOT_STRTAB], 3);
      sy, sys := a, b;
    }
    assert seg.names == SegNames(hasSyms);
    seg.Finish();
    table := seg.buf;
  }

  lemma OffsetsSmall(hasSyms: bool)
    ensures forall i :: 0 <= i < |SegNames(hasSyms)| ==> 0 <= OffsetOf(SegNames(hasSyms), i) < 0x1_0000_0000
  {
    SegSize(hasSyms);
  }

  /** `main` after the arguments are read. */
  method Wrap(m: Image) returns (out: seq<Byte>)
    requires Fits(m)
    ensures out == File(m)
  {
    PartsAreSmall(m);
    var w := new Writer();
    var symTab, symStr: seq<Byte>, shnum := [], [], 4;
    if m.hasSyms {
      var strings := new Strings();
      assert strings.buf == [];
      var words := LoadSyms(m.syms, strings);
      symTab, symStr, shnum := Words(words), strings.buf, 6;
    }
    var seg, sIndex, tIndex, syIndex, sysIndex := SegmentNames(m.hasSyms);
    var shOff := PG_SIZE + |m.rom| + |GNU_EXTRA| + |seg|;
    if m.hasSyms { shOff := shOff + |symTab| + |symStr|; }
    Ends(m, seg, symTab, symStr);
    WriteFront(m, w, shOff, shnum);
    WriteContents(m, w, seg, symTab, symStr);
    WriteHeaders(m, w, sIndex, tIndex, syIndex, sysIndex);
    out := w.out;
  }

  method WriteFront(m: Image, w: Writer, shOff: Word, shnum: nat)
    requires Fits(m) && w.out == [] && shOff == ShOff(m) && shnum == |Headers(m)|
    modifies w`out
    ensures w.out == Front(m)
  {
    w.Write(Words([0x464c457f, 0x00010101, 0, 0, Pair(2, 40), 1, m.entry, EHDR_SIZE, shOff, 0x01000000,
                   Pair(EHDR_SIZE, PHDR_SIZE), Pair(1, SHDR_SIZE), Pair(shnum, 3)]));
    var npad := PG_SIZE - EHDR_SIZE;
    w.Write(Words([1, PG_SIZE, m.base, m.base, |m.rom|, |m.rom|, 5, PG_SIZE]));
    npad := npad - PHDR_SIZE;
    w.Write(Zeros(npad));
  }

  method WriteContents(m: Image, w: Writer, seg: seq<Byte>, symTab: seq<Byte>, symStr: seq<Byte>)
    requires Fits(m) && seg == StringTable(SegNames(m.hasSyms))
    requires m.hasSyms ==> symTab == SymTab(m.syms) && symStr == StringTable(NamesOf(m.syms))
    modifies w`out
    ensures w.out == old(w.out) + Concat(Parts(m))
  {
    PartsJoin(m, seg, symTab, symStr);
    w.Write(m.rom);
    w.Write(GNU_EXTRA);
    w.Write(seg);
    if m.hasSyms {
      w.Write(symTab);
      w.Write(symStr);
    }
  }

  /** The sizes added up beforehand are the offset reached. */
  lemma Ends(m: Image, seg: seq<Byte>, symTab: seq<Byte>, symStr: seq<Byte>)
    requires Fits(m) && seg == StringTable(SegNames(m.hasSyms))
    requires m.hasSyms ==> symTab == SymTab(m.syms) && symStr == StringTable(NamesOf(m.syms))
    ensures PartOffset(m, 0) == PG_SIZE
    ensures PartOffset(m, 1) == PG_SIZE + |m.rom|
    ensures PartOffset(m, 2) == PartOffset(m, 1) + |GNU_EXTRA|
    ensures PartOffset(m, 3) == PartOffset(m, 2) + |seg|
    ensures !m.hasSyms ==> ShOff(m) == PartOffset(m, 3)
    ensures m.hasSyms ==> PartOffset(m, 4) == PartOffset(m, 3) + |symTab| && ShOff(m) == PartOffset(m, 4) + |symStr|
  {
    var p := Parts(m);
    ConcatSlice(p, 0);
    ConcatSlice(p, 1);
    ConcatSlice(p, 2);
    if m.hasSyms {
      ConcatSlice(p, 3);
      ConcatSlice(p, 4);
    }
  }

  lemma Concat3(a: seq<Byte>, b: seq<Byte>, c: seq<Byte>)
    ensures Concat([a, b, c]) == a + b + c
  {
    assert Concat([]) == [];
    ConcatAppend([], a);
    ConcatAppend([a], b);
    ConcatAppend([a, b], c);
    assert [] + [a] == [a] && [a] + [b] == [a, b] && [a, b] + [c] == [a, b, c];
  }

  lemma Concat5(a: seq<Byte>, b: seq<Byte>, c: seq<Byte>, d: seq<Byte>, e: seq<Byte>)
    ensures Concat([a, b, c, d, e]) == a + b + c + (d + e)
  {
    Concat3(a, b, c);
    ConcatAppend([a, b, c], d);
    ConcatAppend([a, b, c, d], e);
    assert [a, b, c] + [d] == [a, b, c, d] && [a, b, c, d] + [e] == [a, b, c, d, e];
    assert a + b + c + d + e == a + b + c + (d + e);
  }

  lemma PartsJoin(m: Image, seg: seq<Byte>, symTab: seq<Byte>, symStr: seq<Byte>)
    requires Fits(m) && seg == StringTable(SegNames(m.hasSyms))
    requires m.hasSyms ==> symTab == SymTab(m.syms) && symStr == StringTable(NamesOf(m.syms))
    ensures Concat(Parts(m)) == m.rom + GNU_EXTRA + seg + if m.hasSyms then symTab + symStr else []
  {
    var p := Parts(m);
    Concat3(p[0], p[1], p[2]);
    if m.hasSyms {
      Concat5(p[0], p[1], p[2], p[3], p[4]);
      assert p == [p[0], p[1], p[2], p[3], p[4]];
    } else {
      assert p == [p[0], p[1], p[2]];
    }
  }

  lemma {:induction false} ShdrWordsAppend(h: seq<Shdr>, s: Shdr)
    ensures ShdrWords(h + [s]) == ShdrWords(h) + s.Fields()
  {
    if h == [] {
      assert (h + [s])[1..] == [];
    } else {
      assert (h + [s])[1..] == h[1..] + [s];
      ShdrWordsAppend(h[1..], s);
    }
  }

  /** Another header after the first `i`. */
  lemma NextHeader(m: Image, i: nat)
    requires Fits(m) && i < |Headers(m)|
    ensures Words(ShdrWords(Headers(m)[..i + 1])) == Words(ShdrWords(Headers(m)[..i])) + Words(Headers(m)[i].Fields())
  {
    var h := Headers(m);
    assert h[..i + 1] == h[..i] + [h[i]];
    ShdrWordsAppend(h[..i], h[i]);
    WordsAppend(ShdrWords(h[..i]), h[i].Fields());
  }

  /** Writes header `i`, given that the ones before it are out and the offset is up to date. */
  method WriteNext(m: Image, w: Writer, ghost pre: seq<Byte>, ghost i: nat, name: Word, typ: Word, flags: Word,
                   addr: Word, size: Word, link: Word, align: Word, entsize: Word)
    requires Fits(m) && 1 <= i < |Headers(m)| && w.offset == PartOffset(m, i - 1)
    requires Headers(m)[i] == Shdr(name, typ, flags, addr, w.offset, size, link, 0, align, entsize)
    requires PartOffset(m, i) == PartOffset(m, i - 1) + size
    requires w.out == pre + Words(ShdrWords(Headers(m)[..i]))
    modifies w
    ensures w.out == pre + Words(ShdrWords(Headers(m)[..i + 1])) && w.offset == PartOffset(m, i)
  {
    NextHeader(m, i);
    w.MkShdr(name, typ, flags, addr, size, link, align, entsize);
  }

  method WriteHeaders(m: Image, w: Writer, s: Word, t: Word, sy: Word, sys: Word)
    requires Fits(m)
    requires s == SegOffset(m.hasSyms, 1) && t == SegOffset(m.hasSyms, 2)
    requires m.hasSyms ==> sy == SegOffset(true, 3) && sys == SegOffset(true, 4)
    modifies w
    ensures w.out == old(w.out) + Words(ShdrWords(Headers(m)))
  {
    ghost var pre := w.out;
    WriteFourHeaders(m, w, s, t);
    if m.hasSyms { WriteSymHeaders(m, w, pre, sy, sys); }
    assert Headers(m)[..|Headers(m)|] == Headers(m);
  }

  method WriteFourHeaders(m: Image, w: Writer, s: Word, t: Word)
    requires Fits(m) && s == SegOffset(m.hasSyms, 1) && t == SegOffset(m.hasSyms, 2)
    modifies w
    ensures w.out == old(w.out) + Words(ShdrWords(Headers(m)[..4])) && w.offset == PartOffset(m, 3)
  {
    ghost var pre := w.out;
    OffsetsGrow(m);
    w.offset := PG_SIZE;
    w.Write(Words([0, 0, 0, 0, 0, 0, 0, 0, 0, 0]));
    FirstHeader(m);
    WriteNext(m, w, pre, 1, t, PROGBITS, 6, m.base, |m.rom|, 0, 4, 0);
    WriteNext(m, w, pre, 2, m.gIndex, PROGBITS, 0x30, 0, |GNU_EXTRA|, 0, 1, 1);
    WriteNext(m, w, pre, 3, s, STRTAB, 0, 0, |Parts(m)[2]|, 0, 1, 0);
  }

  method WriteSymHeaders(m: Image, w: Writer, ghost pre: seq<Byte>, sy: Word, sys: Word)
    requires Fits(m) && m.hasSyms && sy == SegOffset(true, 3) && sys == SegOffset(true, 4)
    requires w.out == pre + Words(ShdrWords(Headers(m)[..4])) && w.offset == PartOffset(m, 3)
    modifies w
    ensures w.out == pre + Words(ShdrWords(Headers(m)[..6]))
  {
    OffsetsGrow(m);
    WriteNext(m, w, pre, 4, sy, SYMTAB, 0, 0, |Parts(m)[3]|, 5, 1, SYM_SIZE);
    WriteNext(m, w, pre, 5, sys, STRTAB, 0, 0, |Parts(m)[4]|, 0, 1, 0);
  }

  lemma OffsetsGrow(m: Image)
    requires Fits(m)
    ensures PartOffset(m, 0) == PG_SIZE
    ensures forall i :: 0 <= i < |Parts(m)| ==>
        |Parts(m)[i]| <= 65536 && PartOffset(m, i + 1) == PartOffset(m, i) + |Parts(m)[i]|
  {
    PartsAreSmall(m);
    forall i | 0 <= i < |Parts(m)| ensures PartOffset(m, i + 1) == PartOffset(m, i) + |Parts(m)[i]| {
      ConcatSlice(Parts(m), i);
    }
  }

  lemma FirstHeader(m: Image)
    requires Fits(m)
    ensures Words([0, 0, 0, 0, 0, 0, 0, 0, 0, 0]) == Words(ShdrWords(Headers(m)[..1]))
  {
    var h := Headers(m)[..1];
    var z: seq<Word> := [0, 0, 0, 0, 0, 0, 0, 0, 0, 0];
    assert h[1..] == [];
    assert h[0].Fields() == z;
    assert ShdrWords(h) == z + ShdrWords(h[1..]) == z;
  }
}
