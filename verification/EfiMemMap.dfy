/** Building the EFI memory table: sort, then merge boot-services memory into the conventional
    memory it touches, compacting the array in place. */
module EfiMemMap {

  const CONVENTIONAL := 7
  const TABLE_END := 15
  const PAGE_SIZE := 4096
  const SPACE := 0x1_0000_0000_0000_0000

  datatype Desc = Desc(typ: int, start: nat, virt: nat, pages: nat, attr: nat)

  predicate IsBootServices(typ: int) {
    typ == 1 || typ == 2 || typ == 3 || typ == 4
  }

  /** `h_cmp_entry`: the 64-bit difference read as a signed number. */
  function Compare(a: nat, b: nat): int {
    var d := (a - b) % SPACE;
    if d == 0 then 0 else if d < SPACE / 2 then 1 else -1
  }

  /** The comparison orders two addresses exactly when they are less than half the address space
      apart (or exactly half, the smaller one first). */
  lemma CompareIsOrder(a: nat, b: nat)
    requires a < SPACE && b < SPACE
    ensures Compare(a, b) == (if a < b then -1 else if a == b then 0 else 1) <==> -SPACE / 2 <= a - b < SPACE / 2
  {
    assert (a - b) % SPACE == if a >= b then a - b else a - b + SPACE;
  }

  // ----- the merge loop as a function of the sorted descriptors -----

  function End(d: Desc): nat {
    d.start + d.pages * PAGE_SIZE
  }

  function Norm(d: Desc, skip: bool): Desc {
    if skip && IsBootServices(d.typ) then d.(typ := CONVENTIONAL) else d
  }

  /** The entries built so far and the end of the last descriptor seen. */
  datatype Progress = Progress(out: seq<Desc>, addr: nat)

  predicate Merges(p: Progress, d: Desc, skip: bool) {
    && skip && p.out != [] && d.start == p.addr
    && Norm(d, skip).typ == CONVENTIONAL && p.out[|p.out| - 1].typ == CONVENTIONAL
  }

  function Step(p: Progress, d: Desc, skip: bool): Progress {
    var n := |p.out|;
    Progress(
      if Merges(p, d, skip) then p.out[n - 1 := p.out[n - 1].(pages := p.out[n - 1].pages + d.pages)]
      else p.out + [Norm(d, skip)],
      End(d) % SPACE)
  }

  function Merged(ds: seq<Desc>, skip: bool): (p: Progress)
    ensures |p.out| <= |ds| && (ds != [] ==> p.out != [])
  {
    if ds == [] then Progress([], 0) else Step(Merged(ds[..|ds| - 1], skip), ds[|ds| - 1], skip)
  }

  // ----- what the merged table means -----

  /** Sorted by address, nothing overlapping, all inside the address space. */
  ghost predicate Ordered(ds: seq<Desc>) {
    && (forall i :: 0 <= i < |ds| ==> ds[i].start < SPACE && End(ds[i]) <= SPACE)
    && (forall i, j :: 0 <= i < j < |ds| ==> End(ds[i]) <= ds[j].start)
  }

  predicate Covers(d: Desc, a: nat) {
    d.start <= a < End(d)
  }

  /** Some entry gives address `a` the type `t`. */
  ghost predicate HasType(ds: seq<Desc>, a: nat, t: int) {
    exists i :: 0 <= i < |ds| && Covers(ds[i], a) && ds[i].typ == t
  }

  function NormAll(ds: seq<Desc>, skip: bool): (ns: seq<Desc>)
    ensures |ns| == |ds| && forall i :: 0 <= i < |ns| ==> ns[i] == Norm(ds[i], skip)
  {
    if ds == [] then [] else NormAll(ds[..|ds| - 1], skip) + [Norm(ds[|ds| - 1], skip)]
  }

  function Pages(ds: seq<Desc>): nat {
    if ds == [] then 0 else Pages(ds[..|ds| - 1]) + ds[|ds| - 1].pages
  }

  /** Two entries next to each other in the table, both conventional, one starting where the other ends. */
  predicate Touch(a: Desc, b: Desc) {
    a.typ == CONVENTIONAL && b.typ == CONVENTIONAL && End(a) == b.start
  }

  /** No two neighbours touch. */
  ghost predicate Parted(ds: seq<Desc>) {
    forall i :: 0 <= i < |ds| - 1 ==> !Touch(ds[i], ds[i + 1])
  }

  /** Every address has the same types in both. */
  ghost predicate SameTypes(xs: seq<Desc>, ys: seq<Desc>) {
    forall a, t :: HasType(xs, a, t) <==> HasType(ys, a, t)
  }

  /** What holds after every round of the loop. */
  ghost predicate Faithful(ds: seq<Desc>, skip: bool, p: Progress) {
    && Ordered(p.out)
    && (ds == [] <==> p.out == [])
    && (ds != [] ==> End(p.out[|p.out| - 1]) == End(ds[|ds| - 1]) && p.addr == End(ds[|ds| - 1]) % SPACE)
    && Pages(p.out) == Pages(ds)
    && SameTypes(p.out, NormAll(ds, skip))
    && (skip ==> Parted(p.out))
  }

  lemma HasTypeAppend(ds: seq<Desc>, d: Desc, a: nat, t: int)
    ensures HasType(ds + [d], a, t) <==> HasType(ds, a, t) || (Covers(d, a) && d.typ == t)
  {
    var es := ds + [d];
    if HasType(ds, a, t) {
      var i :| 0 <= i < |ds| && Covers(ds[i], a) && ds[i].typ == t;
      assert es[i] == ds[i];
    }
    if Covers(d, a) && d.typ == t { assert es[|ds|] == d; }
  }

  lemma PagesAppend(ds: seq<Desc>, d: Desc)
    ensures Pages(ds + [d]) == Pages(ds) + d.pages
  {
    assert (ds + [d])[..|ds|] == ds;
  }

  lemma AppendKeeps(ds: seq<Desc>, skip: bool, p: Progress, d: Desc)
    requires Faithful(ds, skip, p) && Ordered(ds + [d]) && !Merges(p, d, skip)
    ensures Faithful(ds + [d], skip, Step(p, d, skip))
  {
    var n := Norm(d, skip);
    assert Pages(p.out + [n]) == Pages(ds + [d]) by {
      PagesAppend(ds, d);
      PagesAppend(p.out, n);
    }
    AppendTypes(ds, skip, p.out, d, n);
    LastBefore(ds, d);
    OrderedAppend(p.out, n);
    if skip { PartedAppend(p.out, n); }
  }

  lemma AppendTypes(ds: seq<Desc>, skip: bool, out: seq<Desc>, d: Desc, n: Desc)
    requires SameTypes(out, NormAll(ds, skip)) && n == Norm(d, skip)
    ensures SameTypes(out + [n], NormAll(ds + [d], skip))
  {
    NormAppend(ds, d, skip);
    forall a, t ensures HasType(out + [n], a, t) <==> HasType(NormAll(ds + [d], skip), a, t) {
      HasTypeAppend(out, n, a, t);
      HasTypeAppend(NormAll(ds, skip), n, a, t);
    }
  }

  lemma PartedAppend(out: seq<Desc>, d: Desc)
    requires Parted(out) && (out != [] ==> !Touch(out[|out| - 1], d))
    ensures Parted(out + [d])
  {
  }

  lemma NormAppend(ds: seq<Desc>, d: Desc, skip: bool)
    ensures NormAll(ds + [d], skip) == NormAll(ds, skip) + [Norm(d, skip)]
  {
    assert (ds + [d])[..|ds|] == ds;
  }

  lemma LastBefore(ds: seq<Desc>, d: Desc)
    requires Ordered(ds + [d])
    ensures d.start < SPACE && End(d) <= SPACE
    ensures ds != [] ==> End(ds[|ds| - 1]) <= d.start && End(ds[|ds| - 1]) % SPACE == End(ds[|ds| - 1])
  {
    var es := ds + [d];
    assert es[|ds|] == d;
    if ds != [] { assert es[|ds| - 1] == ds[|ds| - 1]; }
  }

  lemma OrderedAppend(out: seq<Desc>, d: Desc)
    requires Ordered(out) && d.start < SPACE && End(d) <= SPACE
    requires out != [] ==> End(out[|out| - 1]) <= d.start
    ensures Ordered(out + [d])
  {
    var es := out + [d];
    forall i, j | 0 <= i < j < |es| ensures End(es[i]) <= es[j].start {
      if j == |out| && i < |out| - 1 { assert End(out[i]) <= out[|out| - 1].start; }
    }
  }

  lemma MergeKeeps(ds: seq<Desc>, skip: bool, p: Progress, d: Desc)
    requires Faithful(ds, skip, p) && Ordered(ds + [d]) && Merges(p, d, skip)
    ensures Faithful(ds + [d], skip, Step(p, d, skip))
  {
    var k := |p.out| - 1;
    var front, last := p.out[..k], p.out[k];
    var last' := last.(pages := last.pages + d.pages);
    assert p.out == front + [last];
    assert Step(p, d, skip).out == front + [last'];
    LastBefore(ds, d);
    assert Pages(front + [last']) == Pages(ds + [d]) by {
      PagesAppend(ds, d);
      PagesAppend(front, last);
      PagesAppend(front, last');
    }
    MergeTypes(ds, skip, p, d, front, last, last');
    MergeOrdered(front, last, last', d);
    MergeApart(front, last, last');
  }

  lemma MergeOrdered(front: seq<Desc>, last: Desc, last': Desc, d: Desc)
    requires Ordered(front + [last]) && last' == last.(pages := last.pages + d.pages)
    requires End(last) == d.start && End(d) <= SPACE
    ensures Ordered(front + [last']) && End(last') == End(d)
  {
    var es, fs := front + [last], front + [last'];
    forall i | 0 <= i < |fs| ensures fs[i].start < SPACE && End(fs[i]) <= SPACE {
      assert es[i].start < SPACE && End(es[i]) <= SPACE;
    }
    forall i, j | 0 <= i < j < |fs| ensures End(fs[i]) <= fs[j].start {
      assert End(es[i]) <= es[j].start;
    }
  }

  lemma MergeApart(front: seq<Desc>, last: Desc, last': Desc)
    requires last'.typ == last.typ && last'.start == last.start
    requires Parted(front + [last])
    ensures Parted(front + [last'])
  {
    var es, fs := front + [last], front + [last'];
    forall i | 0 <= i < |fs| - 1 ensures !Touch(fs[i], fs[i + 1]) {
      assert !Touch(es[i], es[i + 1]);
    }
  }

  lemma MergeTypes(ds: seq<Desc>, skip: bool, p: Progress, d: Desc, front: seq<Desc>, last: Desc, last': Desc)
    requires p.out == front + [last] && last' == last.(pages := last.pages + d.pages)
    requires End(last) == d.start && last.typ == Norm(d, skip).typ
    requires SameTypes(p.out, NormAll(ds, skip))
    ensures SameTypes(front + [last'], NormAll(ds + [d], skip))
  {
    NormAppend(ds, d, skip);
    forall a, t ensures HasType(front + [last'], a, t) <==> HasType(NormAll(ds + [d], skip), a, t) {
      HasTypeAppend(front, last, a, t);
      HasTypeAppend(front, last', a, t);
      HasTypeAppend(NormAll(ds, skip), Norm(d, skip), a, t);
      assert Covers(last', a) <==> Covers(last, a) || Covers(Norm(d, skip), a);
    }
  }

  /** For sorted descriptors that do not overlap, the merged table gives every address the type it
      had (boot-services memory read as conventional when skipping), holds as many pages, stays
      sorted, and when skipping leaves no two neighbours that touch and are both conventional. */
  lemma {:induction false} MergedIsFaithful(ds: seq<Desc>, skip: bool)
    requires Ordered(ds)
    ensures Faithful(ds, skip, Merged(ds, skip))
  {
    if ds == [] {
      assert NormAll(ds, skip) == [];
    } else {
      var front, d := ds[..|ds| - 1], ds[|ds| - 1];
      assert ds == front + [d];
      MergedIsFaithful(front, skip);
      var p := Merged(front, skip);
      if Merges(p, d, skip) { MergeKeeps(front, skip, p, d); } else { AppendKeeps(front, skip, p, d); }
    }
  }

  /** A descriptor gives address `a` the type `t`, pages having 4096 bytes; boot-services code and data and loader
      code and data, types 1 to 4, count as conventional memory, type 7, when they are skipped. */
  predicate Gives(d: Desc, skip: bool, a: nat, t: int) {
    d.start <= a < d.start + 4096 * d.pages && t == if skip && 1 <= d.typ <= 4 then 7 else d.typ
  }

  /** Some descriptor gives it. */
  ghost predicate Given(ds: seq<Desc>, skip: bool, a: nat, t: int) {
    exists i :: 0 <= i < |ds| && Gives(ds[i], skip, a, t)
  }

  lemma GivenIsType(ds: seq<Desc>, skip: bool, a: nat, t: int)
    ensures Given(ds, skip, a, t) <==> HasType(NormAll(ds, skip), a, t)
  {
    var ns := NormAll(ds, skip);
    forall i | 0 <= i < |ds| ensures Gives(ds[i], skip, a, t) <==> Covers(ns[i], a) && ns[i].typ == t {
      GivesIsType(ds[i], skip, a, t);
    }
  }

  lemma GivesIsType(d: Desc, skip: bool, a: nat, t: int)
    ensures Gives(d, skip, a, t) <==> Covers(Norm(d, skip), a) && Norm(d, skip).typ == t
  {
  }

  /** Every address has in the table exactly the types the descriptors give it. */
  lemma TypesAreKept(ds: seq<Desc>, skip: bool, a: nat, t: int)
    requires Ordered(ds)
    ensures Given(Merged(ds, skip).out, false, a, t) <==> Given(ds, skip, a, t)
  {
    MergedKeepsTypes(ds, skip, a, t);
    GivenIsType(ds, skip, a, t);
    GivenIsType(Merged(ds, skip).out, false, a, t);
    NormIsSame(Merged(ds, skip).out);
  }

  lemma MergedKeepsTypes(ds: seq<Desc>, skip: bool, a: nat, t: int)
    requires Ordered(ds)
    ensures HasType(Merged(ds, skip).out, a, t) <==> HasType(NormAll(ds, skip), a, t)
  {
    MergedIsFaithful(ds, skip);
    assert SameTypes(Merged(ds, skip).out, NormAll(ds, skip));
  }

  lemma NormIsSame(ds: seq<Desc>)
    ensures NormAll(ds, false) == ds
  {
  }

  /** The entry starts with the descriptor: same address, virtual address and attributes. */
  predicate StartsWith(e: Desc, d: Desc) {
    e.start == d.start && e.virt == d.virt && e.attr == d.attr
  }

  /** Every entry starts with one of the descriptors. */
  lemma {:induction false} EntriesStart(ds: seq<Desc>, skip: bool, k: nat)
    requires k < |Merged(ds, skip).out|
    ensures exists i :: 0 <= i < |ds| && StartsWith(Merged(ds, skip).out[k], ds[i])
  {
    var n := |ds| - 1;
    var front := ds[..n];
    var p := Merged(front, skip);
    if k < |p.out| {
      EntriesStart(front, skip, k);
      var i :| 0 <= i < |front| && StartsWith(p.out[k], front[i]);
      assert StartsWith(Merged(ds, skip).out[k], ds[i]);
    } else {
      assert StartsWith(Merged(ds, skip).out[k], ds[n]);
    }
  }

  /** If every descriptor has a page, no two entries anywhere in the table touch and are both conventional. */
  lemma NothingTouches(ds: seq<Desc>, i: nat, j: nat)
    requires Ordered(ds) && forall k :: 0 <= k < |ds| ==> ds[k].pages > 0
    requires i < j < |Merged(ds, true).out|
    ensures !Touch(Merged(ds, true).out[i], Merged(ds, true).out[j])
  {
    MergedIsParted(ds);
    MergedHasPages(ds, true, i + 1);
    FarApart(Merged(ds, true).out, i, j);
  }

  lemma MergedIsParted(ds: seq<Desc>)
    requires Ordered(ds)
    ensures Ordered(Merged(ds, true).out) && Parted(Merged(ds, true).out)
  {
    MergedIsFaithful(ds, true);
  }

  lemma FarApart(out: seq<Desc>, i: nat, j: nat)
    requires Ordered(out) && Parted(out) && i < j < |out| && out[i + 1].pages > 0
    ensures !Touch(out[i], out[j])
  {
    assert !Touch(out[i], out[i + 1]);
    if j > i + 1 {
      assert End(out[i]) <= out[i + 1].start < End(out[i + 1]) <= out[j].start;
    }
  }

  lemma {:induction false} MergedHasPages(ds: seq<Desc>, skip: bool, i: nat)
    requires (forall k :: 0 <= k < |ds| ==> ds[k].pages > 0) && i < |Merged(ds, skip).out|
    ensures Merged(ds, skip).out[i].pages > 0
  {
    var front := ds[..|ds| - 1];
    if i < |Merged(front, skip).out| { MergedHasPages(front, skip, i); }
  }

  /** Without skipping the table is the sorted list itself. */
  lemma {:induction false} UnskippedIsUnchanged(ds: seq<Desc>)
    ensures Merged(ds, false).out == ds
  {
    if ds != [] { UnskippedIsUnchanged(ds[..|ds| - 1]); }
  }

  // ----- in place -----

  /** The loop of `efi_build_mem_table` on the sorted copy; the array has one slot more for the end
      mark.  `dest` never passes the descriptor being read, so nothing is lost. */
  method Compact(base: array<Desc>, skip: bool) returns (dest: nat)
    requires base.Length > 0
    modifies base
    ensures var ds := old(base[..base.Length - 1]);
            && dest == |Merged(ds, skip).out| < base.Length
            && base[..dest] == Merged(ds, skip).out && base[dest].typ == TABLE_END
  {
    var count := base.Length - 1;
    ghost var ds := base[..count];
    ghost var p := Progress([], 0);
    dest := 0;
    var addr, desc := 0, 0;
    assert ds[..0] == [];
    while desc < count
      invariant 0 <= desc <= count && 0 <= dest <= desc
      invariant p == Merged(ds[..desc], skip) && base[..dest] == p.out && addr == p.addr
      invariant forall k :: desc <= k < count ==> base[k] == ds[k]
    {
      MergedStep(ds, desc, skip);
      ghost var q := Step(p, base[desc], skip);
      dest, addr := Take(base, desc, dest, addr, skip, p);
      p := q;
      desc := desc + 1;
    }
    assert ds[..count] == ds;
    base[dest] := base[dest].(typ := TABLE_END);
  }

  lemma MergedStep(ds: seq<Desc>, k: nat, skip: bool)
    requires k < |ds|
    ensures Merged(ds[..k + 1], skip) == Step(Merged(ds[..k], skip), ds[k], skip)
  {
    assert ds[..k + 1][..k] == ds[..k];
  }

  /** One descriptor: copied down to `dest`, and kept there or merged into the entry before. */
  method Take(base: array<Desc>, desc: nat, dest: nat, addr: nat, skip: bool, ghost p: Progress)
    returns (dest': nat, addr': nat)
    requires dest <= desc < base.Length && base[..dest] == p.out && addr == p.addr
    modifies base
    ensures var q := Step(p, old(base[desc]), skip);
            dest' <= desc + 1 && base[..dest'] == q.out && addr' == q.addr
    ensures forall k :: desc < k < base.Length ==> base[k] == old(base[k])
  {
    var d := base[desc];
    var prev := dest - 1;
    var typ := if skip && IsBootServices(d.typ) then CONVENTIONAL else d.typ;
    base[dest] := d.(typ := typ);
    var merge := true;
    if !skip || prev < 0 { merge := false; }
    else if d.start != addr { merge := false; }
    else if typ != CONVENTIONAL { merge := false; }
    else if base[prev].typ != CONVENTIONAL { merge := false; }
    assert dest > 0 ==> base[prev] == p.out[dest - 1];
    if merge {
      base[prev] := base[prev].(pages := base[prev].pages + d.pages);
      dest' := dest;
      assert base[..dest'] == Step(p, d, skip).out;
    } else {
      dest' := dest + 1;
      assert base[..dest'] == p.out + [Norm(d, skip)];
    }
    addr' := (d.start + d.pages * PAGE_SIZE) % SPACE;
  }
}
