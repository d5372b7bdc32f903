/** Before relocation, memory is set aside from the top of RAM downwards, in address arithmetic that
    wraps at the word size. */
module Reserve {
  /** Sizes on one board; what is not configured has size zero.  `word` is one more than the largest
      address. */
  datatype Config = Config(word: nat, base: nat, ramSize: nat, secure: nat, hidden: nat,
                           logbuf: nat, pram: nat, mmu: bool, tlb: nat, lcd: bool, screen: nat, trace: nat,
                           mon: nat, heap: nat, hasBd: bool, bd: nat, gd: nat, hasFdt: bool, fdt: nat)

  predicate IsConfig(c: Config) {
    && c.word >= 0x10000 && c.word % 0x10000 == 0
    && c.base < c.word && c.secure + c.hidden <= c.ramSize < c.word
    && c.logbuf < c.word && 1024 * c.pram < c.word && c.tlb < c.word && Up(c.screen, 0x1000) < c.word
    && c.trace < c.word && c.mon < c.word && c.heap < c.word && c.bd < c.word && c.gd < c.word
    && Up(c.fdt + 0x1000, 32) < c.word
  }

  predicate IsAlign(n: nat) {
    n == 1 || n == 16 || n == 32 || n == 0x1000 || n == 0x10000
  }

  function Down(x: int, n: nat): (r: int)
    requires IsAlign(n)
    ensures x - n < r <= x && r % n == 0
  {
    x - x % n
  }

  function Up(x: nat, n: nat): (r: nat)
    requires IsAlign(n)
    ensures x <= r < x + n && r % n == 0
  {
    if x % n == 0 then x else x - x % n + n
  }

  // ----- carving -----

  /** Take `size` bytes off and round down. */
  datatype Request = Request(size: nat, align: nat)

  ghost predicate AreRequests(word: nat, rs: seq<Request>) {
    forall i :: 0 <= i < |rs| ==> rs[i].size < word && IsAlign(rs[i].align)
  }

  /** The address reached after the requests, as a plain number. */
  ghost function Exact(word: nat, top: int, rs: seq<Request>): int
    requires AreRequests(word, rs)
    decreases |rs|
  {
    if rs == [] then top
    else
      var r := rs[|rs| - 1];
      Down(Exact(word, top, rs[..|rs| - 1]) - r.size, r.align)
  }

  function Sub(word: nat, a: nat, b: nat): (r: nat)
    requires a < word && b < word
    ensures r < word
  {
    if a >= b then a - b else a - b + word
  }

  /** One step in wrapping arithmetic. */
  function Lowered(word: nat, addr: nat, r: Request): (a: nat)
    requires addr < word && r.size < word && IsAlign(r.align)
    ensures a < word
  {
    Down(Sub(word, addr, r.size), r.align)
  }

  /** The address reached after the requests, in wrapping arithmetic. */
  ghost function Wrapped(word: nat, top: nat, rs: seq<Request>): (a: nat)
    requires top < word && AreRequests(word, rs)
    ensures a < word
    decreases |rs|
  {
    if rs == [] then top
    else Lowered(word, Wrapped(word, top, rs[..|rs| - 1]), rs[|rs| - 1])
  }

  /** Later pieces lie below earlier ones. */
  lemma {:induction false} Descends(word: nat, top: int, rs: seq<Request>, i: nat)
    requires AreRequests(word, rs) && i <= |rs|
    ensures Exact(word, top, rs) <= Exact(word, top, rs[..i])
    ensures i < |rs| ==> Exact(word, top, rs) + rs[|rs| - 1].size <= Exact(word, top, rs[..i])
    decreases |rs|
  {
    if i == |rs| {
      assert rs[..i] == rs;
    } else {
      var most := rs[..|rs| - 1];
      Descends(word, top, most, i);
      assert most[..i] == rs[..i];
    }
  }

  /** The most the requests can take. */
  function Need(rs: seq<Request>): int
    decreases |rs|
  {
    if rs == [] then 0
    else Need(rs[..|rs| - 1]) + rs[|rs| - 1].size + rs[|rs| - 1].align - 1
  }

  lemma {:induction false} NeedIsEnough(word: nat, top: int, rs: seq<Request>)
    requires AreRequests(word, rs)
    ensures Exact(word, top, rs) >= top - Need(rs)
    decreases |rs|
  {
    if rs != [] { NeedIsEnough(word, top, rs[..|rs| - 1]); }
  }

  /** `a` is the address `v`, where the end of the address space is address zero. */
  predicate IsAddress(word: nat, a: nat, v: int) {
    (0 <= v < word && a == v) || (v == word && a == 0)
  }

  lemma LoweredIsAddress(word: nat, a: nat, v: int, r: Request)
    requires word >= 0x10000 && word % 0x10000 == 0 && IsAddress(word, a, v)
    requires r.size < word && IsAlign(r.align) && Down(v - r.size, r.align) >= 0
    ensures IsAddress(word, Lowered(word, a, r), Down(v - r.size, r.align))
  {
    if v == word && r.size == 0 {
      DownWord(word, r.align);
    }
  }

  lemma DownWord(word: nat, align: nat)
    requires word % 0x10000 == 0 && IsAlign(align)
    ensures Down(word, align) == word && Down(0, align) == 0
  {
    var k := word / 0x10000;
    if align == 16 {
      Multiple16(k);
    } else if align == 32 {
      Multiple32(k);
    } else if align == 0x1000 {
      Multiple4096(k);
    }
  }

  lemma Multiple16(k: nat)
    ensures 0x10000 * k % 16 == 0
  {
    assert 0x10000 * k == 16 * (0x1000 * k);
  }

  lemma Multiple32(k: nat)
    ensures 0x10000 * k % 32 == 0
  {
    assert 0x10000 * k == 32 * (0x800 * k);
  }

  lemma Multiple4096(k: nat)
    ensures 0x10000 * k % 0x1000 == 0
  {
    assert 0x10000 * k == 0x1000 * (16 * k);
  }

  /** As long as nothing goes below zero, wrapping makes no difference. */
  lemma {:induction false} WrappedIsExact(word: nat, a: nat, v: int, rs: seq<Request>)
    requires word >= 0x10000 && word % 0x10000 == 0 && AreRequests(word, rs) && IsAddress(word, a, v)
    requires Exact(word, v, rs) >= 0
    ensures IsAddress(word, Wrapped(word, a, rs), Exact(word, v, rs))
    decreases |rs|
  {
    if rs != [] {
      Descends(word, v, rs, |rs| - 1);
      WrappedIsExact(word, a, v, rs[..|rs| - 1]);
      LoweredIsAddress(word, Wrapped(word, a, rs[..|rs| - 1]), Exact(word, v, rs[..|rs| - 1]), rs[|rs| - 1]);
    }
  }

  // ----- the board -----

  const TLB := 3
  const SCREEN := 5
  const TRACE := 6
  const MONITOR := 7
  const HEAP := 8
  const BOARD := 9
  const GLOBAL := 10
  const FDT := 11
  const STACK := 12

  /** The reservations in the order of the init sequence: log buffer, protected RAM, rounding, TLB,
      rounding and frame buffer, trace buffer, monitor, heap, board info, global data, device tree,
      stack. */
  function Requests(c: Config): (rs: seq<Request>)
    requires IsConfig(c)
    ensures |rs| == 13 && AreRequests(c.word, rs)
  {
    [Request(c.logbuf, 1), Request(1024 * c.pram, 1), Request(0, 0x1000),
     if c.mmu then Request(c.tlb, 0x10000) else Request(0, 1),
     if c.lcd then Request(0, 0x1000) else Request(0, 1),
     if c.lcd then Request(Up(c.screen, 0x1000), 1) else Request(0, 1),
     Request(c.trace, 1), Request(c.mon, 0x1000), Request(c.heap, 1),
     if c.hasBd then Request(0, 1) else Request(c.bd, 1),
     Request(c.gd, 1),
     if c.hasFdt then Request(Up(c.fdt + 0x1000, 32), 1) else Request(0, 1),
     Request(16, 16)]
  }

  function RamSize(c: Config): nat
    requires IsConfig(c)
  {
    c.ramSize - c.secure - c.hidden
  }

  /** The end of the RAM that can be addressed. */
  function Top(c: Config): nat
    requires IsConfig(c)
  {
    if c.base + RamSize(c) < c.word then c.base + RamSize(c) else c.word
  }

  /** `setup_dest_addr`: RAM that runs past the address space wraps below its own start, and zero then
      stands for the end of the space. */
  function RamTop(c: Config): (top: nat)
    requires IsConfig(c)
    ensures top < c.word && IsAddress(c.word, top, Top(c))
  {
    var sum := c.base + RamSize(c);
    var top := if sum < c.word then sum else sum - c.word;
    if top < c.base then 0 else top
  }

  /** The address where piece `i` ends up. */
  ghost function At(c: Config, i: nat): nat
    requires IsConfig(c) && i < 13
  {
    Wrapped(c.word, RamTop(c), Requests(c)[..i + 1])
  }

  /** The last address is still in RAM. */
  ghost predicate Fits(c: Config)
    requires IsConfig(c)
  {
    Exact(c.word, Top(c), Requests(c)) >= c.base
  }

  /** The sizes, each with its rounding, tell beforehand that everything fits. */
  lemma RoomIsEnough(c: Config)
    requires IsConfig(c) && c.base + Need(Requests(c)) <= Top(c)
    ensures Fits(c)
  {
    NeedIsEnough(c.word, Top(c), Requests(c));
  }

  /** Where a piece is, when everything fits. */
  lemma PieceIsExact(c: Config, i: nat)
    requires IsConfig(c) && Fits(c) && i < 13
    ensures IsAddress(c.word, At(c, i), Exact(c.word, Top(c), Requests(c)[..i + 1]))
    ensures c.base <= Exact(c.word, Top(c), Requests(c)[..i + 1])
    ensures Exact(c.word, Top(c), Requests(c)[..i + 1]) + Requests(c)[i].size <= Top(c)
  {
    var rs := Requests(c);
    Descends(c.word, Top(c), rs, i + 1);
    WrappedIsExact(c.word, RamTop(c), Top(c), rs[..i + 1]);
    Descends(c.word, Top(c), rs[..i + 1], 0);
    assert rs[..i + 1][..0] == [];
  }

  /** When everything fits, each piece that has a size lies inside RAM and inside the address space,
      below every earlier piece. */
  lemma PiecesAreApart(c: Config, i: nat, j: nat)
    requires IsConfig(c) && Fits(c) && i < j < 13 && Requests(c)[i].size > 0 && Requests(c)[j].size > 0
    ensures c.base <= At(c, j) && At(c, j) + Requests(c)[j].size <= At(c, i)
    ensures At(c, i) + Requests(c)[i].size <= Top(c) <= c.base + RamSize(c)
  {
    var rs := Requests(c);
    PieceIsExact(c, i);
    PieceIsExact(c, j);
    Descends(c.word, Top(c), rs[..j + 1], i + 1);
    assert rs[..j + 1][..i + 1] == rs[..i + 1];
  }

  lemma PieceIsAligned(c: Config, i: nat)
    requires IsConfig(c) && i < 13
    ensures At(c, i) % Requests(c)[i].align == 0
  {
    assert Requests(c)[..i + 1] != [];
  }

  /** The stack pointer is a multiple of 16, the monitor starts a page and the TLB a 64 kB block. */
  lemma Alignments(c: Config)
    requires IsConfig(c)
    ensures At(c, STACK) % 16 == 0 && At(c, MONITOR) % 0x1000 == 0 && (c.mmu ==> At(c, TLB) % 0x10000 == 0)
  {
    PieceIsAligned(c, STACK);
    PieceIsAligned(c, MONITOR);
    PieceIsAligned(c, TLB);
  }

  // ----- the layout, by the configured sizes -----

  /** `piece` is the highest multiple of `align` with `size` bytes between it and `above`. */
  predicate Under(piece: int, size: nat, align: nat, above: int)
    requires align > 0
  {
    piece % align == 0 && piece + size <= above < piece + size + align
  }

  /** The addresses reached, as plain numbers: the page below the log buffer and the protected RAM, the TLB,
      the frame buffer, the trace buffer, the monitor, the heap, the board info, the global data, the device
      tree and the stack. */
  datatype Chain = Chain(high: int, tlb: int, screen: int, trace: int, monitor: int, heap: int, board: int,
                         global: int, fdt: int, stack: int)

  /** Every piece lies right under the one before it, has its configured size, and the last is in RAM. */
  predicate Lays(c: Config, v: Chain) {
    var end := c.base + c.ramSize - c.secure - c.hidden;
    var top := if end < c.word then end else c.word;
    && Under(v.high, 0, 0x1000, top - c.logbuf - 1024 * c.pram)
    && (if c.mmu then Under(v.tlb, c.tlb, 0x10000, v.high) else v.tlb == v.high)
    && (if c.lcd then Under(v.screen, Up(c.screen, 0x1000), 0x1000, v.tlb) else v.screen == v.tlb)
    && v.trace == v.screen - c.trace
    && Under(v.monitor, c.mon, 0x1000, v.trace)
    && v.heap == v.monitor - c.heap
    && v.board == v.heap - (if c.hasBd then 0 else c.bd)
    && v.global == v.board - c.gd
    && v.fdt == v.global - (if c.hasFdt then Up(c.fdt + 0x1000, 32) else 0)
    && Under(v.stack, 16, 16, v.fdt)
    && c.base <= v.stack
  }

  /** The address reached after `i` requests. */
  ghost function Upto(c: Config, i: nat): int
    requires IsConfig(c) && i <= 13
  {
    Exact(c.word, Top(c), Requests(c)[..i])
  }

  lemma UptoStep(c: Config, i: nat)
    requires IsConfig(c) && i < 13
    ensures var r := Requests(c)[i]; Upto(c, i + 1) == Down(Upto(c, i) - r.size, r.align)
  {
    var rs := Requests(c)[..i + 1];
    assert rs[..i] == Requests(c)[..i] && rs[i] == Requests(c)[i];
  }

  ghost function ChainOf(c: Config): Chain
    requires IsConfig(c)
  {
    Chain(Upto(c, 3), Upto(c, 4), Upto(c, 6), Upto(c, 7), Upto(c, 8), Upto(c, 9), Upto(c, 10), Upto(c, 11),
          Upto(c, 12), Upto(c, 13))
  }

  lemma HighIsLaid(c: Config)
    requires IsConfig(c)
    ensures Under(Upto(c, 3), 0, 0x1000, Top(c) - c.logbuf - 1024 * c.pram)
    ensures if c.mmu then Under(Upto(c, 4), c.tlb, 0x10000, Upto(c, 3)) else Upto(c, 4) == Upto(c, 3)
  {
    UptoStep(c, 0);
    UptoStep(c, 1);
    UptoStep(c, 2);
    UptoStep(c, 3);
  }

  lemma ScreenIsLaid(c: Config)
    requires IsConfig(c)
    ensures if c.lcd then Under(Upto(c, 6), Up(c.screen, 0x1000), 0x1000, Upto(c, 4)) else Upto(c, 6) == Upto(c, 4)
  {
    ScreenSteps(c);
    if c.lcd { PageUnder(Upto(c, 4), Up(c.screen, 0x1000)); }
  }

  lemma ScreenSteps(c: Config)
    requires IsConfig(c)
    ensures Upto(c, 6) == if c.lcd then Down(Upto(c, 4), 0x1000) - Up(c.screen, 0x1000) else Upto(c, 4)
  {
    UptoStep(c, 4);
    UptoStep(c, 5);
    var r, r' := Requests(c)[4], Requests(c)[5];
    if c.lcd {
      assert r == Request(0, 0x1000) && r' == Request(Up(c.screen, 0x1000), 1);
    } else {
      assert r == r' == Request(0, 1);
    }
  }

  lemma PageUnder(above: int, size: nat)
    requires size % 0x1000 == 0
    ensures Under(Down(above, 0x1000) - size, size, 0x1000, above)
  {
    var d := Down(above, 0x1000);
    var j, k := d / 0x1000, size / 0x1000;
    assert d == 0x1000 * j && size == 0x1000 * k;
    assert d - size == 0x1000 * (j - k);
  }

  lemma MonitorIsLaid(c: Config)
    requires IsConfig(c)
    ensures Upto(c, 7) == Upto(c, 6) - c.trace && Under(Upto(c, 8), c.mon, 0x1000, Upto(c, 7))
    ensures Upto(c, 9) == Upto(c, 8) - c.heap
  {
    UptoStep(c, 6);
    UptoStep(c, 7);
    UptoStep(c, 8);
  }

  lemma DataIsLaid(c: Config)
    requires IsConfig(c)
    ensures Upto(c, 10) == Upto(c, 9) - (if c.hasBd then 0 else c.bd) && Upto(c, 11) == Upto(c, 10) - c.gd
    ensures Upto(c, 12) == Upto(c, 11) - (if c.hasFdt then Up(c.fdt + 0x1000, 32) else 0)
  {
    UptoStep(c, 9);
    UptoStep(c, 10);
    UptoStep(c, 11);
  }

  lemma StackIsLaid(c: Config)
    requires IsConfig(c)
    ensures Under(Upto(c, 13), 16, 16, Upto(c, 12))
  {
    UptoStep(c, 12);
  }

  /** The requests lead to the layout of the configured sizes, if that ends in RAM. */
  lemma ChainIsLaid(c: Config)
    requires IsConfig(c) && Fits(c)
    ensures Lays(c, ChainOf(c))
  {
    HighIsLaid(c);
    ScreenIsLaid(c);
    MonitorIsLaid(c);
    DataIsLaid(c);
    StackIsLaid(c);
    assert Requests(c)[..13] == Requests(c);
  }

  lemma UnderIsOne(p: int, q: int, size: nat, align: nat, above: int)
    requires IsAlign(align) && Under(p, size, align, above) && Under(q, size, align, above)
    ensures p == q
  {
  }

  /** There is only one layout, so everything fits exactly when there is one at all. */
  lemma FitsIffLaid(c: Config, v: Chain)
    requires IsConfig(c) && Lays(c, v)
    ensures Fits(c) && v == ChainOf(c)
  {
    var u := ChainOf(c);
    HighIsLaid(c);
    UnderIsOne(u.high, v.high, 0, 0x1000, Top(c) - c.logbuf - 1024 * c.pram);
    if c.mmu { UnderIsOne(u.tlb, v.tlb, c.tlb, 0x10000, v.high); }
    ScreenIsLaid(c);
    if c.lcd { UnderIsOne(u.screen, v.screen, Up(c.screen, 0x1000), 0x1000, v.tlb); }
    MonitorIsLaid(c);
    UnderIsOne(u.monitor, v.monitor, c.mon, 0x1000, v.trace);
    DataIsLaid(c);
    StackIsLaid(c);
    UnderIsOne(u.stack, v.stack, 16, 16, v.fdt);
    assert Requests(c)[..13] == Requests(c);
  }

  /** The configured sizes, each with its rounding, tell beforehand that everything fits. */
  lemma SizesFit(c: Config)
    requires IsConfig(c)
    requires var end := c.base + c.ramSize - c.secure - c.hidden;
             c.base + c.logbuf + 1024 * c.pram + 0xfff + (if c.mmu then c.tlb + 0xffff else 0)
             + (if c.lcd then c.screen + 0x1ffe else 0) + c.trace + c.mon + 0xfff + c.heap
             + (if c.hasBd then 0 else c.bd) + c.gd + (if c.hasFdt then c.fdt + 0x1000 + 31 else 0) + 31
             <= if end < c.word then end else c.word
    ensures Fits(c)
  {
    UpperSizes(c);
    LowerSizes(c);
    assert Requests(c)[..13] == Requests(c);
  }

  lemma UpperSizes(c: Config)
    requires IsConfig(c)
    ensures Upto(c, 6) >= Top(c) - c.logbuf - 1024 * c.pram - 0xfff - (if c.mmu then c.tlb + 0xffff else 0)
                          - (if c.lcd then c.screen + 0x1ffe else 0)
  {
    HighIsLaid(c);
    ScreenIsLaid(c);
  }

  lemma LowerSizes(c: Config)
    requires IsConfig(c)
    ensures Upto(c, 13) >= Upto(c, 6) - c.trace - c.mon - 0xfff - c.heap - (if c.hasBd then 0 else c.bd) - c.gd
                           - (if c.hasFdt then c.fdt + 0x1000 + 31 else 0) - 31
  {
    MonitorIsLaid(c);
    DataIsLaid(c);
    StackIsLaid(c);
  }

  /** A piece above the stack whose address is zero is at the end of the address space. */
  function Edge(c: Config, a: nat): nat {
    if a == 0 then c.word else a
  }

  lemma AddressIsEdge(c: Config, i: nat)
    requires IsConfig(c) && Fits(c) && i < 12
    ensures Edge(c, At(c, i)) == Upto(c, i + 1)
  {
    PieceIsExact(c, i);
    StackIsBelow(c, i);
  }

  lemma StackIsBelow(c: Config, i: nat)
    requires IsConfig(c) && Fits(c) && i < 12
    ensures Upto(c, i + 1) >= 16
  {
    var rs := Requests(c);
    Descends(c.word, Top(c), rs, i + 1);
    assert rs[12] == Request(16, 16);
  }

  lemma StackAddress(c: Config)
    requires IsConfig(c) && Fits(c)
    ensures At(c, STACK) == Upto(c, 13)
  {
    PieceIsExact(c, STACK);
    var rs := Requests(c);
    assert rs[..13] == rs;
    Descends(c.word, Top(c), rs, 12);
    Descends(c.word, Top(c), rs[..12], 0);
    assert rs[..12][..0] == [] && rs[..0] == [];
    assert rs[12].size == 16;
  }

  // ----- the init sequence -----

  /** The fields of the global data that place the pieces. */
  class GlobalData {
    const c: Config
    var ramTop: nat
    var relocaddr: nat
    var startAddrSp: nat
    var tlbAddr: nat
    var fbBase: nat
    var traceBuff: nat
    var bd: nat
    var newGd: nat
    var newFdt: nat
    ghost var done: seq<Request>

    constructor (c: Config)
      requires IsConfig(c)
      ensures this.c == c && done == []
    {
      this.c, done := c, [];
    }

    /** The address is the one the requests so far lead to. */
    ghost predicate Reached(addr: nat)
      reads this
    {
      IsConfig(c) && AreRequests(c.word, done) && addr == Wrapped(c.word, RamTop(c), done)
    }

    /** One more request leads from `addr` to the lowered address. */
    lemma Reaches(addr: nat, r: Request)
      requires Reached(addr) && r.size < c.word && IsAlign(r.align)
      ensures AreRequests(c.word, done + [r])
      ensures Lowered(c.word, addr, r) == Wrapped(c.word, RamTop(c), done + [r])
    {
      var rs := done + [r];
      assert rs[..|rs| - 1] == done;
      assert forall i :: 0 <= i < |rs| ==> rs[i] == if i < |done| then done[i] else r;
    }

    method SetupDestAddr()
      requires IsConfig(c) && done == []
      modifies this
      ensures done == [] && Reached(relocaddr)
    {
      var size := c.ramSize - c.secure;
      size := size - c.hidden;
      ramTop := c.base + size;
      if ramTop >= c.word { ramTop := ramTop - c.word; }
      if ramTop < c.base { ramTop := 0; }
      relocaddr := ramTop;
    }

    /** Take a piece off `relocaddr`. */
    method Lower(size: nat, align: nat)
      requires Reached(relocaddr) && size < c.word && IsAlign(align)
      modifies this`relocaddr, this`done
      ensures done == old(done) + [Request(size, align)] && Reached(relocaddr)
    {
      Reaches(relocaddr, Request(size, align));
      relocaddr := Sub(c.word, relocaddr, size);
      relocaddr := Down(relocaddr, align);
      done := done + [Request(size, align)];
    }

    /** Take a piece off `start_addr_sp`. */
    method LowerSp(size: nat, align: nat)
      requires Reached(startAddrSp) && size < c.word && IsAlign(align)
      modifies this`startAddrSp, this`done
      ensures done == old(done) + [Request(size, align)] && Reached(startAddrSp)
    {
      Reaches(startAddrSp, Request(size, align));
      startAddrSp := Sub(c.word, startAddrSp, size);
      startAddrSp := Down(startAddrSp, align);
      done := done + [Request(size, align)];
    }

    /** `reserve_mmu` */
    method ReserveMmu()
      requires Reached(relocaddr)
      modifies this`relocaddr, this`done, this`tlbAddr
      ensures done == old(done) + [if c.mmu then Request(c.tlb, 0x10000) else Request(0, 1)] && Reached(relocaddr)
      ensures c.mmu ==> tlbAddr == relocaddr
    {
      if c.mmu {
        Lower(c.tlb, 0x10000);
        tlbAddr := relocaddr;
      } else {
        Lower(0, 1);
      }
    }

    /** `reserve_lcd` */
    method ReserveLcd()
      requires Reached(relocaddr)
      modifies this`relocaddr, this`done, this`fbBase
      ensures done == old(done) + [if c.lcd then Request(0, 0x1000) else Request(0, 1)]
                                + [if c.lcd then Request(Up(c.screen, 0x1000), 1) else Request(0, 1)]
      ensures Reached(relocaddr) && (c.lcd ==> fbBase == relocaddr)
    {
      if c.lcd {
        AlignAndLower(0x1000, Up(c.screen, 0x1000));
        fbBase := relocaddr;
      } else {
        AlignAndLower(1, 0);
      }
    }

    /** Round `relocaddr` down, then take a piece off. */
    method AlignAndLower(align: nat, size: nat)
      requires Reached(relocaddr) && size < c.word && IsAlign(align)
      modifies this`relocaddr, this`done
      ensures done == old(done) + [Request(0, align)] + [Request(size, 1)] && Reached(relocaddr)
    {
      Lower(0, align);
      Lower(size, 1);
    }

    /** `reserve_board` */
    method ReserveBoard()
      requires Reached(startAddrSp)
      modifies this`startAddrSp, this`done, this`bd
      ensures done == old(done) + [if c.hasBd then Request(0, 1) else Request(c.bd, 1)] && Reached(startAddrSp)
      ensures bd == if c.hasBd then old(bd) else startAddrSp
    {
      if c.hasBd {
        LowerSp(0, 1);
      } else {
        LowerSp(c.bd, 1);
        bd := startAddrSp;
      }
    }

    /** `reserve_fdt` */
    method ReserveFdt()
      requires Reached(startAddrSp)
      modifies this`startAddrSp, this`done, this`newFdt
      ensures done == old(done) + [if c.hasFdt then Request(Up(c.fdt + 0x1000, 32), 1) else Request(0, 1)]
      ensures Reached(startAddrSp) && (c.hasFdt ==> newFdt == startAddrSp)
    {
      if c.hasFdt {
        LowerSp(Up(c.fdt + 0x1000, 32), 1);
        newFdt := startAddrSp;
      } else {
        LowerSp(0, 1);
      }
    }

    /** The sequence down to the frame buffer. */
    method ReserveScreen()
      requires IsConfig(c) && done == []
      modifies this
      ensures done == Requests(c)[..6] && Reached(relocaddr)
      ensures c.mmu ==> tlbAddr == At(c, TLB)
      ensures c.lcd ==> fbBase == At(c, SCREEN)
    {
      ReserveHigh();
      ReserveMmu();
      assert done == Requests(c)[..4];
      ReserveLcd();
      assert done == Requests(c)[..6];
    }

    /** The log buffer and the protected RAM, at the top. */
    method ReserveHigh()
      requires IsConfig(c) && done == []
      modifies this
      ensures done == [Request(c.logbuf, 1), Request(1024 * c.pram, 1), Request(0, 0x1000)] && Reached(relocaddr)
    {
      SetupDestAddr();
      Lower(c.logbuf, 1);
      assert done == [Request(c.logbuf, 1)];
      AlignAfter(1024 * c.pram, 0x1000);
    }

    /** Take a piece off `relocaddr`, then round it down. */
    method AlignAfter(size: nat, align: nat)
      requires Reached(relocaddr) && size < c.word && IsAlign(align)
      modifies this`relocaddr, this`done
      ensures done == old(done) + [Request(size, 1)] + [Request(0, align)] && Reached(relocaddr)
    {
      Lower(size, 1);
      Lower(0, align);
    }

    /** From the trace buffer to the heap. */
    method ReserveMonitor()
      requires IsConfig(c) && done == Requests(c)[..6] && Reached(relocaddr)
      modifies this`relocaddr, this`startAddrSp, this`traceBuff, this`done
      ensures done == Requests(c)[..9] && Reached(startAddrSp)
      ensures traceBuff == At(c, TRACE) && relocaddr == At(c, MONITOR)
    {
      Lower(c.trace, 1);
      assert done == Requests(c)[..7];
      traceBuff := relocaddr;
      Lower(c.mon, 0x1000);
      assert done == Requests(c)[..8];
      startAddrSp := relocaddr;
      LowerSp(c.heap, 1);
      assert done == Requests(c)[..9];
    }

    /** The board info and the global data. */
    method ReserveData()
      requires IsConfig(c) && done == Requests(c)[..9] && Reached(startAddrSp)
      modifies this`startAddrSp, this`bd, this`newGd, this`done
      ensures done == Requests(c)[..11] && Reached(startAddrSp)
      ensures (!c.hasBd ==> bd == At(c, BOARD)) && newGd == At(c, GLOBAL)
    {
      ReserveBoard();
      assert done == Requests(c)[..10];
      LowerSp(c.gd, 1);
      assert done == Requests(c)[..11];
      newGd := startAddrSp;
    }

    /** The device tree and the stack. */
    method ReserveBelow()
      requires IsConfig(c) && done == Requests(c)[..11] && Reached(startAddrSp)
      modifies this`startAddrSp, this`newFdt, this`done
      ensures done == Requests(c) && startAddrSp == At(c, STACK) && (c.hasFdt ==> newFdt == At(c, FDT))
    {
      ReserveFdt();
      assert done == Requests(c)[..12];
      LowerSp(16, 16);
      assert done == Requests(c)[..13] == Requests(c);
    }

    /** `initr_malloc`, after relocation: the heap is the piece that was set aside for it. */
    method MallocStart() returns (start: nat)
      requires IsConfig(c) && relocaddr == At(c, MONITOR)
      ensures start == At(c, HEAP)
    {
      ghost var rs := Requests(c)[..9];
      assert rs[..8] == Requests(c)[..8] && rs[8] == Request(c.heap, 1);
      start := Sub(c.word, relocaddr, c.heap);
    }

    /** The fields hold the addresses of the layout. */
    ghost predicate Holds(v: Chain)
      reads this
    {
      && (c.mmu ==> Edge(c, tlbAddr) == v.tlb) && (c.lcd ==> Edge(c, fbBase) == v.screen)
      && Edge(c, traceBuff) == v.trace && Edge(c, relocaddr) == v.monitor
      && (!c.hasBd ==> Edge(c, bd) == v.board) && Edge(c, newGd) == v.global
      && (c.hasFdt ==> Edge(c, newFdt) == v.fdt) && startAddrSp == v.stack
    }

    /** The pieces that the fields point to do not overlap; above them there is room for the protected RAM and the
        log buffer. */
    ghost predicate FieldsApart()
      reads this
    {
      var high := c.base + c.ramSize - c.secure - c.hidden - c.logbuf - 1024 * c.pram;
      var heap := Edge(c, relocaddr) - c.heap;
      var data := if c.hasBd then heap else Edge(c, bd);
      && Edge(c, relocaddr) + c.mon <= Edge(c, traceBuff)
      && (!c.hasBd ==> Edge(c, bd) + c.bd <= heap) && Edge(c, newGd) + c.gd <= data
      && (c.hasFdt ==> Edge(c, newFdt) + c.fdt + 0x1000 <= Edge(c, newGd))
      && c.base <= startAddrSp && startAddrSp + 16 <= (if c.hasFdt then Edge(c, newFdt) else Edge(c, newGd))
      && Edge(c, traceBuff) + c.trace <= (if c.lcd then Edge(c, fbBase) else if c.mmu then Edge(c, tlbAddr) else high)
      && (c.lcd ==> Edge(c, fbBase) + c.screen <= if c.mmu then Edge(c, tlbAddr) else high)
      && (c.mmu ==> Edge(c, tlbAddr) + c.tlb <= high)
    }

    lemma HoldsApart(v: Chain)
      requires IsConfig(c) && Lays(c, v) && Holds(v)
      ensures FieldsApart()
    {
      LayoutIsApart(c, v);
    }

    /** The whole sequence.  If everything fits, the fields hold the one layout that the configured sizes have. */
    method Run()
      requires IsConfig(c) && done == []
      modifies this
      ensures c.mmu ==> tlbAddr == At(c, TLB)
      ensures c.lcd ==> fbBase == At(c, SCREEN)
      ensures traceBuff == At(c, TRACE) && relocaddr == At(c, MONITOR)
      ensures (!c.hasBd ==> bd == At(c, BOARD)) && newGd == At(c, GLOBAL) && (c.hasFdt ==> newFdt == At(c, FDT))
      ensures startAddrSp == At(c, STACK)
      ensures forall v :: Lays(c, v) ==> Holds(v)
      ensures Fits(c) ==> FieldsApart()
    {
      ReserveScreen();
      ReserveMonitor();
      ReserveData();
      ReserveBelow();
      forall v | Lays(c, v) ensures Holds(v) { Recorded(v); }
      if Fits(c) {
        ChainIsLaid(c);
        HoldsApart(ChainOf(c));
      }
    }

    lemma Recorded(v: Chain)
      requires IsConfig(c) && Lays(c, v)
      requires (c.mmu ==> tlbAddr == At(c, TLB)) && (c.lcd ==> fbBase == At(c, SCREEN))
      requires traceBuff == At(c, TRACE) && relocaddr == At(c, MONITOR)
      requires (!c.hasBd ==> bd == At(c, BOARD)) && newGd == At(c, GLOBAL) && (c.hasFdt ==> newFdt == At(c, FDT))
      requires startAddrSp == At(c, STACK)
      ensures Holds(v)
    {
      FitsIffLaid(c, v);
      AddressIsEdge(c, TLB);
      AddressIsEdge(c, SCREEN);
      AddressIsEdge(c, TRACE);
      AddressIsEdge(c, MONITOR);
      AddressIsEdge(c, BOARD);
      AddressIsEdge(c, GLOBAL);
      AddressIsEdge(c, FDT);
      StackAddress(c);
    }
  }

  /** The pieces of a layout do not overlap: each with its configured size ends where the next one above begins
      or before. */
  lemma LayoutIsApart(c: Config, v: Chain)
    requires IsConfig(c) && Lays(c, v)
    ensures var end := c.base + c.ramSize - c.secure - c.hidden;
            && c.base <= v.stack && v.stack + 16 <= v.fdt && v.stack % 16 == 0
            && (c.hasFdt ==> v.fdt + c.fdt + 0x1000 <= v.global)
            && v.global + c.gd <= v.board && (!c.hasBd ==> v.board + c.bd <= v.heap)
            && v.heap + c.heap <= v.monitor && v.monitor + c.mon <= v.trace && v.monitor % 0x1000 == 0
            && v.trace + c.trace <= v.screen && (c.lcd ==> v.screen + c.screen <= v.tlb)
            && (c.mmu ==> v.tlb + c.tlb <= v.high && v.tlb % 0x10000 == 0)
            && v.high + 1024 * c.pram + c.logbuf <= end
  {
  }
}
