/** Operand coding of the PowerPC line assembler and disassembler, on a big-endian host. */
module Bedbug {
  import opened Options
  import opened Bits
  import opened Bytes

  /** How an operand is written; literals and offsets are coded as plain numbers. */
  datatype Kind = Addr | Reg | Spr | Tbr | Plain

  datatype Operand = Operand(bits: nat, shift: nat, kind: Kind, silent: bool)

  datatype Opcode = Opcode(opcode: nat, mask: nat, fields: seq<Operand>, name: string, relative: bool)

  datatype SprInfo = SprInfo(val: Word, name: string)

  /** A word of the line: its text, its value as a number, its value once a register prefix is
      dropped, and whether it starts with a digit. */
  datatype Token = Token(text: string, read: Word, reg: Word, digit: bool)

  datatype Error = BadOpcode | NumOperands | BadRegister | BadSpr | BadTbr

  datatype Result<T> = Ok(value: T) | Err(error: Error)

  const SIGN := 0x8000_0000
  const BAD := 0xFFFF_FFFF

  // ----- one field -----

  /** Plain numbers have at most 16 bits and registers at most 15, so printing them as a `short`
      changes nothing. */
  predicate IsOperand(f: Operand) {
    && f.bits + f.shift <= 32
    && match f.kind {
         case Addr => 1 <= f.bits <= 30
         case Reg => f.bits <= 15
         case Plain => f.bits <= 16
         case Spr => f.bits == 10
         case Tbr => f.bits == 10
       }
  }

  predicate Disjoint(f: Operand, g: Operand) {
    f.shift + f.bits <= g.shift || g.shift + g.bits <= f.shift
  }

  function Place(f: Operand, data: nat): nat {
    Shl(And(data, Mask(f.bits)), f.shift)
  }

  /** `get_operand_value` for an operand the opcode has. */
  function Extract(f: Operand, instr: nat): nat {
    And(Shr(instr, f.shift), Mask(f.bits))
  }

  lemma BitPlace(f: Operand, data: nat, i: nat)
    ensures Bit(Place(f, data), i) <==> f.shift <= i < f.shift + f.bits && Bit(data, i - f.shift)
  {
    BitShl(And(data, Mask(f.bits)), f.shift, i);
    if i >= f.shift {
      BitAnd(data, Mask(f.bits), i - f.shift);
      BitMask(f.bits, i - f.shift);
    }
  }

  lemma BitExtract(f: Operand, instr: nat, i: nat)
    ensures Bit(Extract(f, instr), i) <==> i < f.bits && Bit(instr, i + f.shift)
  {
    BitAnd(Shr(instr, f.shift), Mask(f.bits), i);
    BitShr(instr, f.shift, i);
    BitMask(f.bits, i);
  }

  /** A field that was clear holds what is placed in it. */
  lemma ExtractOwn(f: Operand, data: nat, instr: nat)
    requires Extract(f, instr) == 0
    ensures Extract(f, Or(instr, Place(f, data))) == And(data, Mask(f.bits))
  {
    var x, y := Extract(f, Or(instr, Place(f, data))), And(data, Mask(f.bits));
    forall i: nat ensures Bit(x, i) <==> Bit(y, i) {
      BitExtract(f, Or(instr, Place(f, data)), i);
      BitOr(instr, Place(f, data), i + f.shift);
      BitPlace(f, data, i + f.shift);
      BitExtract(f, instr, i);
      BitZero(i);
      BitAnd(data, Mask(f.bits), i);
      BitMask(f.bits, i);
    }
    Ext(x, y);
  }

  /** Other fields are not touched. */
  lemma ExtractOther(f: Operand, g: Operand, data: nat, instr: nat)
    requires Disjoint(f, g)
    ensures Extract(g, Or(instr, Place(f, data))) == Extract(g, instr)
  {
    var x, y := Extract(g, Or(instr, Place(f, data))), Extract(g, instr);
    forall i: nat ensures Bit(x, i) <==> Bit(y, i) {
      BitExtract(g, Or(instr, Place(f, data)), i);
      BitExtract(g, instr, i);
      BitOr(instr, Place(f, data), i + g.shift);
      BitPlace(f, data, i + g.shift);
    }
    Ext(x, y);
  }

  /** Nor is anything under a mask that is clear in the field. */
  lemma MaskedOther(f: Operand, mask: nat, data: nat, instr: nat)
    requires Extract(f, mask) == 0
    ensures And(Or(instr, Place(f, data)), mask) == And(instr, mask)
  {
    var x, y := And(Or(instr, Place(f, data)), mask), And(instr, mask);
    forall i: nat ensures Bit(x, i) <==> Bit(y, i) {
      BitAnd(Or(instr, Place(f, data)), mask, i);
      BitAnd(instr, mask, i);
      BitOr(instr, Place(f, data), i);
      BitPlace(f, data, i);
      if f.shift <= i < f.shift + f.bits {
        BitExtract(f, mask, i - f.shift);
        BitZero(i - f.shift);
      }
    }
    Ext(x, y);
  }

  /** What is placed is a word, and never the word that stands for a bad operand. */
  lemma PlaceIsGood(f: Operand, data: nat)
    requires IsOperand(f)
    ensures Place(f, data) < U32 && Place(f, data) != BAD
  {
    var p := Place(f, data);
    forall i: nat | i >= 32 ensures !Bit(p, i) { BitPlace(f, data, i); }
    BelowByBits(p, 32);
    WordSize();
    NotAllOnes(f, data);
  }

  lemma NotAllOnes(f: Operand, data: nat)
    requires IsOperand(f)
    ensures Place(f, data) != BAD
  {
    MaskIsPower(32);
    WordSize();
    BitMask(32, 0);
    BitMask(32, 31);
    BitPlace(f, data, 0);
    BitPlace(f, data, 31);
  }

  // ----- numbers in fields -----

  /** Masking keeps exactly the numbers that fit. */
  lemma MaskKeeps(x: nat, n: nat)
    ensures And(x, Mask(n)) == x <==> x < Pow2(n)
  {
    MaskIsPower(n);
    if x < Pow2(n) {
      var y := And(x, Mask(n));
      forall i: nat ensures Bit(y, i) <==> Bit(x, i) {
        BitAnd(x, Mask(n), i);
        BitMask(n, i);
        if i >= n { BitsBelow(x, n, i); }
      }
      Ext(y, x);
    }
  }

  /** The two five-bit halves of a special register number change places. */
  function Swap(v: nat): nat {
    Or(And(Shr(v, 5), 0x1f), Shl(And(v, 0x1f), 5))
  }

  lemma BitSwap(v: nat, i: nat)
    ensures Bit(Swap(v), i) <==> if i < 5 then Bit(v, i + 5) else i < 10 && Bit(v, i - 5)
  {
    var hi, lo := And(Shr(v, 5), 0x1f), And(v, 0x1f);
    assert Mask(5) == 0x1f;
    BitOr(hi, Shl(lo, 5), i);
    BitAnd(Shr(v, 5), 0x1f, i);
    BitShr(v, 5, i);
    BitMask(5, i);
    BitShl(lo, 5, i);
    if i >= 5 {
      BitAnd(v, 0x1f, i - 5);
      BitMask(5, i - 5);
    }
  }

  /** Swapping twice gives the low ten bits back; a swapped number has ten bits. */
  lemma SwapTwice(v: nat)
    ensures Swap(Swap(v)) == And(v, Mask(10))
    ensures And(Swap(v), Mask(10)) == Swap(v)
  {
    var x, y := Swap(Swap(v)), And(v, Mask(10));
    forall i: nat ensures Bit(x, i) <==> Bit(y, i) {
      BitSwap(Swap(v), i);
      BitSwap(v, if i < 5 then i + 5 else i - 5);
      BitAnd(v, Mask(10), i);
      BitMask(10, i);
    }
    Ext(x, y);
    var z := And(Swap(v), Mask(10));
    forall i: nat ensures Bit(z, i) <==> Bit(Swap(v), i) {
      BitAnd(Swap(v), Mask(10), i);
      BitMask(10, i);
      BitSwap(v, i);
    }
    Ext(z, Swap(v));
  }

  // ----- addresses -----

  /** The distance is shifted to a word count, cut, and given the sign of the distance on top. */
  function AddrCode(bits: nat, d: nat): nat
    requires 1 <= bits
  {
    var counted := Shr(d, 2) + (if d >= SIGN then 0xC000_0000 else 0);
    var low := And(counted, Shr(Mask(bits), 1));
    if d >= SIGN then Or(low, Shl(1, bits - 1)) else low
  }

  /** A field of `bits` bits as a signed number, in 32 bits. */
  function Extended(bits: nat, e: nat): nat
    requires 1 <= bits <= 30
  {
    PowerIsWord(bits);
    if And(e, Shl(1, bits - 1)) != 0 then e + (U32 - Shl(1, bits)) else e
  }

  /** The field is sign-extended and shifted back to bytes. */
  function AddrShown(bits: nat, e: nat): nat
    requires 1 <= bits <= 30
  {
    Cut(Shl(Extended(bits, e), 2))
  }

  lemma PowerIsWord(bits: nat)
    requires bits <= 32
    ensures Shl(1, bits) == Pow2(bits) <= U32
  {
    MaskIsPower(bits);
    WordSize();
    Pow2Grows(bits, 32);
  }

  lemma {:induction false} Pow2Grows(m: nat, n: nat)
    requires m <= n
    ensures Pow2(m) <= Pow2(n)
  {
    if m < n { Pow2Grows(m, n - 1); }
  }

  lemma BitCounted(d: nat, i: nat)
    requires d < U32 && i < 30
    ensures Bit(Shr(d, 2) + (if d >= SIGN then 0xC000_0000 else 0), i) <==> Bit(d, i + 2)
  {
    BitShr(d, 2, i);
    if d >= SIGN {
      var q := Shr(d, 2);
      assert q == Shr(d / 2, 1) == d / 2 / 2;
      TopTwo(q);
      BitOr(q, Shl(3, 30), i);
      BitShl(3, 30, i);
    }
  }

  lemma TopTwo(q: nat)
    requires q < 0x4000_0000
    ensures q + 0xC000_0000 == Or(q, Shl(3, 30))
  {
    WordSize();
    ShiftedMask(2, 30);
    assert Mask(2) == 3 && Pow2(31) == 2 * Pow2(30);
    AddIsOr(q, 3, 30);
  }

  lemma BitAddrCode(bits: nat, d: nat, i: nat)
    requires d < U32 && 1 <= bits <= 30
    ensures Bit(AddrCode(bits, d), i) <==> if i < bits - 1 then Bit(d, i + 2) else i == bits - 1 && d >= SIGN
  {
    var counted := Shr(d, 2) + (if d >= SIGN then 0xC000_0000 else 0);
    var low := And(counted, Shr(Mask(bits), 1));
    BitAnd(counted, Shr(Mask(bits), 1), i);
    BitShr(Mask(bits), 1, i);
    BitMask(bits, i + 1);
    if i < 30 { BitCounted(d, i); }
    if d >= SIGN {
      BitOr(low, Shl(1, bits - 1), i);
      BitShl(1, bits - 1, i);
      if i >= bits - 1 { BitOne(i - (bits - 1)); }
    }
  }

  lemma BitExtended(bits: nat, e: nat, i: nat)
    requires 1 <= bits <= 30 && e < Pow2(bits) && i < 32
    ensures Bit(Extended(bits, e), i) <==> if i < bits then Bit(e, i) else Bit(e, bits - 1)
  {
    TestBit(e, bits - 1);
    if i >= bits { BitsBelow(e, bits, i); }
    if Bit(e, bits - 1) {
      var ones := Mask(32 - bits);
      ExtendedIsOr(bits, e, ones);
      BitOr(e, Shl(ones, bits), i);
      BitShl(ones, bits, i);
      if i >= bits { BitMask(32 - bits, i - bits); }
    }
  }

  lemma ExtendedIsOr(bits: nat, e: nat, ones: nat)
    requires 1 <= bits <= 30 && e < Pow2(bits) && ones == Mask(32 - bits)
    ensures Shl(1, bits) <= U32 && e + (U32 - Shl(1, bits)) == Or(e, Shl(ones, bits))
  {
    PowerIsWord(bits);
    WordSize();
    ShiftedMask(32 - bits, bits);
    assert 32 - bits + bits == 32;
    AddIsOr(e, ones, bits);
  }

  lemma BitAddrShown(bits: nat, e: nat, i: nat)
    requires 1 <= bits <= 30 && e < Pow2(bits)
    ensures Bit(AddrShown(bits, e), i) <==> 2 <= i < 32 && (if i < bits + 2 then Bit(e, i - 2) else Bit(e, bits - 1))
  {
    var extended := Extended(bits, e);
    BitCut(Shl(extended, 2), i);
    BitShl(extended, 2, i);
    if 2 <= i < 32 { BitExtended(bits, e, i - 2); }
  }

  /** A branch distance survives coding exactly when it is a whole number of words and in the signed
      range of the field. */
  predicate InReach(bits: nat, d: nat) {
    d % 4 == 0 && (d < Pow2(bits + 1) || d >= U32 - Pow2(bits + 1))
  }

  lemma BitRoundTrip(bits: nat, d: nat, i: nat)
    requires d < U32 && 1 <= bits <= 30
    ensures AddrCode(bits, d) < Pow2(bits)
    ensures Bit(AddrShown(bits, AddrCode(bits, d)), i)
            <==> 2 <= i < 32 && (if i <= bits then Bit(d, i) else d >= SIGN)
  {
    var e := AddrCode(bits, d);
    forall k: nat | k >= bits ensures !Bit(e, k) { BitAddrCode(bits, d, k); }
    BelowByBits(e, bits);
    BitAddrShown(bits, e, i);
    if i >= 2 { BitAddrCode(bits, d, i - 2); }
    BitAddrCode(bits, d, bits - 1);
  }

  lemma AddressRoundTrip(bits: nat, d: nat)
    requires d < U32 && 1 <= bits <= 30
    ensures AddrShown(bits, AddrCode(bits, d)) == d <==> InReach(bits, d)
  {
    var back := AddrShown(bits, AddrCode(bits, d));
    forall i: nat ensures Bit(back, i) <==> 2 <= i < 32 && (if i <= bits then Bit(d, i) else d >= SIGN) {
      BitRoundTrip(bits, d, i);
    }
    if back == d { ReachByBits(bits, d); }
    if InReach(bits, d) {
      forall i: nat ensures Bit(back, i) <==> Bit(d, i) { BitsByReach(bits, d, i); }
      Ext(back, d);
    }
  }

  lemma ReachByBits(bits: nat, d: nat)
    requires d < U32 && 1 <= bits <= 30
    requires forall i: nat :: Bit(d, i) <==> 2 <= i < 32 && (if i <= bits then Bit(d, i) else d >= SIGN)
    ensures InReach(bits, d)
  {
    WordSize();
    assert !Bit(d, 0) && !Bit(d, 1) && !Bit(d / 2, 0);
    assert d % 2 == 0 && (d / 2) % 2 == 0;
    if d < SIGN {
      BelowByBits(d, bits + 1);
    } else {
      AboveByBits(d, bits + 1, 32);
    }
  }

  lemma BitsByReach(bits: nat, d: nat, i: nat)
    requires d < U32 && 1 <= bits <= 30 && InReach(bits, d)
    ensures Bit(d, i) <==> 2 <= i < 32 && (if i <= bits then Bit(d, i) else d >= SIGN)
  {
    WordSize();
    Pow2Grows(bits + 1, 31);
    assert Pow2(32) == 2 * Pow2(31);
    if i >= 32 {
      BitsBelow(d, 32, i);
    } else if i > bits {
      if d < SIGN { BitsBelow(d, bits + 1, i); } else { BitsAbove(d, bits + 1, 32, i); }
    }
  }

  // ----- special registers -----

  function Lower(s: string): (r: string)
    ensures |r| == |s|
    ensures forall i :: 0 <= i < |r| ==> r[i] == if 'A' <= s[i] <= 'Z' then s[i] + 32 as char else s[i]
    ensures forall i :: 0 <= i < |r| ==> !('A' <= r[i] <= 'Z')
  {
    if s == [] then []
    else [if 'A' <= s[0] <= 'Z' then s[0] - 'A' + 'a' else s[0]] + Lower(s[1..])
  }

  /** The value in the first entry of the name. */
  function Named(sprs: seq<SprInfo>, name: string): (r: Result<Word>)
    ensures r.Ok? <==> exists i :: 0 <= i < |sprs| && sprs[i].name == name
    ensures r.Ok? ==> exists i :: 0 <= i < |sprs| && sprs[i] == SprInfo(r.value, name)
  {
    if sprs == [] then Err(BadSpr)
    else if sprs[0].name == name then Ok(sprs[0].val)
    else Named(sprs[1..], name)
  }

  /** The register a word stands for, before the halves are swapped. */
  function SprMeant(sprs: seq<SprInfo>, t: Token): Result<Word> {
    if t.text == "" then Err(BadSpr)
    else if t.digit then Ok(t.read)
    else Named(sprs, Lower(t.text))
  }

  function TbrMeant(t: Token): Result<Word> {
    if t.text == "" then Err(BadTbr)
    else if t.digit then (if t.read == 268 || t.read == 269 then Ok(t.read) else Err(BadTbr))
    else if Lower(t.text) == "tbl" then Ok(268)
    else if Lower(t.text) == "tbu" then Ok(269)
    else Err(BadTbr)
  }

  /** Words are lowered before the search but the names are not: when every name holds a capital
      letter, no name is ever found. */
  lemma CapitalNamesAreLost(sprs: seq<SprInfo>, t: Token)
    requires forall i :: 0 <= i < |sprs| ==> exists k :: 0 <= k < |sprs[i].name| && 'A' <= sprs[i].name[k] <= 'Z'
    ensures SprMeant(sprs, t).Ok? <==> t.text != "" && t.digit
  {
    if t.text != "" && !t.digit {
      var name := Lower(t.text);
      assert forall i :: 0 <= i < |sprs| ==> sprs[i].name != name;
    }
  }

  // ----- operands -----

  function Sub32(a: Word, b: Word): Word {
    if a >= b then a - b else a - b + U32
  }

  /** The number an operand's word stands for, or why it is refused.  The register limit is a signed
      comparison, and a special register whose swapped number is zero counts as unknown. */
  function Means(sprs: seq<SprInfo>, f: Operand, t: Token): Result<Word> {
    match f.kind
    case Addr => Ok(t.read)
    case Plain => Ok(t.read)
    case Reg => if 31 < t.reg < SIGN then Err(BadRegister) else Ok(t.reg)
    case Spr =>
      var r := SprMeant(sprs, t);
      if r.Ok? && Swap(r.value) != 0 then r else Err(BadSpr)
    case Tbr =>
      var r := TbrMeant(t);
      if r.Ok? && Swap(r.value) != 0 then r else Err(BadTbr)
  }

  function Base(op: Opcode, memaddr: Word): Word {
    if op.relative then memaddr else 0
  }

  /** The number put in the field. */
  function Coded(op: Opcode, memaddr: Word, f: Operand, v: Word): nat
    requires IsOperand(f)
  {
    match f.kind
    case Addr => AddrCode(f.bits, Sub32(v, Base(op, memaddr)))
    case Plain => v
    case Reg => v
    case Spr => Swap(v)
    case Tbr => Swap(v)
  }

  /** The number `print_operands` shows for a field. */
  function Shows(op: Opcode, memaddr: Word, f: Operand, instr: nat): nat
    requires IsOperand(f)
  {
    var operand := Extract(f, instr);
    match f.kind
    case Addr =>
      Cut(AddrShown(f.bits, operand) + Base(op, memaddr))
    case Plain => operand
    case Reg => operand
    case Spr => Swap(operand)
    case Tbr => Swap(operand)
  }

  /** The operand can be held by its field. */
  predicate Fits(op: Opcode, memaddr: Word, f: Operand, v: Word) {
    if f.kind.Addr? then InReach(f.bits, Sub32(v, Base(op, memaddr))) else v < Pow2(f.bits)
  }

  /** A field holding a coded operand shows the operand exactly when it fits. */
  lemma ShownIffFits(op: Opcode, memaddr: Word, f: Operand, v: Word, instr: nat)
    requires IsOperand(f)
    requires Extract(f, instr) == And(Coded(op, memaddr, f, v), Mask(f.bits))
    ensures Shows(op, memaddr, f, instr) == v <==> Fits(op, memaddr, f, v)
  {
    match f.kind
    case Addr => AddrShownIffFits(op, memaddr, f, v, instr);
    case Plain => MaskKeeps(v, f.bits);
    case Reg => MaskKeeps(v, f.bits);
    case Spr => SwapTwice(v); MaskKeeps(v, 10);
    case Tbr => SwapTwice(v); MaskKeeps(v, 10);
  }

  lemma AddrShownIffFits(op: Opcode, memaddr: Word, f: Operand, v: Word, instr: nat)
    requires IsOperand(f) && f.kind.Addr?
    requires Extract(f, instr) == And(Coded(op, memaddr, f, v), Mask(f.bits))
    ensures Shows(op, memaddr, f, instr) == v <==> Fits(op, memaddr, f, v)
  {
    var d := Sub32(v, Base(op, memaddr));
    AddressComesBack(f.bits, d);
    CutSum(AddrShown(f.bits, Extract(f, instr)), Base(op, memaddr), v);
  }

  lemma AddressComesBack(bits: nat, d: Word)
    requires 1 <= bits <= 30
    ensures AddrShown(bits, And(AddrCode(bits, d), Mask(bits))) == d <==> InReach(bits, d)
  {
    AddressRoundTrip(bits, d);
    BitRoundTrip(bits, d, 0);
    MaskKeeps(AddrCode(bits, d), bits);
  }

  lemma CutSum(a: Word, b: Word, v: Word)
    ensures Cut(a + b) == v <==> a == Sub32(v, b)
  {
  }

  // ----- whole lines -----

  predicate IsOpcode(op: Opcode) {
    && (forall i :: 0 <= i < |op.fields| ==> IsOperand(op.fields[i]))
    && (forall i, j :: 0 <= i < j < |op.fields| ==> Disjoint(op.fields[i], op.fields[j]))
    && (forall i :: 0 <= i < |op.fields| && !op.fields[i].silent ==>
          Extract(op.fields[i], op.opcode) == 0 && Extract(op.fields[i], op.mask) == 0)
    && And(op.opcode, op.mask) == op.opcode
  }

  /** `asmppc` once the opcode is known: `fields` and `words` are still to come. */
  function Assemble(op: Opcode, sprs: seq<SprInfo>, memaddr: Word, fields: seq<Operand>, words: seq<Token>, instr: nat)
    : Result<nat>
    requires forall i :: 0 <= i < |fields| ==> IsOperand(fields[i])
  {
    if fields == [] then Ok(instr)
    else if fields[0].silent then Assemble(op, sprs, memaddr, fields[1..], words, instr)
    else if words == [] then Err(NumOperands)
    else match Means(sprs, fields[0], words[0])
      case Err(e) => Err(e)
      case Ok(v) =>
        var param := Place(fields[0], Coded(op, memaddr, fields[0], v));
        Assemble(op, sprs, memaddr, fields[1..], words[1..], Or(instr, param))
  }

  /** The operands as written. */
  function MeansAll(sprs: seq<SprInfo>, fields: seq<Operand>, words: seq<Token>): seq<Word> {
    if fields == [] || words == [] then []
    else if fields[0].silent then MeansAll(sprs, fields[1..], words)
    else match Means(sprs, fields[0], words[0])
      case Err(e) => []
      case Ok(v) => [v] + MeansAll(sprs, fields[1..], words[1..])
  }

  /** The operands as shown. */
  function ShowsAll(op: Opcode, memaddr: Word, fields: seq<Operand>, instr: nat): seq<nat>
    requires forall i :: 0 <= i < |fields| ==> IsOperand(fields[i])
  {
    if fields == [] then []
    else
      var rest := ShowsAll(op, memaddr, fields[1..], instr);
      if fields[0].silent then rest else [Shows(op, memaddr, fields[0], instr)] + rest
  }

  /** Every operand of the line fits its field. */
  predicate AllFit(op: Opcode, sprs: seq<SprInfo>, memaddr: Word, fields: seq<Operand>, words: seq<Token>) {
    fields == [] || words == [] ||
    (if fields[0].silent then AllFit(op, sprs, memaddr, fields[1..], words)
     else
       var r := Means(sprs, fields[0], words[0]);
       r.Ok? ==> Fits(op, memaddr, fields[0], r.value) && AllFit(op, sprs, memaddr, fields[1..], words[1..]))
  }

  ghost predicate AreOperands(fields: seq<Operand>) {
    && (forall i :: 0 <= i < |fields| ==> IsOperand(fields[i]))
    && (forall i, j :: 0 <= i < j < |fields| ==> Disjoint(fields[i], fields[j]))
  }

  /** The fields still to be filled are clear. */
  ghost predicate Clear(fields: seq<Operand>, instr: nat) {
    forall i :: 0 <= i < |fields| && !fields[i].silent ==> Extract(fields[i], instr) == 0
  }

  lemma {:induction false} KeepsField(op: Opcode, sprs: seq<SprInfo>, memaddr: Word, fields: seq<Operand>,
                                      words: seq<Token>, instr: nat, g: Operand)
    requires forall i :: 0 <= i < |fields| ==> IsOperand(fields[i]) && Disjoint(fields[i], g)
    requires Assemble(op, sprs, memaddr, fields, words, instr).Ok?
    ensures Extract(g, Assemble(op, sprs, memaddr, fields, words, instr).value) == Extract(g, instr)
    decreases |fields|
  {
    if fields != [] {
      if fields[0].silent {
        KeepsField(op, sprs, memaddr, fields[1..], words, instr, g);
      } else {
        var coded := Coded(op, memaddr, fields[0], Means(sprs, fields[0], words[0]).value);
        ExtractOther(fields[0], g, coded, instr);
        KeepsField(op, sprs, memaddr, fields[1..], words[1..], Or(instr, Place(fields[0], coded)), g);
      }
    }
  }

  lemma {:induction false} KeepsMask(op: Opcode, sprs: seq<SprInfo>, memaddr: Word, fields: seq<Operand>,
                                     words: seq<Token>, instr: nat, mask: nat)
    requires forall i :: 0 <= i < |fields| ==> IsOperand(fields[i])
    requires Clear(fields, mask)
    requires Assemble(op, sprs, memaddr, fields, words, instr).Ok?
    ensures And(Assemble(op, sprs, memaddr, fields, words, instr).value, mask) == And(instr, mask)
    decreases |fields|
  {
    if fields != [] {
      if fields[0].silent {
        KeepsMask(op, sprs, memaddr, fields[1..], words, instr, mask);
      } else {
        var coded := Coded(op, memaddr, fields[0], Means(sprs, fields[0], words[0]).value);
        MaskedOther(fields[0], mask, coded, instr);
        KeepsMask(op, sprs, memaddr, fields[1..], words[1..], Or(instr, Place(fields[0], coded)), mask);
      }
    }
  }

  /** The operands shown are those written exactly when all of them fit. */
  lemma {:induction false} OperandsComeBack(op: Opcode, sprs: seq<SprInfo>, memaddr: Word, fields: seq<Operand>,
                                            words: seq<Token>, instr: nat)
    requires AreOperands(fields) && Clear(fields, instr)
    requires Assemble(op, sprs, memaddr, fields, words, instr).Ok?
    ensures var r := Assemble(op, sprs, memaddr, fields, words, instr).value;
            ShowsAll(op, memaddr, fields, r) == MeansAll(sprs, fields, words)
            <==> AllFit(op, sprs, memaddr, fields, words)
    decreases |fields|
  {
    if fields != [] {
      if fields[0].silent {
        OperandsComeBack(op, sprs, memaddr, fields[1..], words, instr);
      } else {
        FirstComesBack(op, sprs, memaddr, fields, words, instr);
      }
    }
  }

  lemma {:induction false} FirstComesBack(op: Opcode, sprs: seq<SprInfo>, memaddr: Word, fields: seq<Operand>,
                                          words: seq<Token>, instr: nat)
    requires AreOperands(fields) && Clear(fields, instr) && fields != [] && !fields[0].silent
    requires Assemble(op, sprs, memaddr, fields, words, instr).Ok?
    ensures var r := Assemble(op, sprs, memaddr, fields, words, instr).value;
            ShowsAll(op, memaddr, fields, r) == MeansAll(sprs, fields, words)
            <==> AllFit(op, sprs, memaddr, fields, words)
    decreases |fields|, 0
  {
    var f, v := fields[0], Means(sprs, fields[0], words[0]).value;
    var coded := Coded(op, memaddr, f, v);
    var next := Or(instr, Place(f, coded));
    ExtractOwn(f, coded, instr);
    forall i | 0 <= i < |fields[1..]| && !fields[1..][i].silent ensures Extract(fields[1..][i], next) == 0 {
      ExtractOther(f, fields[1..][i], coded, instr);
    }
    KeepsField(op, sprs, memaddr, fields[1..], words[1..], next, f);
    OperandsComeBack(op, sprs, memaddr, fields[1..], words[1..], next);
    var r := Assemble(op, sprs, memaddr, fields, words, instr).value;
    ShownIffFits(op, memaddr, f, v, r);
    SameHeads(Shows(op, memaddr, f, r), v, ShowsAll(op, memaddr, fields[1..], r),
        MeansAll(sprs, fields[1..], words[1..]));
  }

  lemma SameHeads(a: nat, b: nat, x: seq<nat>, y: seq<nat>)
    ensures [a] + x == [b] + y <==> a == b && x == y
  {
    var s, t := [a] + x, [b] + y;
    if s == t {
      assert s[0] == t[0] && s[1..] == x && t[1..] == y;
    }
  }

  // ----- what the field of one word gets -----

  lemma OneField(op: Opcode, sprs: seq<SprInfo>, memaddr: Word, f: Operand, t: Token, instr: nat, v: Word)
    requires !f.silent && IsOperand(f) && Extract(f, instr) == 0 && Means(sprs, f, t) == Ok(v)
    ensures var r := Assemble(op, sprs, memaddr, [f], [t], instr);
            r.Ok? && Extract(f, r.value) == And(Coded(op, memaddr, f, v), Mask(f.bits))
  {
    ExtractOwn(f, Coded(op, memaddr, f, v), instr);
    assert [f][1..] == [] && [t][1..] == [];
  }

  lemma Refused(op: Opcode, sprs: seq<SprInfo>, memaddr: Word, f: Operand, t: Token, instr: nat, e: Error)
    requires !f.silent && IsOperand(f) && Means(sprs, f, t) == Err(e)
    ensures Assemble(op, sprs, memaddr, [f], [t], instr) == Err(e)
  {
  }

  /** A register number below 32 goes into its field; above that it is refused, but as a negative number it
      is not. */
  lemma RegisterAssembles(op: Opcode, sprs: seq<SprInfo>, memaddr: Word, f: Operand, t: Token, instr: nat)
    requires f.kind.Reg? && !f.silent && IsOperand(f) && f.bits == 5 && Extract(f, instr) == 0
    ensures var r := Assemble(op, sprs, memaddr, [f], [t], instr);
            && (r == Err(BadRegister) <==> 32 <= t.reg < 0x8000_0000)
            && (r.Ok? <==> !(32 <= t.reg < 0x8000_0000)) && (r.Ok? ==> Extract(f, r.value) == t.reg % 32)
  {
    if !(32 <= t.reg < 0x8000_0000) {
      OneField(op, sprs, memaddr, f, t, instr, t.reg);
      MaskFive(t.reg);
      assert Mask(5) == 0x1f;
    }
  }

  /** Only two time base registers have a name or a number: 268 and 269, stored with their halves swapped. */
  lemma TimeBaseAssembles(op: Opcode, sprs: seq<SprInfo>, memaddr: Word, f: Operand, t: Token, instr: nat)
    requires f.kind.Tbr? && !f.silent && IsOperand(f) && Extract(f, instr) == 0 && t.text != ""
    ensures var r := Assemble(op, sprs, memaddr, [f], [t], instr);
            if IsLow(t) || IsUp(t) then r.Ok? && Extract(f, r.value) == (if IsLow(t) then 392 else 424)
            else r == Err(BadTbr)
  {
    TimeBaseIs(t);
    if IsLow(t) {
      TimeBaseField(op, sprs, memaddr, f, t, instr, 268);
    } else if IsUp(t) {
      TimeBaseField(op, sprs, memaddr, f, t, instr, 269);
    } else {
      Refused(op, sprs, memaddr, f, t, instr, BadTbr);
    }
  }

  lemma TimeBaseField(op: Opcode, sprs: seq<SprInfo>, memaddr: Word, f: Operand, t: Token, instr: nat, v: Word)
    requires f.kind.Tbr? && !f.silent && IsOperand(f) && Extract(f, instr) == 0
    requires TbrMeant(t) == Ok(v) && 0 < v < 1024
    ensures var r := Assemble(op, sprs, memaddr, [f], [t], instr);
            r.Ok? && Extract(f, r.value) == v / 32 + 32 * (v % 32)
  {
    SwapIs(v);
    SwapTwice(v);
    OneField(op, sprs, memaddr, f, t, instr, v);
  }

  predicate IsLow(t: Token) {
    if t.digit then t.read == 268 else Spells(t.text, 'l')
  }

  predicate IsUp(t: Token) {
    if t.digit then t.read == 269 else Spells(t.text, 'u')
  }

  /** `tb` and a letter, in capitals or not. */
  predicate Spells(s: string, c: char)
    requires 'a' <= c <= 'z'
  {
    |s| == 3 && s[0] in "tT" && s[1] in "bB" && s[2] in [c, c - 32 as char]
  }

  lemma TimeBaseIs(t: Token)
    requires t.text != ""
    ensures TbrMeant(t) == if IsLow(t) then Ok(268) else if IsUp(t) then Ok(269) else Err(BadTbr)
  {
    if !t.digit {
      var s := Lower(t.text);
      assert Spells(t.text, 'l') <==> s == "tbl";
      assert Spells(t.text, 'u') <==> s == "tbu";
    }
  }

  lemma SwapIs(v: nat)
    requires v < 1024
    ensures Swap(v) == v / 32 + 32 * (v % 32)
  {
    HalvesAre(v);
    var hi, lo := v / 32, v % 32;
    assert hi < 32 == Pow2(5);
    AddIsOr(hi, lo, 5);
    ShlIsTimes(lo, 5);
  }

  lemma HalvesAre(v: nat)
    requires v < 1024
    ensures And(Shr(v, 5), 0x1f) == v / 32 && And(v, 0x1f) == v % 32
  {
    ShiftFive(v);
    MaskFive(v / 32);
    MaskFive(v);
  }

  lemma MaskFive(x: nat)
    ensures And(x, 0x1f) == x % 32
  {
    assert Mask(5) == 0x1f && Pow2(5) == 32;
    MaskIsRest(x, 5);
  }

  lemma ShiftFive(v: nat)
    ensures Shr(v, 5) == v / 32
  {
    var w := v / 4;
    assert Shr(v, 5) == Shr(v / 2, 4) == Shr(v / 2 / 2, 3);
    assert v / 2 / 2 == w;
    assert Shr(w, 3) == Shr(w / 2, 2) == Shr(w / 2 / 2, 1) == w / 2 / 2 / 2;
  }

  /** A branch to a target `d` words ahead, or at word `d` if the opcode is not relative, gets `d` as a signed
      number into its field. */
  lemma BranchAssembles(op: Opcode, sprs: seq<SprInfo>, memaddr: Word, f: Operand, t: Token, instr: nat, d: int)
    requires f.kind.Addr? && !f.silent && IsOperand(f) && Extract(f, instr) == 0
    requires 0 <= Pow2(f.bits - 1) + d && d < Pow2(f.bits - 1)
    requires t.read == (4 * d + if op.relative then memaddr else 0) % 0x1_0000_0000
    ensures var r := Assemble(op, sprs, memaddr, [f], [t], instr);
            r.Ok? && Extract(f, r.value) == if d >= 0 then d else Pow2(f.bits) + d
  {
    OneField(op, sprs, memaddr, f, t, instr, t.read);
    DistanceIs(if op.relative then memaddr else 0, t.read, d);
    if d >= 0 { AheadCodes(f.bits, d); } else { BackCodes(f.bits, d); }
    MaskKeeps(AddrCode(f.bits, (4 * d) % U32), f.bits);
  }

  lemma DistanceIs(b: Word, v: Word, d: int)
    requires v == (4 * d + b) % U32
    ensures Sub32(v, b) == (4 * d) % U32
  {
  }

  lemma AheadCodes(bits: nat, d: nat)
    requires 1 <= bits <= 30 && d < Pow2(bits - 1)
    ensures AddrCode(bits, (4 * d) % U32) == d < Pow2(bits)
  {
    SmallPower(bits - 1);
    CountedAhead(d);
    MaskKeeps(d, bits - 1);
    CodeIs(bits, 4 * d, d, d);
  }

  lemma CountedAhead(d: nat)
    requires d < 0x2000_0000
    ensures (4 * d) % U32 == 4 * d < SIGN && (4 * d) / 4 == d
  {
  }

  lemma BackCodes(bits: nat, d: int)
    requires 1 <= bits <= 30 && 0 <= Pow2(bits - 1) + d && d < 0
    ensures AddrCode(bits, (4 * d) % U32) == Pow2(bits) + d < Pow2(bits)
  {
    SmallPower(bits - 1);
    CountedBack(d);
    CutBelow(d, bits - 1);
    BackIs(bits, U32 + 4 * d, U32 + d, Pow2(bits - 1) + d, d);
  }

  lemma BackIs(bits: nat, x: nat, counted: nat, low: nat, d: int)
    requires 1 <= bits && x >= SIGN && counted == x / 4 + 0xC000_0000 && low == And(counted, Mask(bits - 1))
    requires low == Pow2(bits - 1) + d && d < 0
    ensures AddrCode(bits, x) == Pow2(bits) + d
  {
    CodeIs(bits, x, counted, low);
    SignOn(bits - 1, d);
  }

  lemma CountedBack(d: int)
    requires -0x2000_0000 <= d < 0
    ensures (4 * d) % U32 == U32 + 4 * d >= SIGN && (U32 + 4 * d) / 4 + 0xC000_0000 == U32 + d
  {
  }

  lemma SignOn(n: nat, d: int)
    requires 0 <= Pow2(n) + d && d < 0
    ensures Or(Pow2(n) + d, Shl(1, n)) == Pow2(n + 1) + d
  {
    AddIsOr(Pow2(n) + d, 1, n);
    MaskIsPower(n);
  }

  lemma CodeIs(bits: nat, x: nat, counted: nat, low: nat)
    requires 1 <= bits && counted == x / 4 + (if x >= SIGN then 0xC000_0000 else 0)
    requires low == And(counted, Mask(bits - 1))
    ensures AddrCode(bits, x) == if x >= SIGN then Or(low, Shl(1, bits - 1)) else low
  {
    ShiftTwo(x);
    assert Shr(Mask(bits), 1) == Mask(bits - 1);
  }

  lemma ShiftTwo(x: nat)
    ensures Shr(x, 2) == x / 4
  {
    assert Shr(x, 2) == Shr(x / 2, 1) == x / 2 / 2;
  }

  lemma SmallPower(n: nat)
    requires n <= 29
    ensures Pow2(n) <= 0x2000_0000
  {
    Pow2Grows(n, 29);
    WordSize();
    Pow2Add(29, 3);
  }

  lemma CutBelow(d: int, n: nat)
    requires 0 <= Pow2(n) + d && d < 0 && n <= 29
    ensures 0 <= U32 + d && And(U32 + d, Mask(n)) == Pow2(n) + d
  {
    SmallPower(n);
    MaskIsRest(U32 + d, n);
    RestBelow(d, n);
  }

  lemma RestBelow(d: int, n: nat)
    requires 0 <= Pow2(n) + d && d < 0 && n <= 29
    ensures (U32 + d) % Pow2(n) == Pow2(n) + d
  {
    WordSize();
    Pow2Add(n, 32 - n);
    BelowMultiple(Pow2(n), Pow2(32 - n), d, U32);
  }

  lemma BelowMultiple(p: nat, k: nat, d: int, x: nat)
    requires p * k == x && k > 0 && 0 <= p + d && d < 0
    ensures 0 <= x + d && (x + d) % p == p + d
  {
    assert p * (k - 1) == x - p;
    RestOf(p * (k - 1) + (p + d), k - 1, p + d, p);
  }

  // ----- the opcode table -----

  predicate Matches(op: Opcode, instr: nat) {
    And(instr, op.mask) == op.opcode
  }

  /** The table is in an order a search by halves can use, whatever the instruction. */
  ghost predicate Ordered(table: seq<Opcode>) {
    forall i, j, x: nat :: 0 <= i < j < |table| ==>
      && (Matches(table[j], x) ==> And(x, table[i].mask) > table[i].opcode)
      && (Matches(table[i], x) ==> And(x, table[j].mask) < table[j].opcode)
  }

  /** `find_opcode` */
  method FindOpcode(table: seq<Opcode>, instr: nat) returns (r: Option<nat>)
    ensures r.Some? ==> r.value < |table| && Matches(table[r.value], instr)
    ensures forall k :: Ordered(table) && 0 <= k < |table| && Matches(table[k], instr) ==> r == Some(k)
  {
    var top, bottom := 0, |table| - 1;
    while top <= bottom
      invariant 0 <= top <= bottom + 1 <= |table|
      invariant forall k :: Ordered(table) && 0 <= k < |table| && Matches(table[k], instr) ==> top <= k <= bottom
    {
      var idx := (top + bottom) / 2;
      var masked := And(instr, table[idx].mask);
      if masked < table[idx].opcode {
        bottom := idx - 1;
      } else if masked > table[idx].opcode {
        top := idx + 1;
      } else {
        return Some(idx);
      }
    }
    return Null;
  }

  /** `find_opcode_by_name`: the first entry of the lowered name. */
  function FindByName(table: seq<Opcode>, name: string): (r: Option<nat>)
    ensures r.Some? ==> r.value < |table| && table[r.value].name == name
    ensures forall i :: 0 <= i < (if r.Some? then r.value else |table|) ==> table[i].name != name
  {
    if table == [] then Null
    else if table[0].name == name then Some(0)
    else match FindByName(table[1..], name)
      case Null => Null
      case Some(k) => Some(k + 1)
  }

  /** `asmppc` for the words of a line. */
  function AssembleLine(table: seq<Opcode>, sprs: seq<SprInfo>, memaddr: Word, name: string, words: seq<Token>)
    : Result<nat>
    requires forall k :: 0 <= k < |table| ==> IsOpcode(table[k])
  {
    match FindByName(table, Lower(name))
    case Null => Err(BadOpcode)
    case Some(k) =>
      assert IsOpcode(table[k]);
      Assemble(table[k], sprs, memaddr, table[k].fields, words, table[k].opcode)
  }

  /** A name may be written in capitals or not; a name in the table without capitals is found, at its first
      entry. */
  lemma NameIsFound(table: seq<Opcode>, name: string, k: nat)
    requires k < |table| && Lower(name) == table[k].name && forall j :: 0 <= j < k ==> table[j].name != table[k].name
    ensures FindByName(table, Lower(name)) == Some(k)
    ensures Lower(Lower(name)) == Lower(name)
  {
    assert forall i :: 0 <= i < |name| ==> Lower(Lower(name))[i] == Lower(name)[i];
  }

  /** Whatever a line assembles to is disassembled under its own opcode and no other, and its operands
      come back exactly when they all fit. */
  lemma LineComesBack(table: seq<Opcode>, sprs: seq<SprInfo>, memaddr: Word, name: string, words: seq<Token>)
    requires Ordered(table) && forall k :: 0 <= k < |table| ==> IsOpcode(table[k])
    requires AssembleLine(table, sprs, memaddr, name, words).Ok?
    ensures var instr, k := AssembleLine(table, sprs, memaddr, name, words).value, FindByName(table, Lower(name)).value;
            && (forall j :: 0 <= j < |table| ==> (Matches(table[j], instr) <==> j == k))
            && (ShowsAll(table[k], memaddr, table[k].fields, instr) == MeansAll(sprs, table[k].fields, words)
                <==> AllFit(table[k], sprs, memaddr, table[k].fields, words))
  {
    var k := FindByName(table, Lower(name)).value;
    var op := table[k];
    KeepsMask(op, sprs, memaddr, op.fields, words, op.opcode, op.mask);
    OperandsComeBack(op, sprs, memaddr, op.fields, words, op.opcode);
    var instr := AssembleLine(table, sprs, memaddr, name, words).value;
    assert Matches(table[k], instr);
  }

  // ----- the programs -----

  /** `parse_operand`: the word to be or-ed in, or all ones with an error code. */
  method ParseOperand(op: Opcode, sprs: seq<SprInfo>, memaddr: Word, f: Operand, t: Token)
    returns (param: nat, err: Option<Error>)
    requires IsOperand(f)
    ensures param == BAD <==> Means(sprs, f, t).Err?
    ensures match Means(sprs, f, t)
            case Err(e) => err == Some(e)
            case Ok(v) => param == Place(f, Coded(op, memaddr, f, v)) && err == Null
  {
    err := Null;
    var data: nat;
    match f.kind {
      case Addr =>
        data := t.read;
        if op.relative { data := Sub32(data, memaddr); }
        data := AddrCode(f.bits, data);
      case Reg =>
        data := t.reg;
        if 31 < data < SIGN { return BAD, Some(BadRegister); }
      case Spr =>
        var r := SprMeant(sprs, t);
        data := if r.Ok? then Swap(r.value) else 0;
        if data == 0 { return BAD, Some(BadSpr); }
      case Tbr =>
        var r := TbrMeant(t);
        data := if r.Ok? then Swap(r.value) else 0;
        if data == 0 { return BAD, Some(BadTbr); }
      case Plain =>
        data := t.read;
    }
    PlaceIsGood(f, data);
    param := Place(f, data);
  }

  /** `asmppc`: the instruction, or zero and an error code. */
  method Asmppc(table: seq<Opcode>, sprs: seq<SprInfo>, memaddr: Word, name: string, words: seq<Token>)
    returns (instr: nat, err: Option<Error>)
    requires forall k :: 0 <= k < |table| ==> IsOpcode(table[k])
    ensures match AssembleLine(table, sprs, memaddr, name, words)
            case Err(e) => instr == 0 && err == Some(e)
            case Ok(v) => instr == v && err == Null
  {
    var found := FindByName(table, Lower(name));
    if found == Null { return 0, Some(BadOpcode); }
    var op := table[found.value];
    instr := op.opcode;
    err := Null;
    var n, used := 0, 0;
    while n < |op.fields|
      invariant n <= |op.fields| && used <= |words|
      invariant Assemble(op, sprs, memaddr, op.fields, words, op.opcode)
             == Assemble(op, sprs, memaddr, op.fields[n..], words[used..], instr)
      invariant err == Null
    {
      assert op.fields[n..][1..] == op.fields[n + 1..];
      if !op.fields[n].silent {
        if used == |words| { break; }
        assert words[used..][1..] == words[used + 1..];
        var param: nat;
        param, err := ParseOperand(op, sprs, memaddr, op.fields[n], words[used]);
        if param == BAD { return 0, err; }
        instr := Or(instr, param);
        used := used + 1;
      }
      n := n + 1;
    }
    if n < |op.fields| { return 0, Some(NumOperands); }
  }

  lemma ShowsNext(op: Opcode, memaddr: Word, fields: seq<Operand>, instr: nat, k: nat, shown: seq<nat>)
    requires k < |fields| && forall i :: 0 <= i < |fields| ==> IsOperand(fields[i])
    ensures shown + ShowsAll(op, memaddr, fields[k..], instr) ==
            (if fields[k].silent then shown else shown + [Shows(op, memaddr, fields[k], instr)])
            + ShowsAll(op, memaddr, fields[k + 1..], instr)
  {
    assert fields[k..][1..] == fields[k + 1..];
  }

  /** The operand loop of `print_operands`. */
  method PrintOperands(op: Opcode, memaddr: Word, instr: nat) returns (shown: seq<nat>)
    requires IsOpcode(op)
    ensures shown == ShowsAll(op, memaddr, op.fields, instr)
  {
    shown := [];
    var field := 0;
    while field < |op.fields|
      invariant field <= |op.fields|
      invariant ShowsAll(op, memaddr, op.fields, instr) == shown + ShowsAll(op, memaddr, op.fields[field..], instr)
    {
      ShowsNext(op, memaddr, op.fields, instr, field, shown);
      if !op.fields[field].silent {
        shown := shown + [Shows(op, memaddr, op.fields[field], instr)];
      }
      field := field + 1;
    }
  }
}
