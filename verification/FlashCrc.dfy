/** The footer checksum of flash images: 32-bit words are added with the carry fed back in, and the sum
    is complemented. */
module FlashCrc {
  import opened Bytes

  /** All ones: the modulus of end-around-carry addition. */
  const ONES := 0xFFFF_FFFF

  /** One step of the loop, in 32 bits. */
  function AddCarry(sum: Word, val: Word): Word {
    var s := if val > ONES - sum then (if sum == ONES then 0 else sum + 1) else sum;
    if s + val > ONES then s + val - ONES - 1 else s + val
  }

  function SumFrom(sum: Word, words: seq<Word>): Word
    decreases |words|
  {
    if words == [] then sum else SumFrom(AddCarry(sum, words[0]), words[1..])
  }

  function Crc(words: seq<Word>): Word {
    ONES - SumFrom(0, words)
  }

  function Total(words: seq<Word>): nat {
    if words == [] then 0 else words[0] + Total(words[1..])
  }

  /** A total cut down to a word: zero stays zero, every other total goes into 1 .. 2^32 - 1. */
  function Fold(total: nat): Word {
    if total == 0 then 0 else (total - 1) % ONES + 1
  }

  lemma AddCarryFolds(total: nat, val: Word)
    ensures AddCarry(Fold(total), val) == Fold(total + val)
  {
    if total > 0 {
      var q, r := (total - 1) / ONES, (total - 1) % ONES;
      assert total + val - 1 == q * ONES + (r + val);
      if r + val < ONES {
        assert (total + val - 1) % ONES == r + val;
      } else {
        assert total + val - 1 == (q + 1) * ONES + (r + val - ONES);
        if r + val - ONES < ONES { assert (total + val - 1) % ONES == r + val - ONES; }
      }
    }
  }

  /** The loop computes the total, folded once. */
  lemma {:induction false} SumIsFold(total: nat, words: seq<Word>)
    ensures SumFrom(Fold(total), words) == Fold(total + Total(words))
    decreases |words|
  {
    if words != [] {
      AddCarryFolds(total, words[0]);
      SumIsFold(total + words[0], words[1..]);
    }
  }

  lemma CrcIsFold(words: seq<Word>)
    ensures Crc(words) == ONES - Fold(Total(words))
  {
    SumIsFold(0, words);
  }

  lemma {:induction false} TotalAppend(a: seq<Word>, b: seq<Word>)
    ensures Total(a + b) == Total(a) + Total(b)
    decreases |a|
  {
    if a == [] {
      assert a + b == b;
    } else {
      assert (a + b)[1..] == a[1..] + b;
      TotalAppend(a[1..], b);
    }
  }

  lemma TotalWithout(words: seq<Word>, i: nat)
    requires i < |words|
    ensures Total(words) == words[i] + Total(words[..i] + words[i + 1..])
  {
    assert words == words[..i] + ([words[i]] + words[i + 1..]);
    TotalAppend(words[..i], [words[i]] + words[i + 1..]);
    TotalAppend([words[i]], words[i + 1..]);
    TotalAppend(words[..i], words[i + 1..]);
  }

  lemma BagWithout(words: seq<Word>, i: nat)
    requires i < |words|
    ensures multiset(words[..i] + words[i + 1..]) == multiset(words) - multiset{words[i]}
  {
    assert words == words[..i] + [words[i]] + words[i + 1..];
  }

  lemma RestOfBag(a: seq<Word>, b: seq<Word>, i: nat)
    requires multiset(a) == multiset(b) && a != [] && i < |b| && b[i] == a[0]
    ensures multiset(a[1..]) == multiset(b[..i] + b[i + 1..])
  {
    assert multiset(a[1..]) == multiset(a) - multiset{a[0]} by { assert a == [a[0]] + a[1..]; }
    BagWithout(b, i);
  }

  lemma {:induction false} TotalOfBag(a: seq<Word>, b: seq<Word>)
    requires multiset(a) == multiset(b)
    ensures Total(a) == Total(b)
    decreases |a|
  {
    if a == [] {
      assert |multiset(b)| == 0;
    } else {
      assert a[0] in multiset(b);
      var i :| 0 <= i < |b| && b[i] == a[0];
      RestOfBag(a, b, i);
      TotalWithout(b, i);
      TotalOfBag(a[1..], b[..i] + b[i + 1..]);
    }
  }

  /** The checksum does not depend on the order of the words. */
  lemma OrderDoesNotMatter(a: seq<Word>, b: seq<Word>)
    requires multiset(a) == multiset(b)
    ensures Crc(a) == Crc(b)
  {
    TotalOfBag(a, b);
    CrcIsFold(a);
    CrcIsFold(b);
  }

  /** Words with their own checksum put in anywhere check to zero. */
  lemma ChecksumClosesTheSum(words: seq<Word>, i: nat)
    requires i <= |words|
    ensures Crc(words[..i] + [Crc(words)] + words[i..]) == 0
  {
    var c := Crc(words);
    var closed := words[..i] + [c] + words[i..];
    CrcIsFold(words);
    CrcIsFold(closed);
    TotalWithout(closed, i);
    assert closed[..i] + closed[i + 1..] == words;
    FoldComplement(Total(words));
  }

  lemma FoldComplement(total: nat)
    ensures Fold(total + (ONES - Fold(total))) == ONES
  {
    if total > 0 {
      var q, r := (total - 1) / ONES, (total - 1) % ONES;
      assert total + (ONES - Fold(total)) - 1 == q * ONES + (ONES - 1);
    }
  }

  lemma FoldEqual(t: nat, a: Word, b: Word)
    ensures Fold(t + a) == Fold(t + b) <==> a == b || (t > 0 && {a, b} == {0, ONES})
  {
    AddCarryFolds(t, a);
    AddCarryFolds(t, b);
    assert t > 0 <==> Fold(t) > 0;
  }

  /** One changed word goes unnoticed only between all zeros and all ones, and then only when some
      other word is not zero. */
  lemma OneChangeIsSeen(words: seq<Word>, i: nat, val: Word)
    requires i < |words| && val != words[i]
    ensures Crc(words[i := val]) == Crc(words)
            <==> {val, words[i]} == {0, ONES} && Total(words[..i] + words[i + 1..]) > 0
  {
    var changed := words[i := val];
    CrcIsFold(words);
    CrcIsFold(changed);
    TotalWithout(words, i);
    TotalWithout(changed, i);
    assert changed[..i] + changed[i + 1..] == words[..i] + words[i + 1..];
    FoldEqual(Total(words[..i] + words[i + 1..]), words[i], val);
  }

  /** `compute_crc` over the words of flash from the start address on. */
  method ComputeCrc(flash: seq<Word>, len: Word) returns (crc: Word)
    requires len <= 4 * |flash|
    ensures len % 4 != 0 ==> crc == 0
    ensures len % 4 == 0 ==> crc == Crc(flash[..len / 4])
  {
    if len % 4 != 0 { return 0; }
    var sum: Word := 0;
    var i := 0;
    while i < len
      invariant i <= len && i % 4 == 0
      invariant SumFrom(0, flash[..len / 4]) == SumFrom(sum, flash[i / 4..len / 4])
    {
      var val := flash[i / 4];
      assert flash[i / 4..len / 4][1..] == flash[i / 4 + 1..len / 4];
      if val > ONES - sum { sum := if sum == ONES then 0 else sum + 1; }
      sum := if sum + val > ONES then sum + val - ONES - 1 else sum + val;
      i := i + 4;
    }
    return ONES - sum;
  }
}
