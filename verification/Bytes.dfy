/** Bytes, little-endian words and concatenations of byte strings. */
module Bytes {

  type Byte = b: int | 0 <= b < 256
  type Word = w: int | 0 <= w < 0x1_0000_0000

  function LE32(w: Word): (s: seq<Byte>)
    ensures |s| == 4
  {
    [w % 256, w / 256 % 256, w / 65536 % 256, w / 16777216]
  }

  function Join(a: Byte, b: Byte, c: Byte, d: Byte): Word {
    a + 256 * b + 65536 * c + 16777216 * d
  }

  function Read32(s: seq<Byte>, at: nat): Word
    requires at + 4 <= |s|
  {
    Join(s[at], s[at + 1], s[at + 2], s[at + 3])
  }

  /** Two half words as they lie side by side in a little-endian word. */
  function Pair(lo: nat, hi: nat): Word
    requires lo < 65536 && hi < 65536
  {
    lo + 65536 * hi
  }

  lemma JoinLE32(w: Word)
    ensures Read32(LE32(w), 0) == w
  {
    assert w / 256 / 256 == w / 65536;
    assert w / 65536 / 256 == w / 16777216;
  }

  function Words(ws: seq<Word>): (s: seq<Byte>)
    ensures |s| == 4 * |ws|
  {
    if ws == [] then [] else LE32(ws[0]) + Words(ws[1..])
  }

  lemma ReadFirst(a: seq<Byte>, b: seq<Byte>, at: nat)
    requires at + 4 <= |a|
    ensures Read32(a + b, at) == Read32(a, at)
  {
  }

  lemma ReadSecond(a: seq<Byte>, b: seq<Byte>, at: nat)
    requires at + 4 <= |b|
    ensures Read32(a + b, |a| + at) == Read32(b, at)
  {
  }

  lemma ReadTail(s: seq<Byte>, off: nat, at: nat)
    requires off + at + 4 <= |s|
    ensures Read32(s[off..], at) == Read32(s, off + at)
  {
  }

  lemma {:induction false} WordsAt(ws: seq<Word>, i: nat)
    requires i < |ws|
    ensures Words(ws)[4 * i..4 * i + 4] == LE32(ws[i])
  {
    var a, b := LE32(ws[0]), Words(ws[1..]);
    if i != 0 {
      WordsAt(ws[1..], i - 1);
      assert (a + b)[4 + 4 * (i - 1)..4 + 4 * (i - 1) + 4] == b[4 * (i - 1)..4 * (i - 1) + 4];
    }
  }

  lemma ReadSlice(s: seq<Byte>, at: nat, w: Word)
    requires at + 4 <= |s| && s[at..at + 4] == LE32(w)
    ensures Read32(s, at) == w
  {
    var t := s[at..at + 4];
    assert s[at] == t[0] && s[at + 1] == t[1] && s[at + 2] == t[2] && s[at + 3] == t[3];
    JoinLE32(w);
  }

  lemma ReadWords(ws: seq<Word>, i: nat)
    requires i < |ws|
    ensures Read32(Words(ws), 4 * i) == ws[i]
  {
    var at := 4 * i;
    WordsAt(ws, i);
    ReadSlice(Words(ws), at, ws[i]);
  }

  lemma {:induction false} WordsAppend(a: seq<Word>, b: seq<Word>)
    ensures Words(a + b) == Words(a) + Words(b)
  {
    if a == [] {
      assert a + b == b;
    } else {
      assert (a + b)[1..] == a[1..] + b;
      WordsAppend(a[1..], b);
    }
  }

  function Zeros(n: nat): (s: seq<Byte>)
    ensures |s| == n && forall i :: 0 <= i < n ==> s[i] == 0
  {
    seq(n, _ => 0)
  }

  function Concat(parts: seq<seq<Byte>>): seq<Byte> {
    if parts == [] then [] else parts[0] + Concat(parts[1..])
  }

  /** Where part `i` starts in the concatenation; `Start(parts, |parts|)` is its length. */
  function Start(parts: seq<seq<Byte>>, i: nat): nat
    requires i <= |parts|
  {
    if i == 0 then 0 else |parts[0]| + Start(parts[1..], i - 1)
  }

  lemma {:induction false} ConcatSlice(parts: seq<seq<Byte>>, i: nat)
    requires i < |parts|
    ensures Start(parts, i) + |parts[i]| == Start(parts, i + 1) <= |Concat(parts)| == Start(parts, |parts|)
    ensures Concat(parts)[Start(parts, i)..Start(parts, i + 1)] == parts[i]
  {
    var rest := Concat(parts[1..]);
    assert Start(parts[1..], 0) == 0;
    if |parts| > 1 { ConcatSlice(parts[1..], if i == 0 then 0 else i - 1); }
    if i != 0 {
      assert Concat(parts)[Start(parts, i)..Start(parts, i + 1)]
          == rest[Start(parts[1..], i - 1)..Start(parts[1..], i)];
    }
  }

  lemma SliceOfSlice(s: seq<Byte>, a: nat, n: nat, i: nat, k: nat)
    requires a + n <= |s| && i + k <= n
    ensures s[a..a + n][i..i + k] == s[a + i..a + i + k]
  {
    var x, y := s[a..a + n][i..i + k], s[a + i..a + i + k];
    assert forall j :: 0 <= j < k ==> x[j] == y[j];
  }
}
