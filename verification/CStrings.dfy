/** Tables of NUL-terminated strings. */
module CStrings {
  import opened Bytes

  /** A C string: bytes before the NUL. */
  type Name = seq<Byte>

  predicate IsName(n: Name) {
    forall i :: 0 <= i < |n| ==> n[i] != 0
  }

  /** Each string followed by its NUL. */
  function Packed(names: seq<Name>): seq<Byte> {
    if names == [] then [] else names[0] + [0] + Packed(names[1..])
  }

  /** Offset of string `i`, as `add_string` returns it. */
  function OffsetOf(names: seq<Name>, i: nat): nat
    requires i <= |names|
  {
    if i == 0 then 0 else |names[0]| + 1 + OffsetOf(names[1..], i - 1)
  }

  /** The string a reader finds at an offset. */
  predicate StringAt(table: seq<Byte>, at: nat, n: Name) {
    at + |n| < |table| && table[at..at + |n|] == n && table[at + |n|] == 0 && IsName(n)
  }

  lemma {:induction false} PackedAt(names: seq<Name>, i: nat)
    requires i < |names| && IsName(names[i])
    ensures StringAt(Packed(names), OffsetOf(names, i), names[i])
  {
    if i != 0 {
      PackedAt(names[1..], i - 1);
      var at := OffsetOf(names[1..], i - 1);
      var head := names[0] + [0];
      assert Packed(names) == head + Packed(names[1..]);
      assert (head + Packed(names[1..]))[|head| + at..|head| + at + |names[i]|]
          == Packed(names[1..])[at..at + |names[i]|];
    }
  }

  lemma {:induction false} OffsetBound(names: seq<Name>, i: nat)
    requires i <= |names|
    ensures OffsetOf(names, i) <= |Packed(names)|
  {
    if i != 0 { OffsetBound(names[1..], i - 1); }
  }

  lemma {:induction false} PackedAppend(names: seq<Name>, n: Name)
    ensures Packed(names + [n]) == Packed(names) + n + [0]
    ensures OffsetOf(names + [n], |names|) == |Packed(names)|
  {
    if names == [] {
      assert (names + [n])[1..] == [];
      assert Packed([]) == [];
    } else {
      assert (names + [n])[1..] == names[1..] + [n];
      PackedAppend(names[1..], n);
    }
  }

  lemma {:induction false} OffsetAppend(names: seq<Name>, more: seq<Name>, i: nat)
    requires i <= |names|
    ensures OffsetOf(names + more, i) == OffsetOf(names, i)
  {
    if i != 0 {
      assert (names + more)[1..] == names[1..] + more;
      OffsetAppend(names[1..], more, i - 1);
    }
  }

  /** What `strlen` and `%s` see at an offset. */
  function ReadString(b: seq<Byte>, at: nat): Name
    requires at <= |b|
    decreases |b| - at
  {
    if at == |b| || b[at] == 0 then [] else [b[at]] + ReadString(b, at + 1)
  }

  lemma {:induction false} ReadsString(b: seq<Byte>, at: nat, n: Name)
    requires StringAt(b, at, n)
    ensures ReadString(b, at) == n
    decreases |n|
  {
    if n != [] {
      assert b[at] == b[at..at + |n|][0] == n[0];
      assert b[at + 1..at + 1 + |n[1..]|] == b[at..at + |n|][1..];
      ReadsString(b, at + 1, n[1..]);
    }
  }

  /** A string stays readable when its table is part of something larger. */
  lemma StringInside(b: seq<Byte>, from: nat, table: seq<Byte>, at: nat, n: Name)
    requires from + |table| <= |b| && b[from..from + |table|] == table && StringAt(table, at, n)
    ensures StringAt(b, from + at, n)
  {
    SliceOfSlice(b, from, |table|, at, |n|);
    assert b[from + at + |n|] == table[at + |n|];
  }

  lemma ReadsInside(b: seq<Byte>, from: nat, table: seq<Byte>, at: nat, n: Name)
    requires from + |table| <= |b| && b[from..from + |table|] == table && StringAt(table, at, n)
    ensures from + at + |n| < |b| && ReadString(b, from + at) == n
  {
    StringInside(b, from, table, at, n);
    ReadsString(b, from + at, n);
  }
}
