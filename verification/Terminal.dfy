/** A one-line terminal: printing overwrites, `\b` moves left, `\a` does nothing. */
module Terminal {

  datatype Screen = Screen(row: string, col: nat)

  const BS: char := 8 as char
  const BEL: char := 7 as char
  const NUL: char := 0 as char

  /** The characters a terminal shows as themselves. */
  predicate Printable(c: char) {
    ' ' <= c <= '~'
  }

  predicate AllPrintable(s: string) {
    forall i :: 0 <= i < |s| ==> Printable(s[i])
  }

  function Put(s: Screen, c: char): (s': Screen)
    requires s.col <= |s.row|
    ensures s'.col <= |s'.row|
  {
    if c == BS then s.(col := if s.col == 0 then 0 else s.col - 1)
    else if c == BEL then s
    else Screen(if s.col < |s.row| then s.row[s.col := c] else s.row + [c], s.col + 1)
  }

  function PutAll(s: Screen, str: string): (s': Screen)
    requires s.col <= |s.row|
    ensures s'.col <= |s'.row|
    decreases |str|
  {
    if str == "" then s else PutAll(Put(s, str[0]), str[1..])
  }

  /** The screen holds `line`, blanks after it, and the cursor at `col`. */
  predicate Shows(s: Screen, line: string, col: nat) {
    && s.col == col <= |line| <= |s.row|
    && s.row[..|line|] == line
    && (forall i :: |line| <= i < |s.row| ==> s.row[i] == ' ')
  }

  function Spaces(n: nat): (s: string)
    ensures |s| == n && forall i :: 0 <= i < n ==> s[i] == ' '
  {
    seq(n, _ => ' ')
  }

  /** What is left of `t` after its start has been overprinted by `n` characters. */
  function Rest(t: string, n: nat): string {
    if n <= |t| then t[n..] else ""
  }

  /** Printing `str` over `t` replaces the start of `t`, or all of it and more. */
  lemma {:induction false} Overprint(s: Screen, k: string, t: string, str: string)
    requires Shows(s, k + t, |k|) && AllPrintable(str)
    ensures Shows(PutAll(s, str), k + str + Rest(t, |str|), |k| + |str|)
    decreases |str|
  {
    if str == "" {
      assert k + "" + t == k + t;
    } else {
      var s1 := Put(s, str[0]);
      var k1 := k + [str[0]];
      assert Shows(s1, k1 + Rest(t, 1), |k1|) by {
        var line := k1 + Rest(t, 1);
        assert s1.row[..|line|] == line;
      }
      Overprint(s1, k1, Rest(t, 1), str[1..]);
      assert k1 + str[1..] == k + str;
      assert Rest(Rest(t, 1), |str| - 1) == Rest(t, |str|);
    }
  }

  lemma TrailingSpaces(s: Screen, line: string, n: nat, col: nat)
    requires Shows(s, line + Spaces(n), col) && col <= |line|
    ensures Shows(s, line, col)
  {
    assert (line + Spaces(n))[..|line|] == line;
    assert s.row[..|line|] == s.row[..|line| + n][..|line|];
    forall i | |line| <= i < |s.row| ensures s.row[i] == ' ' {
      if i < |line| + n { assert s.row[..|line| + n][i] == (line + Spaces(n))[i]; }
    }
  }

  lemma {:induction false} PutAllAppend(s: Screen, a: string, b: string)
    requires s.col <= |s.row|
    ensures PutAll(s, a + b) == PutAll(PutAll(s, a), b)
    decreases |a|
  {
    if a == "" {
      assert a + b == b;
    } else {
      assert (a + b)[1..] == a[1..] + b;
      PutAllAppend(Put(s, a[0]), a[1..], b);
    }
  }

  /** Reprinting the tail of a line as `x` and erasing what sticks out, with the cursor back where
      printing began. */
  lemma Reprint(s: Screen, k: string, t: string, x: string, n: nat)
    requires Shows(s, k + t, |k|) && AllPrintable(x) && |t| <= |x| + n
    ensures var s' := PutAll(s, x + Spaces(n));
            s'.col == |k| + |x| + n && Shows(s'.(col := |k|), k + x, |k|)
  {
    var str := x + Spaces(n);
    Overprint(s, k, t, str);
    assert k + str + Rest(t, |str|) == k + x + Spaces(n);
    var s' := PutAll(s, str);
    TrailingSpaces(s'.(col := |k|), k + x, n, |k|);
  }

  /** What `%.*s` prints of a buffer slice: everything before a NUL. */
  function CString(s: string): (t: string)
    ensures AllPrintable(s) ==> t == s
  {
    if s == "" || s[0] == NUL then "" else [s[0]] + CString(s[1..])
  }
}
