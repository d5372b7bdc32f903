/** What each key does to the line, said by character codes, and what whole sequences of keys enter. */
module LineKeys {
  import opened Options
  import opened Terminal
  import opened LineEdit
  import H = History

  /** Outside escape sequences, in a buffer that has room at all. */
  ghost predicate Ready(e: Edit, len: nat) {
    H.Sane(e.ring) && e.esc == "" && len >= 1
  }

  /** The steps for `s` can be taken, and lead from `e` to `e'`. */
  ghost predicate Walks<E>(step: (E, char) -> Option<E>, e: E, s: string, e': E)
    decreases |s|
  {
    if s == "" then e == e' else step(e, s[0]).Some? && Walks(step, step(e, s[0]).value, s[1..], e')
  }

  lemma {:induction false} WalksOn<E>(step: (E, char) -> Option<E>, e: E, s: string, e1: E, t: string, e2: E)
    requires Walks(step, e, s, e1) && Walks(step, e1, t, e2)
    ensures Walks(step, e, s + t, e2)
    decreases |s|
  {
    if s == "" {
      assert s + t == t;
    } else {
      assert (s + t)[0] == s[0] && (s + t)[1..] == s[1..] + t;
      WalksOn(step, step(e, s[0]).value, s[1..], e1, t, e2);
    }
  }

  /** A key that ends nothing. */
  ghost function Stepper(len: nat): (Edit, char) -> Option<Edit> {
    (e: Edit, c: char) => if H.Sane(e.ring) && !Ends(e.esc, c) then Some(Stepped(e, c, len)) else Null
  }

  /** The keys `s` end nothing and take the editor from `e` to `e'`. */
  ghost predicate Leads(e: Edit, s: string, e': Edit, len: nat) {
    Walks(Stepper(len), e, s, e')
  }

  /** Whatever is typed afterwards, the session goes on from there. */
  lemma {:induction false} LeadsOn(e: Edit, s: string, e': Edit, rest: string, len: nat)
    requires H.Sane(e.ring) && Leads(e, s, e', len)
    ensures H.Sane(e'.ring) && Keys(e, s + rest, len) == Keys(e', rest, len)
    decreases |s|
  {
    if s == "" {
      assert s + rest == rest;
    } else {
      var tail := s[1..] + rest;
      assert (s + rest)[1..] == tail && (s + rest)[0] == s[0];
      KeysStep(e, s + rest, len);
      LeadsOn(Stepped(e, s[0], len), s[1..], e', rest, len);
    }
  }

  /** The editor with `left` and `right` on the two sides of the cursor. */
  function At(e: Edit, left: string, right: string): Edit {
    e.(z := Zipper(left, right))
  }

  lemma Step(e: Edit, c: char, len: nat, e': Edit)
    requires H.Sane(e.ring) && !Ends(e.esc, c) && Stepped(e, c, len) == e'
    ensures H.Sane(e'.ring) && Leads(e, [c], e', len)
  {
    SteppedIsSane(e, c, len);
    assert [c][1..] == "";
    assert Leads(e', "", e', len);
  }

  lemma Compose(e: Edit, s: string, e1: Edit, t: string, e2: Edit, len: nat)
    requires Leads(e, s, e1, len) && Leads(e1, t, e2, len)
    ensures Leads(e, s + t, e2, len)
  {
    WalksOn(Stepper(len), e, s, e1, t, e2);
  }

  /** A key and then the rest. */
  lemma AndThen(e: Edit, s: string, e1: Edit, e2: Edit, len: nat)
    requires s != "" && H.Sane(e.ring) && H.Sane(e1.ring) && Leads(e, [s[0]], e1, len) && Leads(e1, s[1..], e2, len)
    ensures Leads(e, s, e2, len)
  {
    Compose(e, [s[0]], e1, s[1..], e2, len);
    assert [s[0]] + s[1..] == s;
  }

  // ----- one key -----

  function Char(n: nat): char
    requires n < 256
  {
    n as char
  }

  /** A line feed or carriage return enters the whole line; character 3 gives it up. */
  lemma EndLaw(e: Edit, rest: string, len: nat)
    requires Ready(e, len)
    ensures forall n :: n == 10 || n == 13 ==>
              var s := Keys(e, [Char(n)] + rest, len);
              s.Entered? && s.line == e.z.left + e.z.right && s.rest == rest
    ensures Keys(e, [Char(3)] + rest, len) == Cancelled(e)
  {
    assert forall c: char :: ([c] + rest)[1..] == rest;
  }

  /** 1 and 5 go to the start and the end; 2 and 6 go over one character. */
  lemma CursorLaw(e: Edit, len: nat)
    requires Ready(e, len)
    ensures Leads(e, [Char(1)], At(e, "", e.z.left + e.z.right), len)
    ensures Leads(e, [Char(5)], At(e, e.z.left + e.z.right, ""), len)
    ensures var l, r := e.z.left, e.z.right;
            Leads(e, [Char(2)], if l == "" then e else At(e, l[..|l| - 1], [l[|l| - 1]] + r), len)
    ensures var l, r := e.z.left, e.z.right;
            Leads(e, [Char(6)], if r == "" then e else At(e, l + [r[0]], r[1..]), len)
  {
    Step(e, Char(1), len, Stepped(e, Char(1), len));
    Step(e, Char(5), len, Stepped(e, Char(5), len));
    Step(e, Char(2), len, Stepped(e, Char(2), len));
    Step(e, Char(6), len, Stepped(e, Char(6), len));
  }

  /** 4 takes the character after the cursor, 8, 127 and 255 the one before it; 11 takes everything after
      the cursor, 21 and 24 the whole line. */
  lemma EraseLaw(e: Edit, len: nat)
    requires Ready(e, len)
    ensures var l, r := e.z.left, e.z.right;
            Leads(e, [Char(4)], At(e, l, if r == "" then "" else r[1..]), len)
    ensures var l, r := e.z.left, e.z.right;
            forall n :: n in {8, 127, 255} ==> Leads(e, [Char(n)], At(e, if l == "" then "" else l[..|l| - 1], r), len)
    ensures Leads(e, [Char(11)], At(e, e.z.left, ""), len)
    ensures forall n :: n in {21, 24} ==> Leads(e, [Char(n)], At(e, "", ""), len)
  {
    Step(e, Char(4), len, Stepped(e, Char(4), len));
    Step(e, Char(11), len, Stepped(e, Char(11), len));
    forall n | n in {8, 127, 255}
      ensures var l := e.z.left; Leads(e, [Char(n)], At(e, if l == "" then "" else l[..|l| - 1], e.z.right), len)
    {
      RuboutLaw(e, n, len);
    }
    forall n | n in {21, 24} ensures Leads(e, [Char(n)], At(e, "", ""), len) { WipeLaw(e, n, len); }
  }

  lemma RuboutLaw(e: Edit, n: nat, len: nat)
    requires Ready(e, len) && n in {8, 127, 255}
    ensures var l := e.z.left; Leads(e, [Char(n)], At(e, if l == "" then "" else l[..|l| - 1], e.z.right), len)
  {
    Step(e, Char(n), len, Stepped(e, Char(n), len));
  }

  lemma WipeLaw(e: Edit, n: nat, len: nat)
    requires Ready(e, len) && n in {21, 24}
    ensures Leads(e, [Char(n)], At(e, "", ""), len)
  {
    Step(e, Char(n), len, Stepped(e, Char(n), len));
  }

  /** The line that the history shows, if there is one, with the cursor at its end. */
  function Showing(e: Edit, ring: H.Ring, line: Option<string>): Edit {
    if line.Null? then e.(ring := ring) else At(e.(ring := ring), line.value, "")
  }

  /** 16 and 14 show the line above and below; 15 changes between inserting and overwriting. */
  lemma HistoryLaw(e: Edit, len: nat)
    requires Ready(e, len)
    ensures H.Sane(H.Prev(e.ring).0) && Leads(e, [Char(16)], Showing(e, H.Prev(e.ring).0, H.Prev(e.ring).1), len)
    ensures H.Sane(H.Next(e.ring).0) && Leads(e, [Char(14)], Showing(e, H.Next(e.ring).0, H.Next(e.ring).1), len)
    ensures Leads(e, [Char(15)], e.(insert := !e.insert), len)
  {
    Step(e, Char(16), len, Stepped(e, Char(16), len));
    Step(e, Char(14), len, Stepped(e, Char(14), len));
    Step(e, Char(15), len, Stepped(e, Char(15), len));
  }

  /** The characters that do not stand for themselves. */
  const KEYS := {1, 2, 3, 4, 5, 6, 8, 10, 11, 13, 14, 15, 16, 21, 24, 27, 127, 255}

  /** Every other character goes before the cursor if there is room; over the character after the cursor
      if the editor overwrites. */
  lemma SelfLaw(e: Edit, c: char, len: nat)
    requires Ready(e, len) && c as int !in KEYS
    ensures var l, r := e.z.left, e.z.right;
            Leads(e, [c], if !e.insert && r != "" then At(e, l + [c], r[1..])
                          else if |l| + |r| < len then At(e, l + [c], r)
                          else e, len)
  {
    Step(e, c, len, Stepped(e, c, len));
  }

  // ----- escape sequences -----

  /** ESC [ D, C, H, A and B do what 2, 6, 1, 16 and 14 do. */
  lemma ArrowLaw(e: Edit, x: char, n: nat, e': Edit, len: nat)
    requires Ready(e, len) && (x, n) in {('D', 2), ('C', 6), ('H', 1), ('A', 16), ('B', 14)}
    ensures Leads(e, [Char(n)], e', len) ==> Leads(e, [ESC, '['] + [x], e', len)
  {
    if Leads(e, [Char(n)], e', len) {
      Stepped1(e, Char(n), e', len);
      var mid := e.(esc := [ESC, '[']);
      Sequence(e, len);
      SameStep(e, mid, x, n, len);
      Step(mid, x, len, e');
      Compose(e, [ESC, '['], mid, [x], e', len);
    }
  }

  lemma SameStep(e: Edit, mid: Edit, x: char, n: nat, len: nat)
    requires Ready(e, len) && (x, n) in {('D', 2), ('C', 6), ('H', 1), ('A', 16), ('B', 14)}
    requires mid == e.(esc := [ESC, '['])
    ensures Stepped(mid, x, len) == Stepped(e, Char(n), len) && !Ends(mid.esc, x)
  {
    assert mid.(esc := "") == e;
  }

  lemma Stepped1(e: Edit, c: char, e': Edit, len: nat)
    requires H.Sane(e.ring) && Leads(e, [c], e', len)
    ensures Stepped(e, c, len) == e'
  {
    assert [c][1..] == "" && [c][0] == c;
    assert Stepper(len)(e, c).Some? && Walks(Stepper(len), Stepper(len)(e, c).value, "", e');
  }

  /** The first two characters of a sequence are only remembered. */
  lemma Sequence(e: Edit, len: nat)
    requires Ready(e, len)
    ensures Leads(e, [ESC, '['], e.(esc := [ESC, '[']), len)
  {
    var mid := e.(esc := [ESC]);
    Step(e, ESC, len, mid);
    assert [ESC] + ['['] == [ESC, '['];
    Step(mid, '[', len, e.(esc := [ESC, '[']));
    Compose(e, [ESC], mid, ['['], e.(esc := [ESC, '[']), len);
  }

  /** After ESC a character other than `[` is lost, and ESC itself goes into the line. */
  lemma BrokenSequence(e: Edit, c: char, len: nat)
    requires Ready(e, len) && c != '[' && c as int != 10 && c as int != 13 && e.insert
    ensures Leads(e, [ESC, c], if |e.z.left| + |e.z.right| < len then At(e, e.z.left + [ESC], e.z.right) else e, len)
  {
    var mid, z := e.(esc := [ESC]), Typed(e.z, ESC, true, len);
    Step(e, ESC, len, mid);
    assert [ESC][1..] == "" && TypedAll(z, "", true, len) == z;
    Step(mid, c, len, e.(z := z));
    Compose(e, [ESC], mid, [c], e.(z := z), len);
    assert [ESC] + [c] == [ESC, c];
  }

  // ----- sequences of keys -----

  lemma TypingOne(e: Edit, c: char, len: nat)
    requires Ready(e, len) && e.insert && Printable(c) && |e.z.left| + |e.z.right| < len
    ensures Leads(e, [c], At(e, e.z.left + [c], e.z.right), len)
  {
    SelfLaw(e, c, len);
  }

  /** Printable text typed before the cursor, where it fits. */
  lemma {:induction false} Typing(e: Edit, s: string, len: nat)
    requires Ready(e, len) && e.insert && AllPrintable(s) && |e.z.left| + |s| + |e.z.right| <= len
    ensures Leads(e, s, At(e, e.z.left + s, e.z.right), len)
    decreases |s|
  {
    if s == "" {
      assert e.z.left + s == e.z.left;
    } else {
      var e1 := At(e, e.z.left + [s[0]], e.z.right);
      TypingOne(e, s[0], len);
      assert e1.z.left + s[1..] == e.z.left + s;
      Typing(e1, s[1..], len);
      AndThen(e, s, e1, At(e, e.z.left + s, e.z.right), len);
    }
  }

  function Times(c: char, n: nat): string {
    if n == 0 then "" else [c] + Times(c, n - 1)
  }

  lemma BackOne(e: Edit, left: string, c: char, len: nat)
    requires Ready(e, len) && e.z.left == left + [c]
    ensures Leads(e, [Char(2)], At(e, left, [c] + e.z.right), len)
  {
    assert e.z.left[..|e.z.left| - 1] == left;
    CursorLaw(e, len);
  }

  lemma {:induction false} GoingBack(e: Edit, s: string, t: string, len: nat)
    requires Ready(e, len) && e.z.left == s + t
    ensures Leads(e, Times(Char(2), |t|), At(e, s, t + e.z.right), len)
    decreases |t|
  {
    var n := |t|;
    if n == 0 {
      assert s + t == s && t + e.z.right == e.z.right;
    } else {
      var front, right := t[..n - 1], [t[n - 1]] + e.z.right;
      assert e.z.left == s + front + [t[n - 1]];
      BackOne(e, s + front, t[n - 1], len);
      assert front + right == t + e.z.right;
      GoingBack(At(e, s + front, right), s, front, len);
      assert Times(Char(2), n)[1..] == Times(Char(2), n - 1);
      AndThen(e, Times(Char(2), n), At(e, s + front, right), At(e, s, t + e.z.right), len);
    }
  }

  /** `s` and `t` typed, and the cursor moved back over `t`. */
  function Between(s: string, t: string): string {
    s + t + Times(Char(2), |t|)
  }

  function Fresh(ring: H.Ring): Edit {
    Edit(Zipper("", ""), true, "", ring)
  }

  lemma ComesBetween(ring: H.Ring, s: string, t: string, len: nat)
    requires H.Sane(ring) && len >= 1 && AllPrintable(s) && AllPrintable(t) && |s| + |t| <= len
    ensures Leads(Fresh(ring), Between(s, t), At(Fresh(ring), s, t), len)
  {
    var e := Fresh(ring);
    Typing(e, s + t, len);
    assert "" + (s + t) == s + t && t + "" == t;
    GoingBack(At(e, s + t, ""), s, t, len);
    Compose(e, s + t, At(e, s + t, ""), Times(Char(2), |t|), At(e, s, t), len);
  }

  /** These keys and a carriage return enter `line`. */
  ghost predicate Enters(ring: H.Ring, keys: string, len: nat, line: string)
    requires H.Sane(ring)
  {
    var s := Keys(Fresh(ring), keys + [Char(13)], len);
    s.Entered? && s.line == line
  }

  lemma EntersWhatIsThere(ring: H.Ring, s: string, t: string, keys: string, left: string, right: string, len: nat)
    requires H.Sane(ring) && len >= 1 && AllPrintable(s) && AllPrintable(t) && |s| + |t| <= len
    requires Leads(At(Fresh(ring), s, t), keys, At(Fresh(ring), left, right), len)
    ensures Enters(ring, Between(s, t) + keys, len, left + right)
  {
    var e, cr := At(Fresh(ring), left, right), [Char(13)];
    ComesBetween(ring, s, t, len);
    Compose(Fresh(ring), Between(s, t), At(Fresh(ring), s, t), keys, e, len);
    LeadsOn(Fresh(ring), Between(s, t) + keys, e, cr, len);
    EndLaw(e, "", len);
    assert cr + "" == cr;
  }

  /** For any text `s` + `t` with the cursor brought between the two by the back key: what the erasing keys
      leave. */
  lemma ErasingEnters(ring: H.Ring, s: string, t: string, len: nat)
    requires H.Sane(ring) && len >= 1 && AllPrintable(s) && AllPrintable(t) && |s| + |t| <= len
    ensures Enters(ring, Between(s, t) + [Char(4)], len, s + if t == "" then "" else t[1..])
    ensures Enters(ring, Between(s, t) + [Char(8)], len, (if s == "" then "" else s[..|s| - 1]) + t)
    ensures Enters(ring, Between(s, t) + [Char(11)], len, s)
    ensures Enters(ring, Between(s, t) + [Char(21)], len, "") && Enters(ring, Between(s, t) + [Char(24)], len, "")
  {
    EraseLaw(At(Fresh(ring), s, t), len);
    EntersWhatIsThere(ring, s, t, [Char(4)], s, if t == "" then "" else t[1..], len);
    EntersWhatIsThere(ring, s, t, [Char(8)], if s == "" then "" else s[..|s| - 1], t, len);
    EntersWhatIsThere(ring, s, t, [Char(11)], s, "", len);
    assert s + "" == s;
    EntersWhatIsThere(ring, s, t, [Char(21)], "", "", len);
    EntersWhatIsThere(ring, s, t, [Char(24)], "", "", len);
  }

  /** A character typed between them goes there; typed after 1, 5 or 6 it goes to the start, to the end, or
      one character further on. */
  lemma TypingEnters(ring: H.Ring, s: string, t: string, x: char, len: nat)
    requires H.Sane(ring) && AllPrintable(s) && AllPrintable(t) && Printable(x) && |s| + |t| < len
    ensures Enters(ring, Between(s, t) + [x], len, s + [x] + t)
    ensures Enters(ring, Between(s, t) + ([Char(1)] + [x]), len, [x] + (s + t))
    ensures Enters(ring, Between(s, t) + ([Char(5)] + [x]), len, s + t + [x])
    ensures t != "" ==> Enters(ring, Between(s, t) + ([Char(6)] + [x]), len, s + [t[0]] + [x] + t[1..])
  {
    SelfLaw(At(Fresh(ring), s, t), x, len);
    EntersWhatIsThere(ring, s, t, [x], s + [x], t, len);
    CursorLaw(At(Fresh(ring), s, t), len);
    MovedAndTyped(ring, s, t, Char(1), "", s + t, x, len);
    assert "" + [x] + (s + t) == [x] + (s + t);
    MovedAndTyped(ring, s, t, Char(5), s + t, "", x, len);
    assert s + t + [x] + "" == s + t + [x];
    if t != "" { MovedAndTyped(ring, s, t, Char(6), s + [t[0]], t[1..], x, len); }
  }

  lemma MovedAndTyped(ring: H.Ring, s: string, t: string, c: char, left: string, right: string, x: char, len: nat)
    requires H.Sane(ring) && AllPrintable(s) && AllPrintable(t) && Printable(x) && |s| + |t| < len
    requires |left| + |right| < len && Leads(At(Fresh(ring), s, t), [c], At(Fresh(ring), left, right), len)
    ensures Enters(ring, Between(s, t) + ([c] + [x]), len, left + [x] + right)
  {
    var e := Fresh(ring);
    SelfLaw(At(e, left, right), x, len);
    Compose(At(e, s, t), [c], At(e, left, right), [x], At(e, left + [x], right), len);
    EntersWhatIsThere(ring, s, t, [c] + [x], left + [x], right, len);
  }

  /** A printable line is filed as it is, unless it is empty or starts with an exclamation mark. */
  lemma Files(ring: H.Ring, keys: string, len: nat, line: string, added: seq<string>)
    requires H.Stores(ring, added) && Enters(ring, keys, len, line) && AllPrintable(line)
    ensures H.Holds(Keys(Fresh(ring), keys + [Char(13)], len).ring,
                    added + if line == "" || line[0] == '!' then [] else [line], 0)
  {
    KeysFile(Fresh(ring), keys + [Char(13)], len, added);
  }
}
