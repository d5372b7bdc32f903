/** The line editor: a buffer with a cursor, edited key by key, echoing only what changes. */
module LineEdit {
  import opened Options
  import opened Terminal
  import H = History

  // ----- the editor as a pair of lists -----

  datatype Zipper = Zipper(left: string, right: string)

  datatype Key =
    | Home | Forward | Back | Delete | Kill | ToEnd | Toggle | KillLine | Rubout | Up | Down
    | Escape | Break | Enter | Self(c: char)

  const ESC: char := 27 as char

  /** The `switch` of `cread_line`, with the line-end test before it. */
  function Classify(c: char): Key {
    match c as int
    case 10 => Enter case 13 => Enter
    case 1 => Home case 6 => Forward case 2 => Back case 4 => Delete case 11 => Kill case 5 => ToEnd
    case 15 => Toggle case 24 => KillLine case 21 => KillLine
    case 255 => Rubout case 127 => Rubout case 8 => Rubout
    case 16 => Up case 14 => Down case 27 => Escape case 3 => Break
    case _ => Self(c)
  }

  function Moved(z: Zipper, k: Key): Zipper {
    match k
    case Home => Zipper("", z.left + z.right)
    case ToEnd => Zipper(z.left + z.right, "")
    case Forward => if z.right == "" then z else Zipper(z.left + [z.right[0]], z.right[1..])
    case Back => if z.left == "" then z else Zipper(Init(z.left), [Last(z.left)] + z.right)
    case Delete => if z.right == "" then z else Zipper(z.left, z.right[1..])
    case Rubout => if z.left == "" then z else Zipper(Init(z.left), z.right)
    case Kill => Zipper(z.left, "")
    case KillLine => Zipper("", "")
    case _ => z
  }

  function Init(s: string): string
    requires s != ""
  {
    s[..|s| - 1]
  }

  function Last(s: string): char
    requires s != ""
  {
    s[|s| - 1]
  }

  /** `cread_add_char` in a line of at most `len` characters. */
  function Typed(z: Zipper, c: char, insert: bool, len: nat): Zipper {
    if insert || z.right == "" then
      if |z.left| + |z.right| > len - 1 then z else Zipper(z.left + [c], z.right)
    else Zipper(z.left + [c], z.right[1..])
  }

  /** `cread_add_str` */
  function TypedAll(z: Zipper, s: string, insert: bool, len: nat): Zipper
    decreases |s|
  {
    if s == "" then z else TypedAll(Typed(z, s[0], insert, len), s[1..], insert, len)
  }

  /** All the editor remembers between keys; `esc` holds a partly read escape sequence. */
  datatype Edit = Edit(z: Zipper, insert: bool, esc: string, ring: H.Ring)

  function Recalled(e: Edit, r: (H.Ring, Option<string>)): Edit {
    e.(ring := r.0, z := if r.1.Null? then e.z else Zipper(r.1.value, ""))
  }

  /** One decoded key other than the two that end the line. */
  function Pressed(e: Edit, k: Key, len: nat): Edit
    requires H.Sane(e.ring)
  {
    match k
    case Toggle => e.(insert := !e.insert)
    case Escape => e.(esc := [ESC])
    case Up => Recalled(e, H.Prev(e.ring))
    case Down => Recalled(e, H.Next(e.ring))
    case Self(c) => e.(z := Typed(e.z, c, e.insert, len))
    case _ => e.(z := Moved(e.z, k))
  }

  /** The arrow and home sequences ESC [ D, C, H, A, B. */
  function Arrow(c: char): Key {
    if c == 'D' then Back else if c == 'C' then Forward else if c == 'H' then Home
    else if c == 'A' then Up else if c == 'B' then Down else Self(c)
  }

  /** One input character other than a line end and a break outside a sequence. */
  function Stepped(e: Edit, c: char, len: nat): Edit
    requires H.Sane(e.ring)
  {
    if |e.esc| == 1 then
      if c == '[' then e.(esc := e.esc + [c])
      else e.(z := TypedAll(e.z, e.esc, e.insert, len), esc := "")
    else if |e.esc| == 2 then
      if Arrow(c).Self? then e.(z := TypedAll(e.z, e.esc + [c], e.insert, len), esc := "")
      else Pressed(e.(esc := ""), Arrow(c), len)
    else Pressed(e, Classify(c), len)
  }

  /** A line end always ends the line; a break does outside an escape sequence. */
  predicate Ends(esc: string, c: char) {
    Classify(c) == Enter || (|esc| == 0 && Classify(c) == Break)
  }

  /** The line goes into the history unless it is empty or starts with `!`. */
  predicate Kept(line: string) {
    line != "" && line[0] != NUL && line[0] != '!'
  }

  function Filed(r: H.Ring, line: string): H.Ring
    requires H.Sane(r)
  {
    H.Rewind(if Kept(line) then H.Add(r, CString(line)) else r)
  }

  /** Reading a line: more keys are wanted, the line was given up, or it is complete. */
  datatype Session = Waiting(e: Edit) | Cancelled(e: Edit) | Entered(line: string, ring: H.Ring, rest: string)

  function Keys(e: Edit, input: string, len: nat): Session
    requires H.Sane(e.ring)
    decreases |input|
  {
    if input == "" then Waiting(e)
    else if Ends(e.esc, input[0]) then
      if Classify(input[0]) == Enter then
        var line := e.z.left + e.z.right;
        Entered(line, Filed(e.ring, line), input[1..])
      else Cancelled(e)
    else
      SteppedIsSane(e, input[0], len);
      Keys(Stepped(e, input[0], len), input[1..], len)
  }

  lemma SteppedIsSane(e: Edit, c: char, len: nat)
    requires H.Sane(e.ring)
    ensures var r := Stepped(e, c, len).ring; H.Sane(r) && r == e.ring.(cur := r.cur)
  {
  }

  /** However a line was edited and whatever was recalled meanwhile, completing it files exactly the
      line shown and restarts navigation at the newest end. */
  lemma {:induction false} KeysFile(e: Edit, input: string, len: nat, added: seq<string>)
    requires H.Stores(e.ring, added)
    ensures var s := Keys(e, input, len);
            s.Entered? ==> H.Holds(s.ring, added + (if Kept(s.line) then [CString(s.line)] else []), 0)
    decreases |input|
  {
    if input != "" {
      if Ends(e.esc, input[0]) {
        var line := e.z.left + e.z.right;
        if Kept(line) { H.AddStores(e.ring, added, CString(line)); } else { assert added + [] == added; }
      } else {
        SteppedIsSane(e, input[0], len);
        KeysFile(Stepped(e, input[0], len), input[1..], len, added);
      }
    }
  }

  lemma KeysStep(e: Edit, input: string, len: nat)
    requires H.Sane(e.ring) && input != "" && !Ends(e.esc, input[0])
    ensures var e' := Stepped(e, input[0], len);
            && H.Sane(e'.ring) && Keys(e, input, len) == Keys(e', input[1..], len)
            && (AllSafe(e, input, len) ==> Safe(e.esc, input[0]) && AllSafe(e', input[1..], len))
  {
    SteppedIsSane(e, input[0], len);
  }

  /** The character does not put anything unprintable into the line. */
  predicate Safe(esc: string, c: char) {
    if |esc| == 0 then Classify(c).Self? ==> Printable(c)
    else if |esc| == 1 then c == '['
    else !Arrow(c).Self?
  }

  predicate AllSafe(e: Edit, input: string, len: nat)
    requires H.Sane(e.ring)
    decreases |input|
  {
    input == "" || Ends(e.esc, input[0]) ||
    (Safe(e.esc, input[0]) && (SteppedIsSane(e, input[0], len); AllSafe(Stepped(e, input[0], len), input[1..], len)))
  }

  // ----- what each key writes to the terminal -----

  function CursorLeft(s: Screen, n: nat): Screen {
    s.(col := if s.col < n then 0 else s.col - n)
  }

  function EchoTyped(s: Screen, z: Zipper, c: char, insert: bool, len: nat): (s': Screen)
    requires s.col <= |s.row|
    ensures s'.col <= |s'.row|
  {
    if (insert || z.right == "") && |z.left| + |z.right| > len - 1 then Put(s, BEL)
    else if insert then CursorLeft(PutAll(s, CString([c] + z.right)), |z.right|)
    else PutAll(s, CString([c]))
  }

  /** What `cread_add_str` sends to the screen. */
  function EchoAll(s: Screen, z: Zipper, str: string, insert: bool, len: nat): (s': Screen)
    requires s.col <= |s.row|
    ensures s'.col <= |s'.row|
    decreases |str|
  {
    if str == "" then s
    else EchoAll(EchoTyped(s, z, str[0], insert, len), Typed(z, str[0], insert, len), str[1..], insert, len)
  }

  function EchoMoved(s: Screen, z: Zipper, k: Key): (s': Screen)
    requires s.col <= |s.row|
    ensures s'.col <= |s'.row|
  {
    match k
    case Home => CursorLeft(s, |z.left|)
    case ToEnd => PutAll(s, CString(z.right))
    case Forward => if z.right == "" then s else Put(s, z.right[0])
    case Back => if z.left == "" then s else Put(s, BS)
    case Delete => if z.right == "" then s else CursorLeft(Put(PutAll(s, CString(z.right[1..])), ' '), |z.right|)
    case Rubout => if z.left == "" then s else CursorLeft(Put(PutAll(Put(s, BS), CString(z.right)), ' '), |z.right| + 1)
    case Kill => CursorLeft(PutAll(s, Spaces(|z.right|)), |z.right|)
    case KillLine =>
      var n := |z.left| + |z.right|;
      CursorLeft(PutAll(CursorLeft(s, |z.left|), Spaces(n)), n)
    case _ => s
  }

  function EchoRecalled(s: Screen, z: Zipper, line: string): (s': Screen)
    requires s.col <= |s.row|
    ensures s'.col <= |s'.row|
  {
    PutAll(EchoMoved(s, z, KillLine), CString(line))
  }

  /** Prompt, line, blanks; the cursor between the two lists. */
  predicate ShowsText(s: Screen, prompt: string, z: Zipper) {
    AllPrintable(z.left) && AllPrintable(z.right) && Shows(s, prompt + z.left + z.right, |prompt| + |z.left|)
  }

  lemma TypedShows(s: Screen, p: string, z: Zipper, c: char, insert: bool, len: nat)
    requires ShowsText(s, p, z) && Printable(c)
    ensures ShowsText(EchoTyped(s, z, c, insert, len), p, Typed(z, c, insert, len))
  {
    if insert {
      InsertedShows(s, p, z, c);
    } else {
      OverwrittenShows(s, p, z, c);
    }
  }

  /** Typing a string keeps the screen in step. */
  lemma {:induction false} TypedAllShows(s: Screen, p: string, z: Zipper, str: string, insert: bool, len: nat)
    requires ShowsText(s, p, z) && AllPrintable(str)
    ensures ShowsText(EchoAll(s, z, str, insert, len), p, TypedAll(z, str, insert, len))
    decreases |str|
  {
    if str != "" {
      TypedShows(s, p, z, str[0], insert, len);
      TypedAllShows(EchoTyped(s, z, str[0], insert, len), p, Typed(z, str[0], insert, len), str[1..], insert, len);
    }
  }

  lemma InsertedShows(s: Screen, p: string, z: Zipper, c: char)
    requires ShowsText(s, p, z) && Printable(c)
    ensures ShowsText(CursorLeft(PutAll(s, CString([c] + z.right)), |z.right|), p, Zipper(z.left + [c], z.right))
  {
    var k := p + z.left;
    Reprint(s, k, z.right, [c] + z.right, 0);
    assert [c] + z.right + Spaces(0) == [c] + z.right;
    assert p + (z.left + [c]) + z.right == k + ([c] + z.right);
  }

  lemma OverwrittenShows(s: Screen, p: string, z: Zipper, c: char)
    requires ShowsText(s, p, z) && Printable(c)
    ensures ShowsText(PutAll(s, CString([c])), p, Zipper(z.left + [c], Rest(z.right, 1)))
  {
    var k := p + z.left;
    Overprint(s, k, z.right, [c]);
    assert p + (z.left + [c]) + Rest(z.right, 1) == k + [c] + Rest(z.right, 1);
  }

  lemma CursorShows(s: Screen, p: string, z: Zipper, k: Key)
    requires ShowsText(s, p, z) && k in {Home, ToEnd, Forward, Back}
    ensures ShowsText(EchoMoved(s, z, k), p, Moved(z, k))
  {
    match k
    case Home => assert p + "" + (z.left + z.right) == p + z.left + z.right;
    case ToEnd => EndShows(s, p, z);
    case Forward => ForwardShows(s, p, z);
    case Back =>
      if z.left != "" {
        assert p + Init(z.left) + ([Last(z.left)] + z.right) == p + z.left + z.right;
      }
  }

  lemma EndShows(s: Screen, p: string, z: Zipper)
    requires ShowsText(s, p, z)
    ensures ShowsText(EchoMoved(s, z, ToEnd), p, Moved(z, ToEnd))
  {
    var q := p + z.left;
    Overprint(s, q, z.right, z.right);
    assert q + z.right + Rest(z.right, |z.right|) == p + (z.left + z.right) + "";
  }

  lemma ForwardShows(s: Screen, p: string, z: Zipper)
    requires ShowsText(s, p, z)
    ensures ShowsText(EchoMoved(s, z, Forward), p, Moved(z, Forward))
  {
    var q := p + z.left;
    if z.right != "" {
      Overprint(s, q, z.right, [z.right[0]]);
      assert PutAll(s, [z.right[0]]) == Put(s, z.right[0]);
      assert q + [z.right[0]] + Rest(z.right, 1) == p + (z.left + [z.right[0]]) + z.right[1..];
    }
  }

  lemma MovedShows(s: Screen, p: string, z: Zipper, k: Key)
    requires ShowsText(s, p, z)
    ensures ShowsText(EchoMoved(s, z, k), p, Moved(z, k))
  {
    if k in {Home, ToEnd, Forward, Back} {
      CursorShows(s, p, z, k);
    } else if k == Delete && z.right != "" {
      Erases(s, p, z.left, z.right, z.right[1..]);
    } else if k == Rubout {
      RuboutShows(s, p, z);
    } else if k == Kill {
      Clears(s, p + z.left, z.right);
      assert p + z.left + "" == p + z.left;
    } else if k == KillLine {
      ClearedShows(s, p, z);
    }
  }

  lemma RuboutShows(s: Screen, p: string, z: Zipper)
    requires ShowsText(s, p, z)
    ensures ShowsText(EchoMoved(s, z, Rubout), p, Moved(z, Rubout))
  {
    if z.left != "" {
      var t := [Last(z.left)] + z.right;
      assert p + Init(z.left) + t == p + z.left + z.right;
      Erases(Put(s, BS), p, Init(z.left), t, z.right);
    }
  }

  lemma ClearedShows(s: Screen, p: string, z: Zipper)
    requires ShowsText(s, p, z)
    ensures ShowsText(EchoMoved(s, z, KillLine), p, Moved(z, KillLine))
  {
    assert p + z.left + z.right == p + (z.left + z.right);
    Clears(CursorLeft(s, |z.left|), p, z.left + z.right);
    assert p + "" + "" == p;
  }

  lemma Clears(s: Screen, k: string, t: string)
    requires Shows(s, k + t, |k|)
    ensures Shows(CursorLeft(PutAll(s, Spaces(|t|)), |t|), k, |k|)
  {
    Reprint(s, k, t, "", |t|);
    assert "" + Spaces(|t|) == Spaces(|t|);
    assert k + "" == k;
  }

  /** Reprinting the tail one character shorter and blanking the last cell. */
  lemma Erases(s: Screen, p: string, left: string, t: string, x: string)
    requires Shows(s, p + left + t, |p| + |left|) && |t| == |x| + 1 && AllPrintable(left) && AllPrintable(x)
    ensures ShowsText(CursorLeft(Put(PutAll(s, CString(x)), ' '), |x| + 1), p, Zipper(left, x))
  {
    Reprint(s, p + left, t, x, 1);
    PutAllAppend(s, x, Spaces(1));
    assert Spaces(1)[1..] == "";
    assert PutAll(PutAll(s, x), Spaces(1)) == Put(PutAll(s, x), ' ');
  }

  lemma RecalledShows(s: Screen, p: string, z: Zipper, line: string)
    requires ShowsText(s, p, z) && AllPrintable(line)
    ensures ShowsText(EchoRecalled(s, z, line), p, Zipper(line, ""))
  {
    MovedShows(s, p, z, KillLine);
    var s1 := EchoMoved(s, z, KillLine);
    assert p + "" + "" == p + "";
    Overprint(s1, p, "", line);
    assert p + line + Rest("", |line|) == p + line + "";
  }

  // ----- the buffer and the screen -----

  function Memmoved(s: string, to: nat, from: nat, n: nat): string
    requires to + n <= |s| && from + n <= |s|
  {
    s[..to] + s[from..from + n] + s[to + n..]
  }

  /** The buffer with `c` put in at `num`, before `wlen - 1` characters that move up. */
  function Opened(s: string, num: nat, wlen: nat, c: char): string
    requires 1 <= wlen && num + wlen <= |s|
  {
    Memmoved(s, num + 1, num, wlen - 1)[num := c]
  }

  lemma OpenedIs(s: string, t: string, num: nat, wlen: nat, c: char)
    requires 1 <= wlen && num + wlen <= |s| && t == Opened(s, num, wlen, c)
    ensures |t| == |s| && t[..num + 1] == s[..num] + [c] && t[num + 1..num + wlen] == s[num..num + wlen - 1]
    ensures t[num..num + wlen] == [c] + s[num..num + wlen - 1] && t[num + wlen..] == s[num + wlen..]
  {
  }

  lemma ClosedIs(s: string, t: string, num: nat, eol: nat)
    requires num < eol <= |s| && t == Memmoved(s, num, num + 1, eol - num - 1)
    ensures |t| == |s| && t[..num] == s[..num] && t[num..eol - 1] == s[num..eol][1..]
  {
  }

  /** Every line that may be recalled is printable. */
  predicate Recallable(lines: seq<string>) {
    forall i :: 0 <= i < |lines| ==> AllPrintable(lines[i])
  }

  class Editor {
    const prompt: string
    const len: nat
    const buf: array<char>
    const hist: H.Hist
    var num: nat
    var eol: nat
    var insert: bool
    var esc: string
    var screen: Screen

    ghost predicate Valid()
      reads this, hist
    {
      && 1 <= len && buf.Length == len + 1
      && num <= eol <= len
      && |esc| <= 2
      && H.Sane(hist.State())
      && (forall i :: 0 <= i < |hist.lines| ==> |hist.lines[i]| <= len)
      && screen.col <= |screen.row|
    }

    ghost function Text(): Zipper
      requires Valid()
      reads this, buf, hist
    {
      Zipper(buf[..num], buf[num..eol])
    }

    ghost function State(): Edit
      requires Valid()
      reads this, buf, hist
    {
      Edit(Text(), insert, esc, hist.State())
    }

    /** The screen agrees with the buffer, and every line that may be recalled is printable. */
    ghost predicate Shown()
      requires Valid()
      reads this, buf, hist
    {
      && Recallable(hist.lines)
      && ShowsText(screen, prompt, Text())
    }

    constructor (prompt: string, len: nat, hist: H.Hist)
      requires 1 <= len && H.Sane(hist.State())
      requires Recallable(hist.lines) && forall i :: 0 <= i < |hist.lines| ==> |hist.lines[i]| <= len
      ensures Valid() && fresh(buf) && this.hist == hist && this.len == len && this.prompt == prompt
      ensures State() == Edit(Zipper("", ""), true, "", hist.State()) && Shown()
    {
      this.prompt, this.len, this.hist := prompt, len, hist;
      buf := new char[len + 1];
      num, eol, insert, esc := 0, 0, true, "";
      screen := Screen(prompt, |prompt|);
      new;
      assert prompt + "" + "" == prompt;
    }

    method Putc(c: char)
      requires Valid()
      modifies this`screen
      ensures Valid() && screen == Put(old(screen), c)
    {
      screen := Put(screen, c);
    }

    /** `putnstr(buf + from, n)` */
    method Putnstr(from: nat, n: nat)
      requires Valid() && from + n <= buf.Length
      modifies this`screen
      ensures Valid() && screen == PutAll(old(screen), CString(buf[from..from + n]))
    {
      screen := PutAll(screen, CString(buf[from..from + n]));
    }

    /** Emit `n` backspaces. */
    method Backspaces(n: nat)
      requires Valid()
      modifies this`screen
      ensures Valid() && screen == CursorLeft(old(screen), n)
    {
      var i := 0;
      while i < n
        invariant i <= n && Valid() && screen == CursorLeft(old(screen), i)
      {
        Putc(BS);
        i := i + 1;
      }
    }

    /** `memmove(&buf[to], &buf[from], n)` */
    method Memmove(to: nat, from: nat, n: nat)
      requires to + n <= buf.Length && from + n <= buf.Length
      modifies buf
      ensures buf[..] == Memmoved(old(buf[..]), to, from, n)
    {
      forall i | 0 <= i < n { buf[to + i] := buf[from + i]; }
    }

    method AddChar(c: char)
      requires Valid()
      modifies this`num, this`eol, this`screen, buf
      ensures forall i :: eol <= i < buf.Length ==> buf[i] == old(buf[i])
      ensures Valid() && Text() == Typed(old(Text()), c, insert, len)
      ensures screen == EchoTyped(old(screen), old(Text()), c, insert, len)
    {
      if insert || num == eol {
        if eol > len - 1 {
          Putc(BEL);
          return;
        }
        if insert { InsertHere(c); } else { eol := eol + 1; WriteHere(c); }
      } else {
        WriteHere(c);
      }
    }

    /** The `insert` branch of `cread_add_char`. */
    method InsertHere(c: char)
      requires Valid() && eol < len
      modifies this`num, this`eol, this`screen, buf
      ensures forall i :: eol <= i < buf.Length ==> buf[i] == old(buf[i])
      ensures Valid() && Text() == Zipper(old(Text()).left + [c], old(Text()).right)
      ensures screen == CursorLeft(PutAll(old(screen), CString([c] + old(Text()).right)), |old(Text()).right|)
    {
      ghost var left, right := buf[..num], buf[num..eol];
      eol := eol + 1;
      var wlen := eol - num;
      OpenGap(c, wlen);
      assert buf[..num + 1] == left + [c];
      assert buf[num..num + wlen] == [c] + right && buf[num + 1..eol] == right;
      EchoOpened(wlen, [c] + right);
      num := num + 1;
      assert Text() == Zipper(left + [c], right);
    }

    /** Print the `wlen` characters at the cursor and go back over all but one. */
    method EchoOpened(wlen: nat, ghost t: string)
      requires Valid() && 1 <= wlen && num + wlen <= buf.Length && buf[num..num + wlen] == t
      modifies this`screen
      ensures Valid() && screen == CursorLeft(PutAll(old(screen), CString(t)), |t| - 1)
    {
      Putnstr(num, wlen);
      Backspaces(wlen - 1);
    }

    /** Move the text from the cursor up by one and put `c` in the gap. */
    method OpenGap(c: char, wlen: nat)
      requires 1 <= wlen && num + wlen <= buf.Length
      modifies buf
      ensures buf[..num + 1] == old(buf[..num]) + [c] && buf[num + 1..num + wlen] == old(buf[num..num + wlen - 1])
      ensures buf[num..num + wlen] == [c] + old(buf[num..num + wlen - 1])
      ensures forall i :: num + wlen <= i < buf.Length ==> buf[i] == old(buf[i])
    {
      ghost var was := buf[..];
      Memmove(num + 1, num, wlen - 1);
      buf[num] := c;
      OpenedIs(was, buf[..], num, wlen, c);
    }

    /** Its other branch. */
    method WriteHere(c: char)
      requires Valid() && num < eol
      modifies this`num, this`screen, buf
      ensures forall i :: eol <= i < buf.Length ==> buf[i] == old(buf[i])
      ensures Valid() && buf[..num] == old(buf[..num]) + [c] && buf[num..eol] == old(buf[num + 1..eol])
      ensures num == old(num) + 1 && screen == PutAll(old(screen), CString([c]))
    {
      buf[num] := c;
      assert buf[num..num + 1] == [c];
      Putnstr(num, 1);
      num := num + 1;
    }

    /** `BEGINNING_OF_LINE` */
    method BeginningOfLine()
      requires Valid()
      modifies this`num, this`screen
      ensures Valid() && num == 0 && screen == CursorLeft(old(screen), old(num))
    {
      while num != 0
        invariant Valid() && num <= old(num) && screen == CursorLeft(old(screen), old(num) - num)
        decreases num
      {
        Putc(BS);
        num := num - 1;
      }
    }

    /** `ERASE_TO_EOL` */
    method EraseToEol()
      requires Valid()
      modifies this`eol, this`screen
      ensures Valid() && eol == num
      ensures screen == CursorLeft(PutAll(old(screen), Spaces(old(eol) - num)), old(eol) - num)
    {
      if num < eol {
        screen := PutAll(screen, Spaces(eol - num));
        label printed:
        while eol > num
          invariant Valid() && num <= eol <= old(eol) && screen == CursorLeft(old@printed(screen), old(eol) - eol)
          decreases eol
        {
          Putc(BS);
          eol := eol - 1;
        }
      } else {
        assert PutAll(screen, Spaces(0)) == screen;
      }
    }

    /** `REFRESH_TO_EOL` */
    method RefreshToEol()
      requires Valid()
      modifies this`num, this`screen
      ensures Valid() && num == eol && screen == PutAll(old(screen), CString(buf[old(num)..eol]))
    {
      if num < eol {
        Putnstr(num, eol - num);
        num := eol;
      } else {
        assert buf[num..eol] == "";
      }
    }

    /** Move the text after the cursor's character down by one. */
    method CloseGap()
      requires Valid() && num < eol
      modifies buf
      ensures buf[..num] == old(buf[..num]) && buf[num..eol - 1] == old(buf[num..eol])[1..]
    {
      ghost var was := buf[..];
      Memmove(num, num + 1, eol - num - 1);
      ClosedIs(was, buf[..], num, eol);
    }

    /** Blank the cell after `n` characters and go back over them. */
    method BlankAfter(n: nat)
      requires Valid()
      modifies this`screen
      ensures Valid() && screen == CursorLeft(Put(old(screen), ' '), n + 1)
    {
      Putc(' ');
      Backspaces(n + 1);
    }

    method DeleteHere()
      requires Valid()
      modifies this`eol, this`screen, buf
      ensures Valid() && Text() == Moved(old(Text()), Delete)
      ensures screen == EchoMoved(old(screen), old(Text()), Delete)
    {
      if num < eol {
        ghost var left, right := buf[..num], buf[num..eol];
        var wlen := eol - num - 1;
        if wlen != 0 { CloseGap(); }
        assert buf[..num] == left && buf[num..num + wlen] == right[1..];
        EchoClosed(wlen, right[1..]);
        eol := eol - 1;
        assert Text() == Zipper(left, right[1..]);
      }
    }

    /** Print the `wlen` characters at the cursor and blank the one after them. */
    method EchoClosed(wlen: nat, ghost t: string)
      requires Valid() && num + wlen <= buf.Length && buf[num..num + wlen] == t
      modifies this`screen
      ensures Valid() && screen == CursorLeft(Put(PutAll(old(screen), CString(t)), ' '), |t| + 1)
    {
      if wlen != 0 {
        Putnstr(num, wlen);
      } else {
        assert CString(buf[num..num + wlen]) == "";
      }
      BlankAfter(wlen);
    }

    method RuboutHere()
      requires Valid()
      modifies this`num, this`eol, this`screen, buf
      ensures Valid() && Text() == Moved(old(Text()), Rubout)
      ensures screen == EchoMoved(old(screen), old(Text()), Rubout)
    {
      if num != 0 {
        ghost var left, right := buf[..num], buf[num..eol];
        var wlen := eol - num;
        num := num - 1;
        assert buf[..num] == Init(left) && buf[num..eol][1..] == right;
        CloseGap();
        EraseBack(wlen, right);
        eol := eol - 1;
        assert Text() == Zipper(Init(left), right);
      }
    }

    /** Step back and print the `wlen` characters at the cursor over what was there. */
    method EraseBack(wlen: nat, ghost t: string)
      requires Valid() && num + wlen <= buf.Length && buf[num..num + wlen] == t
      modifies this`screen
      ensures Valid()
      ensures screen == CursorLeft(Put(PutAll(Put(old(screen), BS), CString(t)), ' '), |t| + 1)
    {
      Putc(BS);
      Putnstr(num, wlen);
      BlankAfter(wlen);
    }

    /** Clear the line on the screen and in the buffer. */
    method ClearLine()
      requires Valid()
      modifies this`num, this`eol, this`screen
      ensures Valid() && num == eol == 0
      ensures screen == EchoMoved(old(screen), old(Text()), KillLine)
    {
      BeginningOfLine();
      EraseToEol();
    }

    /** The keys that only move the cursor. */
    method MoveCursor(k: Key)
      requires Valid() && k in {Home, ToEnd, Forward, Back}
      modifies this`num, this`screen
      ensures Valid() && Text() == Moved(old(Text()), k)
      ensures screen == EchoMoved(old(screen), old(Text()), k)
    {
      match k
      case Home =>
        BeginningOfLine();
        assert buf[0..eol] == old(buf[..num]) + old(buf[num..eol]);
      case ToEnd =>
        RefreshToEol();
        assert buf[..eol] == old(buf[..num]) + old(buf[num..eol]);
      case Forward =>
        if num < eol {
          Putc(buf[num]);
          num := num + 1;
          assert buf[..num] == old(buf[..num]) + [old(buf[num..eol])[0]];
          assert buf[num..eol] == old(buf[num..eol])[1..];
        }
      case Back =>
        if num != 0 {
          Putc(BS);
          num := num - 1;
          assert buf[..num] == Init(old(buf[..num]));
          assert buf[num..eol] == [Last(old(buf[..num]))] + old(buf[num..eol]);
        }
    }

    /** The keys that only move or erase. */
    method Move(k: Key)
      requires Valid()
      modifies this`num, this`eol, this`screen, buf
      ensures Valid() && Text() == Moved(old(Text()), k)
      ensures screen == EchoMoved(old(screen), old(Text()), k)
    {
      if k in {Home, ToEnd, Forward, Back} {
        MoveCursor(k);
        return;
      }
      match k
      case Delete => DeleteHere();
      case Rubout => RuboutHere();
      case Kill => EraseToEol();
      case KillLine => ClearLine();
      case _ =>
    }

    /** Clear the line, copy `line` and its NUL into the buffer, show it. */
    method Replace(line: string)
      requires Valid() && |line| <= len
      modifies this`num, this`eol, this`screen, buf
      ensures Valid() && Text() == Zipper(line, "")
      ensures screen == EchoRecalled(old(screen), old(Text()), line)
    {
      ClearLine();
      CopyIn(line);
      RefreshToEol();
      assert buf[..eol] == buf[0..eol] && buf[eol..eol] == "";
    }

    method CopyIn(line: string)
      requires Valid() && num == 0 && |line| <= len
      modifies this`eol, buf
      ensures Valid() && eol == |line| && buf[0..eol] == line
    {
      forall i | 0 <= i <= |line| { buf[i] := if i < |line| then line[i] else NUL; }
      eol := |line|;
    }

    /** The history keys. */
    method Recall(up: bool)
      requires Valid()
      modifies this`num, this`eol, this`screen, buf, hist
      ensures Valid() && hist.lines == old(hist.lines)
      ensures var r := if up then H.Prev(old(hist.State())) else H.Next(old(hist.State()));
              && hist.State() == r.0
              && Text() == (if r.1.Null? then old(Text()) else Zipper(r.1.value, ""))
              && screen == (if r.1.Null? then Put(old(screen), BEL)
                  else EchoRecalled(old(screen), old(Text()), r.1.value))
    {
      var hline;
      if up { hline := hist.GoPrev(); } else { hline := hist.GoNext(); }
      assert hist.lines == old(hist.lines) && H.Sane(hist.State());
      if hline.Null? {
        Putc(BEL);
      } else {
        Replace(hline.value);
      }
    }

    /** Each of the three kinds of key keeps the screen in step with the buffer. */
    method MoveShown(k: Key)
      requires Valid()
      modifies this`num, this`eol, this`screen, buf
      ensures Valid() && Text() == Moved(old(Text()), k)
      ensures old(Shown()) ==> Shown()
    {
      Move(k);
      if old(Shown()) { MovedShows(old(screen), prompt, old(Text()), k); }
    }

    method AddCharShown(c: char)
      requires Valid()
      modifies this`num, this`eol, this`screen, buf
      ensures forall i :: eol <= i < buf.Length ==> buf[i] == old(buf[i])
      ensures Valid() && Text() == Typed(old(Text()), c, insert, len)
      ensures old(Shown()) && Printable(c) ==> Shown()
    {
      AddChar(c);
      if old(Shown()) && Printable(c) { TypedShows(old(screen), prompt, old(Text()), c, insert, len); }
    }

    method RecallShown(up: bool)
      requires Valid()
      modifies this`num, this`eol, this`screen, buf, hist
      ensures Valid() && hist.lines == old(hist.lines)
      ensures State() == Recalled(old(State()), if up then H.Prev(old(hist.State())) else H.Next(old(hist.State())))
      ensures old(Shown()) ==> Shown()
    {
      Recall(up);
      ghost var r := if up then H.Prev(old(hist.State())) else H.Next(old(hist.State()));
      if old(Shown()) && r.1.Some? {
        RecallIsPrintable(old(hist.State()));
        RecalledShows(old(screen), prompt, old(Text()), r.1.value);
      }
    }

    /** One decoded key. */
    method Press(k: Key)
      requires Valid()
      modifies this, buf, hist
      ensures Valid() && hist.lines == old(hist.lines)
      ensures State() == Pressed(old(State()), k, len)
      ensures old(Shown()) && (k.Self? ==> Printable(k.c)) ==> Shown()
    {
      match k
      case Toggle => insert := !insert;
      case Escape => esc := [ESC];
      case Up => RecallShown(true);
      case Down => RecallShown(false);
      case Self(c) => AddCharShown(c);
      case _ => MoveShown(k);
    }

    /** `cread_add_str` */
    method AddStr(s: string)
      requires Valid()
      modifies this`num, this`eol, this`screen, buf
      ensures Valid() && Text() == TypedAll(old(Text()), s, insert, len)
      ensures screen == EchoAll(old(screen), old(Text()), s, insert, len)
    {
      var i := 0;
      while i < |s|
        invariant 0 <= i <= |s| && Valid()
        invariant TypedAll(old(Text()), s, insert, len) == TypedAll(Text(), s[i..], insert, len)
        invariant EchoAll(old(screen), old(Text()), s, insert, len) == EchoAll(screen, Text(), s[i..], insert, len)
      {
        AddChar(s[i]);
        assert s[i..][1..] == s[i + 1..];
        i := i + 1;
      }
    }

    /** One input character that ends neither the line nor the session. */
    method Step(c: char)
      requires Valid() && !Ends(esc, c)
      modifies this, buf, hist
      ensures Valid() && hist.lines == old(hist.lines)
      ensures State() == Stepped(old(State()), c, len)
      ensures old(Shown()) && Safe(old(esc), c) ==> Shown()
    {
      var k := Classify(c);
      if |esc| != 0 {
        if |esc| == 1 {
          if c == '[' {
            esc := esc + [c];
          } else {
            AddStr(esc);
            esc := "";
          }
          return;
        }
        k := Arrow(c);
        if k.Self? {
          AddStr(esc + [c]);
          esc := "";
          return;
        }
        esc := "";
      }
      Press(k);
    }

    /** The start of `cread_line`: a text already in the buffer is typed in again, from the buffer
        into itself. */
    method Prefill(n: nat)
      requires Valid() && insert && num == 0 && eol == 0 && n <= len
      modifies this`num, this`eol, this`screen, buf
      ensures Valid() && Text() == Zipper(old(buf[..n]), "")
      ensures old(Shown()) && AllPrintable(old(buf[..n])) ==> Shown()
    {
      var i := 0;
      while i < n
        invariant 0 <= i <= n && Valid() && num == eol == i
        invariant buf[..n] == old(buf[..n])
        invariant old(Shown()) && AllPrintable(old(buf[..n])) ==> Shown()
      {
        var c := buf[i];
        assert c == old(buf[..n])[i] && buf[..n] == old(buf[..n]);
        InsertAtEnd(c, n);
        i := i + 1;
      }
      assert buf[..num] == old(buf[..n]) && buf[num..eol] == "";
    }

    /** Typing at the end of the line the character that is already there. */
    method InsertAtEnd(c: char, n: nat)
      requires Valid() && insert && num == eol < n <= len && buf[num] == c
      modifies this`num, this`eol, this`screen, buf
      ensures Valid() && num == eol == old(num) + 1 && buf[..n] == old(buf[..n])
      ensures old(Shown()) && Printable(c) ==> Shown()
    {
      AddCharShown(c);
      assert buf[..eol] == old(buf[..eol]) + [c];
    }

    /** What a session leaves behind: the editor as it is, an empty buffer, or the terminated line in the
        buffer and in the history, whose lines all still fit. */
    ghost predicate Left(r: Session)
      reads this, buf, hist
    {
      match r
      case Waiting(e) => Valid() && e == State()
      case Cancelled(e) => buf.Length == len + 1 && buf[0] == NUL && hist.State() == e.ring
      case Entered(line, ring, _) =>
        && |line| <= len == buf.Length - 1 && buf[..|line|] == line && buf[|line|] == NUL
        && hist.State() == ring && forall i :: 0 <= i < |hist.lines| ==> |hist.lines[i]| <= len
    }

    /** `cread_line` on the characters the console delivers. */
    method ReadLine(input: string) returns (r: Session)
      requires Valid()
      modifies this, buf, hist
      ensures H.Sane(hist.State()) && r == Keys(old(State()), input, len)
      ensures Left(r)
      ensures r.Waiting? && old(Shown()) && AllSafe(old(State()), input, len) ==> Shown()
      ensures r.Entered? && old(Shown()) && AllSafe(old(State()), input, len) ==> Recallable(hist.lines)
    {
      var rest := input;
      ghost var session, safe := Keys(State(), input, len), Shown() && AllSafe(State(), input, len);
      while rest != ""
        invariant Valid() && session == Keys(State(), rest, len)
        invariant safe ==> Shown() && AllSafe(State(), rest, len)
        decreases |rest|
      {
        var done;
        done, r := Turn(rest);
        if done { return; }
        rest := rest[1..];
      }
      r := Waiting(Edit(Zipper(buf[..num], buf[num..eol]), insert, esc, hist.State()));
    }

    /** One turn of the loop: the line ends, or the editor takes a step. */
    method Turn(input: string) returns (done: bool, r: Session)
      requires Valid() && input != ""
      modifies this, buf, hist
      ensures done ==> H.Sane(hist.State()) && r == Keys(old(State()), input, len) && Left(r) && !r.Waiting?
      ensures !done ==> Valid() && Keys(old(State()), input, len) == Keys(State(), input[1..], len)
      ensures old(Shown()) && AllSafe(old(State()), input, len) ==>
                if done then r.Entered? ==> Recallable(hist.lines) else Shown() && AllSafe(State(), input[1..], len)
    {
      var c := input[0];
      done := true;
      if Classify(c) == Enter {
        r := EnterLine(input[1..]);
      } else if |esc| == 0 && Classify(c) == Break {
        r := Cancelled(Edit(Zipper(buf[..num], buf[num..eol]), insert, esc, hist.State()));
        GiveUp();
      } else {
        done := false;
        KeysStep(State(), input, len);
        Step(c);
        r := Waiting(Edit(Zipper(buf[..num], buf[num..eol]), insert, esc, hist.State()));
      }
    }

    /** Ctrl-C empties the line. */
    method GiveUp()
      requires Valid()
      modifies buf
      ensures buf[0] == NUL
    {
      buf[0] := NUL;
    }

    /** The line is complete. */
    method EnterLine(rest: string) returns (r: Session)
      requires Valid()
      modifies this`screen, buf, hist
      ensures var line := old(Text()).left + old(Text()).right;
              r == Entered(line, Filed(old(hist.State()), line), rest)
      ensures H.Sane(hist.State()) && hist.State() == r.ring
      ensures |r.line| <= len && buf[..|r.line|] == r.line && buf[|r.line|] == NUL
      ensures forall i :: 0 <= i < |hist.lines| ==> |hist.lines[i]| <= len
      ensures old(Shown()) ==> Recallable(hist.lines)
    {
      assert buf[..num] + buf[num..eol] == buf[..eol];
      r := Entered(buf[..eol], Filed(hist.State(), buf[..eol]), rest);
      FileLine();
    }

    /** The end of `cread_line`: terminate the line, file it, restart navigation. */
    method FileLine()
      requires Valid()
      modifies this`screen, buf, hist
      ensures hist.State() == Filed(old(hist.State()), old(buf[..eol])) && H.Sane(hist.State())
      ensures forall i :: 0 <= i < |hist.lines| ==> |hist.lines[i]| <= len
      ensures buf[..eol] == old(buf[..eol]) && buf[eol] == NUL
    {
      buf[eol] := NUL;
      assert eol > 0 ==> buf[0] == old(buf[..eol])[0];
      if buf[0] != NUL && buf[0] != '!' {
        CStringFits(buf[..eol]);
        hist.AddLine(CString(buf[..eol]));
      }
      hist.cur := hist.addIdx;
    }
  }

  lemma CStringFits(s: string)
    ensures |CString(s)| <= |s|
  {
  }

  lemma RecallIsPrintable(r: H.Ring)
    requires H.Sane(r) && forall i :: 0 <= i < |r.lines| ==> AllPrintable(r.lines[i])
    ensures H.Prev(r).1.Some? ==> AllPrintable(H.Prev(r).1.value)
    ensures H.Next(r).1.Some? ==> AllPrintable(H.Next(r).1.value)
  {
  }
}
