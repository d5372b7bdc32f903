/** Macro expansion of the simple command line: `$(name)` and `${name}`, one level of escapes, and
    single quotes, written into a console buffer of fixed size. */
module MacroExpand {
  import opened Options

  const BACKSLASH: char := '\\'
  const QUOTE: char := '\''
  const NUL: char := 0 as char

  /** 0 waiting for `$`, 1 waiting for a bracket, 2 inside a name, 3 inside single quotes. */
  datatype Mode = Text | Dollar | Name | Quoted

  function Value(env: string -> Option<string>, name: string): string {
    if env(name).Some? then env(name).value else ""
  }

  /** The first character is an escape that is removed. */
  predicate Escapes(s: string, m: Mode, prev: char) {
    s != "" && m != Quoted && s[0] == BACKSLASH && prev != BACKSLASH
  }

  /** The expansion of `s`, with no bound, given what was read before: the mode, the previous
      character and the name collected so far. */
  function Expand(env: string -> Option<string>, s: string, m: Mode, prev: char, name: string): string
    decreases |s|
  {
    if s == "" || (Escapes(s, m, prev) && |s| == 1) then ""
    else
      var n := if Escapes(s, m, prev) then 2 else 1;
      var c, p, rest := s[n - 1], if n == 2 then BACKSLASH else prev, s[n..];
      match m
      case Text =>
        if c == QUOTE && p != BACKSLASH then Expand(env, rest, Quoted, c, "")
        else if c == '$' && p != BACKSLASH then Expand(env, rest, Dollar, c, "")
        else [c] + Expand(env, rest, Text, c, "")
      case Dollar =>
        if c == '(' || c == '{' then Expand(env, rest, Name, c, "")
        else "$" + [c] + Expand(env, rest, Text, c, "")
      case Name =>
        if c == ')' || c == '}' then Value(env, name + s[..n - 1]) + Expand(env, rest, Text, c, "")
        else Expand(env, rest, Name, c, name + s[..n])
      case Quoted =>
        if c == QUOTE && p != BACKSLASH then Expand(env, rest, Text, c, "")
        else [c] + Expand(env, rest, Quoted, c, "")
  }

  function Expansion(env: string -> Option<string>, input: string): string {
    Expand(env, input, Text, NUL, "")
  }

  function Cut(s: string, n: nat): string {
    if |s| <= n then s else s[..n]
  }

  // ----- what the expansion means -----

  predicate Plain(c: char) {
    c != BACKSLASH && c != QUOTE && c != '$'
  }

  predicate AllPlain(s: string) {
    forall i :: 0 <= i < |s| ==> Plain(s[i])
  }

  function LastOf(s: string, prev: char): char {
    if s == "" then prev else s[|s| - 1]
  }

  /** Ordinary text stands for itself. */
  lemma {:induction false} PlainText(env: string -> Option<string>, t: string, post: string, prev: char)
    requires AllPlain(t)
    ensures Expand(env, t + post, Text, prev, "") == t + Expand(env, post, Text, LastOf(t, prev), "")
    decreases |t|
  {
    if t == "" {
      assert t + post == post;
    } else {
      assert (t + post)[1..] == t[1..] + post;
      PlainText(env, t[1..], post, t[0]);
      assert t == [t[0]] + t[1..];
    }
  }

  predicate NameChar(c: char) {
    c != ')' && c != '}' && c != BACKSLASH
  }

  lemma {:induction false} NameText(env: string -> Option<string>, t: string, post: string, prev: char, name: string)
    requires forall i :: 0 <= i < |t| ==> NameChar(t[i])
    ensures Expand(env, t + post, Name, prev, name) == Expand(env, post, Name, LastOf(t, prev), name + t)
    decreases |t|
  {
    if t == "" {
      assert t + post == post && name + t == name;
    } else {
      assert (t + post)[1..] == t[1..] + post && (t + post)[..1] == [t[0]];
      NameText(env, t[1..], post, t[0], name + [t[0]]);
      assert name + [t[0]] + t[1..] == name + t;
    }
  }

  /** A dollar sign and a bracket start a name. */
  lemma NameStarts(env: string -> Option<string>, rest: string, prev: char, open: char)
    requires prev != BACKSLASH && (open == '(' || open == '{')
    ensures Expand(env, ['$', open] + rest, Text, prev, "") == Expand(env, rest, Name, open, "")
  {
    var s := ['$', open] + rest;
    assert s[1..] == [open] + rest && ([open] + rest)[1..] == rest;
    assert Expand(env, [open] + rest, Dollar, '$', "") == Expand(env, rest, Name, open, "");
  }

  /** A name up to its bracket, followed by any text. */
  lemma NameEnds(env: string -> Option<string>, name: string, post: string, open: char, close: char)
    requires (forall i :: 0 <= i < |name| ==> NameChar(name[i])) && (close == ')' || close == '}')
    ensures Expand(env, name + ([close] + post), Name, open, "")
        == Value(env, name) + Expand(env, post, Text, close, "")
  {
    var s := [close] + post;
    NameText(env, name, s, open, "");
    assert "" + name == name && name + s[..0] == name && s[1..] == post && s[0] == close;
  }

  /** A bracketed name between texts is replaced by its value, or by nothing if it has none.  Either bracket
      opens and either closes. */
  lemma Substitutes(env: string -> Option<string>, pre: string, name: string, post: string, open: char, close: char)
    requires AllPlain(pre) && forall i :: 0 <= i < |name| ==> NameChar(name[i])
    requires (open == '(' || open == '{') && (close == ')' || close == '}')
    ensures Expansion(env, pre + "$" + [open] + name + [close] + post) ==
            match env(name)
            case Some(value) => pre + value + Expand(env, post, Text, close, "")
            case Null => pre + Expand(env, post, Text, close, "")
  {
    var rest := name + ([close] + post);
    var s := ['$', open] + rest;
    assert pre + "$" + [open] + name + [close] + post == pre + s;
    PlainText(env, pre, s, NUL);
    NameStarts(env, rest, LastOf(pre, NUL), open);
    NameEnds(env, name, post, open, close);
    var tail := Expand(env, post, Text, close, "");
    assert pre + (Value(env, name) + tail) == pre + Value(env, name) + tail;
    assert pre + "" == pre;
  }

  /** A dollar sign that no bracket follows stands for itself, and so does the character after it. */
  lemma LoneDollar(env: string -> Option<string>, pre: string, c: char, post: string)
    requires AllPlain(pre) && c != '(' && c != '{' && c != BACKSLASH
    ensures Expansion(env, pre + "$" + [c] + post) == pre + "$" + [c] + Expand(env, post, Text, c, "")
  {
    var s := ['$', c] + post;
    assert pre + "$" + [c] + post == pre + s;
    PlainText(env, pre, s, NUL);
    assert s[1..] == [c] + post && ([c] + post)[1..] == post;
    assert Expand(env, [c] + post, Dollar, '$', "") == "$" + [c] + Expand(env, post, Text, c, "");
    assert pre + ("$" + [c] + Expand(env, post, Text, c, "")) == pre + "$" + [c] + Expand(env, post, Text, c, "");
  }

  /** An escape gives the next character literally, whatever it is. */
  lemma EscapeIsLiteral(env: string -> Option<string>, c: char, post: string, prev: char)
    requires prev != BACKSLASH
    ensures Expand(env, [BACKSLASH, c] + post, Text, prev, "") == [c] + Expand(env, post, Text, c, "")
  {
    var s := [BACKSLASH, c] + post;
    assert s[2..] == post && s[1] == c && s[0] == BACKSLASH;
  }

  lemma {:induction false} QuotedText(env: string -> Option<string>, t: string, post: string, prev: char)
    requires forall i :: 0 <= i < |t| ==> t[i] != QUOTE
    ensures Expand(env, t + post, Quoted, prev, "") == t + Expand(env, post, Quoted, LastOf(t, prev), "")
    decreases |t|
  {
    if t == "" {
      assert t + post == post;
    } else {
      assert (t + post)[1..] == t[1..] + post;
      QuotedText(env, t[1..], post, t[0]);
      assert t == [t[0]] + t[1..];
    }
  }

  /** Text between single quotes is copied, macros and all, unless it ends in a backslash, which
      would protect the closing quote. */
  lemma QuotesProtect(env: string -> Option<string>, t: string, post: string, prev: char)
    requires (forall i :: 0 <= i < |t| ==> t[i] != QUOTE) && LastOf(t, QUOTE) != BACKSLASH && prev != BACKSLASH
    ensures Expand(env, [QUOTE] + t + [QUOTE] + post, Text, prev, "") == t + Expand(env, post, Text, QUOTE, "")
  {
    var s := [QUOTE] + t + [QUOTE] + post;
    assert s[1..] == t + ([QUOTE] + post) && ([QUOTE] + post)[1..] == post;
    QuotedText(env, t, [QUOTE] + post, QUOTE);
  }

  // ----- the loop -----

  /** Copy as much of `s` as fits from `at` on. */
  method Emit(output: array<char>, at: nat, s: string) returns (w: nat)
    requires at <= output.Length
    modifies output
    ensures w == (if at + |s| <= output.Length then at + |s| else output.Length)
    ensures output[..w] == old(output[..at]) + s[..w - at]
  {
    w := at;
    var k := 0;
    while k < |s| && w < output.Length
      invariant 0 <= k <= |s| && w == at + k <= output.Length
      invariant output[..w] == old(output[..at]) + s[..k]
    {
      output[w] := s[k];
      assert output[..w + 1] == output[..w] + [s[k]];
      w, k := w + 1, k + 1;
    }
  }

  /** What the buffer holds while the loop runs: all that was emitted, or, once it is full, the
      beginning of the whole expansion. */
  ghost predicate Filled(buf: seq<char>, w: nat, emitted: string, rest: string, full: string) {
    if w < |buf| then w == |emitted| && buf[..w] == emitted && emitted + rest == full
    else w == |buf| <= |full| && buf == full[..|buf|]
  }

  lemma FilledStep(buf: seq<char>, w: nat, emitted: string, e: string, rest: string, full: string, buf': seq<char>,
                   w': nat)
    requires Filled(buf, w, emitted, e + rest, full) && w < |buf| == |buf'|
    requires w' == (if w + |e| <= |buf| then w + |e| else |buf|) && buf'[..w'] == buf[..w] + e[..w' - w]
    ensures Filled(buf', w', emitted + e, rest, full)
  {
    assert emitted + (e + rest) == emitted + e + rest == full;
    if w' < |buf| {
      assert e[..w' - w] == e;
    } else {
      assert buf'[..w'] == buf';
      assert full[..w'] == (emitted + e)[..w'] == emitted + e[..w' - w];
    }
  }

  /** One round of the loop: what is emitted, and where the state goes.  `i` is past the character
      `c`, `start` is where the current name began. */
  datatype Round = Round(emit: string, mode: Mode, start: nat)

  function Play(env: string -> Option<string>, input: string, i: nat, m: Mode, prev: char, c: char, start: nat): Round
    requires 1 <= i <= |input| && (m == Name ==> start < i)
  {
    match m
    case Text =>
      if c == QUOTE && prev != BACKSLASH then Round("", Quoted, start)
      else if c == '$' && prev != BACKSLASH then Round("", Dollar, start)
      else Round([c], Text, start)
    case Dollar =>
      if c == '(' || c == '{' then Round("", Name, i) else Round("$" + [c], Text, start)
    case Name =>
      if c == ')' || c == '}' then Round(Value(env, input[start..i - 1]), Text, start) else Round("", Name, start)
    case Quoted =>
      if c == QUOTE && prev != BACKSLASH then Round("", Text, start) else Round([c], Quoted, start)
  }

  function SoFar(input: string, i: nat, m: Mode, start: nat): string
    requires i <= |input| && (m == Name ==> start <= i)
  {
    if m == Name then input[start..i] else ""
  }

  lemma Joined(input: string, start: nat, i: nat, n: nat)
    requires start <= i && i + n <= |input|
    ensures input[start..i] + input[i..][..n] == input[start..i + n]
  {
    var x, y := input[start..i] + input[i..][..n], input[start..i + n];
    assert forall k :: 0 <= k < |y| ==> x[k] == y[k];
  }

  /** A round emits the head of the expansion and leaves the expansion of the rest. */
  lemma PlayExpands(env: string -> Option<string>, input: string, i: nat, m: Mode, prev: char, start: nat, n: nat)
    requires i < |input| && (m == Name ==> start <= i)
    requires n == (if Escapes(input[i..], m, prev) then 2 else 1) && i + n <= |input|
    ensures var c, p := input[i + n - 1], if n == 2 then BACKSLASH else prev;
            var r := Play(env, input, i + n, m, p, c, start);
            && (r.mode == Name ==> r.start <= i + n)
            && Expand(env, input[i..], m, prev, SoFar(input, i, m, start)) ==
               r.emit + Expand(env, input[i + n..], r.mode, c, SoFar(input, i + n, r.mode, r.start))
  {
    if m == Name {
      PlayExpandsName(env, input, i, prev, start, n);
    } else {
      var s := input[i..];
      assert s[n..] == input[i + n..] && s[n - 1] == input[i + n - 1];
      if m == Dollar { assert input[i + n..i + n] == ""; }
    }
  }

  lemma PlayExpandsName(env: string -> Option<string>, input: string, i: nat, prev: char, start: nat, n: nat)
    requires start <= i < |input|
    requires n == (if Escapes(input[i..], Name, prev) then 2 else 1) && i + n <= |input|
    ensures var c, p := input[i + n - 1], if n == 2 then BACKSLASH else prev;
            var r := Play(env, input, i + n, Name, p, c, start);
            && (r.mode == Name ==> r.start <= i + n)
            && Expand(env, input[i..], Name, prev, input[start..i]) ==
               r.emit + Expand(env, input[i + n..], r.mode, c, SoFar(input, i + n, r.mode, r.start))
  {
    var s := input[i..];
    assert s[n..] == input[i + n..] && s[n - 1] == input[i + n - 1];
    Joined(input, start, i, n);
    Joined(input, start, i, n - 1);
  }

  /** `cli_simple_process_macros`: for an input shorter than the buffer, the buffer ends up holding a
      NUL-terminated string, the expansion cut to one character less than the buffer. */
  method ProcessMacros(env: string -> Option<string>, input: string, output: array<char>)
    requires |input| < output.Length
    modifies output
    ensures var r := Cut(Expansion(env, input), output.Length - 1);
            |r| < output.Length && output[..|r|] == r && output[|r|] == NUL
  {
    ghost var full, emitted := Expansion(env, input), "";
    var i: nat, w: nat, mode, prev, start: nat := 0, 0, Text, NUL, 0;
    assert input[0..] == input;
    while i < |input| && w < output.Length
      invariant 0 <= i <= |input| && w <= output.Length && (mode == Name ==> start <= i)
      invariant Filled(output[..], w, emitted, Expand(env, input[i..], mode, prev, SoFar(input, i, mode, start)), full)
      decreases |input| - i
    {
      ghost var i0, prev0 := i, prev;
      var c := input[i];
      i := i + 1;
      if mode != Quoted && c == BACKSLASH && prev != BACKSLASH {
        if i == |input| {
          assert Expand(env, input[i0..], mode, prev0, SoFar(input, i0, mode, start)) == "";
          i, mode := |input|, Text;
          break;
        }
        prev := c;
        c := input[i];
        i := i + 1;
      }
      PlayExpands(env, input, i0, mode, prev0, start, i - i0);
      var r := Play(env, input, i, mode, prev, c, start);
      ghost var buf := output[..];
      var w' := Emit(output, w, r.emit);
      FilledStep(buf, w, emitted, r.emit, Expand(env, input[i..], r.mode, c, SoFar(input, i, r.mode, r.start)),
          full, output[..], w');
      emitted := emitted + r.emit;
      w, mode, start, prev := w', r.mode, r.start, c;
    }
    assert i == |input| ==> input[i..] == "";
    ghost var rest := if i == |input| then "" else Expand(env, input[i..], mode, prev, SoFar(input, i, mode, start));
    Terminate(output, w, emitted, full, rest);
  }

  /** The terminating NUL, in place of the last character when the buffer is full. */
  method Terminate(output: array<char>, w: nat, ghost emitted: string, ghost full: string, ghost rest: string)
    requires output.Length > 0 && Filled(output[..], w, emitted, rest, full) && (w < output.Length ==> rest == "")
    modifies output
    ensures var r := Cut(full, output.Length - 1);
            |r| < output.Length && output[..|r|] == r && output[|r|] == NUL
  {
    if w < output.Length {
      output[w] := NUL;
      assert output[..w] == emitted == full;
    } else {
      output[w - 1] := NUL;
      assert output[..w - 1] == full[..w - 1];
    }
  }
}
