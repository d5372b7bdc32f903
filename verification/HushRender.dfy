/** Writing a structured program as tokens and parsing it gives back exactly its pipe lists; with
    the interpreter this closes the circle from text to meaning. */
module HushRender {
  import opened HushSyntax
  import opened HushParse
  import HushRun
  import HushMeaning

  // ----- writing programs -----

  function Spelling(m: RMode): string {
    match m
    case If => "if" case Then => "then" case Elif => "elif" case Else => "else" case Fi => "fi"
    case For => "for" case While => "while" case Until => "until" case In => "in" case Do => "do"
    case Done => "done"
    case _ => ""
  }

  lemma SpellingIsRead(m: RMode)
    requires CodeIsReserved(m)
    ensures CodeOf(Spelling(m)) == m && Spelling(m) != ""
  {
  }

  function Key(m: RMode, rest: Tokens): Tokens {
    Next(Word(Spelling(m)), rest)
  }

  function WriteWords(ws: seq<string>, rest: Tokens): Tokens {
    if ws == [] then rest else Next(Word(ws[0]), WriteWords(ws[1..], rest))
  }

  function WriteStmt(s: Stmt, rest: Tokens): Tokens
    decreases s, 1
  {
    match s
    case Nop => rest
    case Simple(ws) => WriteWords(ws, rest)
    case Cond(arms) => WriteArms(arms, true, rest)
    case Loop(until, cond, body) => Key(LoopMode(until), WriteList(cond, WriteDo(body, rest)))
    case Each(v, items, body) =>
      Key(For, Next(Word(v), Key(In, WriteWords(items, Next(Sep("", Seq), WriteDo(body, rest))))))
  }

  function WriteDo(body: List, rest: Tokens): Tokens
    decreases body, 1
  {
    Key(Do, WriteList(body, Key(Done, rest)))
  }

  function WriteArms(a: Arms, first: bool, rest: Tokens): Tokens
    decreases a, 1
  {
    match a
    case EndArms => Key(Fi, rest)
    case ElseArm(els) => Key(Else, WriteList(els, Key(Fi, rest)))
    case Arm(cond, thn, others) =>
      Key(if first then If else Elif, WriteList(cond, Key(Then, WriteList(thn, WriteArms(others, false, rest)))))
  }

  function WriteChain(c: Chain, rest: Tokens): Tokens
    decreases c, 0
  {
    match c
    case One(s) => WriteStmt(s, Next(Sep("", Seq), rest))
    case Link(s, isAnd, more) => WriteStmt(s, Next(Sep("", Conn(isAnd)), WriteChain(more, rest)))
  }

  function WriteList(l: List, rest: Tokens): Tokens
    decreases l, 0
  {
    if l.Nil? then rest else WriteChain(l.c, WriteList(l.rest, rest))
  }

  /** No word that stands where a reserved word could is spelled like one, and none is empty. */
  predicate PlainWords(ws: seq<string>) {
    (ws != [] ==> CodeOf(ws[0]) == None) && forall i :: 0 <= i < |ws| ==> ws[i] != ""
  }

  predicate PlainStmt(s: Stmt) {
    match s
    case Nop => true
    case Simple(ws) => ws != [] && PlainWords(ws)
    case Cond(arms) => arms.Arm? && PlainArms(arms)
    case Loop(_, cond, body) => PlainList(cond) && PlainList(body)
    case Each(v, items, body) => v != "" && CodeOf(v) == None && PlainWords(items) && PlainList(body)
  }

  predicate PlainArms(a: Arms) {
    match a
    case EndArms => true
    case ElseArm(els) => PlainList(els)
    case Arm(cond, thn, rest) => PlainList(cond) && PlainList(thn) && PlainArms(rest)
  }

  predicate PlainChain(c: Chain) {
    PlainStmt(c.s) && (c.Link? ==> PlainChain(c.rest))
  }

  predicate PlainList(l: List) {
    l.Cons? ==> PlainChain(l.c) && PlainList(l.rest)
  }

  // ----- the pipes of a section, as the parser appends them -----

  function SpineChain(c: Chain, m: RMode): seq<Pipe> {
    match c
    case One(s) => [Pipe(m, Seq, BodyOf(s))]
    case Link(s, isAnd, rest) => [Pipe(m, Conn(isAnd), BodyOf(s))] + SpineChain(rest, m)
  }

  function Spine(l: List, m: RMode): seq<Pipe> {
    if l.Nil? then [] else SpineChain(l.c, m) + Spine(l.rest, m)
  }

  lemma {:induction false} ToPipesAppend(a: seq<Pipe>, b: seq<Pipe>, tail: Pipes)
    ensures ToPipes(a + b, tail) == ToPipes(a, ToPipes(b, tail))
  {
    if a == [] {
      assert a + b == b;
    } else {
      assert (a + b)[1..] == a[1..] + b;
      ToPipesAppend(a[1..], b, tail);
    }
  }

  lemma {:induction false} SpineChainIsFlat(c: Chain, m: RMode, tail: Pipes)
    ensures ToPipes(SpineChain(c, m), tail) == FlatChain(c, m, tail)
  {
    if c.Link? {
      SpineChainIsFlat(c.rest, m, tail);
      assert SpineChain(c, m)[1..] == SpineChain(c.rest, m);
    } else {
      assert ToPipes([], tail) == tail;
      assert SpineChain(c, m)[1..] == [];
    }
  }

  lemma {:induction false} SpineIsFlat(l: List, m: RMode, tail: Pipes)
    ensures ToPipes(Spine(l, m), tail) == FlatList(l, m, tail)
  {
    if l.Cons? {
      ToPipesAppend(SpineChain(l.c, m), Spine(l.rest, m), tail);
      SpineIsFlat(l.rest, m, tail);
      SpineChainIsFlat(l.c, m, FlatList(l.rest, m, tail));
    }
  }

  // ----- parsing what was written -----

  /** Ready for the first word of a statement. */
  ghost predicate Ready(c: Ctx) {
    Balanced(c) && c.child.Empty? && c.w !in {In, For, Sntx}
  }

  /** Inside an open compound, where `m` has just been read. */
  function Inside(c: Ctx, m: RMode, pipes: seq<Pipe>): Ctx {
    Ctx(m, FlagsOf(m), pipes, Empty, Saved(c))
  }

  lemma Opens(cont: bool, c: Ctx, m: RMode, rest: Tokens)
    requires Ready(c) && IsStart(m)
    ensures Balanced(Inside(c, m, []))
    ensures FeedAll(cont, c, Key(m, rest)) == FeedAll(cont, Inside(c, m, []), rest)
  {
    SpellingIsRead(m);
    assert ReservedWord(c, m) == Inside(c, m, []);
  }

  lemma Turns(cont: bool, c: Ctx, m: RMode, pipes: seq<Pipe>, m': RMode, rest: Tokens)
    requires Balanced(c) && CodeIsReserved(m) && !IsEnd(m)
    requires CodeIsReserved(m') && !IsEnd(m') && m' in FlagsOf(m)
    ensures Balanced(Inside(c, m, pipes)) && Balanced(Inside(c, m', pipes))
    ensures FeedAll(cont, Inside(c, m, pipes), Key(m', rest)) == FeedAll(cont, Inside(c, m', pipes), rest)
  {
    SpellingIsRead(m');
    assert ReservedWord(Inside(c, m, pipes), m') == Inside(c, m', pipes);
  }

  lemma Closes(cont: bool, c: Ctx, m: RMode, pipes: seq<Pipe>, m': RMode, rest: Tokens)
    requires Ready(c) && CodeIsReserved(m) && !IsEnd(m)
    requires IsEnd(m') && m' in FlagsOf(m)
    ensures Balanced(Inside(c, m, pipes)) && Balanced(c.(child := Group(ToPipes(pipes, Close(m')))))
    ensures FeedAll(cont, Inside(c, m, pipes), Key(m', rest))
        == FeedAll(cont, c.(child := Group(ToPipes(pipes, Close(m')))), rest)
  {
    SpellingIsRead(m');
    var last := Pipe(m', Seq, Empty);
    ToPipesAppend(pipes, [last], TRAILER);
    assert ToPipes([last], TRAILER) == Close(m') by {
      assert [last][1..] == [];
      assert ToPipes([], TRAILER) == TRAILER;
    }
    assert ReservedWord(Inside(c, m, pipes), m') == c.(child := Group(ToPipes(pipes, Close(m'))));
  }

  lemma {:induction false} WordsParse(cont: bool, c: Ctx, got: seq<string>, ws: seq<string>, rest: Tokens)
    requires Balanced(c) && c.w != For && c.child == (if got == [] then Empty else Words(got))
    requires got == [] ==> PlainWords(ws)
    requires forall i :: 0 <= i < |ws| ==> ws[i] != ""
    ensures var b := if got + ws == [] then Empty else Words(got + ws);
            Balanced(c.(child := b)) && FeedAll(cont, c, WriteWords(ws, rest)) == FeedAll(cont, c.(child := b), rest)
    decreases |ws|
  {
    if ws == [] {
      assert got + ws == got;
      assert c == c.(child := if got == [] then Empty else Words(got));
    } else {
      var c1 := c.(child := Words(got + [ws[0]]));
      assert DoneWord(c, ws[0]) == (false, c1);
      WordsParse(cont, c1, got + [ws[0]], ws[1..], rest);
      assert got + [ws[0]] + ws[1..] == got + ws;
      assert c1.(child := Words(got + ws)) == c.(child := Words(got + ws));
    }
  }

  /** The tokens of a statement fill the child with its body. */
  lemma {:induction false} StmtParses(cont: bool, c: Ctx, s: Stmt, rest: Tokens)
    requires Ready(c) && PlainStmt(s)
    ensures Balanced(c.(child := BodyOf(s)))
    ensures FeedAll(cont, c, WriteStmt(s, rest)) == FeedAll(cont, c.(child := BodyOf(s)), rest)
    decreases s, 2
  {
    match s
    case Nop => assert c == c.(child := Empty);
    case Simple(ws) => WordsParse(cont, c, [], ws, rest); assert [] + ws == ws;
    case Cond(arms) => CondParses(cont, c, arms, rest);
    case Loop(until, cond, body) => LoopParses(cont, c, s, rest);
    case Each(v, items, body) => EachParses(cont, c, s, rest);
  }

  lemma {:induction false} LoopParses(cont: bool, c: Ctx, s: Stmt, rest: Tokens)
    requires Ready(c) && s.Loop? && PlainStmt(s)
    ensures Balanced(c.(child := BodyOf(s)))
    ensures FeedAll(cont, c, WriteStmt(s, rest)) == FeedAll(cont, c.(child := BodyOf(s)), rest)
    decreases s, 1
  {
    var m, after := LoopMode(s.until), WriteDo(s.body, rest);
    Opens(cont, c, m, WriteList(s.cond, after));
    ListParses(cont, Inside(c, m, []), s.cond, after);
    assert [] + Spine(s.cond, m) == Spine(s.cond, m);
    DoParses(cont, c, m, Spine(s.cond, m), s.body, rest);
    SpineIsFlat(s.cond, m, FlatList(s.body, Do, Close(Done)));
  }

  lemma CondParses(cont: bool, c: Ctx, arms: Arms, rest: Tokens)
    requires Ready(c) && arms.Arm? && PlainArms(arms)
    ensures var b := c.(child := Group(FlatArms(arms, true)));
            Balanced(b) && FeedAll(cont, c, WriteArms(arms, true, rest)) == FeedAll(cont, b, rest)
    decreases arms, 2
  {
    var others := WriteArms(arms.rest, false, rest);
    Opens(cont, c, If, WriteList(arms.cond, Key(Then, WriteList(arms.thn, others))));
    ArmParses(cont, c, If, [], arms, rest);
    assert ToPipes([], FlatArms(arms, true)) == FlatArms(arms, true);
  }

  /** From just after `if` or `elif` to after `fi`. */
  lemma {:induction false} ArmParses(cont: bool, c: Ctx, m: RMode, pipes: seq<Pipe>, a: Arms, rest: Tokens)
    requires Ready(c) && a.Arm? && PlainArms(a) && (m == If || m == Elif)
    ensures var b := c.(child := Group(ToPipes(pipes, FlatArms(a, m == If))));
            && Balanced(b) && Balanced(Inside(c, m, pipes))
            && FeedAll(cont, Inside(c, m, pipes),
                WriteList(a.cond, Key(Then, WriteList(a.thn, WriteArms(a.rest, false, rest)))))
               == FeedAll(cont, b, rest)
    decreases a, 1
  {
    var others := WriteArms(a.rest, false, rest);
    var p1 := pipes + Spine(a.cond, m);
    var p2 := p1 + Spine(a.thn, Then);
    ListParses(cont, Inside(c, m, pipes), a.cond, Key(Then, WriteList(a.thn, others)));
    Turns(cont, c, m, p1, Then, WriteList(a.thn, others));
    ListParses(cont, Inside(c, Then, p1), a.thn, others);
    RestParses(cont, c, p2, a.rest, rest);
    var tail := FlatArms(a.rest, false);
    calc {
      ToPipes(p2, tail);
      { ToPipesAppend(p1, Spine(a.thn, Then), tail); SpineIsFlat(a.thn, Then, tail); }
      ToPipes(p1, FlatList(a.thn, Then, tail));
      { ToPipesAppend(pipes, Spine(a.cond, m), FlatList(a.thn, Then, tail));
        SpineIsFlat(a.cond, m, FlatList(a.thn, Then, tail)); }
      ToPipes(pipes, FlatArms(a, m == If));
    }
  }

  /** From the end of a then part to after `fi`. */
  lemma {:induction false} RestParses(cont: bool, c: Ctx, pipes: seq<Pipe>, a: Arms, rest: Tokens)
    requires Ready(c) && PlainArms(a)
    ensures var b := c.(child := Group(ToPipes(pipes, FlatArms(a, false))));
            && Balanced(b) && Balanced(Inside(c, Then, pipes))
            && FeedAll(cont, Inside(c, Then, pipes), WriteArms(a, false, rest)) == FeedAll(cont, b, rest)
    decreases a, 2
  {
    match a
    case EndArms => Closes(cont, c, Then, pipes, Fi, rest);
    case ElseArm(els) =>
      Turns(cont, c, Then, pipes, Else, WriteList(els, Key(Fi, rest)));
      SectionCloses(cont, c, Else, pipes, els, Fi, rest);
    case Arm(cond, thn, others) =>
      Turns(cont, c, Then, pipes, Elif, WriteList(cond, Key(Then, WriteList(thn, WriteArms(others, false, rest)))));
      ArmParses(cont, c, Elif, pipes, a, rest);
  }

  /** From the end of a loop's header to after `done`. */
  lemma {:induction false} DoParses(cont: bool, c: Ctx, m: RMode, pipes: seq<Pipe>, body: List, rest: Tokens)
    requires Ready(c) && PlainList(body) && CodeIsReserved(m) && !IsEnd(m) && Do in FlagsOf(m)
    ensures var b := c.(child := Group(ToPipes(pipes, FlatList(body, Do, Close(Done)))));
            && Balanced(b) && Balanced(Inside(c, m, pipes))
            && FeedAll(cont, Inside(c, m, pipes), WriteDo(body, rest)) == FeedAll(cont, b, rest)
    decreases body, 5
  {
    Turns(cont, c, m, pipes, Do, WriteList(body, Key(Done, rest)));
    SectionCloses(cont, c, Do, pipes, body, Done, rest);
  }

  /** The last section of a compound, up to the word that closes it. */
  lemma {:induction false} SectionCloses(cont: bool, c: Ctx, m: RMode, pipes: seq<Pipe>, l: List, m': RMode,
                                         rest: Tokens)
    requires Ready(c) && PlainList(l) && ((m == Do && m' == Done) || (m == Else && m' == Fi))
    ensures var b := c.(child := Group(ToPipes(pipes, FlatList(l, m, Close(m')))));
            && Balanced(b) && Balanced(Inside(c, m, pipes))
            && FeedAll(cont, Inside(c, m, pipes), WriteList(l, Key(m', rest))) == FeedAll(cont, b, rest)
    decreases l, 4
  {
    ListParses(cont, Inside(c, m, pipes), l, Key(m', rest));
    Closes(cont, c, m, pipes + Spine(l, m), m', rest);
    ToPipesAppend(pipes, Spine(l, m), Close(m'));
    SpineIsFlat(l, m, Close(m'));
  }

  lemma TwoPipes(p: Pipe, q: Pipe, tail: Pipes)
    ensures ToPipes([p] + [q], tail) == Cell(p, Cell(q, tail))
  {
    assert ([p] + [q])[1..] == [q] && [q][1..] == [];
    assert ToPipes([], tail) == tail;
    assert ToPipes([q], tail) == Cell(q, tail);
  }

  lemma {:induction false} EachParses(cont: bool, c: Ctx, s: Stmt, rest: Tokens)
    requires Ready(c) && s.Each? && PlainStmt(s)
    ensures Balanced(c.(child := BodyOf(s)))
    ensures FeedAll(cont, c, WriteStmt(s, rest)) == FeedAll(cont, c.(child := BodyOf(s)), rest)
    decreases s, 1
  {
    var after := WriteDo(s.body, rest);
    var head := Pipe(For, Seq, Words([s.v]));
    var items := Pipe(In, Seq, if s.items == [] then Empty else Words(s.items));
    var afterName := Key(In, WriteWords(s.items, Next(Sep("", Seq), after)));
    Opens(cont, c, For, Next(Word(s.v), afterName));
    NameParses(cont, c, s.v, afterName);
    ItemsParse(cont, c, [head], s.items, after);
    DoParses(cont, c, In, [head] + [items], s.body, rest);
    TwoPipes(head, items, FlatList(s.body, Do, Close(Done)));
  }

  /** From `in` to the separator before `do`. */
  lemma ItemsParse(cont: bool, c: Ctx, pipes: seq<Pipe>, items: seq<string>, rest: Tokens)
    requires Ready(c) && PlainWords(items)
    ensures var p := pipes + [Pipe(In, Seq, if items == [] then Empty else Words(items))];
            && Balanced(Inside(c, For, pipes)) && Balanced(Inside(c, In, p))
            && FeedAll(cont, Inside(c, For, pipes), Key(In, WriteWords(items, Next(Sep("", Seq), rest)))) ==
               FeedAll(cont, Inside(c, In, p), rest)
  {
    var tail := Next(Sep("", Seq), rest);
    Turns(cont, c, For, pipes, In, WriteWords(items, tail));
    WordsParse(cont, Inside(c, In, pipes), [], items, tail);
    assert [] + items == items;
    var b := if items == [] then Empty else Words(items);
    assert DonePipe(Inside(c, In, pipes).(child := b), Seq) == Inside(c, In, pipes + [Pipe(In, Seq, b)]);
  }

  /** The loop variable is taken as one word and closes the `for` pipe by itself. */
  lemma NameParses(cont: bool, c: Ctx, v: string, rest: Tokens)
    requires Balanced(c) && v != "" && CodeOf(v) == None
    ensures Balanced(Inside(c, For, [])) && Balanced(Inside(c, For, [Pipe(For, Seq, Words([v]))]))
    ensures FeedAll(cont, Inside(c, For, []), Next(Word(v), rest))
        == FeedAll(cont, Inside(c, For, [Pipe(For, Seq, Words([v]))]), rest)
  {
    assert [] + [v] == [v];
    assert [] + [Pipe(For, Seq, Words([v]))] == [Pipe(For, Seq, Words([v]))];
    assert DoneWord(Inside(c, For, []), v) == (false, Inside(c, For, [Pipe(For, Seq, Words([v]))]));
  }

  /** The context with more pipes in its list. */
  function With(c: Ctx, ps: seq<Pipe>): Ctx {
    c.(pipes := c.pipes + ps)
  }

  lemma WithTwice(c: Ctx, a: seq<Pipe>, b: seq<Pipe>)
    requires Ready(c)
    ensures Ready(With(c, a)) && With(c, []) == c && With(With(c, a), b) == With(c, a + b)
  {
    assert c.pipes + [] == c.pipes;
    assert c.pipes + a + b == c.pipes + (a + b);
  }

  /** A statement and the separator after it become one pipe. */
  lemma {:induction false} PipeParses(cont: bool, c: Ctx, s: Stmt, f: Followup, more: Tokens)
    requires Ready(c) && PlainStmt(s)
    ensures var c1 := With(c, [Pipe(c.w, f, BodyOf(s))]);
            Ready(c1) && FeedAll(cont, c, WriteStmt(s, Next(Sep("", f), more))) == FeedAll(cont, c1, more)
    decreases s, 3
  {
    StmtParses(cont, c, s, Next(Sep("", f), more));
    assert DonePipe(c.(child := BodyOf(s)), f) == With(c, [Pipe(c.w, f, BodyOf(s))]);
  }

  lemma {:induction false} ChainParses(cont: bool, c: Ctx, ch: Chain, rest: Tokens)
    requires Ready(c) && PlainChain(ch)
    ensures var c' := With(c, SpineChain(ch, c.w));
            Ready(c') && FeedAll(cont, c, WriteChain(ch, rest)) == FeedAll(cont, c', rest)
    decreases ch, 3
  {
    if ch.One? {
      PipeParses(cont, c, ch.s, Seq, rest);
    } else {
      var f := Conn(ch.isAnd);
      var a := [Pipe(c.w, f, BodyOf(ch.s))];
      PipeParses(cont, c, ch.s, f, WriteChain(ch.rest, rest));
      ChainParses(cont, With(c, a), ch.rest, rest);
      WithTwice(c, a, SpineChain(ch.rest, c.w));
    }
  }

  /** The tokens of a list append exactly its pipes, tagged with the reserved word in force. */
  lemma {:induction false} ListParses(cont: bool, c: Ctx, l: List, rest: Tokens)
    requires Ready(c) && PlainList(l)
    ensures var c' := With(c, Spine(l, c.w));
            Ready(c') && FeedAll(cont, c, WriteList(l, rest)) == FeedAll(cont, c', rest)
    decreases l, 3
  {
    if l.Nil? {
      WithTwice(c, [], []);
    } else {
      var a := SpineChain(l.c, c.w);
      ChainParses(cont, c, l.c, WriteList(l.rest, rest));
      ListParses(cont, With(c, a), l.rest, rest);
      WithTwice(c, a, Spine(l.rest, c.w));
    }
  }

  // ----- from text to meaning -----

  /** `parse_stream_outer`: the list handed to `run_list`, or nothing.  `last` is what stands between
      the last token and the end of the input; that word is ended after the test for open compounds. */
  datatype Verdict = Refused | Accepted(list: Pipes)

  function Ended(p: Parse, last: string): (c: Ctx)
    requires Balanced(p.c)
    ensures Balanced(c)
  {
    if p.Parsing? then Pending(p.c, Joined(p.dest, last)).1 else p.c
  }

  function Outer(cont: bool, ts: Tokens, last: string): Verdict {
    var p := FeedAll(cont, FRESH_CTX, ts);
    if p.Failed? || p.c.oldFlag != {} then Refused
    else Accepted(ToPipes(DonePipe(Ended(p, last), Seq).pipes, TRAILER))
  }

  /** The unfinished word opens a compound. */
  predicate LateStart(p: Parse, last: string) {
    && p.Parsing? && p.c.child.Empty? && p.c.w != In && p.c.w != For
    && IsStart(CodeOf(Joined(p.dest, last)))
  }

  /** Every caller's input does: `parse_string_outer` and `get_user_input` see to it. */
  predicate EndsInNewline(ts: Tokens) {
    ts.Next? && if ts.rest.NoTokens? then ts.t.Newline? else EndsInNewline(ts.rest)
  }

  lemma {:induction false} NewlineEndsWord(cont: bool, c: Ctx, dest: string, ts: Tokens)
    requires Balanced(c) && EndsInNewline(ts)
    ensures var p := FeedFrom(cont, c, dest, ts); p.Parsing? ==> p.dest == ""
    decreases ts
  {
    var p := Feed(cont, c, dest, ts.t);
    if ts.rest.NoTokens? {
      assert p.Parsing? ==> FeedFrom(cont, p.c, p.dest, NoTokens) == p;
    } else if p.Parsing? {
      NewlineEndsWord(cont, p.c, p.dest, ts.rest);
    }
  }

  /** Nothing is run exactly when the parse failed or a compound is open.  What is run comes from a
      context with every compound closed: for all input that ends in a newline, and for any other input
      exactly unless it stops in the middle of a word that opens a compound. */
  lemma RunsOnlyWhenClosed(cont: bool, ts: Tokens, last: string)
    ensures var p := FeedAll(cont, FRESH_CTX, ts);
            && (Outer(cont, ts, last).Refused? <==> p.Failed? || Depth(p.c) != 0)
            && (Outer(cont, ts, last).Accepted? && EndsInNewline(ts) && last == "" ==>
                  Ended(p, last) == p.c && Depth(p.c) == 0)
            && (Outer(cont, ts, last).Accepted? ==> (Depth(Ended(p, last)) == 0 <==> !LateStart(p, last)))
  {
    var p := FeedAll(cont, FRESH_CTX, ts);
    if EndsInNewline(ts) { NewlineEndsWord(cont, FRESH_CTX, "", ts); }
    if Depth(p.c) == 0 { LastWord(p, last); }
  }

  lemma LastWord(p: Parse, last: string)
    requires Balanced(p.c) && Depth(p.c) == 0
    ensures Depth(Ended(p, last)) == 0 <==> !LateStart(p, last)
  {
    if p.Parsing? && p.c.child.Empty? && CodeOf(Joined(p.dest, last)) != None {
      LateWord(p.c, CodeOf(Joined(p.dest, last)));
    }
  }

  lemma LateWord(c: Ctx, m: RMode)
    requires Balanced(c) && Depth(c) == 0 && CodeIsReserved(m)
    ensures Depth(ReservedWord(c, m)) == if IsStart(m) && c.w != In && c.w != For then 1 else 0
  {
  }

  function Snoc(l: List, c: Chain): List {
    if l.Nil? then Cons(c, Nil) else Cons(l.c, Snoc(l.rest, c))
  }

  lemma Associates(a: seq<Pipe>, b: seq<Pipe>, c: seq<Pipe>)
    ensures a + (b + c) == a + b + c
  {
  }

  lemma {:induction false} SpineSnoc(l: List, c: Chain, m: RMode)
    ensures Spine(Snoc(l, c), m) == Spine(l, m) + SpineChain(c, m)
  {
    if l.Cons? {
      SpineSnoc(l.rest, c, m);
      Associates(SpineChain(l.c, m), Spine(l.rest, m), SpineChain(c, m));
    }
  }

  lemma {:induction false} BlankEnd<S>(sh: HushRun.Shell<S>, l: List, w: HushRun.World<S>, rc: int, fuel: nat)
    requires GoodList(l) && rc >= -1
    ensures GoodList(Snoc(l, One(Nop)))
    ensures HushMeaning.EvalList(sh, Snoc(l, One(Nop)), w, rc, fuel) == HushMeaning.EvalList(sh, l, w, rc, fuel)
  {
    if l.Cons? {
      var o := HushMeaning.EvalChain(sh, l.c, w, rc, fuel);
      if HushMeaning.Continues(o) {
        BlankEnd(sh, l.rest, o.w, o.rcode, fuel);
      } else {
        BlankEnd(sh, l.rest, w, rc, fuel);
      }
    } else {
      HushMeaning.BlankList(sh, Snoc(l, One(Nop)), w, rc, fuel);
    }
  }

  /** The list handed over for a written line is its own, with two blank pipes at the end: one for the
      newline, one for the end of the parse. */
  lemma TextParses(cont: bool, l: List, rest: Tokens)
    requires PlainList(l) && (cont ==> rest == NoTokens)
    ensures var p := FeedAll(cont, FRESH_CTX, WriteList(l, Next(Newline(""), rest)));
            if cont then p.Parsing? else p.Complete? && p.rest == rest
    ensures Outer(cont, WriteList(l, Next(Newline(""), rest)), "") ==
            Accepted(FlatList(Snoc(Snoc(l, One(Nop)), One(Nop)), None, TRAILER))
  {
    var blank := Pipe(None, Seq, Empty);
    ListParses(cont, FRESH_CTX, l, Next(Newline(""), rest));
    var c := With(FRESH_CTX, Spine(l, None));
    assert c.pipes == Spine(l, None);
    assert FeedAll(cont, DonePipe(c, Seq), NoTokens) == Parsing(DonePipe(c, Seq), "");
    SpineSnoc(l, One(Nop), None);
    SpineSnoc(Snoc(l, One(Nop)), One(Nop), None);
    SpineIsFlat(Snoc(Snoc(l, One(Nop)), One(Nop)), None, TRAILER);
  }

  /** Writing a line of text, parsing it and running the list gives the meaning of the program, whatever
      lines follow. */
  lemma TextMeansProgram<S>(cont: bool, sh: HushRun.Shell<S>, l: List, rest: Tokens, w: HushRun.World<S>, fuel: nat)
    requires GoodList(l) && PlainList(l) && (cont ==> rest == NoTokens)
    ensures var v := Outer(cont, WriteList(l, Next(Newline(""), rest)), "");
            v.Accepted? && HushRun.RunList(sh, v.list, w, fuel) == HushMeaning.EvalList(sh, l, w, 0, fuel)
  {
    TextParses(cont, l, rest);
    BlankEnd(sh, l, w, 0, fuel);
    BlankEnd(sh, Snoc(l, One(Nop)), w, 0, fuel);
    HushMeaning.ProgramRuns(sh, Snoc(Snoc(l, One(Nop)), One(Nop)), w, fuel);
  }

  // ----- separators and errors -----

  /** A separator needs no blank before it. */
  lemma SeparatorEndsWord(cont: bool, c: Ctx, dest: string, text: string, f: Followup)
    requires Balanced(c) && !Feed(cont, c, dest, Word(text)).Failed?
    ensures Feed(cont, c, dest, Sep(text, f)) == Feed(cont, Feed(cont, c, dest, Word(text)).c, "", Sep("", f))
  {
  }

  /** Inside a compound a newline separates as `;` does. */
  lemma NewlineSeparates(cont: bool, c: Ctx, dest: string, text: string)
    requires Balanced(c) && !Feed(cont, c, dest, Word(text)).Failed?
    ensures Feed(cont, c, dest, Word(text)).c.w != None ==>
        Feed(cont, c, dest, Newline(text)) == Feed(cont, c, dest, Sep(text, Seq))
  {
  }

  /** A reserved word that cannot stand here: one that starts a compound as the loop variable or the
      first value of a `for`, one that continues a compound where it is not expected. */
  predicate Misplaced(c: Ctx, m: RMode) {
    m != None && if IsStart(m) then c.w == In || c.w == For else c.w == None || m !in c.oldFlag
  }

  /** A word that closes a compound inside a list already marked with a syntax error. */
  predicate ClosesInError(c: Ctx, m: RMode) {
    IsEnd(m) && !Misplaced(c, m) && c.stack.Saved? && c.stack.ctx.w == Sntx
  }

  /** The words the parser complains about: any word after a closed compound, and reserved words. */
  predicate Objects(c: Ctx, text: string) {
    text != "" &&
    (c.child.Group? || (c.child.Empty? && (Misplaced(c, CodeOf(text)) || ClosesInError(c, CodeOf(text)))))
  }

  /** The state after a word the parser complains about: unchanged after a closed compound; else marked
      with the error, or, where the word closes a compound, closed. */
  function Objected(c: Ctx, m: RMode): Ctx {
    if c.child.Group? then c
    else if Misplaced(c, m) then c.(w := Sntx)
    else if c.stack.Saved? then c.stack.ctx.(child := Group(ToPipes(c.pipes + [Pipe(m, Seq, c.child)], TRAILER)))
    else c
  }

  lemma WordErrors(c: Ctx, text: string)
    requires Balanced(c)
    ensures Pending(c, text).0 <==> Objects(c, text)
    ensures Objects(c, text) ==> Pending(c, text).1 == Objected(c, CodeOf(text))
  {
  }

  /** An error stops the parse exactly when it is in a word that no separator ends.  A separator drops
      the word and goes on from the state reached; after a closed compound the text is not dropped but
      becomes the start of the next word. */
  lemma MisplacedWord(cont: bool, c: Ctx, dest: string, t: Token)
    requires Balanced(c)
    ensures var text := Joined(dest, t.text);
            && (Feed(cont, c, dest, t).Failed? <==> Objects(c, text) && !t.Sep?)
            && (Objects(c, text) && t.Sep? ==>
                  Feed(cont, c, dest, t) ==
                  Parsing(DonePipe(Objected(c, CodeOf(text)), t.f), if c.child.Group? then text else ""))
  {
    WordErrors(c, Joined(dest, t.text));
  }
}
