/** Input of several lines: parsed and run line by line, or, where the parse continues on a newline,
    all at once. */
module HushScript {
  import opened HushSyntax
  import opened HushParse
  import opened HushRender
  import opened HushRun
  import opened HushMeaning

  // ----- the loop over the lines -----

  /** How `parse_stream_outer` leaves a string: with its last code, or, when a line was refused before
      the end of the string, with the input pointer gone. */
  datatype Result<S> = Returned(w: World<S>, code: int) | Lost(w: World<S>) | Unfinished

  function Count(ts: Tokens): nat {
    if ts.NoTokens? then 0 else 1 + Count(ts.rest)
  }

  lemma {:induction false} RestIsShorter(cont: bool, c: Ctx, dest: string, ts: Tokens)
    requires Balanced(c)
    ensures var p := FeedFrom(cont, c, dest, ts); p.Complete? ==> Count(p.rest) < Count(ts)
    decreases ts
  {
    if ts.Next? {
      var p := Feed(cont, c, dest, ts.t);
      if p.Parsing? { RestIsShorter(cont, p.c, p.dest, ts.rest); }
    }
  }

  /** `parse_stream_outer` on a string, one line at a time; `code` is the code so far. */
  function Script<S>(sh: Shell<S>, ts: Tokens, w: World<S>, code: int, fuel: nat): Result<S>
    decreases Count(ts)
  {
    var p := FeedAll(false, FRESH_CTX, ts);
    match Outer(false, ts, "")
    case Refused => if p.Parsing? then Returned(w, code) else Lost(w)
    case Accepted(list) =>
      match RunList(sh, list, w, fuel)
      case OutOfFuel => Unfinished
      case Finished(w', rc) =>
        if rc == -2 then Returned(w', 0)
        else if p.Complete? && p.rest.Next? then
          RestIsShorter(false, FRESH_CTX, "", ts);
          Script(sh, p.rest, w', rc, fuel)
        else Returned(w', rc)
  }

  // ----- what a script means -----

  function WriteScript(ls: seq<List>, rest: Tokens): Tokens {
    if ls == [] then rest else WriteList(ls[0], Next(Newline(""), WriteScript(ls[1..], rest)))
  }

  ghost predicate Writable(ls: seq<List>) {
    forall i :: 0 <= i < |ls| ==> GoodList(ls[i]) && PlainList(ls[i])
  }

  /** Line by line: every line starts with status 0, and an exit ends the script with 0; after the last
      line come the tokens `rest`. */
  function EvalScript<S>(sh: Shell<S>, ls: seq<List>, rest: Tokens, w: World<S>, fuel: nat): Result<S>
    requires ls != []
    decreases |ls|
  {
    match EvalList(sh, ls[0], w, 0, fuel)
    case OutOfFuel => Unfinished
    case Finished(w', rc) =>
      if rc < -1 then Returned(w', 0)
      else if |ls| > 1 then EvalScript(sh, ls[1..], rest, w', fuel)
      else if rest.Next? then Script(sh, rest, w', rc, fuel)
      else Returned(w', rc)
  }

  lemma ListCode<S>(sh: Shell<S>, l: List, w: World<S>, fuel: nat)
    requires GoodList(l)
    ensures var o := EvalList(sh, l, w, 0, fuel); o.Finished? ==> o.rcode >= -2
  {
    ProgramRuns(sh, l, w, fuel);
    RunCode(sh, FlatList(l, None, TRAILER), INIT_REGS, w, fuel);
  }

  /** One line of a script, whatever follows it. */
  lemma LineRuns<S>(sh: Shell<S>, l: List, rest: Tokens, w: World<S>, code: int, fuel: nat)
    requires GoodList(l) && PlainList(l)
    ensures Script(sh, WriteList(l, Next(Newline(""), rest)), w, code, fuel) ==
            match EvalList(sh, l, w, 0, fuel)
            case OutOfFuel => Unfinished
            case Finished(w', rc) =>
              if rc < -1 then Returned(w', 0)
              else if rest.Next? then Script(sh, rest, w', rc, fuel)
              else Returned(w', rc)
  {
    TextParses(false, l, rest);
    TextMeansProgram(false, sh, l, rest, w, fuel);
    ListCode(sh, l, w, fuel);
  }

  lemma {:induction false} WritesSome(ls: seq<List>, rest: Tokens)
    requires ls != []
    ensures WriteScript(ls, rest).Next?
  {
    ListWritesOn(ls[0], Next(Newline(""), WriteScript(ls[1..], rest)));
  }

  lemma ListWritesOn(l: List, rest: Tokens)
    requires rest.Next?
    ensures WriteList(l, rest).Next?
    decreases l, 1
  {
    if l.Cons? {
      ListWritesOn(l.rest, rest);
      ChainWritesOn(l.c, WriteList(l.rest, rest));
    }
  }

  lemma ChainWritesOn(c: Chain, rest: Tokens)
    requires rest.Next?
    ensures WriteChain(c, rest).Next?
    decreases c, 1
  {
    match c
    case One(s) => StmtWritesOn(s, Next(Sep("", Seq), rest));
    case Link(s, isAnd, more) => StmtWritesOn(s, Next(Sep("", Conn(isAnd)), WriteChain(more, rest)));
  }

  lemma StmtWritesOn(s: Stmt, rest: Tokens)
    requires rest.Next?
    ensures WriteStmt(s, rest).Next?
  {
    if s.Simple? { assert s.words == [] || WriteWords(s.words, rest).Next?; }
  }

  /** Lines written one after the other do in turn what they mean, up to an exit; then comes whatever
      follows them. */
  lemma {:induction false} ScriptMeans<S>(sh: Shell<S>, ls: seq<List>, rest: Tokens, w: World<S>, code: int, fuel: nat)
    requires Writable(ls) && ls != []
    ensures Script(sh, WriteScript(ls, rest), w, code, fuel) == EvalScript(sh, ls, rest, w, fuel)
    decreases |ls|
  {
    LineRuns(sh, ls[0], WriteScript(ls[1..], rest), w, code, fuel);
    var o := EvalList(sh, ls[0], w, 0, fuel);
    if |ls| > 1 {
      WritesSome(ls[1..], rest);
      if Continues(o) { ScriptMeans(sh, ls[1..], rest, o.w, o.rcode, fuel); }
    } else {
      assert ls[1..] == [];
    }
  }

  // ----- all lines at once -----

  /** The lines as one list: the status of a line is that of the line before until a command sets it. */
  function EvalLines<S>(sh: Shell<S>, ls: seq<List>, w: World<S>, rc: int, fuel: nat): Outcome<S>
    decreases |ls|
  {
    if ls == [] then Finished(w, rc)
    else
      var o := EvalList(sh, ls[0], w, rc, fuel);
      if !Continues(o) then o else EvalLines(sh, ls[1..], o.w, o.rcode, fuel)
  }

  /** The lines joined, with a blank pipe for each newline. */
  function Joint(ls: seq<List>): List {
    if ls == [] then Nil else Append(Snoc(ls[0], One(Nop)), Joint(ls[1..]))
  }

  lemma {:induction false} SpineAppend(l: List, k: List, m: RMode)
    ensures Spine(Append(l, k), m) == Spine(l, m) + Spine(k, m)
  {
    if l.Cons? {
      SpineAppend(l.rest, k, m);
      Associates(SpineChain(l.c, m), Spine(l.rest, m), Spine(k, m));
    } else {
      assert [] + Spine(k, m) == Spine(k, m);
    }
  }

  lemma {:induction false} EvalAppend<S>(sh: Shell<S>, l: List, k: List, w: World<S>, rc: int, fuel: nat)
    requires rc >= -1
    ensures EvalList(sh, Append(l, k), w, rc, fuel) ==
            var o := EvalList(sh, l, w, rc, fuel); if !Continues(o) then o else EvalList(sh, k, o.w, o.rcode, fuel)
  {
    if l.Cons? {
      var o := EvalChain(sh, l.c, w, rc, fuel);
      if Continues(o) { EvalAppend(sh, l.rest, k, o.w, o.rcode, fuel); }
    }
  }

  lemma {:induction false} GoodAppend(l: List, k: List)
    requires GoodList(l) && GoodList(k)
    ensures GoodList(Append(l, k))
  {
    if l.Cons? { GoodAppend(l.rest, k); }
  }

  lemma {:induction false} JointMeans<S>(sh: Shell<S>, ls: seq<List>, w: World<S>, rc: int, fuel: nat)
    requires Writable(ls) && rc >= -1
    ensures GoodList(Joint(ls)) && EvalList(sh, Joint(ls), w, rc, fuel) == EvalLines(sh, ls, w, rc, fuel)
    decreases |ls|
  {
    if ls != [] {
      var l, rest := Snoc(ls[0], One(Nop)), Joint(ls[1..]);
      BlankEnd(sh, ls[0], w, rc, fuel);
      EvalAppend(sh, l, rest, w, rc, fuel);
      var o := EvalList(sh, ls[0], w, rc, fuel);
      if Continues(o) {
        JointMeans(sh, ls[1..], o.w, o.rcode, fuel);
      } else {
        JointMeans(sh, ls[1..], w, rc, fuel);
      }
      GoodAppend(l, rest);
    }
  }

  /** Outside all compounds a line and its newline append the pipes of the line and a blank one. */
  lemma {:induction false} LinesParse(c: Ctx, ls: seq<List>)
    requires Ready(c) && c.w == None && Writable(ls)
    ensures FeedAll(true, c, WriteScript(ls, NoTokens)) == Parsing(With(c, Spine(Joint(ls), None)), "")
    decreases |ls|
  {
    if ls == [] {
      assert c.pipes + [] == c.pipes;
    } else {
      LineParses(c, ls[0], WriteScript(ls[1..], NoTokens));
      var a, b := Spine(Snoc(ls[0], One(Nop)), None), Spine(Joint(ls[1..]), None);
      LinesParse(With(c, a), ls[1..]);
      SpineAppend(Snoc(ls[0], One(Nop)), Joint(ls[1..]), None);
      WithTwice(c, a, b);
    }
  }

  lemma LineParses(c: Ctx, l: List, rest: Tokens)
    requires Ready(c) && c.w == None && PlainList(l)
    ensures var c' := With(c, Spine(Snoc(l, One(Nop)), None));
            Ready(c') && FeedAll(true, c, WriteList(l, Next(Newline(""), rest))) == FeedAll(true, c', rest)
  {
    ListParses(true, c, l, Next(Newline(""), rest));
    var blank := [Pipe(None, Seq, Empty)];
    SpineSnoc(l, One(Nop), None);
    WithTwice(c, Spine(l, None), blank);
    assert DonePipe(With(c, Spine(l, None)), Seq) == With(With(c, Spine(l, None)), blank);
  }

  /** Where the parse continues on a newline, a script of any number of lines is handed over as one list,
      which does what the lines mean one after the other. */
  lemma ContinuedMeans<S>(sh: Shell<S>, ls: seq<List>, w: World<S>, fuel: nat)
    requires Writable(ls)
    ensures var v := Outer(true, WriteScript(ls, NoTokens), "");
            v.Accepted? && RunList(sh, v.list, w, fuel) == EvalLines(sh, ls, w, 0, fuel)
  {
    LinesParse(FRESH_CTX, ls);
    var l := Joint(ls);
    assert [] + Spine(l, None) == Spine(l, None);
    SpineSnoc(l, One(Nop), None);
    SpineIsFlat(Snoc(l, One(Nop)), None, TRAILER);
    JointMeans(sh, ls, w, 0, fuel);
    BlankEnd(sh, l, w, 0, fuel);
    ProgramRuns(sh, Snoc(l, One(Nop)), w, fuel);
  }

  // ----- the two ways compared -----

  /** The status before a list matters only if the list holds no command. */
  lemma {:induction false} StatusIsForgotten<S>(sh: Shell<S>, l: List, w: World<S>, rc: int, rc': int, fuel: nat)
    requires HasCommand(l) && rc >= -1 && rc' >= -1
    ensures EvalList(sh, l, w, rc, fuel) == EvalList(sh, l, w, rc', fuel)
  {
    if ChainHasCommand(l.c) {
      ChainForgets(sh, l.c, w, rc, rc', fuel);
    } else {
      BlankChain(sh, l.c, w, rc, fuel);
      BlankChain(sh, l.c, w, rc', fuel);
      StatusIsForgotten(sh, l.rest, w, rc, rc', fuel);
    }
  }

  lemma {:induction false} ChainForgets<S>(sh: Shell<S>, c: Chain, w: World<S>, rc: int, rc': int, fuel: nat)
    requires ChainHasCommand(c) && rc >= -1 && rc' >= -1
    ensures EvalChain(sh, c, w, rc, fuel) == EvalChain(sh, c, w, rc', fuel)
  {
    if c.s.Nop? { ChainForgets(sh, c.rest, w, rc, rc', fuel); }
  }

  /** What `parse_stream_outer` returns for one list. */
  function Return<S>(o: Outcome<S>): Result<S> {
    if o.OutOfFuel? then Unfinished else Returned(o.w, if o.rcode == -2 then 0 else o.rcode)
  }

  /** Line by line or all at once, a script leaves the same world.  It returns the same code too, except
      that line by line a last line without a command returns 0. */
  lemma {:induction false} SameEitherWay<S>(sh: Shell<S>, ls: seq<List>, w: World<S>, rc: int, fuel: nat)
    requires Writable(ls) && ls != [] && rc >= -1
    ensures var one, all := EvalScript(sh, ls, NoTokens, w, fuel), Return(EvalLines(sh, ls, w, rc, fuel));
            if HasCommand(ls[|ls| - 1]) || !all.Returned? then one == all else one == Returned(all.w, 0)
    decreases |ls|
  {
    var l, o := ls[0], EvalList(sh, ls[0], w, 0, fuel);
    ListCode(sh, l, w, fuel);
    if HasCommand(l) {
      StatusIsForgotten(sh, l, w, rc, 0, fuel);
      if Continues(o) && |ls| > 1 { SameEitherWay(sh, ls[1..], o.w, o.rcode, fuel); }
    } else {
      BlankList(sh, l, w, rc, fuel);
      BlankList(sh, l, w, 0, fuel);
      if |ls| > 1 { SameEitherWay(sh, ls[1..], w, rc, fuel); }
    }
    if |ls| == 1 { assert ls[1..] == []; }
  }

  /** So `run_command_list` and `run_command` with CMD_FLAG_ENV agree on a script exactly when its last
      line holds a command or the code is 0 anyway. */
  lemma ModesAgree<S>(sh: Shell<S>, ls: seq<List>, w: World<S>, code: int, fuel: nat)
    requires Writable(ls) && ls != []
    ensures var v := Outer(true, WriteScript(ls, NoTokens), "");
            && v.Accepted?
            && var all := Return(RunList(sh, v.list, w, fuel));
               Script(sh, WriteScript(ls, NoTokens), w, code, fuel) == all <==>
                 HasCommand(ls[|ls| - 1]) || all.Unfinished? || all.code == 0
  {
    ContinuedMeans(sh, ls, w, fuel);
    ScriptMeans(sh, ls, NoTokens, w, code, fuel);
    SameEitherWay(sh, ls, w, 0, fuel);
  }
}
