/** The structured meaning of hush programs, and the proof that interpreting the flattened pipe
    list of a program gives exactly that meaning. */
module HushMeaning {
  import opened Options
  import opened HushSyntax
  import opened HushRun

  // ----- structured meaning: the status is that of the last command run -----

  predicate Continues<S>(o: Outcome<S>) {
    o.Finished? && o.rcode >= -1
  }

  function EvalStmt<S>(sh: Shell<S>, s: Stmt, w: World<S>, fuel: nat): Outcome<S>
    requires !s.Nop?
    decreases fuel, s, 2
  {
    match s
    case Simple(words) => Call(sh, words, w)
    case Cond(arms) => EvalArms(sh, arms, w, 0, fuel)
    case Loop(_, _, _) => EvalLoop(sh, s, w, 0, fuel)
    case Each(v, items, _) =>
      EvalEach(sh, s, if items == [] then [] else Bind(v, sh.expand(items, w)), w, 0, fuel)
  }

  function EvalArms<S>(sh: Shell<S>, a: Arms, w: World<S>, rc: int, fuel: nat): Outcome<S>
    decreases fuel, a, 2
  {
    match a
    case EndArms => Finished(w, rc)
    case ElseArm(els) => EvalList(sh, els, w, rc, fuel)
    case Arm(cond, thn, rest) =>
      var c := EvalList(sh, cond, w, rc, fuel);
      if !Continues(c) then c
      else if c.rcode == 0 then EvalList(sh, thn, c.w, c.rcode, fuel)
      else EvalArms(sh, rest, c.w, c.rcode, fuel)
  }

  function EvalLoop<S>(sh: Shell<S>, s: Stmt, w: World<S>, rc: int, fuel: nat): Outcome<S>
    requires s.Loop?
    decreases fuel, s, 1
  {
    var c := EvalList(sh, s.cond, w, rc, fuel);
    if !Continues(c) || (c.rcode == 0) == s.until then c
    else
      var b := EvalList(sh, s.body, c.w, c.rcode, fuel);
      if !Continues(b) then b
      else if fuel == 0 then OutOfFuel
      else EvalLoop(sh, s, b.w, b.rcode, fuel - 1)
  }

  function EvalEach<S>(sh: Shell<S>, s: Stmt, binds: seq<string>, w: World<S>, rc: int, fuel: nat): Outcome<S>
    requires s.Each?
    decreases fuel, s, 1
  {
    if binds == [] then Finished(w, rc)
    else
      var a := Settle(Call(sh, [binds[0]], w));
      if !Continues(a) then a
      else
        var b := EvalList(sh, s.body, a.w, a.rcode, fuel);
        if !Continues(b) then b
        else if fuel == 0 then OutOfFuel
        else EvalEach(sh, s, binds[1..], b.w, b.rcode, fuel - 1)
  }

  function EvalChain<S>(sh: Shell<S>, c: Chain, w: World<S>, rc: int, fuel: nat): Outcome<S>
    decreases fuel, c, 3
  {
    var o := if c.s.Nop? then Finished(w, rc) else Settle(EvalStmt(sh, c.s, w, fuel));
    if !Continues(o) || c.One? || (!c.s.Nop? && (o.rcode == 0) != c.isAnd) then o
    else EvalChain(sh, c.rest, o.w, o.rcode, fuel)
  }

  function EvalList<S>(sh: Shell<S>, l: List, w: World<S>, rc: int, fuel: nat): Outcome<S>
    decreases fuel, l, 3
  {
    if l.Nil? then Finished(w, rc)
    else
      var o := EvalChain(sh, l.c, w, rc, fuel);
      if !Continues(o) then o else EvalList(sh, l.rest, o.w, o.rcode, fuel)
  }

  // ----- simulation -----

  /** Neither skipping nor jumping back. */
  ghost predicate Fresh(r: Regs) {
    r.flagSkip && r.skipMore == Xxxx && !r.flagRestore && r.rcode >= -1
  }

  function Forget(r: Regs): Regs {
    r.(flagSkip := true, skipMore := Xxxx)
  }

  /** The flags let the commands of a section run. */
  ghost predicate Active(m: RMode, r: Regs) {
    match m
    case Then => r.nextIfCode == 0
    case Else => r.nextIfCode != 0
    case Elif => r.ifCode != 0
    case Do => r.flagRep
    case While => r.rpipe.Cell?
    case Until => r.rpipe.Cell?
    case None => true
    case If => true
    case _ => false
  }

  ghost predicate Section(m: RMode) {
    m in {None, If, Then, Elif, Else, While, Until, Do}
  }

  function Latch(m: RMode, r: Regs): Regs {
    if m == Then || m == Else then r.(ifCode := r.nextIfCode) else r
  }

  /** The registers after part of a section in mode `m` that ended with status `rc`: `some` says
      whether it had a pipe at all, `ran` whether one of them held a command. */
  function After(m: RMode, r: Regs, some: bool, ran: bool, rc: int): Regs {
    if ran then AfterCommand(Latch(m, r), Pipe(m, Seq, Empty), rc)
    else if some then Latch(m, r)
    else r
  }

  /** The machine did `o` and then goes on with `tail`. */
  ghost predicate Same<S>(sh: Shell<S>, tail: Pipes, m: RMode, r: Regs, some: bool, ran: bool,
                          o: Outcome<S>, machine: Outcome<S>, fuel: nat)
  {
    machine == if !Continues(o) then o else Run(sh, tail, After(m, r, some, ran, o.rcode), o.w, fuel)
  }

  lemma BlankChain<S>(sh: Shell<S>, c: Chain, w: World<S>, rc: int, fuel: nat)
    requires !ChainHasCommand(c) && rc >= -1
    ensures EvalChain(sh, c, w, rc, fuel) == Finished(w, rc)
  {
  }

  lemma BlankList<S>(sh: Shell<S>, l: List, w: World<S>, rc: int, fuel: nat)
    requires !HasCommand(l) && rc >= -1
    ensures EvalList(sh, l, w, rc, fuel) == Finished(w, rc)
  {
    if l.Cons? {
      BlankChain(sh, l.c, w, rc, fuel);
      BlankList(sh, l.rest, w, rc, fuel);
    }
  }

  lemma SameDecision<S>(sh: Shell<S>, pi: Pipes, r: Regs, w: World<S>)
    requires !r.flagRestore && pi.Cell? && pi.p.rmode != Xxxx && (!r.flagSkip || pi.p.rmode != r.skipMore)
    ensures Decide(sh, pi, EnterHead(pi, r), w) == Decide(sh, pi, EnterHead(pi, Forget(r)), w)
  {
  }

  lemma Resume<S>(sh: Shell<S>, pi: Pipes, r: Regs, w: World<S>, fuel: nat)
    requires !r.flagRestore
    requires pi.Cell? ==> pi.p.rmode != Xxxx
    requires !r.flagSkip || (pi.Cell? ==> pi.p.rmode != r.skipMore)
    ensures Run(sh, pi, r, w, fuel) == Run(sh, pi, Forget(r), w, fuel)
  {
    if pi.Cell? { SameDecision(sh, pi, r, w); }
  }

  lemma {:induction false} ChainSkipped<S>(sh: Shell<S>, c: Chain, m: RMode, tail: Pipes, r: Regs, w: World<S>,
                                           fuel: nat)
    requires Section(m) && r.flagSkip && r.skipMore == m && !r.flagRestore
    requires IsLoopHead(m) ==> r.rpipe.Cell?
    ensures Run(sh, FlatChain(c, m, tail), r, w, fuel) == Run(sh, tail, r.(flagSkip := false), w, fuel)
  {
    if c.Link? {
      ChainSkipped(sh, c.rest, m, tail, r, w, fuel);
    }
  }

  /** The tail of a section starts with a tagged pipe, or is null. */
  ghost predicate Tagged(tail: Pipes) {
    tail.Cell? ==> tail.p.rmode != Xxxx
  }

  lemma FlatIsTagged(l: List, m: RMode, tail: Pipes)
    requires m != Xxxx && Tagged(tail)
    ensures Tagged(FlatList(l, m, tail))
  {
  }

  /** A statement run as a pipe body does what it means. */
  lemma {:induction false} StmtRuns<S>(sh: Shell<S>, s: Stmt, w: World<S>, fuel: nat)
    requires GoodStmt(s) && !s.Nop? && !s.Simple?
    ensures RunList(sh, BodyOf(s).list, w, fuel) == EvalStmt(sh, s, w, fuel)
    decreases fuel, s, 2
  {
    match s
    case Cond(arms) =>
      ArmsSyntaxOk(arms, true);
      ArmsRun(sh, arms, true, INIT_REGS, w, fuel);
    case Loop(until, cond, body) =>
      var pi := FlatLoop(s);
      LoopSyntaxOk(s);
      LoopIsHead(s);
      LoopRuns(sh, s, INIT_REGS.(rpipe := pi), w, fuel);
    case Each(v, items, body) =>
      EachSyntaxOk(s);
      EachStarts(sh, s, w, fuel);
  }

  /** The registers after one pipe of a section in mode `m`. */
  function AfterPipe(m: RMode, f: Followup, r: Regs, s: Stmt, rc: int): Regs {
    if s.Nop? then Latch(m, r) else AfterCommand(Latch(m, r), Pipe(m, f, Empty), rc)
  }

  lemma ActiveGoes<S>(sh: Shell<S>, pi: Pipes, r: Regs, w: World<S>)
    requires pi.Cell? && Section(pi.p.rmode) && Fresh(r) && Active(pi.p.rmode, r)
    ensures EnterHead(pi, r) == r
    ensures Decide(sh, pi, r, w) ==
            if pi.p.body.Empty? then Skip(Latch(pi.p.rmode, r)) else Go(Latch(pi.p.rmode, r), pi.p.body)
  {
  }

  lemma {:induction false} PipeRuns<S>(sh: Shell<S>, s: Stmt, m: RMode, f: Followup, next: Pipes, r: Regs,
                                       w: World<S>, fuel: nat)
    requires Section(m) && Fresh(r) && Active(m, r) && GoodStmt(s)
    ensures var o := if s.Nop? then Finished(w, r.rcode) else Settle(EvalStmt(sh, s, w, fuel));
            Run(sh, Cell(Pipe(m, f, BodyOf(s)), next), r, w, fuel) ==
            if !Continues(o) then o else Run(sh, next, AfterPipe(m, f, r, s, o.rcode), o.w, fuel)
    decreases fuel, s, 3
  {
    var pi := Cell(Pipe(m, f, BodyOf(s)), next);
    ActiveGoes(sh, pi, r, w);
    if !s.Nop? && !s.Simple? { StmtRuns(sh, s, w, fuel); }
  }

  /** Status `rc` of statement `s` lets the chain go on past a connector. */
  predicate Passes(s: Stmt, isAnd: bool, rc: int) {
    s.Nop? || (rc == 0) == isAnd
  }

  /** A first mismatch of the connector skips the rest of the chain. */
  lemma ChainCut<S>(sh: Shell<S>, c: Chain, m: RMode, tail: Pipes, r: Regs, rc: int, w: World<S>, fuel: nat)
    requires Section(m) && Fresh(r) && Active(m, r) && c.Link? && Tagged(tail)
    requires !Passes(c.s, c.isAnd, rc)
    ensures Run(sh, FlatChain(c.rest, m, tail), AfterPipe(m, Conn(c.isAnd), r, c.s, rc), w, fuel)
         == Run(sh, tail, After(m, r, true, true, rc), w, fuel)
  {
    var r' := AfterPipe(m, Conn(c.isAnd), r, c.s, rc);
    ChainSkipped(sh, c.rest, m, tail, r', w, fuel);
    Resume(sh, tail, r'.(flagSkip := false), w, fuel);
    assert Forget(r'.(flagSkip := false)) == After(m, r, true, true, rc);
  }

  lemma AfterPipeAfter(m: RMode, r: Regs, s: Stmt, isAnd: bool, rc: int, ran: bool, rc': int)
    requires Section(m) && Fresh(r) && Active(m, r) && Passes(s, isAnd, rc) && rc >= -1
    requires s.Nop? ==> rc == r.rcode
    requires !ran ==> rc' == rc
    ensures var r' := AfterPipe(m, Conn(isAnd), r, s, rc);
            && Fresh(r') && Active(m, r') && r'.rcode == rc
            && After(m, r', true, ran, rc') == After(m, r, true, !s.Nop? || ran, rc')
  {
  }

  /** The rest of a chain, when its first command lets it go on. */
  lemma {:induction false} ChainGoesOn<S>(sh: Shell<S>, c: Chain, m: RMode, tail: Pipes, r: Regs, rc: int,
                                          w: World<S>, fuel: nat)
    requires Section(m) && Fresh(r) && Active(m, r) && c.Link? && GoodChain(c) && Tagged(tail)
    requires Passes(c.s, c.isAnd, rc) && rc >= -1 && (c.s.Nop? ==> rc == r.rcode)
    ensures Same(sh, tail, m, r, true, ChainHasCommand(c), EvalChain(sh, c.rest, w, rc, fuel),
                 Run(sh, FlatChain(c.rest, m, tail), AfterPipe(m, Conn(c.isAnd), r, c.s, rc), w, fuel), fuel)
    decreases fuel, c, 2
  {
    var e := EvalChain(sh, c.rest, w, rc, fuel);
    if !ChainHasCommand(c.rest) { BlankChain(sh, c.rest, w, rc, fuel); }
    AfterPipeAfter(m, r, c.s, c.isAnd, rc, ChainHasCommand(c.rest), if e.Finished? then e.rcode else rc);
    ChainRuns(sh, c.rest, m, tail, AfterPipe(m, Conn(c.isAnd), r, c.s, rc), w, fuel);
  }

  lemma {:induction false} ChainRuns<S>(sh: Shell<S>, c: Chain, m: RMode, tail: Pipes, r: Regs, w: World<S>, fuel: nat)
    requires Section(m) && Fresh(r) && Active(m, r) && GoodChain(c) && Tagged(tail)
    ensures Same(sh, tail, m, r, true, ChainHasCommand(c), EvalChain(sh, c, w, r.rcode, fuel),
                 Run(sh, FlatChain(c, m, tail), r, w, fuel), fuel)
    decreases fuel, c, 3
  {
    if c.One? {
      PipeRuns(sh, c.s, m, Seq, tail, r, w, fuel);
    } else {
      var o := if c.s.Nop? then Finished(w, r.rcode) else Settle(EvalStmt(sh, c.s, w, fuel));
      PipeRuns(sh, c.s, m, Conn(c.isAnd), FlatChain(c.rest, m, tail), r, w, fuel);
      if Continues(o) {
        if Passes(c.s, c.isAnd, o.rcode) {
          ChainGoesOn(sh, c, m, tail, r, o.rcode, o.w, fuel);
        } else {
          ChainCut(sh, c, m, tail, r, o.rcode, o.w, fuel);
        }
      }
    }
  }

  lemma AfterAfter(m: RMode, r: Regs, ran: bool, rc: int, some: bool, ran': bool, rc': int)
    requires Section(m) && Fresh(r) && Active(m, r) && rc >= -1
    requires !ran ==> rc == r.rcode
    requires !ran' ==> rc' == rc
    ensures var r' := After(m, r, true, ran, rc);
            && Fresh(r') && Active(m, r') && r'.rcode == rc
            && After(m, r', some, ran', rc') == After(m, r, true, ran || ran', rc')
  {
  }

  lemma {:induction false} ListRuns<S>(sh: Shell<S>, l: List, m: RMode, tail: Pipes, r: Regs, w: World<S>, fuel: nat)
    requires Section(m) && Fresh(r) && Active(m, r) && GoodList(l) && Tagged(tail)
    ensures Same(sh, tail, m, r, l.Cons?, HasCommand(l), EvalList(sh, l, w, r.rcode, fuel),
                 Run(sh, FlatList(l, m, tail), r, w, fuel), fuel)
    decreases fuel, l, 3
  {
    if l.Cons? {
      FlatIsTagged(l.rest, m, tail);
      ChainRuns(sh, l.c, m, FlatList(l.rest, m, tail), r, w, fuel);
      var o := EvalChain(sh, l.c, w, r.rcode, fuel);
      if Continues(o) {
        if !ChainHasCommand(l.c) { BlankChain(sh, l.c, w, r.rcode, fuel); }
        if !HasCommand(l.rest) { BlankList(sh, l.rest, o.w, o.rcode, fuel); }
        var e := EvalList(sh, l.rest, o.w, o.rcode, fuel);
        AfterAfter(m, r, ChainHasCommand(l.c), o.rcode, l.rest.Cons?, HasCommand(l.rest),
                   if e.Finished? then e.rcode else o.rcode);
        ListRuns(sh, l.rest, m, tail, After(m, r, true, ChainHasCommand(l.c), o.rcode), o.w, fuel);
      }
    }
  }

  /** A then, else or do section whose flags forbid it is passed over. */
  lemma {:induction false} ListPassed<S>(sh: Shell<S>, l: List, m: RMode, tail: Pipes, r: Regs, w: World<S>, fuel: nat)
    requires m in {Then, Else, Do} && Fresh(r) && !Active(m, r)
    ensures Run(sh, FlatList(l, m, tail), r, w, fuel) ==
            Run(sh, tail, if l.Cons? then Latch(m, r) else r, w, fuel)
  {
    if l.Cons? {
      ChainPassed(sh, l.c, m, FlatList(l.rest, m, tail), r, w, fuel);
      ListPassed(sh, l.rest, m, tail, Latch(m, r), w, fuel);
    }
  }

  lemma {:induction false} ChainPassed<S>(sh: Shell<S>, c: Chain, m: RMode, tail: Pipes, r: Regs, w: World<S>,
                                          fuel: nat)
    requires m in {Then, Else, Do} && Fresh(r) && !Active(m, r)
    ensures Run(sh, FlatChain(c, m, tail), r, w, fuel) == Run(sh, tail, Latch(m, r), w, fuel)
  {
    if c.Link? {
      ChainPassed(sh, c.rest, m, tail, Latch(m, r), w, fuel);
    }
  }

  lemma ListIsHead(l: List, m: RMode, tail: Pipes)
    requires l.Cons?
    ensures var pi := FlatList(l, m, tail); pi.Cell? && pi.p.rmode == m
  {
    assert FlatList(l, m, tail) == FlatChain(l.c, m, FlatList(l.rest, m, tail));
  }

  lemma TrailerRuns<S>(sh: Shell<S>, r: Regs, w: World<S>, fuel: nat)
    requires Fresh(r)
    ensures Run(sh, TRAILER, r, w, fuel) == Finished(w, r.rcode)
  {
    assert Run(sh, End, r, w, fuel) == Finished(w, r.rcode);
  }

  // ----- if -----

  lemma FiRuns<S>(sh: Shell<S>, r: Regs, w: World<S>, fuel: nat)
    requires Fresh(r)
    ensures Run(sh, Close(Fi), r, w, fuel) == Finished(w, r.rcode)
  {
    TrailerRuns(sh, r, w, fuel);
  }

  lemma {:induction false} ArmsSyntaxOk(a: Arms, first: bool)
    ensures SyntaxOk(FlatArms(a, first))
  {
    match a
    case EndArms =>
    case ElseArm(els) => ListSyntaxOk(els, Else, Close(Fi));
    case Arm(cond, thn, rest) =>
      ArmsSyntaxOk(rest, false);
      ListSyntaxOk(thn, Then, FlatArms(rest, false));
      ListSyntaxOk(cond, if first then If else Elif, FlatList(thn, Then, FlatArms(rest, false)));
  }

  lemma {:induction false} ListSyntaxOk(l: List, m: RMode, tail: Pipes)
    requires m != In && m != For && SyntaxOk(tail)
    ensures SyntaxOk(FlatList(l, m, tail))
  {
    if l.Cons? {
      ListSyntaxOk(l.rest, m, tail);
      ChainSyntaxOk(l.c, m, FlatList(l.rest, m, tail));
    }
  }

  lemma {:induction false} ChainSyntaxOk(c: Chain, m: RMode, tail: Pipes)
    requires m != In && m != For && SyntaxOk(tail)
    ensures SyntaxOk(FlatChain(c, m, tail))
  {
    if c.Link? {
      ChainSyntaxOk(c.rest, m, tail);
    }
  }

  /** Once a then part has run, the remaining arms do nothing. */
  lemma ArmsPassed<S>(sh: Shell<S>, a: Arms, r: Regs, w: World<S>, fuel: nat)
    requires Fresh(r) && r.nextIfCode == 0 && (a.Arm? ==> r.ifCode == 0 && a.cond.Cons?)
    ensures Run(sh, FlatArms(a, false), r, w, fuel) == Finished(w, r.rcode)
  {
    match a
    case EndArms => FiRuns(sh, r, w, fuel);
    case ElseArm(els) =>
      ListPassed(sh, els, Else, Close(Fi), r, w, fuel);
      FiRuns(sh, if els.Cons? then Latch(Else, r) else r, w, fuel);
    case Arm(cond, thn, rest) =>
      ListIsHead(cond, Elif, FlatList(thn, Then, FlatArms(rest, false)));
  }

  lemma {:induction false} ArmsRun<S>(sh: Shell<S>, a: Arms, first: bool, r: Regs, w: World<S>, fuel: nat)
    requires Fresh(r) && GoodArms(a) && r.nextIfCode == r.rcode
    requires if first then a.Arm? else r.rcode != 0 && (a.Arm? ==> r.ifCode != 0 && a.cond.Cons?)
    ensures Run(sh, FlatArms(a, first), r, w, fuel) == EvalArms(sh, a, w, r.rcode, fuel)
    decreases fuel, a, 2
  {
    match a
    case EndArms => FiRuns(sh, r, w, fuel);
    case ElseArm(els) =>
      ListRuns(sh, els, Else, Close(Fi), r, w, fuel);
      var e := EvalList(sh, els, w, r.rcode, fuel);
      if Continues(e) {
        if !HasCommand(els) { BlankList(sh, els, w, r.rcode, fuel); }
        FiRuns(sh, After(Else, r, els.Cons?, HasCommand(els), e.rcode), e.w, fuel);
      }
    case Arm(cond, thn, rest) =>
      var m := if first then If else Elif;
      var others := FlatArms(rest, false);
      var thens := FlatList(thn, Then, others);
      ArmsAreTagged(rest);
      FlatIsTagged(thn, Then, others);
      ListRuns(sh, cond, m, thens, r, w, fuel);
      var c := EvalList(sh, cond, w, r.rcode, fuel);
      if Continues(c) {
        var r1 := After(m, r, cond.Cons?, HasCommand(cond), c.rcode);
        if !HasCommand(cond) { BlankList(sh, cond, w, r.rcode, fuel); }
        if c.rcode == 0 {
          ThenRuns(sh, thn, rest, r1, c.w, fuel);
        } else {
          ListPassed(sh, thn, Then, others, r1, c.w, fuel);
          ArmsRun(sh, rest, false, if thn.Cons? then Latch(Then, r1) else r1, c.w, fuel);
        }
      }
  }

  /** After a condition that held: the then part is run and the other arms are passed. */
  lemma {:induction false} ThenRuns<S>(sh: Shell<S>, thn: List, rest: Arms, r: Regs, w: World<S>, fuel: nat)
    requires Fresh(r) && r.nextIfCode == r.rcode == 0 && GoodList(thn) && (rest.Arm? ==> thn.Cons? && rest.cond.Cons?)
    ensures Run(sh, FlatList(thn, Then, FlatArms(rest, false)), r, w, fuel) == EvalList(sh, thn, w, 0, fuel)
    decreases fuel, thn, 8
  {
    ArmsAreTagged(rest);
    ListRuns(sh, thn, Then, FlatArms(rest, false), r, w, fuel);
    var t := EvalList(sh, thn, w, 0, fuel);
    if Continues(t) {
      if !HasCommand(thn) { BlankList(sh, thn, w, 0, fuel); }
      ArmsPassed(sh, rest, After(Then, r, thn.Cons?, HasCommand(thn), t.rcode), t.w, fuel);
    }
  }

  lemma ArmsAreTagged(a: Arms)
    ensures Tagged(FlatArms(a, false))
  {
    match a
    case EndArms =>
    case ElseArm(els) => FlatIsTagged(els, Else, Close(Fi));
    case Arm(cond, thn, rest) =>
      ArmsAreTagged(rest);
      FlatIsTagged(thn, Then, FlatArms(rest, false));
      FlatIsTagged(cond, Elif, FlatList(thn, Then, FlatArms(rest, false)));
  }

  // ----- while and until -----

  lemma LoopSyntaxOk(s: Stmt)
    requires s.Loop?
    ensures SyntaxOk(FlatLoop(s))
  {
    ListSyntaxOk(s.body, Do, Close(Done));
    ListSyntaxOk(s.cond, LoopMode(s.until), FlatList(s.body, Do, Close(Done)));
  }

  lemma LoopIsHead(s: Stmt)
    requires s.Loop? && HasCommand(s.cond)
    ensures FlatLoop(s).Cell? && FlatLoop(s).p.rmode == LoopMode(s.until)
  {
    ListIsHead(s.cond, LoopMode(s.until), FlatList(s.body, Do, Close(Done)));
  }

  /** The end of a loop: leave it, or jump back to the remembered head. */
  lemma DoneRuns<S>(sh: Shell<S>, r: Regs, w: World<S>, fuel: nat)
    requires Fresh(r)
    ensures Run(sh, Close(Done), r, w, fuel) ==
            if !r.flagRep then Finished(w, r.rcode)
            else if fuel == 0 then OutOfFuel
            else Run(sh, r.rpipe, r.(flagRestore := true), w, fuel - 1)
  {
    if !r.flagRep {
      TrailerRuns(sh, r.(rpipe := End), w, fuel);
    }
  }

  /** The do part and `done`: skipped, or run and followed by the jump back. */
  lemma {:induction false} BodyRuns<S>(sh: Shell<S>, l: List, r: Regs, w: World<S>, fuel: nat)
    requires Fresh(r) && GoodList(l)
    ensures var b := EvalList(sh, l, w, r.rcode, fuel);
            Run(sh, FlatList(l, Do, Close(Done)), r, w, fuel) ==
            if !r.flagRep then Finished(w, r.rcode)
            else if !Continues(b) then b
            else if fuel == 0 then OutOfFuel
            else Run(sh, r.rpipe, r.(rcode := b.rcode, flagRestore := true), b.w, fuel - 1)
    decreases fuel, l, 4
  {
    if !r.flagRep {
      ListPassed(sh, l, Do, Close(Done), r, w, fuel);
      DoneRuns(sh, r, w, fuel);
    } else {
      ListRuns(sh, l, Do, Close(Done), r, w, fuel);
      var b := EvalList(sh, l, w, r.rcode, fuel);
      if Continues(b) {
        if !HasCommand(l) { BlankList(sh, l, w, r.rcode, fuel); }
        assert After(Do, r, l.Cons?, HasCommand(l), b.rcode) == r.(rcode := b.rcode);
        DoneRuns(sh, r.(rcode := b.rcode), b.w, fuel);
      }
    }
  }

  /** A jump back enters the head as if it had just been reached. */
  lemma JumpBack<S>(sh: Shell<S>, r: Regs, w: World<S>, fuel: nat)
    requires r.rpipe.Cell? && IsLoopHead(r.rpipe.p.rmode) && !r.flagRestore
    ensures Run(sh, r.rpipe, r.(flagRestore := true), w, fuel) == Run(sh, r.rpipe, r, w, fuel)
  {
    assert EnterHead(r.rpipe, r.(flagRestore := true)) == EnterHead(r.rpipe, r);
  }

  /** The do part, `done` and the head again. */
  lemma {:induction false} BodyTurns<S>(sh: Shell<S>, l: List, r: Regs, w: World<S>, fuel: nat)
    requires Fresh(r) && GoodList(l) && r.flagRep && r.rpipe.Cell? && IsLoopHead(r.rpipe.p.rmode)
    ensures var b := EvalList(sh, l, w, r.rcode, fuel);
            Run(sh, FlatList(l, Do, Close(Done)), r, w, fuel) ==
            if !Continues(b) then b
            else if fuel == 0 then OutOfFuel
            else Run(sh, r.rpipe, r.(rcode := b.rcode), b.w, fuel - 1)
    decreases fuel, l, 5
  {
    BodyRuns(sh, l, r, w, fuel);
    var b := EvalList(sh, l, w, r.rcode, fuel);
    if Continues(b) && fuel != 0 {
      JumpBack(sh, r.(rcode := b.rcode), b.w, fuel - 1);
    }
  }

  lemma {:induction false} LoopRuns<S>(sh: Shell<S>, s: Stmt, r: Regs, w: World<S>, fuel: nat)
    requires s.Loop? && GoodStmt(s) && Fresh(r) && r.rpipe == FlatLoop(s)
    ensures Run(sh, r.rpipe, r, w, fuel) == EvalLoop(sh, s, w, r.rcode, fuel)
    decreases fuel, s, 1
  {
    var m, body := LoopMode(s.until), FlatList(s.body, Do, Close(Done));
    LoopIsHead(s);
    FlatIsTagged(s.body, Do, Close(Done));
    ListRuns(sh, s.cond, m, body, r, w, fuel);
    var c := EvalList(sh, s.cond, w, r.rcode, fuel);
    if Continues(c) {
      LoopTurns(sh, s, After(m, r, true, true, c.rcode), c.w, fuel);
    }
  }

  /** After the condition: the loop is left, or goes round once more. */
  lemma {:induction false} LoopTurns<S>(sh: Shell<S>, s: Stmt, r: Regs, w: World<S>, fuel: nat)
    requires s.Loop? && GoodStmt(s) && Fresh(r) && r.rpipe == FlatLoop(s) && r.flagRep == ((r.rcode == 0) != s.until)
    ensures var b := EvalList(sh, s.body, w, r.rcode, fuel);
            Run(sh, FlatList(s.body, Do, Close(Done)), r, w, fuel) ==
            if !r.flagRep then Finished(w, r.rcode)
            else if !Continues(b) then b
            else if fuel == 0 then OutOfFuel
            else EvalLoop(sh, s, b.w, b.rcode, fuel - 1)
    decreases fuel, s, 0
  {
    if r.flagRep {
      LoopIsHead(s);
      BodyTurns(sh, s.body, r, w, fuel);
      var b := EvalList(sh, s.body, w, r.rcode, fuel);
      if Continues(b) && fuel != 0 { LoopRuns(sh, s, r.(rcode := b.rcode), b.w, fuel - 1); }
    } else {
      BodyRuns(sh, s.body, r, w, fuel);
    }
  }

  // ----- for -----

  lemma EachSyntaxOk(s: Stmt)
    requires s.Each?
    ensures SyntaxOk(FlatEach(s))
  {
    ListSyntaxOk(s.body, Do, Close(Done));
    BodyHasNoIn(s);
  }

  lemma BodyHasNoIn(s: Stmt)
    requires s.Each?
    ensures var pi := FlatList(s.body, Do, Close(Done)); pi.Cell? && (pi.p.rmode == Do || pi.p.rmode == Done)
  {
  }

  /** The `for` head passes over the `in` pipe to the body. */
  lemma InPassed<S>(sh: Shell<S>, s: Stmt, r: Regs, w: World<S>, fuel: nat)
    requires s.Each? && Fresh(r)
    ensures Run(sh, FlatEach(s).next, r, w, fuel) == Run(sh, FlatList(s.body, Do, Close(Done)), r, w, fuel)
  {
  }

  /** The `for` head: the binding, or the end of the list. */
  lemma HeadRuns<S>(sh: Shell<S>, s: Stmt, binds: seq<string>, r: Regs, w: World<S>, fuel: nat)
    requires s.Each? && Fresh(r) && r.rpipe == FlatEach(s) && r.list == Some(binds)
    ensures Run(sh, r.rpipe, r, w, fuel) ==
            if binds == [] then Run(sh, r.rpipe.next, r.(list := Null, flagRep := false), w, fuel)
            else
              var a := Settle(Call(sh, [binds[0]], w));
              if !Continues(a) then a
              else Run(sh, r.rpipe.next, r.(list := Some(binds[1..]), rcode := a.rcode), a.w, fuel)
  {
    if binds != [] {
      assert [s.v][0 := binds[0]] == [binds[0]];
    }
  }

  /** The first visit of the `for` head makes the list of bindings. */
  lemma EachStarts<S>(sh: Shell<S>, s: Stmt, w: World<S>, fuel: nat)
    requires s.Each? && GoodStmt(s)
    ensures Run(sh, FlatEach(s), INIT_REGS, w, fuel) == EvalStmt(sh, s, w, fuel)
    decreases fuel, s, 1
  {
    var pi := FlatEach(s);
    var r := INIT_REGS.(rpipe := pi);
    if s.items == [] {
      InPassed(sh, s, r, w, fuel);
      BodyRuns(sh, s.body, r, w, fuel);
    } else {
      var binds := Bind(s.v, sh.expand(s.items, w));
      var r1 := r.(list := Some(binds), flagRep := true);
      assert Decide(sh, pi, r, w) == Decide(sh, pi, r1, w);
      EachRuns(sh, s, binds, r1, w, fuel);
    }
  }

  lemma {:induction false} EachRuns<S>(sh: Shell<S>, s: Stmt, binds: seq<string>, r: Regs, w: World<S>, fuel: nat)
    requires s.Each? && GoodStmt(s) && Fresh(r) && r.rpipe == FlatEach(s)
    requires r.list == Some(binds) && r.flagRep
    ensures Run(sh, r.rpipe, r, w, fuel) == EvalEach(sh, s, binds, w, r.rcode, fuel)
    decreases fuel, s, 0
  {
    HeadRuns(sh, s, binds, r, w, fuel);
    if binds == [] {
      var r1 := r.(list := Null, flagRep := false);
      InPassed(sh, s, r1, w, fuel);
      BodyRuns(sh, s.body, r1, w, fuel);
    } else {
      var a := Settle(Call(sh, [binds[0]], w));
      if Continues(a) {
        var r1 := r.(list := Some(binds[1..]), rcode := a.rcode);
        InPassed(sh, s, r1, a.w, fuel);
        BodyRuns(sh, s.body, r1, a.w, fuel);
        var b := EvalList(sh, s.body, a.w, a.rcode, fuel);
        if Continues(b) && fuel != 0 {
          JumpBack(sh, r1.(rcode := b.rcode), b.w, fuel - 1);
          EachRuns(sh, s, binds[1..], r1.(rcode := b.rcode), b.w, fuel - 1);
        }
      }
    }
  }

  // ----- whole programs -----

  /** Interpreting the pipe list of any program, from any world and with any allowance of loop
      rounds, ends as the program means: same world, same return code, same `$?`, or both run on. */
  lemma ProgramRuns<S>(sh: Shell<S>, l: List, w: World<S>, fuel: nat)
    requires GoodList(l)
    ensures RunList(sh, FlatList(l, None, TRAILER), w, fuel) == EvalList(sh, l, w, 0, fuel)
  {
    ListSyntaxOk(l, None, TRAILER);
    ListRuns(sh, l, None, TRAILER, INIT_REGS, w, fuel);
    var o := EvalList(sh, l, w, 0, fuel);
    if Continues(o) {
      if !HasCommand(l) { BlankList(sh, l, w, 0, fuel); }
      TrailerRuns(sh, After(None, INIT_REGS, l.Cons?, HasCommand(l), o.rcode), o.w, fuel);
    }
  }

  // ----- termination -----

  /** A larger allowance of loop rounds never changes a finished run. */
  lemma {:induction false} RunMonotone<S>(sh: Shell<S>, pi: Pipes, r: Regs, w: World<S>, fuel: nat)
    ensures Run(sh, pi, r, w, fuel).Finished? ==> Run(sh, pi, r, w, fuel + 1) == Run(sh, pi, r, w, fuel)
    decreases fuel, pi, 0
  {
    if pi.Cell? {
      var a := Decide(sh, pi, EnterHead(pi, r), w);
      match a
      case Stop(_) =>
      case Skip(r') => AdvanceMonotone(sh, pi.next, r', w, fuel);
      case Go(r', body) =>
        if body.Group? { RunMonotone(sh, body.list, INIT_REGS, w, fuel); }
        var o := Settle(if body.Words? then Call(sh, body.argv, w) else RunList(sh, body.list, w, fuel));
        if Continues(o) { AdvanceMonotone(sh, pi.next, AfterCommand(r', pi.p, o.rcode), o.w, fuel); }
    }
  }

  lemma {:induction false} AdvanceMonotone<S>(sh: Shell<S>, next: Pipes, r: Regs, w: World<S>, fuel: nat)
    ensures Advance(sh, next, r, w, fuel).Finished? ==>
        Advance(sh, next, r, w, fuel + 1) == Advance(sh, next, r, w, fuel)
    decreases fuel, next, 1
  {
    if !r.flagRestore {
      RunMonotone(sh, next, r, w, fuel);
    } else if fuel != 0 {
      RunMonotone(sh, r.rpipe, r, w, fuel - 1);
    }
  }

  lemma {:induction false} RunListGrows<S>(sh: Shell<S>, pi: Pipes, w: World<S>, fuel: nat, more: nat)
    requires RunList(sh, pi, w, fuel).Finished?
    ensures RunList(sh, pi, w, fuel + more) == RunList(sh, pi, w, fuel)
    decreases more
  {
    if more != 0 {
      RunListGrows(sh, pi, w, fuel, more - 1);
      RunMonotone(sh, pi, INIT_REGS, w, fuel + more - 1);
    }
  }

  /** Running the list of `l` ends with `o`. */
  ghost predicate RunsTo<S>(sh: Shell<S>, l: List, w: World<S>, o: Outcome<S>) {
    o.Finished? && exists fuel: nat :: RunList(sh, FlatList(l, None, TRAILER), w, fuel) == o
  }

  /** The program `l` means `o`. */
  ghost predicate MeansTo<S>(sh: Shell<S>, l: List, w: World<S>, o: Outcome<S>) {
    o.Finished? && exists fuel: nat :: EvalList(sh, l, w, 0, fuel) == o
  }

  /** The interpreter stops exactly when the program does, with the same outcome, and there is only
      one outcome to stop with. */
  lemma RunIsMeaning<S>(sh: Shell<S>, l: List, w: World<S>, o: Outcome<S>, o': Outcome<S>)
    requires GoodList(l)
    ensures RunsTo(sh, l, w, o) <==> MeansTo(sh, l, w, o)
    ensures RunsTo(sh, l, w, o) && MeansTo(sh, l, w, o') ==> o == o'
  {
    forall fuel: nat {
      ProgramRuns(sh, l, w, fuel);
    }
    if RunsTo(sh, l, w, o) && MeansTo(sh, l, w, o') {
      var pi := FlatList(l, None, TRAILER);
      var f: nat :| RunList(sh, pi, w, f) == o;
      var f': nat :| EvalList(sh, l, w, 0, f') == o';
      ProgramRuns(sh, l, w, f');
      if f <= f' {
        RunListGrows(sh, pi, w, f, f' - f);
      } else {
        RunListGrows(sh, pi, w, f', f - f');
      }
    }
  }

  // ----- exit -----

  lemma {:induction false} RunCode<S>(sh: Shell<S>, pi: Pipes, r: Regs, w: World<S>, fuel: nat)
    requires r.rcode >= -1
    ensures var o := Run(sh, pi, r, w, fuel); o.Finished? ==> o.rcode >= -2
    decreases fuel, pi, 0
  {
    if pi.Cell? {
      match Decide(sh, pi, EnterHead(pi, r), w)
      case Stop(_) =>
      case Skip(r') => AdvanceCode(sh, pi.next, r', w, fuel);
      case Go(r', body) =>
        var o := Settle(if body.Words? then Call(sh, body.argv, w) else RunList(sh, body.list, w, fuel));
        if Continues(o) { AdvanceCode(sh, pi.next, AfterCommand(r', pi.p, o.rcode), o.w, fuel); }
    }
  }

  lemma {:induction false} AdvanceCode<S>(sh: Shell<S>, next: Pipes, r: Regs, w: World<S>, fuel: nat)
    requires r.rcode >= -1
    ensures var o := Advance(sh, next, r, w, fuel); o.Finished? ==> o.rcode >= -2
    decreases fuel, next, 1
  {
    if !r.flagRestore {
      RunCode(sh, next, r, w, fuel);
    } else if fuel != 0 {
      RunCode(sh, r.rpipe, r, w, fuel - 1);
    }
  }

  /** `exit n` as a command of the outermost list leaves n in `$?`; from inside any compound the
      status is lost: the enclosing list overwrites it with 0. */
  lemma ExitStatusOfCompoundIsLost<S>(sh: Shell<S>, s: Stmt, w: World<S>, fuel: nat)
    requires GoodStmt(s) && !s.Nop?
    requires EvalStmt(sh, s, w, fuel).Finished? && EvalStmt(sh, s, w, fuel).rcode < -1
    ensures var o := Settle(EvalStmt(sh, s, w, fuel));
            o.rcode == -2 && o.w.lastCode == if s.Simple? then -EvalStmt(sh, s, w, fuel).rcode - 2 else 0
  {
    if !s.Simple? {
      StmtRuns(sh, s, w, fuel);
      RunCode(sh, BodyOf(s).list, INIT_REGS, w, fuel);
    }
  }
}
