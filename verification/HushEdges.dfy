/** What the interpreter does with the programs `HushMeaning` leaves out: loops whose condition holds
    no command, and if commands with nothing between `then` and `elif` or between `elif` and `then`. */
module HushEdges {
  import opened HushSyntax
  import opened HushRun
  import opened HushMeaning

  // ----- loops without a condition -----

  /** A `while` over a blank condition ends only with a status other than 0. */
  lemma {:induction false} BlankWhileNeverZero<S>(sh: Shell<S>, s: Stmt, w: World<S>, rc: int, fuel: nat)
    requires s.Loop? && !s.until && !HasCommand(s.cond) && rc >= -1
    ensures var o := EvalLoop(sh, s, w, rc, fuel); o.Finished? ==> o.rcode != 0
    decreases fuel
  {
    BlankList(sh, s.cond, w, rc, fuel);
    if rc == 0 {
      var b := EvalList(sh, s.body, w, rc, fuel);
      if Continues(b) && fuel != 0 { BlankWhileNeverZero(sh, s, b.w, b.rcode, fuel - 1); }
    }
  }

  /** A loop whose condition holds no command never runs its body.  That is what it means exactly
      under `until`. */
  lemma BlankConditionNeverLoops<S>(sh: Shell<S>, s: Stmt, w: World<S>, fuel: nat)
    requires s.Loop? && !HasCommand(s.cond) && GoodList(s.cond) && GoodList(s.body)
    ensures RunList(sh, BodyOf(s).list, w, fuel) == Finished(w, 0)
    ensures RunList(sh, BodyOf(s).list, w, fuel) == EvalStmt(sh, s, w, fuel) <==> s.until
  {
    BlankLoopRuns(sh, s, w, fuel);
    BlankList(sh, s.cond, w, 0, fuel);
    if !s.until { BlankWhileNeverZero(sh, s, w, 0, fuel); }
  }

  lemma BlankLoopRuns<S>(sh: Shell<S>, s: Stmt, w: World<S>, fuel: nat)
    requires s.Loop? && !HasCommand(s.cond) && GoodList(s.cond) && GoodList(s.body)
    ensures RunList(sh, BodyOf(s).list, w, fuel) == Finished(w, 0)
  {
    var body := FlatList(s.body, Do, Close(Done));
    var m := LoopMode(s.until);
    LoopSyntaxOk(s);
    FlatIsTagged(s.body, Do, Close(Done));
    var r := INIT_REGS;
    if s.cond.Cons? {
      ListIsHead(s.cond, m, body);
      r := r.(rpipe := FlatLoop(s));
      assert EnterHead(FlatLoop(s), INIT_REGS) == EnterHead(FlatLoop(s), r);
      ListRuns(sh, s.cond, m, body, r, w, fuel);
      BlankList(sh, s.cond, w, 0, fuel);
      assert After(m, r, true, false, 0) == r;
      assert Run(sh, FlatLoop(s), r, w, fuel) == Run(sh, body, r, w, fuel);
      assert Run(sh, FlatLoop(s), INIT_REGS, w, fuel) == Run(sh, FlatLoop(s), r, w, fuel);
    } else {
      assert FlatLoop(s) == body;
    }
    BodyRuns(sh, s.body, r, w, fuel);
  }

  // ----- any arms, as they are run -----

  /** Conditions, then parts and else part are good; any of them may be empty. */
  predicate PartsGood(a: Arms) {
    match a
    case EndArms => true
    case ElseArm(els) => GoodList(els)
    case Arm(cond, thn, rest) => GoodList(cond) && GoodList(thn) && PartsGood(rest)
  }

  /** What the machine does with any arms.  It keeps two codes: `ifCode`, taken over when a then or else
      part has a pipe, lets the next `elif` be looked at; `nextIfCode`, the status of the last condition
      that held a command, lets a then or else part run. */
  function RunArms<S>(sh: Shell<S>, a: Arms, first: bool, ifCode: int, nextIfCode: int, w: World<S>, rc: int, fuel: nat)
    : Outcome<S>
    decreases a, 1
  {
    match a
    case EndArms => Finished(w, rc)
    case ElseArm(els) => if nextIfCode == 0 then Finished(w, rc) else EvalList(sh, els, w, rc, fuel)
    case Arm(cond, _, _) =>
      if !first && cond.Cons? && ifCode == 0 then Finished(w, rc)
      else
        var c := EvalList(sh, cond, w, rc, fuel);
        if !Continues(c) then c
        else RunThen(sh, a, ifCode, if HasCommand(cond) then c.rcode else nextIfCode, c.w, c.rcode, fuel)
  }

  /** From the then part on. */
  function RunThen<S>(sh: Shell<S>, a: Arms, ifCode: int, nextIfCode: int, w: World<S>, rc: int, fuel: nat): Outcome<S>
    requires a.Arm?
    decreases a, 0
  {
    var code := if a.thn.Cons? then nextIfCode else ifCode;
    if nextIfCode != 0 then RunArms(sh, a.rest, false, code, nextIfCode, w, rc, fuel)
    else
      var t := EvalList(sh, a.thn, w, rc, fuel);
      if !Continues(t) then t else RunArms(sh, a.rest, false, code, nextIfCode, t.w, t.rcode, fuel)
  }

  /** The pipes of any arms, from any setting of the two codes, run as just said. */
  lemma {:induction false} ArmsAsRun<S>(sh: Shell<S>, a: Arms, first: bool, r: Regs, w: World<S>, fuel: nat)
    requires Fresh(r) && PartsGood(a) && (first ==> a.Arm?)
    ensures Run(sh, FlatArms(a, first), r, w, fuel)
         == RunArms(sh, a, first, r.ifCode, r.nextIfCode, w, r.rcode, fuel)
    decreases a
  {
    match a
    case EndArms => FiRuns(sh, r, w, fuel);
    case ElseArm(els) => ElseAsRun(sh, els, r, w, fuel);
    case Arm(cond, thn, rest) =>
      var m := if first then If else Elif;
      var thens := FlatList(thn, Then, FlatArms(rest, false));
      ArmsAreTagged(rest);
      FlatIsTagged(thn, Then, FlatArms(rest, false));
      if m == Elif && cond.Cons? && r.ifCode == 0 {
        ListIsHead(cond, Elif, thens);
      } else {
        if cond.Cons? { ListRuns(sh, cond, m, thens, r, w, fuel); }
        var c := EvalList(sh, cond, w, r.rcode, fuel);
        if Continues(c) {
          if !HasCommand(cond) { BlankList(sh, cond, w, r.rcode, fuel); }
          ThenAsRun(sh, a, After(m, r, cond.Cons?, HasCommand(cond), c.rcode), c.w, fuel);
        }
      }
  }

  lemma ElseAsRun<S>(sh: Shell<S>, els: List, r: Regs, w: World<S>, fuel: nat)
    requires Fresh(r) && GoodList(els)
    ensures Run(sh, FlatList(els, Else, Close(Fi)), r, w, fuel)
         == if r.nextIfCode == 0 then Finished(w, r.rcode) else EvalList(sh, els, w, r.rcode, fuel)
  {
    if r.nextIfCode == 0 {
      ListPassed(sh, els, Else, Close(Fi), r, w, fuel);
      FiRuns(sh, if els.Cons? then Latch(Else, r) else r, w, fuel);
    } else {
      ListRuns(sh, els, Else, Close(Fi), r, w, fuel);
      var e := EvalList(sh, els, w, r.rcode, fuel);
      if Continues(e) {
        if !HasCommand(els) { BlankList(sh, els, w, r.rcode, fuel); }
        FiRuns(sh, After(Else, r, els.Cons?, HasCommand(els), e.rcode), e.w, fuel);
      }
    }
  }

  lemma {:induction false} ThenAsRun<S>(sh: Shell<S>, a: Arms, r: Regs, w: World<S>, fuel: nat)
    requires a.Arm? && Fresh(r) && PartsGood(a)
    ensures Run(sh, FlatList(a.thn, Then, FlatArms(a.rest, false)), r, w, fuel)
         == RunThen(sh, a, r.ifCode, r.nextIfCode, w, r.rcode, fuel)
    decreases a, 0
  {
    var others := FlatArms(a.rest, false);
    ArmsAreTagged(a.rest);
    if r.nextIfCode != 0 {
      ListPassed(sh, a.thn, Then, others, r, w, fuel);
      ArmsAsRun(sh, a.rest, false, if a.thn.Cons? then Latch(Then, r) else r, w, fuel);
    } else {
      ListRuns(sh, a.thn, Then, others, r, w, fuel);
      var t := EvalList(sh, a.thn, w, r.rcode, fuel);
      if Continues(t) {
        if !HasCommand(a.thn) { BlankList(sh, a.thn, w, r.rcode, fuel); }
        ArmsAsRun(sh, a.rest, false, After(Then, r, a.thn.Cons?, HasCommand(a.thn), t.rcode), t.w, fuel);
      }
    }
  }

  /** With no pipe between `then` and `elif`, in an arm at any position, whether that `elif` is looked at
      is decided by the code left from the arms before, not by the condition of this one. */
  lemma EmptyThenLooksBack<S>(sh: Shell<S>, a: Arms, first: bool, r: Regs, w: World<S>, fuel: nat)
    requires Fresh(r) && PartsGood(a) && a.Arm? && a.thn.Nil? && a.rest.Arm? && a.rest.cond.Cons?
    requires first || r.ifCode != 0
    requires Continues(EvalList(sh, a.cond, w, r.rcode, fuel))
    ensures var c := EvalList(sh, a.cond, w, r.rcode, fuel);
            var next := if HasCommand(a.cond) then c.rcode else r.nextIfCode;
            Run(sh, FlatArms(a, first), r, w, fuel) ==
            if r.ifCode == 0 then c else RunArms(sh, a.rest, false, r.ifCode, next, c.w, c.rcode, fuel)
  {
    ArmsAsRun(sh, a, first, r, w, fuel);
    var c := EvalList(sh, a.cond, w, r.rcode, fuel);
    var next := if HasCommand(a.cond) then c.rcode else r.nextIfCode;
    assert EvalList(sh, Nil, c.w, c.rcode, fuel) == Finished(c.w, c.rcode);
    assert RunThen(sh, a, r.ifCode, next, c.w, c.rcode, fuel)
        == RunArms(sh, a.rest, false, r.ifCode, next, c.w, c.rcode, fuel);
  }

  lemma {:induction false} AppendFlat(l: List, k: List, m: RMode, tail: Pipes)
    ensures FlatList(Append(l, k), m, tail) == FlatList(l, m, FlatList(k, m, tail))
  {
    if l.Cons? { AppendFlat(l.rest, k, m, tail); }
  }

  /** With no pipe between `elif` and `then`, the `elif` is not there: the pipes are those of one arm
      with both then parts, so both run when the first condition holds. */
  lemma EmptyElifJoinsThens(cond: List, thn: List, thn': List, rest: Arms, first: bool)
    ensures FlatArms(Arm(cond, thn, Arm(Nil, thn', rest)), first) == FlatArms(Arm(cond, Append(thn, thn'), rest), first)
  {
    AppendFlat(thn, thn', Then, FlatArms(rest, false));
    assert FlatArms(Arm(Nil, thn', rest), false) == FlatList(thn', Then, FlatArms(rest, false));
  }

  // ----- statements that call nothing -----

  /** Every call of a command leaves a mark in the world. */
  ghost predicate Records<S(!new)>(sh: Shell<S>, n: S -> nat) {
    forall argv: seq<string>, w: World<S> :: n(sh.exec(argv, w).0.s) > n(w.s)
  }

  /** Evaluation runs on, or has left a mark, if calls do. */
  ghost predicate Up<S(!new)>(sh: Shell<S>, n: S -> nat, o: Outcome<S>, w: World<S>) {
    Records(sh, n) ==> o.OutOfFuel? || n(o.w.s) > n(w.s)
  }

  /** No mark is ever lost. */
  ghost predicate Grew<S(!new)>(sh: Shell<S>, n: S -> nat, o: Outcome<S>, w: World<S>) {
    Records(sh, n) ==> o.OutOfFuel? || n(o.w.s) >= n(w.s)
  }

  function Zero<S>(w: World<S>): World<S> {
    w.(lastCode := 0)
  }

  function Passed<S>(l: List, w: World<S>): World<S> {
    if HasCommand(l) then Zero(w) else w
  }

  /** The statement comes to its end without a call: a `for` over no values, an `until` or an `if` over
      such statements. */
  predicate SilentStmt<S>(sh: Shell<S>, s: Stmt, w: World<S>)
    decreases s, 0
  {
    match s
    case Nop => true
    case Simple(_) => false
    case Cond(arms) => arms.Arm? && Silent(sh, arms.cond, w) && Silent(sh, arms.thn, Passed(arms.cond, w))
    case Loop(until, cond, _) => until && Silent(sh, cond, w)
    case Each(_, items, _) => items == [] || sh.expand(items, w) == []
  }

  predicate SilentChain<S>(sh: Shell<S>, c: Chain, w: World<S>)
    decreases c, 0
  {
    SilentStmt(sh, c.s, w) &&
    (c.Link? && (c.s.Nop? || c.isAnd) ==> SilentChain(sh, c.rest, if c.s.Nop? then w else Zero(w)))
  }

  predicate Silent<S>(sh: Shell<S>, l: List, w: World<S>)
    decreases l, 0
  {
    l.Cons? ==> SilentChain(sh, l.c, w) && Silent(sh, l.rest, if ChainHasCommand(l.c) then Zero(w) else w)
  }

  lemma {:induction false} BlankChainIsSilent<S>(sh: Shell<S>, c: Chain, w: World<S>)
    requires !ChainHasCommand(c)
    ensures SilentChain(sh, c, w)
  {
    if c.Link? { BlankChainIsSilent(sh, c.rest, w); }
  }

  lemma {:induction false} BlankIsSilent<S>(sh: Shell<S>, l: List, w: World<S>)
    requires !HasCommand(l)
    ensures Silent(sh, l, w)
  {
    if l.Cons? {
      BlankChainIsSilent(sh, l.c, w);
      BlankIsSilent(sh, l.rest, w);
    }
  }

  lemma {:induction false} GoodHasGoodParts(a: Arms)
    requires GoodArms(a)
    ensures PartsGood(a)
  {
    if a.Arm? { GoodHasGoodParts(a.rest); }
  }

  /** What evaluating a list leaves: nothing for a blank one, status 0 for one that calls nothing, a mark
      for any other. */
  ghost predicate ListLeaves<S(!new)>(sh: Shell<S>, n: S -> nat, l: List, w: World<S>, rc: int, o: Outcome<S>) {
    if !HasCommand(l) then o == Finished(w, rc)
    else if Silent(sh, l, w) then o == Finished(Zero(w), 0)
    else Up(sh, n, o, w)
  }

  lemma {:induction false} ListMoves<S(!new)>(sh: Shell<S>, n: S -> nat, l: List, w: World<S>, rc: int, fuel: nat)
    requires GoodList(l) && rc >= -1
    ensures ListLeaves(sh, n, l, w, rc, EvalList(sh, l, w, rc, fuel))
    decreases fuel, l, 3
  {
    if l.Cons? {
      ChainMoves(sh, n, l.c, w, rc, fuel);
      var o := EvalChain(sh, l.c, w, rc, fuel);
      if Continues(o) {
        ListMoves(sh, n, l.rest, o.w, o.rcode, fuel);
        if !ChainHasCommand(l.c) { BlankChainIsSilent(sh, l.c, w); }
        if !HasCommand(l.rest) { BlankIsSilent(sh, l.rest, o.w); }
      }
    }
  }

  lemma {:induction false} ChainMoves<S(!new)>(sh: Shell<S>, n: S -> nat, c: Chain, w: World<S>, rc: int, fuel: nat)
    requires GoodChain(c) && rc >= -1
    ensures var o := EvalChain(sh, c, w, rc, fuel);
            if !ChainHasCommand(c) then o == Finished(w, rc)
            else if SilentChain(sh, c, w) then o == Finished(Zero(w), 0)
            else Up(sh, n, o, w)
    decreases fuel, c, 3
  {
    if c.s.Nop? {
      if c.Link? {
        ChainMoves(sh, n, c.rest, w, rc, fuel);
        assert SilentStmt(sh, Nop, w);
        assert SilentChain(sh, c, w) <==> SilentChain(sh, c.rest, w);
      }
    } else {
      StmtMoves(sh, n, c.s, w, fuel);
      var o := Settle(EvalStmt(sh, c.s, w, fuel));
      if Continues(o) && c.Link? {
        ChainMoves(sh, n, c.rest, o.w, o.rcode, fuel);
        if !ChainHasCommand(c.rest) { BlankChainIsSilent(sh, c.rest, o.w); }
      }
    }
  }

  lemma {:induction false} StmtMoves<S(!new)>(sh: Shell<S>, n: S -> nat, s: Stmt, w: World<S>, fuel: nat)
    requires GoodStmt(s) && !s.Nop?
    ensures var o := Settle(EvalStmt(sh, s, w, fuel));
            if SilentStmt(sh, s, w) then o == Finished(Zero(w), 0) else Up(sh, n, o, w)
    decreases fuel, s, 2
  {
    match s
    case Simple(words) => assert Records(sh, n) ==> n(sh.exec(words, w).0.s) > n(w.s);
    case Cond(arms) => CondMoves(sh, n, arms, w, fuel);
    case Loop(_, _, _) => LoopMoves(sh, n, s, w, 0, fuel);
    case Each(v, items, _) =>
      EachMoves(sh, n, s, if items == [] then [] else Bind(v, sh.expand(items, w)), w, 0, fuel);
  }

  lemma {:induction false} CondMoves<S(!new)>(sh: Shell<S>, n: S -> nat, a: Arms, w: World<S>, fuel: nat)
    requires a.Arm? && GoodArms(a)
    ensures var o := Settle(EvalArms(sh, a, w, 0, fuel));
            if Silent(sh, a.cond, w) && Silent(sh, a.thn, Passed(a.cond, w)) then o == Finished(Zero(w), 0)
            else Up(sh, n, o, w)
    decreases fuel, a, 2
  {
    ListMoves(sh, n, a.cond, w, 0, fuel);
    if !HasCommand(a.cond) { BlankIsSilent(sh, a.cond, w); }
    GoodHasGoodParts(a);
    var c := EvalList(sh, a.cond, w, 0, fuel);
    if Continues(c) {
      if c.rcode == 0 {
        ListMoves(sh, n, a.thn, c.w, c.rcode, fuel);
        if !HasCommand(a.thn) { BlankIsSilent(sh, a.thn, c.w); }
      } else {
        ArmsGrow(sh, n, a.rest, c.w, c.rcode, fuel);
      }
    }
  }

  lemma {:induction false} ArmsGrow<S(!new)>(sh: Shell<S>, n: S -> nat, a: Arms, w: World<S>, rc: int, fuel: nat)
    requires PartsGood(a) && rc >= -1
    ensures Grew(sh, n, EvalArms(sh, a, w, rc, fuel), w)
    decreases fuel, a, 1
  {
    match a
    case EndArms =>
    case ElseArm(els) => ListMoves(sh, n, els, w, rc, fuel);
    case Arm(cond, thn, rest) =>
      ListMoves(sh, n, cond, w, rc, fuel);
      var c := EvalList(sh, cond, w, rc, fuel);
      if Continues(c) {
        if c.rcode == 0 {
          ListMoves(sh, n, thn, c.w, c.rcode, fuel);
        } else {
          ArmsGrow(sh, n, rest, c.w, c.rcode, fuel);
        }
      }
  }

  lemma {:induction false} LoopMoves<S(!new)>(sh: Shell<S>, n: S -> nat, s: Stmt, w: World<S>, rc: int, fuel: nat)
    requires s.Loop? && GoodStmt(s) && rc >= -1
    ensures var o := EvalLoop(sh, s, w, rc, fuel);
            if s.until && Silent(sh, s.cond, w) then o == Finished(Zero(w), 0) else Up(sh, n, o, w)
    decreases fuel, s, 1
  {
    ListMoves(sh, n, s.cond, w, rc, fuel);
    var c := EvalList(sh, s.cond, w, rc, fuel);
    if Continues(c) && (c.rcode == 0) != s.until {
      ListMoves(sh, n, s.body, c.w, c.rcode, fuel);
      var b := EvalList(sh, s.body, c.w, c.rcode, fuel);
      if Continues(b) && fuel != 0 { LoopMoves(sh, n, s, b.w, b.rcode, fuel - 1); }
    }
  }

  lemma {:induction false} EachMoves<S(!new)>(sh: Shell<S>, n: S -> nat, s: Stmt, binds: seq<string>, w: World<S>,
                                              rc: int, fuel: nat)
    requires s.Each? && GoodStmt(s) && rc >= -1
    ensures var o := EvalEach(sh, s, binds, w, rc, fuel);
            if binds == [] then o == Finished(w, rc) else Up(sh, n, o, w)
    decreases fuel, s, 1
  {
    if binds != [] {
      assert Records(sh, n) ==> n(sh.exec([binds[0]], w).0.s) > n(w.s);
      var a := Settle(Call(sh, [binds[0]], w));
      if Continues(a) {
        ListMoves(sh, n, s.body, a.w, a.rcode, fuel);
        var b := EvalList(sh, s.body, a.w, a.rcode, fuel);
        if Continues(b) && fuel != 0 { EachMoves(sh, n, s, binds[1..], b.w, b.rcode, fuel - 1); }
      }
    }
  }

  // ----- when arms do what they mean -----

  /** No condition and no else part holds a command. */
  predicate BlankArms(a: Arms) {
    match a
    case EndArms => true
    case ElseArm(els) => !HasCommand(els)
    case Arm(cond, _, rest) => !HasCommand(cond) && BlankArms(rest)
  }

  lemma {:induction false} BlankArmsDoNothing<S>(sh: Shell<S>, a: Arms, w: World<S>, rc: int, fuel: nat)
    requires BlankArms(a) && rc >= -1 && rc != 0
    ensures EvalArms(sh, a, w, rc, fuel) == Finished(w, rc)
    decreases a
  {
    match a
    case EndArms =>
    case ElseArm(els) => BlankList(sh, els, w, rc, fuel);
    case Arm(cond, _, rest) =>
      BlankList(sh, cond, w, rc, fuel);
      BlankArmsDoNothing(sh, rest, w, rc, fuel);
  }

  /** After a failed condition, arms that hold a command do not leave everything as it was. */
  lemma {:induction false} OtherArmsMove<S(!new)>(sh: Shell<S>, n: S -> nat, a: Arms, w: World<S>, rc: int, fuel: nat)
    requires Records(sh, n) && PartsGood(a) && !BlankArms(a) && rc >= -1 && rc != 0
    ensures EvalArms(sh, a, w, rc, fuel) != Finished(w, rc)
    decreases a
  {
    match a
    case ElseArm(els) => ListMoves(sh, n, els, w, rc, fuel);
    case Arm(cond, thn, rest) =>
      ListMoves(sh, n, cond, w, rc, fuel);
      var c := EvalList(sh, cond, w, rc, fuel);
      if !HasCommand(cond) {
        OtherArmsMove(sh, n, rest, w, rc, fuel);
      } else if Continues(c) {
        if c.rcode == 0 {
          ListMoves(sh, n, thn, c.w, c.rcode, fuel);
        } else {
          ArmsGrow(sh, n, rest, c.w, c.rcode, fuel);
        }
      }
  }

  /** Evaluating the list changes neither world nor status. */
  predicate Leaves<S>(sh: Shell<S>, l: List, w: World<S>, rc: int) {
    !HasCommand(l) || (Silent(sh, l, w) && rc == 0 && w.lastCode == 0)
  }

  /** Once a then part has run, the machine gets to the end without doing anything: it meets an `elif`
      that is not to be looked at, or only parts that change nothing. */
  predicate StaysOut<S>(sh: Shell<S>, a: Arms, ifCode: int, w: World<S>, rc: int) {
    match a
    case EndArms => true
    case ElseArm(_) => true
    case Arm(cond, thn, rest) =>
      (cond.Cons? && ifCode == 0) ||
      (Leaves(sh, cond, w, rc) && Leaves(sh, thn, w, rc) && StaysOut(sh, rest, if thn.Cons? then 0 else ifCode, w, rc))
  }

  lemma LeavesIs<S(!new)>(sh: Shell<S>, n: S -> nat, l: List, w: World<S>, rc: int, fuel: nat)
    requires GoodList(l) && rc >= -1 && Leaves(sh, l, w, rc)
    ensures EvalList(sh, l, w, rc, fuel) == Finished(w, rc)
  {
    ListMoves(sh, n, l, w, rc, fuel);
    assert w.lastCode == 0 ==> Zero(w) == w;
  }

  lemma {:induction false} StaysOutDoesNothing<S(!new)>(sh: Shell<S>, n: S -> nat, a: Arms, ifCode: int, w: World<S>,
                                                        rc: int, fuel: nat)
    requires PartsGood(a) && rc >= -1 && StaysOut(sh, a, ifCode, w, rc)
    ensures RunArms(sh, a, false, ifCode, 0, w, rc, fuel) == Finished(w, rc)
    decreases a
  {
    if a.Arm? && !(a.cond.Cons? && ifCode == 0) {
      LeavesIs(sh, n, a.cond, w, rc, fuel);
      LeavesIs(sh, n, a.thn, w, rc, fuel);
      StaysOutDoesNothing(sh, n, a.rest, if a.thn.Cons? then 0 else ifCode, w, rc, fuel);
    }
  }

  lemma {:induction false} RunArmsGrow<S(!new)>(sh: Shell<S>, n: S -> nat, a: Arms, ifCode: int, nextIfCode: int,
                                                w: World<S>, rc: int, fuel: nat)
    requires PartsGood(a) && rc >= -1
    ensures Grew(sh, n, RunArms(sh, a, false, ifCode, nextIfCode, w, rc, fuel), w)
    decreases a, 1
  {
    match a
    case EndArms =>
    case ElseArm(els) => ListMoves(sh, n, els, w, rc, fuel);
    case Arm(cond, _, _) =>
      ListMoves(sh, n, cond, w, rc, fuel);
      var c := EvalList(sh, cond, w, rc, fuel);
      if Continues(c) {
        ThenGrows(sh, n, a, ifCode, if HasCommand(cond) then c.rcode else nextIfCode, c.w, c.rcode, fuel);
      }
  }

  lemma {:induction false} ThenGrows<S(!new)>(sh: Shell<S>, n: S -> nat, a: Arms, ifCode: int, nextIfCode: int,
                                              w: World<S>, rc: int, fuel: nat)
    requires a.Arm? && PartsGood(a) && rc >= -1
    ensures Grew(sh, n, RunThen(sh, a, ifCode, nextIfCode, w, rc, fuel), w)
    decreases a, 0
  {
    var code := if a.thn.Cons? then nextIfCode else ifCode;
    if nextIfCode != 0 {
      RunArmsGrow(sh, n, a.rest, code, nextIfCode, w, rc, fuel);
    } else {
      ListMoves(sh, n, a.thn, w, rc, fuel);
      var t := EvalList(sh, a.thn, w, rc, fuel);
      if Continues(t) { RunArmsGrow(sh, n, a.rest, code, nextIfCode, t.w, t.rcode, fuel); }
    }
  }

  /** From status 0 on, the machine leaves a mark or nothing. */
  lemma {:induction false} FromZero<S(!new)>(sh: Shell<S>, n: S -> nat, a: Arms, ifCode: int, w: World<S>, fuel: nat)
    requires PartsGood(a) && w.lastCode == 0
    ensures var o := RunArms(sh, a, false, ifCode, 0, w, 0, fuel); o == Finished(w, 0) || Up(sh, n, o, w)
    decreases a, 1
  {
    if a.Arm? {
      assert Zero(w) == w;
      ListMoves(sh, n, a.cond, w, 0, fuel);
      var c := EvalList(sh, a.cond, w, 0, fuel);
      if c == Finished(w, 0) {
        ThenFromZero(sh, n, a, ifCode, w, fuel);
      } else if Continues(c) {
        ThenGrows(sh, n, a, ifCode, if HasCommand(a.cond) then c.rcode else 0, c.w, c.rcode, fuel);
      }
    }
  }

  lemma {:induction false} ThenFromZero<S(!new)>(sh: Shell<S>, n: S -> nat, a: Arms, ifCode: int, w: World<S>,
                                                 fuel: nat)
    requires a.Arm? && PartsGood(a) && w.lastCode == 0
    ensures var o := RunThen(sh, a, ifCode, 0, w, 0, fuel); o == Finished(w, 0) || Up(sh, n, o, w)
    decreases a, 0
  {
    assert Zero(w) == w;
    ListMoves(sh, n, a.thn, w, 0, fuel);
    var t := EvalList(sh, a.thn, w, 0, fuel);
    var code := if a.thn.Cons? then 0 else ifCode;
    if t == Finished(w, 0) {
      FromZero(sh, n, a.rest, code, w, fuel);
    } else if Continues(t) {
      RunArmsGrow(sh, n, a.rest, code, 0, t.w, t.rcode, fuel);
    }
  }

  /** If the machine does not stay out, it does not leave everything as it was. */
  lemma {:induction false} StepsInMoves<S(!new)>(sh: Shell<S>, n: S -> nat, a: Arms, ifCode: int, w: World<S>,
                                                 rc: int, fuel: nat)
    requires Records(sh, n) && PartsGood(a) && rc >= -1 && !StaysOut(sh, a, ifCode, w, rc)
    ensures RunArms(sh, a, false, ifCode, 0, w, rc, fuel) != Finished(w, rc)
    decreases a, 1
  {
    ListMoves(sh, n, a.cond, w, rc, fuel);
    var c := EvalList(sh, a.cond, w, rc, fuel);
    if Leaves(sh, a.cond, w, rc) {
      LeavesIs(sh, n, a.cond, w, rc, fuel);
      ThenMoves(sh, n, a, ifCode, w, rc, fuel);
    } else if Silent(sh, a.cond, w) {
      ThenFromZero(sh, n, a, ifCode, Zero(w), fuel);
    } else if Continues(c) {
      ThenGrows(sh, n, a, ifCode, c.rcode, c.w, c.rcode, fuel);
    }
  }

  lemma {:induction false} ThenMoves<S(!new)>(sh: Shell<S>, n: S -> nat, a: Arms, ifCode: int, w: World<S>, rc: int,
                                              fuel: nat)
    requires Records(sh, n) && a.Arm? && PartsGood(a) && rc >= -1
    requires !(Leaves(sh, a.thn, w, rc) && StaysOut(sh, a.rest, if a.thn.Cons? then 0 else ifCode, w, rc))
    ensures RunThen(sh, a, ifCode, 0, w, rc, fuel) != Finished(w, rc)
    decreases a, 0
  {
    var code := if a.thn.Cons? then 0 else ifCode;
    ListMoves(sh, n, a.thn, w, rc, fuel);
    var t := EvalList(sh, a.thn, w, rc, fuel);
    if Leaves(sh, a.thn, w, rc) {
      LeavesIs(sh, n, a.thn, w, rc, fuel);
      StepsInMoves(sh, n, a.rest, code, w, rc, fuel);
    } else if Silent(sh, a.thn, w) {
      FromZero(sh, n, a.rest, code, Zero(w), fuel);
    } else if Continues(t) {
      RunArmsGrow(sh, n, a.rest, code, 0, t.w, t.rcode, fuel);
    }
  }

  /** The exact condition, arm by arm, while both the machine and the meaning look for a true condition:
      once one holds, the machine must stay out of the later arms; once one fails, either the machine
      looks at the next `elif` too, or the later arms hold no command.  It depends on the conditions
      evaluated so far, on the then part of the condition that holds, and on what `expand` gives in the
      world that part leaves; the later arms are not evaluated. */
  predicate Agrees<S>(sh: Shell<S>, a: Arms, ifCode: int, w: World<S>, rc: int, fuel: nat)
    decreases a
  {
    a.Arm? ==>
      var c := EvalList(sh, a.cond, w, rc, fuel);
      Continues(c) ==>
        var code := if a.thn.Cons? then c.rcode else ifCode;
        if c.rcode == 0 then
          var t := EvalList(sh, a.thn, c.w, c.rcode, fuel);
          Continues(t) ==> StaysOut(sh, a.rest, code, t.w, t.rcode)
        else if a.rest.Arm? && a.rest.cond.Cons? && code == 0 then BlankArms(a.rest)
        else Agrees(sh, a.rest, code, c.w, c.rcode, fuel)
  }

  lemma {:induction false} AgreesIsEnough<S(!new)>(sh: Shell<S>, n: S -> nat, a: Arms, first: bool, ifCode: int,
                                                   w: World<S>, rc: int, fuel: nat)
    requires PartsGood(a) && rc >= -1 && (a.ElseArm? ==> rc != 0)
    requires first || a.EndArms? || a.ElseArm? || a.cond.Nil? || ifCode != 0
    requires Agrees(sh, a, ifCode, w, rc, fuel)
    ensures RunArms(sh, a, first, ifCode, rc, w, rc, fuel) == EvalArms(sh, a, w, rc, fuel)
    decreases a
  {
    if a.Arm? {
      if !HasCommand(a.cond) { BlankList(sh, a.cond, w, rc, fuel); }
      var c := EvalList(sh, a.cond, w, rc, fuel);
      if Continues(c) {
        var code := if a.thn.Cons? then c.rcode else ifCode;
        if c.rcode == 0 {
          var t := EvalList(sh, a.thn, c.w, c.rcode, fuel);
          if Continues(t) { StaysOutDoesNothing(sh, n, a.rest, code, t.w, t.rcode, fuel); }
        } else if a.rest.Arm? && a.rest.cond.Cons? && code == 0 {
          BlankArmsDoNothing(sh, a.rest, c.w, c.rcode, fuel);
          assert RunArms(sh, a.rest, false, code, c.rcode, c.w, c.rcode, fuel) == Finished(c.w, c.rcode);
        } else {
          AgreesIsEnough(sh, n, a.rest, false, code, c.w, c.rcode, fuel);
        }
      }
    }
  }

  lemma {:induction false} AgreesIsNeeded<S(!new)>(sh: Shell<S>, n: S -> nat, a: Arms, first: bool, ifCode: int,
                                                   w: World<S>, rc: int, fuel: nat)
    requires Records(sh, n) && PartsGood(a) && rc >= -1 && (a.ElseArm? ==> rc != 0)
    requires first || a.EndArms? || a.ElseArm? || a.cond.Nil? || ifCode != 0
    requires !Agrees(sh, a, ifCode, w, rc, fuel)
    ensures RunArms(sh, a, first, ifCode, rc, w, rc, fuel) != EvalArms(sh, a, w, rc, fuel)
    decreases a
  {
    if !HasCommand(a.cond) { BlankList(sh, a.cond, w, rc, fuel); }
    var c := EvalList(sh, a.cond, w, rc, fuel);
    var code := if a.thn.Cons? then c.rcode else ifCode;
    if c.rcode == 0 {
      var t := EvalList(sh, a.thn, c.w, c.rcode, fuel);
      StepsInMoves(sh, n, a.rest, code, t.w, t.rcode, fuel);
    } else if a.rest.Arm? && a.rest.cond.Cons? && code == 0 {
      OtherArmsMove(sh, n, a.rest, c.w, c.rcode, fuel);
      assert RunArms(sh, a.rest, false, code, c.rcode, c.w, c.rcode, fuel) == Finished(c.w, c.rcode);
    } else {
      AgreesIsNeeded(sh, n, a.rest, false, code, c.w, c.rcode, fuel);
    }
  }

  /** For every if command, whatever parts are empty: running its pipes gives its meaning when the
      condition holds, and, on a shell where every call of a command leaves a mark, only then. */
  lemma IfAgrees<S(!new)>(sh: Shell<S>, n: S -> nat, a: Arms, w: World<S>, fuel: nat)
    requires a.Arm? && PartsGood(a)
    ensures Agrees(sh, a, 0, w, 0, fuel) ==>
        RunList(sh, BodyOf(Cond(a)).list, w, fuel) == EvalStmt(sh, Cond(a), w, fuel)
    ensures Records(sh, n) ==>
            (Agrees(sh, a, 0, w, 0, fuel) <==>
             RunList(sh, BodyOf(Cond(a)).list, w, fuel) == EvalStmt(sh, Cond(a), w, fuel))
  {
    ArmsSyntaxOk(a, true);
    ArmsAsRun(sh, a, true, INIT_REGS, w, fuel);
    if Agrees(sh, a, 0, w, 0, fuel) {
      AgreesIsEnough(sh, n, a, true, 0, w, 0, fuel);
    } else if Records(sh, n) {
      AgreesIsNeeded(sh, n, a, true, 0, w, 0, fuel);
    }
  }

  /** The condition can be read off the program when every `elif` has a pipe on both sides. */
  lemma {:induction false} GoodAgrees<S>(sh: Shell<S>, a: Arms, ifCode: int, w: World<S>, rc: int, fuel: nat)
    requires GoodArms(a)
    ensures Agrees(sh, a, ifCode, w, rc, fuel)
    decreases a
  {
    if a.Arm? {
      var c := EvalList(sh, a.cond, w, rc, fuel);
      if Continues(c) && c.rcode != 0 {
        GoodAgrees(sh, a.rest, if a.thn.Cons? then c.rcode else ifCode, c.w, c.rcode, fuel);
      }
    }
  }

  // ----- inputs where it fails -----

  /** A shell that counts its commands; the command `false` fails and all others succeed. */
  const COUNTING: Shell<nat> := Shell(
    (argv: seq<string>, w: World<nat>) => (World(w.s + 1, w.lastCode), if argv == ["false"] then 1 else 0),
    (words: seq<string>, w: World<nat>) => words)

  function Just(word: string): List {
    Cons(One(Simple([word])), Nil)
  }

  lemma JustRuns(word: string, w: World<nat>, rc: int, fuel: nat)
    ensures var code := if word == "false" then 1 else 0;
            EvalList(COUNTING, Just(word), w, rc, fuel) == Finished(World(w.s + 1, code), code)
    ensures HasCommand(Just(word)) && GoodList(Just(word)) && !Silent(COUNTING, Just(word), w)
  {
    var code := if word == "false" then 1 else 0;
    assert [word] == ["false"] <==> word == "false" by { assert [word][0] == word && ["false"][0] == "false"; }
    assert Call(COUNTING, [word], w) == Finished(World(w.s + 1, w.lastCode), code);
    assert EvalStmt(COUNTING, Simple([word]), w, fuel) == Call(COUNTING, [word], w);
    assert EvalChain(COUNTING, One(Simple([word])), w, rc, fuel) == Finished(World(w.s + 1, code), code);
    assert EvalList(COUNTING, Nil, World(w.s + 1, code), code, fuel) == Finished(World(w.s + 1, code), code);
    assert !SilentChain(COUNTING, One(Simple([word])), w);
  }

  /** `if false; then elif x; then y; fi`, `if false; then x; elif true; then elif y; then z; fi` and
      `if true; then x; elif then y; fi` do not do what they mean. */
  lemma EmptyPartsDiffer(w: World<nat>, fuel: nat)
    ensures var a := Arm(Just("false"), Nil, Arm(Just("x"), Just("y"), EndArms));
            RunList(COUNTING, BodyOf(Cond(a)).list, w, fuel) != EvalStmt(COUNTING, Cond(a), w, fuel)
    ensures var a := Arm(Just("false"), Just("x"), Arm(Just("true"), Nil, Arm(Just("y"), Just("z"), EndArms)));
            RunList(COUNTING, BodyOf(Cond(a)).list, w, fuel) != EvalStmt(COUNTING, Cond(a), w, fuel)
    ensures var a := Arm(Just("true"), Just("x"), Arm(Nil, Just("y"), EndArms));
            RunList(COUNTING, BodyOf(Cond(a)).list, w, fuel) != EvalStmt(COUNTING, Cond(a), w, fuel)
  {
    FirstEmptyThen(w, fuel);
    LaterEmptyThen(w, fuel);
    EmptyElif(w, fuel);
  }

  lemma FirstEmptyThen(w: World<nat>, fuel: nat)
    ensures var a := Arm(Just("false"), Nil, Arm(Just("x"), Just("y"), EndArms));
            RunList(COUNTING, BodyOf(Cond(a)).list, w, fuel) != EvalStmt(COUNTING, Cond(a), w, fuel)
  {
    var a := Arm(Just("false"), Nil, Arm(Just("x"), Just("y"), EndArms));
    JustRuns("false", w, 0, fuel);
    JustRuns("x", w, 0, fuel);
    JustRuns("y", w, 0, fuel);
    assert PartsGood(a.rest) && !BlankArms(a.rest);
    IfAgrees(COUNTING, (x: nat) => x, a, w, fuel);
  }

  lemma LaterEmptyThen(w: World<nat>, fuel: nat)
    ensures var a := Arm(Just("false"), Just("x"), Arm(Just("true"), Nil, Arm(Just("y"), Just("z"), EndArms)));
            RunList(COUNTING, BodyOf(Cond(a)).list, w, fuel) != EvalStmt(COUNTING, Cond(a), w, fuel)
  {
    var a3 := Arm(Just("y"), Just("z"), EndArms);
    var a2 := Arm(Just("true"), Nil, a3);
    var a := Arm(Just("false"), Just("x"), a2);
    var w1 := World(w.s + 1, 1);
    var w2 := World(w.s + 2, 0);
    JustRuns("false", w, 0, fuel);
    JustRuns("true", w1, 1, fuel);
    JustRuns("x", w2, 0, fuel);
    JustRuns("y", w2, 0, fuel);
    JustRuns("z", w2, 0, fuel);
    assert PartsGood(a3) && PartsGood(a2);
    assert EvalList(COUNTING, Nil, w2, 0, fuel) == Finished(w2, 0);
    assert !StaysOut(COUNTING, a3, 1, w2, 0);
    assert !Agrees(COUNTING, a2, 1, w1, 1, fuel);
    IfAgrees(COUNTING, (x: nat) => x, a, w, fuel);
  }

  lemma EmptyElif(w: World<nat>, fuel: nat)
    ensures var a := Arm(Just("true"), Just("x"), Arm(Nil, Just("y"), EndArms));
            RunList(COUNTING, BodyOf(Cond(a)).list, w, fuel) != EvalStmt(COUNTING, Cond(a), w, fuel)
  {
    var a2 := Arm(Nil, Just("y"), EndArms);
    var a := Arm(Just("true"), Just("x"), a2);
    var w1 := World(w.s + 1, 0);
    var w2 := World(w.s + 2, 0);
    JustRuns("true", w, 0, fuel);
    JustRuns("x", w1, 0, fuel);
    JustRuns("y", w2, 0, fuel);
    assert PartsGood(a2);
    assert !StaysOut(COUNTING, a2, 0, w2, 0);
    IfAgrees(COUNTING, (x: nat) => x, a, w, fuel);
  }
}
