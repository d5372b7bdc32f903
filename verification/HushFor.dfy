/** What a `for` command calls, value by value, and what its body sees in the variables. */
module HushFor {
  import opened HushSyntax
  import opened HushRun
  import opened HushMeaning
  import V = HushVars

  // ----- any shell -----

  /** One round: the assignment `v=value` is called, then the body runs. */
  function Round<S>(sh: Shell<S>, v: string, x: string, body: List, w: World<S>, fuel: nat): Outcome<S> {
    var a := Settle(Call(sh, [v + "=" + x], w));
    if Continues(a) then EvalList(sh, body, a.w, a.rcode, fuel) else a
  }

  /** The values in turn. */
  function Rounds<S>(sh: Shell<S>, v: string, vs: seq<string>, body: List, w: World<S>, rc: int, fuel: nat): Outcome<S>
    decreases |vs|
  {
    if vs == [] then Finished(w, rc)
    else
      var b := Round(sh, v, vs[0], body, w, fuel);
      if !Continues(b) then b
      else if fuel == 0 then OutOfFuel
      else Rounds(sh, v, vs[1..], body, b.w, b.rcode, fuel - 1)
  }

  lemma {:induction false} EachIsRounds<S>(sh: Shell<S>, s: Stmt, vs: seq<string>, w: World<S>, rc: int, fuel: nat)
    requires s.Each?
    ensures EvalEach(sh, s, Bind(s.v, vs), w, rc, fuel) == Rounds(sh, s.v, vs, s.body, w, rc, fuel)
    decreases |vs|
  {
    if vs != [] {
      assert Bind(s.v, vs)[1..] == Bind(s.v, vs[1..]);
      var a := Settle(Call(sh, [s.v + "=" + vs[0]], w));
      if Continues(a) {
        var b := EvalList(sh, s.body, a.w, a.rcode, fuel);
        if Continues(b) && fuel != 0 { EachIsRounds(sh, s, vs[1..], b.w, b.rcode, fuel - 1); }
      }
    }
  }

  /** Running the pipes of a `for` goes through the values that `expand` gives for its words, in order. */
  lemma ForRuns<S>(sh: Shell<S>, v: string, items: seq<string>, body: List, w: World<S>, fuel: nat)
    requires GoodList(body)
    ensures RunList(sh, BodyOf(Each(v, items, body)).list, w, fuel) ==
            Rounds(sh, v, if items == [] then [] else sh.expand(items, w), body, w, 0, fuel)
  {
    var s := Each(v, items, body);
    StmtRuns(sh, s, w, fuel);
    EachIsRounds(sh, s, if items == [] then [] else sh.expand(items, w), w, 0, fuel);
    assert items == [] ==> Bind(v, []) == [];
  }

  /** A round in which everything succeeds. */
  lemma RoundStep<S>(sh: Shell<S>, v: string, vs: seq<string>, body: List, w: World<S>, one: World<S>, two: World<S>,
                     fuel: nat)
    requires vs != [] && fuel > 0 && Call(sh, [v + "=" + vs[0]], w) == Finished(one, 0) && one.lastCode == 0
    requires EvalList(sh, body, one, 0, fuel) == Finished(two, 0)
    ensures Rounds(sh, v, vs, body, w, 0, fuel) == Rounds(sh, v, vs[1..], body, two, 0, fuel - 1)
  {
  }

  // ----- what is called -----

  /** The commands of a list, one after the other. */
  function Commands(argvs: seq<seq<string>>): List {
    if argvs == [] then Nil else Cons(One(Simple(argvs[0])), Commands(argvs[1..]))
  }

  lemma {:induction false} CommandsAreGood(argvs: seq<seq<string>>)
    requires forall i :: 0 <= i < |argvs| ==> argvs[i] != []
    ensures GoodList(Commands(argvs))
  {
    if argvs != [] { CommandsAreGood(argvs[1..]); }
  }

  /** A command that succeeds, and the commands after it. */
  lemma CommandStep<S>(sh: Shell<S>, argvs: seq<seq<string>>, w: World<S>, one: World<S>, fuel: nat)
    requires argvs != [] && Call(sh, argvs[0], w) == Finished(one, 0) && one.lastCode == 0
    ensures EvalList(sh, Commands(argvs), w, 0, fuel) == EvalList(sh, Commands(argvs[1..]), one, 0, fuel)
  {
    var c := One(Simple(argvs[0]));
    assert EvalStmt(sh, c.s, w, fuel) == Finished(one, 0);
    assert EvalChain(sh, c, w, 0, fuel) == Finished(one, 0);
  }

  /** A shell that writes down every argument vector it is called with; every command succeeds. */
  function Recorder(expand: seq<string> -> seq<string>): Shell<seq<seq<string>>> {
    Shell((argv: seq<string>, w: World<seq<seq<string>>>) => (World(w.s + [argv], w.lastCode), 0),
          (items: seq<string>, w: World<seq<seq<string>>>) => expand(items))
  }

  lemma {:induction false} CommandsAreCalled(expand: seq<string> -> seq<string>, argvs: seq<seq<string>>,
                                             w: World<seq<seq<string>>>, fuel: nat)
    requires w.lastCode == 0
    ensures EvalList(Recorder(expand), Commands(argvs), w, 0, fuel) == Finished(World(w.s + argvs, 0), 0)
    decreases |argvs|
  {
    if argvs == [] {
      assert w.s + argvs == w.s;
    } else {
      var w' := World(w.s + [argvs[0]], 0);
      CommandStep(Recorder(expand), argvs, w, w', fuel);
      CommandsAreCalled(expand, argvs[1..], w', fuel);
      assert w'.s + argvs[1..] == w.s + argvs;
    }
  }

  /** For each value its assignment, then the commands of the body. */
  function Log(v: string, vs: seq<string>, argvs: seq<seq<string>>): seq<seq<string>> {
    if vs == [] then [] else [[v + "=" + vs[0]]] + argvs + Log(v, vs[1..], argvs)
  }

  lemma RoundIsCalled(expand: seq<string> -> seq<string>, v: string, vs: seq<string>,
                      argvs: seq<seq<string>>, w: World<seq<seq<string>>>, fuel: nat)
    requires w.lastCode == 0 && vs != [] && fuel > 0
    ensures Rounds(Recorder(expand), v, vs, Commands(argvs), w, 0, fuel) ==
            Rounds(Recorder(expand), v, vs[1..], Commands(argvs), World(w.s + [[v + "=" + vs[0]]] + argvs, 0), 0,
                   fuel - 1)
  {
    var one := World(w.s + [[v + "=" + vs[0]]], 0);
    CommandsAreCalled(expand, argvs, one, fuel);
    RoundStep(Recorder(expand), v, vs, Commands(argvs), w, one, World(one.s + argvs, 0), fuel);
  }

  lemma {:induction false} RoundsAreCalled(expand: seq<string> -> seq<string>, v: string, vs: seq<string>,
                                           argvs: seq<seq<string>>, w: World<seq<seq<string>>>, fuel: nat)
    requires w.lastCode == 0 && fuel >= |vs|
    ensures Rounds(Recorder(expand), v, vs, Commands(argvs), w, 0, fuel) ==
            Finished(World(w.s + Log(v, vs, argvs), 0), 0)
    decreases |vs|
  {
    if vs == [] {
      assert w.s + [] == w.s;
    } else {
      var first, rest := [[v + "=" + vs[0]]], Log(v, vs[1..], argvs);
      RoundIsCalled(expand, v, vs, argvs, w, fuel);
      RoundsAreCalled(expand, v, vs[1..], argvs, World(w.s + first + argvs, 0), fuel - 1);
      Associates(w.s, first, argvs, rest);
    }
  }

  lemma Associates(a: seq<seq<string>>, b: seq<seq<string>>, c: seq<seq<string>>, d: seq<seq<string>>)
    ensures a + b + c + d == a + (b + c + d)
  {
  }

  /** A `for` over any words with any commands in its body calls, for each value that the words expand to,
      first the assignment of that value and then the commands, and nothing else. */
  lemma ForCalls(expand: seq<string> -> seq<string>, v: string, items: seq<string>, argvs: seq<seq<string>>,
                 w: World<seq<seq<string>>>, fuel: nat)
    requires (forall i :: 0 <= i < |argvs| ==> argvs[i] != []) && w.lastCode == 0
    requires items != [] && fuel >= |expand(items)|
    ensures RunList(Recorder(expand), BodyOf(Each(v, items, Commands(argvs))).list, w, fuel) ==
            Finished(World(w.s + Log(v, expand(items), argvs), 0), 0)
  {
    CommandsAreGood(argvs);
    ForRuns(Recorder(expand), v, items, Commands(argvs), w, fuel);
    RoundsAreCalled(expand, v, expand(items), argvs, w, fuel);
  }

  // ----- what the body sees -----

  /** Local variables, and what they were at each command so far. */
  datatype Seen = Seen(vars: seq<V.Var>, maps: seq<map<string, string>>)

  predicate IsAlnum(c: char) {
    V.IsAlpha(c) || '0' <= c <= '9' || c == '_'
  }

  predicate IsName(s: string) {
    s != "" && V.IsAlpha(s[0]) && forall i :: 0 <= i < |s| ==> IsAlnum(s[i])
  }

  /** `is_assignment`: a name and then `=`. */
  predicate IsAssignment(s: string) {
    V.NameLen(s) < |s| && IsName(s[..V.NameLen(s)])
  }

  /** The leading assignments of an argument vector. */
  function Leading(argv: seq<string>): (k: nat)
    ensures k <= |argv|
  {
    if argv == [] || !IsAssignment(argv[0]) then 0 else 1 + Leading(argv[1..])
  }

  function SetAll(vars: seq<V.Var>, ss: seq<string>): seq<V.Var>
    decreases |ss|
  {
    if ss == [] then vars else SetAll(V.Set(vars, ss[0], 0, false).0, ss[1..])
  }

  /** `run_pipe_real` on words without variables in them: leading assignments are made; what is left is a
      command. */
  function Pipe1(argv: seq<string>, w: World<Seen>): (World<Seen>, int) {
    var k := Leading(argv);
    var vars := SetAll(w.s.vars, argv[..k]);
    (World(Seen(vars, if k == |argv| then w.s.maps else w.s.maps + [V.AsMap(vars)]), w.lastCode), 0)
  }

  function Watcher(expand: seq<string> -> seq<string>): Shell<Seen> {
    Shell(Pipe1, (items: seq<string>, w: World<Seen>) => expand(items))
  }

  /** Every command of the body is one: it does not start with an assignment. */
  ghost predicate Plain(argvs: seq<seq<string>>) {
    forall i :: 0 <= i < |argvs| ==> argvs[i] != [] && !IsAssignment(argvs[i][0])
  }

  function Repeat(m: map<string, string>, n: nat): (ms: seq<map<string, string>>)
    ensures |ms| == n && forall i :: 0 <= i < n ==> ms[i] == m
  {
    seq(n, _ => m)
  }

  /** The variables at each command: in the round of a value the loop variable has that value, and all
      other variables are as before. */
  function Views(m: map<string, string>, v: string, vs: seq<string>, n: nat): seq<map<string, string>> {
    if vs == [] then [] else Repeat(m[v := vs[0]], n) + Views(m, v, vs[1..], n)
  }

  /** Only what the loop variable is now has changed. */
  lemma {:induction false} ViewsForget(m: map<string, string>, v: string, x: string, vs: seq<string>, n: nat)
    ensures Views(m[v := x], v, vs, n) == Views(m, v, vs, n)
  {
    if vs != [] {
      assert m[v := x][v := vs[0]] == m[v := vs[0]];
      ViewsForget(m, v, x, vs[1..], n);
    }
  }

  lemma AssignmentIsMade(w: World<Seen>, v: string, x: string)
    requires V.Valid(w.s.vars) && IsName(v) && v != V.VERSION && x != ""
    ensures var (w', rc) := Pipe1([v + "=" + x], w);
            && rc == 0 && V.Valid(w'.s.vars) && w'.lastCode == w.lastCode
            && w'.s.maps == w.s.maps && V.AsMap(w'.s.vars) == V.AsMap(w.s.vars)[v := x]
  {
    var s := v + "=" + x;
    assert '=' !in v;
    V.SplitsAtEquals(v, x);
    V.SetsValue(w.s.vars, v, x, 0);
    assert Leading([s][1..]) == 0;
    assert [s][..1] == [s] && [s][1..] == [];
    assert SetAll(V.Set(w.s.vars, s, 0, false).0, []) == V.Set(w.s.vars, s, 0, false).0;
  }

  lemma {:induction false} CommandsSee(expand: seq<string> -> seq<string>, argvs: seq<seq<string>>,
                                       w: World<Seen>, fuel: nat)
    requires w.lastCode == 0 && Plain(argvs)
    ensures EvalList(Watcher(expand), Commands(argvs), w, 0, fuel) ==
            Finished(World(Seen(w.s.vars, w.s.maps + Repeat(V.AsMap(w.s.vars), |argvs|)), 0), 0)
    decreases |argvs|
  {
    var m := V.AsMap(w.s.vars);
    if argvs == [] {
      assert w.s.maps + Repeat(m, 0) == w.s.maps;
    } else {
      var w' := World(Seen(w.s.vars, w.s.maps + [m]), 0);
      assert argvs[0][..0] == [];
      assert Pipe1(argvs[0], w) == (w', 0);
      CommandStep(Watcher(expand), argvs, w, w', fuel);
      CommandsSee(expand, argvs[1..], w', fuel);
      assert w'.s.maps + Repeat(m, |argvs| - 1) == w.s.maps + Repeat(m, |argvs|);
    }
  }

  /** The variables are `m`, and `maps` has been seen. */
  ghost predicate Holds(w: World<Seen>, m: map<string, string>, maps: seq<map<string, string>>) {
    w.lastCode == 0 && V.Valid(w.s.vars) && V.AsMap(w.s.vars) == m && w.s.maps == maps
  }

  datatype View = Unfinished | View(vars: map<string, string>, seen: seq<map<string, string>>)

  function ViewOf(o: Outcome<Seen>): View {
    if o.Finished? && o.rcode == 0 then View(V.AsMap(o.w.s.vars), o.w.s.maps) else Unfinished
  }

  /** What the rounds over `vs` leave, round by round. */
  function After(m: map<string, string>, maps: seq<map<string, string>>, v: string, vs: seq<string>, n: nat): View
    decreases |vs|
  {
    if vs == [] then View(m, maps)
    else After(m[v := vs[0]], maps + Repeat(m[v := vs[0]], n), v, vs[1..], n)
  }

  lemma {:induction false} AfterIsViews(m: map<string, string>, maps: seq<map<string, string>>, v: string,
                                        vs: seq<string>, n: nat)
    ensures After(m, maps, v, vs, n) ==
            View(if vs == [] then m else m[v := vs[|vs| - 1]], maps + Views(m, v, vs, n))
    decreases |vs|
  {
    if vs == [] {
      assert maps + [] == maps;
    } else {
      var a, b := Repeat(m[v := vs[0]], n), Views(m, v, vs[1..], n);
      AfterIsViews(m[v := vs[0]], maps + a, v, vs[1..], n);
      ViewsForget(m, v, vs[0], vs[1..], n);
      assert maps + a + b == maps + (a + b);
      if |vs| > 1 {
        assert vs[1..][|vs| - 2] == vs[|vs| - 1];
        assert m[v := vs[0]][v := vs[|vs| - 1]] == m[v := vs[|vs| - 1]];
      }
    }
  }

  /** A round gives the variable its value, and then n commands see the variables. */
  ghost predicate RoundViews(sh: Shell<Seen>, v: string, x: string, body: List, w: World<Seen>, n: nat, fuel: nat) {
    var o, m := Round(sh, v, x, body, w, fuel), V.AsMap(w.s.vars)[v := x];
    o.Finished? && o.rcode == 0 && Holds(o.w, m, w.s.maps + Repeat(m, n))
  }

  ghost predicate RoundsView(sh: Shell<Seen>, v: string, body: List, n: nat) {
    forall x, w: World<Seen>, fuel ::
      x != "" && w.lastCode == 0 && V.Valid(w.s.vars) ==> RoundViews(sh, v, x, body, w, n, fuel)
  }

  lemma RoundSees(expand: seq<string> -> seq<string>, v: string, x: string, argvs: seq<seq<string>>,
                  w: World<Seen>, fuel: nat)
    requires Plain(argvs) && w.lastCode == 0 && V.Valid(w.s.vars) && IsName(v) && v != V.VERSION && x != ""
    ensures RoundViews(Watcher(expand), v, x, Commands(argvs), w, |argvs|, fuel)
  {
    AssignmentIsMade(w, v, x);
    var one := Pipe1([v + "=" + x], w).0;
    var m := V.AsMap(one.s.vars);
    CommandsSee(expand, argvs, one, fuel);
    RoundIs(Watcher(expand), v, x, Commands(argvs), w, one,
            World(Seen(one.s.vars, w.s.maps + Repeat(m, |argvs|)), 0), m, w.s.maps + Repeat(m, |argvs|), fuel);
  }

  lemma RoundIs(sh: Shell<Seen>, v: string, x: string, body: List, w: World<Seen>, one: World<Seen>, two: World<Seen>,
                m: map<string, string>, maps: seq<map<string, string>>, fuel: nat)
    requires Call(sh, [v + "=" + x], w) == Finished(one, 0) && one.lastCode == 0
    requires EvalList(sh, body, one, 0, fuel) == Finished(two, 0) && Holds(two, m, maps)
    ensures Round(sh, v, x, body, w, fuel).Finished? && Round(sh, v, x, body, w, fuel).rcode == 0
    ensures Holds(Round(sh, v, x, body, w, fuel).w, m, maps)
  {
  }

  lemma {:induction false} RoundsSee(sh: Shell<Seen>, v: string, vs: seq<string>, body: List, w: World<Seen>,
                                     n: nat, fuel: nat)
    requires RoundsView(sh, v, body, n) && "" !in vs && fuel >= |vs| && w.lastCode == 0 && V.Valid(w.s.vars)
    ensures ViewOf(Rounds(sh, v, vs, body, w, 0, fuel)) == After(V.AsMap(w.s.vars), w.s.maps, v, vs, n)
    decreases |vs|
  {
    if vs != [] {
      assert RoundViews(sh, v, vs[0], body, w, n, fuel);
      RoundsSee(sh, v, vs[1..], body, Round(sh, v, vs[0], body, w, fuel).w, n, fuel - 1);
    }
  }

  /** In round k of a `for` every command of the body sees the loop variable with the k-th value, and all
      other variables as they were; afterwards the variable keeps the last value. */
  lemma BodySees(expand: seq<string> -> seq<string>, v: string, items: seq<string>, argvs: seq<seq<string>>,
                 w: World<Seen>, fuel: nat)
    requires Plain(argvs) && w.lastCode == 0 && V.Valid(w.s.vars) && IsName(v) && v != V.VERSION
    requires items != [] && fuel >= |expand(items)| && "" !in expand(items)
    ensures var o := RunList(Watcher(expand), BodyOf(Each(v, items, Commands(argvs))).list, w, fuel);
            var m, vs := V.AsMap(w.s.vars), expand(items);
            && o.Finished? && o.w.s.maps == w.s.maps + Views(m, v, vs, |argvs|)
            && V.AsMap(o.w.s.vars) == if vs == [] then m else m[v := vs[|vs| - 1]]
  {
    CommandsAreGood(argvs);
    ForRuns(Watcher(expand), v, items, Commands(argvs), w, fuel);
    forall x, w: World<Seen>, fuel | x != "" && w.lastCode == 0 && V.Valid(w.s.vars)
      ensures RoundViews(Watcher(expand), v, x, Commands(argvs), w, |argvs|, fuel)
    {
      RoundSees(expand, v, x, argvs, w, fuel);
    }
    RoundsSee(Watcher(expand), v, expand(items), Commands(argvs), w, |argvs|, fuel);
    AfterIsViews(V.AsMap(w.s.vars), w.s.maps, v, expand(items), |argvs|);
  }
}
