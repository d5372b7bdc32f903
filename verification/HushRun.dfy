/** The list interpreter of the hush shell: a flag machine over a list of pipes. */
module HushRun {
  import opened Options
  import opened HushSyntax

  /** Everything outside the interpreter, with `$?` kept apart because the interpreter writes it. */
  datatype World<S> = World(s: S, lastCode: int)

  /** `exec` is `run_pipe_real` on an argument vector; `expand` gives the values `make_list_in`
      finds in the words after `in`. */
  datatype Shell<!S> = Shell(
    exec: (seq<string>, World<S>) -> (World<S>, int),
    expand: (seq<string>, World<S>) -> seq<string>)

  /** A run ends with a return code (-2 asks every enclosing list to exit), or is still looping
      when the allowance of loop rounds is used up. */
  datatype Outcome<S> = Finished(w: World<S>, rcode: int) | OutOfFuel

  /** The local variables of `run_list_real`. */
  datatype Regs = Regs(
    rcode: int, flagSkip: bool, flagRestore: bool, ifCode: int, nextIfCode: int,
    flagRep: bool, rpipe: Pipes, skipMore: RMode, list: Option<seq<string>>)

  const INIT_REGS := Regs(0, true, false, 0, 0, false, End, Xxxx, Null)

  /** The `for`/`in` check made before anything runs. */
  predicate SyntaxOk(pi: Pipes)
  {
    match pi
    case End => true
    case Cell(p, next) =>
      && ((p.rmode == In || p.rmode == For) ==> next.Cell?)
      && !(p.rmode == In && next.p.rmode == In && next.p.body.Words?)
      && !(p.rmode == For && next.p.rmode != In)
      && SyntaxOk(next)
  }

  predicate IsLoopHead(m: RMode) {
    m == While || m == Until || m == For
  }

  /** Lines 1779-1793: a loop head clears the jump flag and, on first entry, is remembered. */
  function EnterHead(pi: Pipes, r: Regs): Regs
    requires pi.Cell?
  {
    if !IsLoopHead(pi.p.rmode) then r
    else if r.rpipe.End? then r.(flagRestore := false, flagRep := false, rpipe := pi)
    else r.(flagRestore := false)
  }

  /** What the tests before `run_pipe_real` decide for one pipe. */
  datatype Action = Skip(r: Regs) | Stop(r: Regs) | Go(r: Regs, body: Body)

  function Decide<S>(sh: Shell<S>, pi: Pipes, r0: Regs, w: World<S>): Action
    requires pi.Cell?
  {
    var p := pi.p;
    if p.rmode == r0.skipMore && r0.flagSkip then
      Skip(r0.(flagSkip := p.followup != Seq))
    else
      var r1 := r0.(flagSkip := true, skipMore := Xxxx);
      var r := if p.rmode == Then || p.rmode == Else then r1.(ifCode := r1.nextIfCode) else r1;
      if p.rmode == Then && r.ifCode != 0 then Skip(r)
      else if p.rmode == Else && r.ifCode == 0 then Skip(r)
      else if p.rmode == Elif && r.ifCode == 0 then Stop(r)
      else if p.rmode == For && p.body.Words? && p.body.argv != [] then DecideFor(sh, pi, r, w)
      else if p.rmode == In then Skip(r)
      else if p.rmode == Do && !r.flagRep then Skip(r)
      else
        var r' := if p.rmode != Done then r
                  else if r.flagRep then r.(flagRestore := true) else r.(rpipe := End);
        if p.body.Empty? then Skip(r') else Go(r', p.body)
  }

  function InWords(pi: Pipes): seq<string> {
    if pi.Cell? && pi.p.body.Words? then pi.p.body.argv else []
  }

  function Bind(name: string, values: seq<string>): (l: seq<string>)
    ensures |l| == |values|
  {
    seq(|values|, i requires 0 <= i < |values| => name + "=" + values[i])
  }

  /** Lines 1806-1839: make the list of `name=value` words on first entry, then run its head. */
  function DecideFor<S>(sh: Shell<S>, pi: Pipes, r: Regs, w: World<S>): Action
    requires pi.Cell? && pi.p.body.Words? && pi.p.body.argv != []
  {
    if r.list.Null? && InWords(pi.next) == [] then Skip(r)
    else
      var r' := if r.list.Some? then r
                else r.(list := Some(Bind(pi.p.body.argv[0], sh.expand(InWords(pi.next), w))), flagRep := true);
      if r'.list.value == [] then Skip(r'.(list := Null, flagRep := false))
      else Go(r'.(list := Some(r'.list.value[1..])), Words(pi.p.body.argv[0 := r'.list.value[0]]))
  }

  /** Lines 1892-1900: what a finished command with status `rc` does to the flags. */
  function AfterCommand(r: Regs, p: Pipe, rc: int): Regs
  {
    r.(rcode := rc,
       nextIfCode := if p.rmode == If || p.rmode == Elif then rc else r.nextIfCode,
       flagRep := if p.rmode == While then rc == 0 else if p.rmode == Until then rc != 0 else r.flagRep,
       skipMore := if (rc == 0 && p.followup == Or) || (rc != 0 && p.followup == And) then p.rmode else r.skipMore)
  }

  /** Lines 1883-1887: a code below -1 asks to exit, any other becomes 0 or 1 in `$?`. */
  function Settle<S>(o: Outcome<S>): (s: Outcome<S>)
    ensures s.Finished? <==> o.Finished?
    ensures s.Finished? ==> s.rcode >= -2 && s.w == o.w.(lastCode := s.w.lastCode)
    ensures s.Finished? && o.rcode >= -1 ==> s.rcode == o.rcode && 0 <= s.w.lastCode <= 1
    ensures s.Finished? && o.rcode < -1 ==> s.rcode == -2 && o.rcode == -2 - s.w.lastCode
    ensures s.Finished? ==> (s.w.lastCode == 0 <==> o.rcode == 0 || o.rcode == -2)
  {
    match o
    case OutOfFuel => OutOfFuel
    case Finished(w, rc) =>
      if rc < -1 then Finished(w.(lastCode := -rc - 2), -2)
      else Finished(w.(lastCode := if rc == 0 then 0 else 1), rc)
  }

  function Call<S>(sh: Shell<S>, argv: seq<string>, w: World<S>): Outcome<S> {
    var (w', rc) := sh.exec(argv, w); Finished(w', rc)
  }

  /** `run_list_real`: `fuel` bounds how often each activation of a list jumps back. */
  function RunList<S>(sh: Shell<S>, pi: Pipes, w: World<S>, fuel: nat): Outcome<S>
    decreases fuel, pi, 1
  {
    if SyntaxOk(pi) then Run(sh, pi, INIT_REGS, w, fuel) else Finished(w, 1)
  }

  function Run<S>(sh: Shell<S>, pi: Pipes, r: Regs, w: World<S>, fuel: nat): Outcome<S>
    decreases fuel, pi, 0
  {
    if pi.End? then Finished(w, r.rcode)
    else
      match Decide(sh, pi, EnterHead(pi, r), w)
      case Skip(r') => Advance(sh, pi.next, r', w, fuel)
      case Stop(r') => Finished(w, r'.rcode)
      case Go(r', body) =>
        match Settle(if body.Words? then Call(sh, body.argv, w) else RunList(sh, pi.p.body.list, w, fuel))
        case OutOfFuel => OutOfFuel
        case Finished(w', rc) =>
          if rc < -1 then Finished(w', rc)
          else Advance(sh, pi.next, AfterCommand(r', pi.p, rc), w', fuel)
  }

  /** The increment of the `for` loop: `pi = flag_restore ? rpipe : pi->next`. */
  function Advance<S>(sh: Shell<S>, next: Pipes, r: Regs, w: World<S>, fuel: nat): Outcome<S>
    decreases fuel, next, 1
  {
    if !r.flagRestore then Run(sh, next, r, w, fuel)
    else if fuel == 0 then OutOfFuel
    else Run(sh, r.rpipe, r, w, fuel - 1)
  }

  /** The tests `run_list_real` makes on a pipe before it runs it, as it makes them. */
  method Consider<S>(sh: Shell<S>, pi: Pipes, r0: Regs, w: World<S>) returns (a: Action)
    requires pi.Cell?
    ensures a == Decide(sh, pi, EnterHead(pi, r0), w)
  {
    var r, rmode, body := r0, pi.p.rmode, pi.p.body;
    if rmode == While || rmode == Until || rmode == For {
      r := r.(flagRestore := false);
      if r.rpipe.End? { r := r.(flagRep := false, rpipe := pi); }
    }
    if rmode == r.skipMore && r.flagSkip {
      if pi.p.followup == Seq { r := r.(flagSkip := false); }
      return Skip(r);
    }
    r := r.(flagSkip := true, skipMore := Xxxx);
    if rmode == Then || rmode == Else { r := r.(ifCode := r.nextIfCode); }
    if rmode == Then && r.ifCode != 0 { return Skip(r); }
    if rmode == Else && r.ifCode == 0 { return Skip(r); }
    if rmode == Elif && r.ifCode == 0 { return Stop(r); }
    if rmode == For && body.Words? && body.argv != [] {
      if r.list.Null? {
        if InWords(pi.next) == [] { return Skip(r); }
        r := r.(list := Some(Bind(body.argv[0], sh.expand(InWords(pi.next), w))), flagRep := true);
      }
      if r.list.value == [] { return Skip(r.(list := Null, flagRep := false)); }
      body := Words(body.argv[0 := r.list.value[0]]);
      r := r.(list := Some(r.list.value[1..]));
    }
    if rmode == In { return Skip(r); }
    if rmode == Do && !r.flagRep { return Skip(r); }
    if rmode == Done {
      if r.flagRep { r := r.(flagRestore := true); } else { r := r.(rpipe := End); }
    }
    if body.Empty? { return Skip(r); }
    return Go(r, body);
  }

  /** The syntax check of `for` that opens `run_list_real`. */
  method CheckFor(head: Pipes) returns (ok: bool)
    ensures ok == SyntaxOk(head)
  {
    var rpipe := head;
    while rpipe.Cell?
      invariant SyntaxOk(head) == SyntaxOk(rpipe)
      decreases rpipe
    {
      if (rpipe.p.rmode == In || rpipe.p.rmode == For) && rpipe.next.End? { return false; }
      if (rpipe.p.rmode == In && rpipe.next.p.rmode == In && rpipe.next.p.body.Words?)
         || (rpipe.p.rmode == For && rpipe.next.p.rmode != In) { return false; }
      rpipe := rpipe.next;
    }
    return true;
  }

  /** The flags `run_list_real` sets once a pipe has run. */
  method Record(r0: Regs, p: Pipe, rcode: int) returns (r: Regs)
    ensures r == AfterCommand(r0, p, rcode)
  {
    var lastCode := if rcode == 0 then 0 else 1;
    r := r0.(rcode := rcode);
    if p.rmode == If || p.rmode == Elif { r := r.(nextIfCode := rcode); }
    if p.rmode == While { r := r.(flagRep := lastCode == 0); }
    if p.rmode == Until { r := r.(flagRep := lastCode != 0); }
    if (rcode == 0 && p.followup == Or) || (rcode != 0 && p.followup == And) { r := r.(skipMore := p.rmode); }
  }

  /** The update of `$?`. */
  method SetStatus<S>(res: Outcome<S>) returns (o: Outcome<S>)
    ensures o == Settle(res)
  {
    if res.OutOfFuel? { return OutOfFuel; }
    if res.rcode < -1 { return Finished(res.w.(lastCode := -res.rcode - 2), -2); }
    return Finished(res.w.(lastCode := if res.rcode == 0 then 0 else 1), res.rcode);
  }

  /** The loop of `run_list_real`.  `left` counts down the allowance of jumps back; the C code has none. */
  method RunListReal<S>(sh: Shell<S>, head: Pipes, w0: World<S>, fuel: nat) returns (o: Outcome<S>)
    ensures o == RunList(sh, head, w0, fuel)
    decreases fuel, head
  {
    var ok := CheckFor(head);
    if !ok { return Finished(w0, 1); }
    var pi, r, w, left: nat := head, INIT_REGS, w0, fuel;
    ghost var goal := RunList(sh, head, w0, fuel);
    while pi.Cell?
      invariant goal == Run(sh, pi, r, w, left)
      invariant left <= fuel && (left < fuel || pi == head || pi < head)
      decreases left, pi
    {
      var a := Consider(sh, pi, r, w);
      if a.Stop? { return Finished(w, a.r.rcode); }
      r := a.r;
      if a.Go? {
        var res;
        if a.body.Words? {
          res := Call(sh, a.body.argv, w);
        } else {
          res := RunListReal(sh, a.body.list, w, left);
        }
        res := SetStatus(res);
        if res.OutOfFuel? || res.rcode < -1 { return res; }
        w := res.w;
        r := Record(r, pi.p, res.rcode);
      }
      if r.flagRestore {
        if left == 0 { return OutOfFuel; }
        pi, left := r.rpipe, left - 1;
      } else {
        pi := pi.next;
      }
    }
    return Finished(w, r.rcode);
  }
}
