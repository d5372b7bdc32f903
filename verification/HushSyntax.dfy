/** The shapes the hush shell works on: the linked lists of pipes its parser builds, and the
    structured programs those lists stand for. */
module HushSyntax {

  /** `reserved_style`: the reserved word in force when a pipe was finished.  `Xxxx` is the
      "skip nothing" marker of the interpreter, `Sntx` marks a syntax error. */
  datatype RMode = None | If | Then | Elif | Else | Fi | For | While | Until | Do | Done | Xxxx | In | Sntx

  /** `pipe_style`; `Invalid` is the 0 that `new_pipe` stores before `done_pipe` runs. */
  datatype Followup = Invalid | Seq | And | Or

  /** What a pipe holds.  The U-Boot build has no `|`, so a pipe has no program (`Empty`), one
      argument vector or one group. */
  datatype Body = Empty | Words(argv: seq<string>) | Group(list: Pipes)

  datatype Pipe = Pipe(rmode: RMode, followup: Followup, body: Body)

  /** A `struct pipe *`: the null pointer, or a cell and its `next`. */
  datatype Pipes = End | Cell(p: Pipe, next: Pipes)

  // ----- structured programs -----

  /** `Nop` is a blank command: an empty line or a doubled separator. */
  datatype Stmt =
    | Nop
    | Simple(words: seq<string>)
    | Cond(arms: Arms)
    | Loop(until: bool, cond: List, body: List)
    | Each(v: string, items: seq<string>, body: List)

  datatype Arms = EndArms | ElseArm(els: List) | Arm(cond: List, thn: List, rest: Arms)

  /** Statements joined by `&&` and `||`, closed by `;` or a newline. */
  datatype Chain = One(s: Stmt) | Link(s: Stmt, isAnd: bool, rest: Chain)

  datatype List = Nil | Cons(c: Chain, rest: List)

  // ----- the pipe list of a program -----

  const TRAILER: Pipes := Cell(Pipe(None, Invalid, Empty), End)

  /** What `fi` and `done` leave: an empty pipe tagged with the word, and the fresh pipe after it. */
  function Close(m: RMode): Pipes {
    Cell(Pipe(m, Seq, Empty), TRAILER)
  }

  function BodyOf(s: Stmt): Body
  {
    match s
    case Nop => Empty
    case Simple(words) => Words(words)
    case Cond(arms) => Group(FlatArms(arms, true))
    case Loop(until, cond, body) => Group(FlatLoop(s))
    case Each(v, items, body) => Group(FlatEach(s))
  }

  function LoopMode(until: bool): RMode {
    if until then Until else While
  }

  function FlatLoop(s: Stmt): (l: Pipes)
    requires s.Loop?
    decreases s, 0
  {
    FlatList(s.cond, LoopMode(s.until), FlatList(s.body, Do, Close(Done)))
  }

  function FlatEach(s: Stmt): Pipes
    requires s.Each?
    decreases s, 0
  {
    Cell(Pipe(For, Seq, Words([s.v])),
         Cell(Pipe(In, Seq, if s.items == [] then Empty else Words(s.items)),
              FlatList(s.body, Do, Close(Done))))
  }

  function FlatArms(a: Arms, first: bool): Pipes
  {
    match a
    case EndArms => Close(Fi)
    case ElseArm(els) => FlatList(els, Else, Close(Fi))
    case Arm(cond, thn, rest) =>
      FlatList(cond, if first then If else Elif, FlatList(thn, Then, FlatArms(rest, false)))
  }

  function Conn(isAnd: bool): Followup {
    if isAnd then And else Or
  }

  function FlatChain(c: Chain, m: RMode, tail: Pipes): Pipes
    decreases c
  {
    match c
    case One(s) => Cell(Pipe(m, Seq, BodyOf(s)), tail)
    case Link(s, isAnd, rest) => Cell(Pipe(m, Conn(isAnd), BodyOf(s)), FlatChain(rest, m, tail))
  }

  function FlatList(l: List, m: RMode, tail: Pipes): Pipes
    decreases l
  {
    match l
    case Nil => tail
    case Cons(c, rest) => FlatChain(c, m, FlatList(rest, m, tail))
  }

  /** One list after the other. */
  function Append(l: List, k: List): List {
    if l.Nil? then k else Cons(l.c, Append(l.rest, k))
  }

  // ----- which programs are meant -----

  /** Some statement of the chain is a command rather than a blank. */
  predicate ChainHasCommand(c: Chain) {
    !c.s.Nop? || (c.Link? && ChainHasCommand(c.rest))
  }

  predicate HasCommand(l: List) {
    l.Cons? && (ChainHasCommand(l.c) || HasCommand(l.rest))
  }

  /** The demands the interpreter makes on a program: the condition of a loop holds a command, and
      on both sides of an `elif` there is at least one pipe (which may be blank). */
  predicate GoodStmt(s: Stmt)
  {
    match s
    case Nop => true
    case Simple(words) => words != []
    case Cond(arms) => arms.Arm? && GoodArms(arms)
    case Loop(_, cond, body) => HasCommand(cond) && GoodList(cond) && GoodList(body)
    case Each(_, _, body) => GoodList(body)
  }

  predicate GoodArms(a: Arms)
  {
    match a
    case EndArms => true
    case ElseArm(els) => GoodList(els)
    case Arm(cond, thn, rest) =>
      GoodList(cond) && GoodList(thn) && GoodArms(rest) && (rest.Arm? ==> thn.Cons? && rest.cond.Cons?)
  }

  predicate GoodChain(c: Chain) {
    GoodStmt(c.s) && (c.Link? ==> GoodChain(c.rest))
  }

  predicate GoodList(l: List) {
    l.Cons? ==> GoodChain(l.c) && GoodList(l.rest)
  }
}
