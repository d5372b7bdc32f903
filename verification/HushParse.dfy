/** The token-level parser of the hush shell: how reserved words and separators grow the nested
    lists of pipes. */
module HushParse {
  import opened HushSyntax

  /** A flag word is the set of its bits; bit 0 (`None`) is FLAG_END and bit 11 (`Xxxx`) FLAG_START. */
  type Flags = set<RMode>

  /** `struct p_context`.  `pipes` are the finished pipes of the list under construction, `child`
      the program being filled in, `stack` the saved context of the enclosing compound. */
  datatype Ctx = Ctx(w: RMode, oldFlag: Flags, pipes: seq<Pipe>, child: Body, stack: Stack)
  datatype Stack = Bottom | Saved(ctx: Ctx)

  /** `initialize_context` */
  const FRESH_CTX := Ctx(None, {}, [], Empty, Bottom)

  datatype Reserved = Reserved(literal: string, code: RMode, flags: Flags)

  const RESERVED_LIST: seq<Reserved> := [
    Reserved("if", If, {Then, Xxxx}),
    Reserved("then", Then, {Elif, Else, Fi}),
    Reserved("elif", Elif, {Then}),
    Reserved("else", Else, {Fi}),
    Reserved("fi", Fi, {None}),
    Reserved("for", For, {In, Xxxx}),
    Reserved("while", While, {Do, Xxxx}),
    Reserved("until", Until, {Do, Xxxx}),
    Reserved("in", In, {Do}),
    Reserved("do", Do, {Done}),
    Reserved("done", Done, {None})]

  /** The reserved word spelled `word`, or `None`. */
  function CodeOf(word: string): RMode {
    if word == "if" then If else if word == "then" then Then else if word == "elif" then Elif
    else if word == "else" then Else else if word == "fi" then Fi else if word == "for" then For
    else if word == "while" then While else if word == "until" then Until else if word == "in" then In
    else if word == "do" then Do else if word == "done" then Done else None
  }

  /** The bits `reserved_list` gives a reserved word. */
  function FlagsOf(m: RMode): Flags {
    match m
    case If => {Then, Xxxx}
    case Then => {Elif, Else, Fi}
    case Elif => {Then}
    case Else => {Fi}
    case For => {In, Xxxx}
    case While => {Do, Xxxx}
    case Until => {Do, Xxxx}
    case In => {Do}
    case Do => {Done}
    case _ => {None}
  }

  predicate IsStart(m: RMode) { m == If || m == For || m == While || m == Until }
  predicate IsEnd(m: RMode) { m == Fi || m == Done }

  /** A chain of cells. */
  function ToPipes(ps: seq<Pipe>, tail: Pipes): Pipes {
    if ps == [] then tail else Cell(ps[0], ToPipes(ps[1..], tail))
  }

  function DonePipe(c: Ctx, f: Followup): Ctx {
    c.(pipes := c.pipes + [Pipe(c.w, f, c.child)], child := Empty)
  }

  /** In every state the parser reaches, and in every saved context below it, a continuation word
      is expected exactly when a compound is open. */
  ghost predicate Balanced(c: Ctx) {
    && (c.oldFlag != {} <==> c.stack.Saved?)
    && (c.stack.Saved? ==> Balanced(c.stack.ctx))
  }

  /** Number of open compounds. */
  function Depth(c: Ctx): nat {
    if c.stack.Bottom? then 0 else 1 + Depth(c.stack.ctx)
  }

  /** `reserved_word` for a word whose code is `m`. */
  function ReservedWord(c: Ctx, m: RMode): (r: Ctx)
    requires Balanced(c) && CodeIsReserved(m)
    ensures Balanced(r)
    ensures r.w == Sntx || Depth(r) == Depth(c) + (if IsStart(m) then 1 else if IsEnd(m) then -1 else 0)
  {
    if IsStart(m) then
      if c.w == In || c.w == For then c.(w := Sntx)
      else FRESH_CTX.(stack := Saved(c), w := m, oldFlag := FlagsOf(m))
    else if c.w == None || m !in c.oldFlag then c.(w := Sntx)
    else
      var c1 := c.(w := m, oldFlag := FlagsOf(m));
      if IsEnd(m) then
        assert Balanced(c.stack.ctx);
        c.stack.ctx.(child := Group(ToPipes(DonePipe(c1, Seq).pipes, TRAILER)))
      else c1
  }

  predicate CodeIsReserved(m: RMode) {
    m != None && m != Xxxx && m != Sntx
  }

  /** `done_word` on a non-empty word; `err` is its return code. */
  function DoneWord(c: Ctx, word: string): (r: (bool, Ctx))
    requires Balanced(c)
    ensures Balanced(r.1)
  {
    if c.child.Group? then (true, c)
    else if c.child.Empty? && CodeOf(word) != None then
      var c1 := ReservedWord(c, CodeOf(word));
      (c1.w == Sntx, c1)
    else
      var c1 := c.(child := Words((if c.child.Words? then c.child.argv else []) + [word]));
      (false, if c.w == For then DonePipe(c1, Seq) else c1)
  }

  /** A word ended by a blank; a separator, after the word it ends (`""` when there is none); the
      end of a line, likewise. */
  datatype Token = Word(text: string) | Sep(text: string, f: Followup) | Newline(text: string)

  datatype Tokens = NoTokens | Next(t: Token, rest: Tokens)

  /** The loop of `parse_stream` on one token.  An error in a word that a separator ends is printed
      and then ignored; an error in any other word ends the parse.  `dest` is the text of the word
      being collected.  Unless the parse continues on a newline (`cont`, FLAG_CONT_ON_NEWLINE), a
      newline outside all compounds completes it. */
  datatype Parse = Parsing(c: Ctx, dest: string) | Complete(c: Ctx, rest: Tokens) | Failed(c: Ctx)

  function Pending(c: Ctx, text: string): (r: (bool, Ctx))
    requires Balanced(c)
    ensures Balanced(r.1)
  {
    if text == "" then (false, c) else DoneWord(c, text)
  }

  /** What `done_word` leaves in `dest`: it returns before the reset if a compound has been closed. */
  function Left(c: Ctx, text: string): string {
    if c.child.Group? then text else ""
  }

  /** The text of a token is added to what is in `dest`. */
  function Joined(dest: string, text: string): string {
    if dest == "" then text else dest + text
  }

  function Feed(cont: bool, c: Ctx, dest: string, t: Token): (p: Parse)
    requires Balanced(c)
    ensures Balanced(p.c)
  {
    var text := Joined(dest, t.text);
    var (err, c1) := Pending(c, text);
    match t
    case Word(_) => if err then Failed(c1) else Parsing(c1, "")
    case Sep(_, f) => Parsing(DonePipe(c1, f), Left(c, text))
    case Newline(_) =>
      if err then Failed(c1)
      else if c1.w == None && !cont then Complete(DonePipe(c1, Seq), NoTokens)
      else Parsing(DonePipe(c1, Seq), "")
  }

  /** The whole loop; a parse that is complete has not looked at the tokens `rest`. */
  function FeedFrom(cont: bool, c: Ctx, dest: string, ts: Tokens): (p: Parse)
    requires Balanced(c)
    ensures Balanced(p.c)
    decreases ts
  {
    if ts.NoTokens? then Parsing(c, dest)
    else
      var p := Feed(cont, c, dest, ts.t);
      if p.Parsing? then FeedFrom(cont, p.c, p.dest, ts.rest)
      else if p.Complete? then p.(rest := ts.rest)
      else p
  }

  function FeedAll(cont: bool, c: Ctx, ts: Tokens): (p: Parse)
    requires Balanced(c)
    ensures Balanced(p.c)
  {
    FeedFrom(cont, c, "", ts)
  }
}
