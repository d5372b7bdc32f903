/** The parser context as the C code keeps it: one record updated in place. */
module HushParser {
  import opened HushSyntax
  import P = HushParse

  /** The entry has the code, the follow-up words and the marks of the specification. */
  predicate Agrees(r: P.Reserved) {
    && P.CodeOf(r.literal) == r.code && P.FlagsOf(r.code) == r.flags
    && P.CodeIsReserved(r.code)
    && (Xxxx in r.flags <==> P.IsStart(r.code))
    && (None in r.flags <==> P.IsEnd(r.code))
  }

  lemma IfWordsAgree()
    ensures forall i :: 0 <= i < 3 ==> Agrees(P.RESERVED_LIST[i])
  {
  }

  lemma ElseWordsAgree()
    ensures forall i :: 3 <= i < 6 ==> Agrees(P.RESERVED_LIST[i])
  {
  }

  lemma LoopWordsAgree()
    ensures forall i :: 6 <= i < 9 ==> Agrees(P.RESERVED_LIST[i])
  {
  }

  lemma DoWordsAgree()
    ensures forall i :: 9 <= i < 11 ==> Agrees(P.RESERVED_LIST[i])
  {
  }

  /** `reserved_list` and the tests on it say the same as the specification. */
  lemma TableAgrees(i: nat)
    requires i < |P.RESERVED_LIST|
    ensures Agrees(P.RESERVED_LIST[i])
  {
    IfWordsAgree();
    ElseWordsAgree();
    LoopWordsAgree();
    DoWordsAgree();
  }

  lemma TableIsComplete(word: string)
    requires forall i :: 0 <= i < |P.RESERVED_LIST| ==> P.RESERVED_LIST[i].literal != word
    ensures P.CodeOf(word) == None
  {
    var t := P.RESERVED_LIST;
    assert t[0].literal == "if" && t[1].literal == "then" && t[2].literal == "elif" && t[3].literal == "else"
        && t[4].literal == "fi" && t[5].literal == "for" && t[6].literal == "while" && t[7].literal == "until"
        && t[8].literal == "in" && t[9].literal == "do" && t[10].literal == "done";
  }

  class Parser {
    var w: RMode
    var oldFlag: P.Flags
    var pipes: seq<Pipe>
    var child: Body
    var stack: P.Stack
    var dest: string

    ghost function State(): P.Ctx
      reads this
    {
      P.Ctx(w, oldFlag, pipes, child, stack)
    }

    constructor ()
      ensures State() == P.FRESH_CTX && P.Balanced(State()) && dest == ""
    {
      dest := "";
      w, oldFlag, pipes, child, stack := None, {}, [], Empty, P.Bottom;
    }

    method DonePipe(f: Followup)
      modifies this`pipes, this`child
      ensures State() == P.DonePipe(old(State()), f)
    {
      pipes, child := pipes + [Pipe(w, f, child)], Empty;
    }

    /** Returns whether the word is reserved.  The pop never meets an empty stack. */
    method ReservedWord() returns (found: bool)
      requires P.Balanced(State())
      modifies this
      ensures found <==> P.CodeOf(old(dest)) != None
      ensures State() == if found then P.ReservedWord(old(State()), P.CodeOf(old(dest))) else old(State())
      ensures dest == if found then "" else old(dest)
      ensures P.Balanced(State())
    {
      var i := 0;
      while i < |P.RESERVED_LIST|
        invariant 0 <= i <= |P.RESERVED_LIST|
        invariant forall j :: 0 <= j < i ==> P.RESERVED_LIST[j].literal != dest
        invariant State() == old(State()) && dest == old(dest)
      {
        var r := P.RESERVED_LIST[i];
        if r.literal == dest {
          TableAgrees(i);
          Accept(r);
          return true;
        }
        i := i + 1;
      }
      TableIsComplete(dest);
      return false;
    }

    /** The body of the search loop, for the entry found. */
    method Accept(r: P.Reserved)
      requires P.Balanced(State()) && Agrees(r)
      modifies this
      ensures State() == P.ReservedWord(old(State()), r.code) && dest == ""
    {
      dest := "";
      if Xxxx in r.flags {
        if w == In || w == For { w := Sntx; return; }
        var saved := P.Ctx(w, oldFlag, pipes, child, stack);
        w, oldFlag, pipes, child := None, {}, [], Empty;
        stack := P.Saved(saved);
      } else if w == None || r.code !in oldFlag {
        w := Sntx;
        return;
      }
      w, oldFlag := r.code, r.flags;
      if None in oldFlag {
        DonePipe(Seq);
        var outer := stack.ctx;
        child := Group(P.ToPipes(pipes, TRAILER));
        w, oldFlag, pipes, stack := outer.w, outer.oldFlag, outer.pipes, outer.stack;
      }
    }

    /** Ends the word in `dest`, if there is one.  After a closed compound it stays there. */
    method DoneWord() returns (err: bool)
      requires P.Balanced(State())
      modifies this
      ensures (err, State()) == P.Pending(old(State()), old(dest)) && dest == P.Left(old(State()), old(dest))
      ensures P.Balanced(State())
    {
      if dest == "" { return false; }
      if child.Group? { return true; }
      if child.Empty? {
        var found := ReservedWord();
        if found { return w == Sntx; }
      }
      child := Words((if child.Words? then child.argv else []) + [dest]);
      dest := "";
      if w == For { DonePipe(Seq); }
      return false;
    }
  }
}
