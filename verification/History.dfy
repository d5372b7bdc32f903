/** The command history of the line editor: a ring of slots with wrap-around navigation. */
module History {
  import opened Options

  const HIST_MAX := 20

  /** The static variables: the slots, the next slot to fill, the highest slot index in use, and
      the slot being shown (-1 until a first line has been completed). */
  datatype Ring = Ring(lines: seq<string>, addIdx: nat, max: nat, cur: int)

  const EMPTY := Ring(seq(HIST_MAX, _ => ""), 0, 0, -1)

  ghost predicate Sane(r: Ring) {
    |r.lines| == HIST_MAX && r.addIdx < HIST_MAX && r.max < HIST_MAX && r.cur < HIST_MAX
  }

  /** `cread_add_to_hist` */
  function Add(r: Ring, line: string): Ring
    requires Sane(r)
  {
    var idx := if r.addIdx + 1 >= HIST_MAX then 0 else r.addIdx + 1;
    r.(lines := r.lines[r.addIdx := line], addIdx := idx, max := if idx > r.max then idx else r.max)
  }

  /** The end of `cread_line`: navigation starts afresh. */
  function Rewind(r: Ring): Ring {
    r.(cur := r.addIdx)
  }

  /** `hist_prev` */
  function Prev(r: Ring): (Ring, Option<string>)
    requires Sane(r)
  {
    if r.cur < 0 then (r, Null)
    else
      var c := if r.cur - 1 < 0 then r.max else r.cur - 1;
      if c == r.addIdx then (r, Null) else (r.(cur := c), Some(r.lines[c]))
  }

  /** `hist_next` */
  function Next(r: Ring): (Ring, Option<string>)
    requires Sane(r)
  {
    if r.cur < 0 || r.cur == r.addIdx then (r, Null)
    else
      var c := if r.cur + 1 > r.max then 0 else r.cur + 1;
      (r.(cur := c), if c == r.addIdx then Some("") else Some(r.lines[c]))
  }

  // ----- what the ring stands for -----

  /** How many lines can be reached: one slot is always given up. */
  function Reach(n: nat): nat {
    if n < HIST_MAX - 1 then n else HIST_MAX - 1
  }

  /** The slot of the line added as number `j`, counting from zero: `j` modulo the number of slots. */
  function Slot(j: nat): (k: nat)
    ensures k < HIST_MAX && (j < HIST_MAX ==> k == j)
  {
    if j < HIST_MAX then j else Slot(j - HIST_MAX)
  }

  lemma {:induction false} SlotNext(j: nat)
    ensures Slot(j + 1) == if Slot(j) + 1 == HIST_MAX then 0 else Slot(j) + 1
  {
    if j >= HIST_MAX { SlotNext(j - HIST_MAX); }
  }

  lemma {:induction false} SlotsDiffer(i: nat, j: nat)
    requires i < j < i + HIST_MAX
    ensures Slot(i) != Slot(j)
  {
    if i >= HIST_MAX { SlotsDiffer(i - HIST_MAX, j - HIST_MAX); }
  }

  /** The ring after the lines `added`, shown `back` lines up from the fresh line. */
  ghost predicate Holds(r: Ring, added: seq<string>, back: nat) {
    && Stores(r, added)
    && back <= Reach(|added|)
    && r.cur == Slot(|added| - back)
  }

  ghost predicate Stores(r: Ring, added: seq<string>) {
    var n := |added|;
    && |r.lines| == HIST_MAX
    && r.addIdx == Slot(n)
    && r.max == Reach(n)
    && r.cur < HIST_MAX
    && forall j :: 0 <= j < n && n - HIST_MAX <= j ==> r.lines[Slot(j)] == added[j]
  }

  lemma AddStores(r: Ring, added: seq<string>, line: string)
    requires Stores(r, added)
    ensures Stores(Add(r, line), added + [line])
    ensures Holds(Rewind(Add(r, line)), added + [line], 0)
  {
    var n := |added|;
    var r' := Add(r, line);
    SlotNext(n);
    forall j | 0 <= j < n + 1 && n + 1 - HIST_MAX <= j
      ensures r'.lines[Slot(j)] == (added + [line])[j]
    {
      if j < n { SlotsDiffer(j, n); }
    }
  }

  /** Any sequence of added lines. */
  function AddAll(r: Ring, lines: seq<string>): (r': Ring)
    requires Sane(r)
    ensures Sane(r')
  {
    if lines == [] then r else Add(AddAll(r, lines[..|lines| - 1]), lines[|lines| - 1])
  }

  lemma {:induction false} AddAllStores(lines: seq<string>)
    ensures Stores(AddAll(EMPTY, lines), lines)
  {
    if lines != [] {
      var front, last := lines[..|lines| - 1], lines[|lines| - 1];
      AddAllStores(front);
      AddStores(AddAll(EMPTY, front), front, last);
      assert front + [last] == lines;
    }
  }

  /** The slot `hist_prev` goes to. */
  lemma SlotUp(n: nat, back: nat)
    requires back <= Reach(n)
    ensures var cur := Slot(n - back);
            var c := if cur - 1 < 0 then Reach(n) else cur - 1;
            if back < Reach(n) then c == Slot(n - back - 1) != Slot(n) else c == Slot(n)
  {
    if back < Reach(n) {
      SlotNext(n - back - 1);
      SlotsDiffer(n - back - 1, n);
    } else if n >= HIST_MAX {
      SlotNext(n - HIST_MAX);
    }
  }

  /** The slot `hist_next` goes to. */
  lemma SlotDown(n: nat, back: nat)
    requires 0 < back <= Reach(n)
    ensures var cur := Slot(n - back);
            var c := if cur + 1 > Reach(n) then 0 else cur + 1;
            cur != Slot(n) && c == Slot(n - back + 1) && (c == Slot(n) <==> back == 1)
  {
    SlotNext(n - back);
    SlotsDiffer(n - back, n);
    if back > 1 { SlotsDiffer(n - back + 1, n); }
  }

  /** One step up shows the next older line, until none is left. */
  lemma PrevSteps(r: Ring, added: seq<string>, back: nat)
    requires Holds(r, added, back)
    ensures var (r', l) := Prev(r);
            if back < Reach(|added|) then l == Some(added[|added| - back - 1]) && Holds(r', added, back + 1)
            else l == Null && r' == r
  {
    SlotUp(|added|, back);
  }

  /** One step down shows the next newer line, at last the empty one, and then nothing. */
  lemma NextSteps(r: Ring, added: seq<string>, back: nat)
    requires Holds(r, added, back)
    ensures var (r', l) := Next(r);
            if back == 0 then l == Null && r' == r
            else Holds(r', added, back - 1) && l == Some(if back == 1 then "" else added[|added| - back + 1])
  {
    if back != 0 { SlotDown(|added|, back); }
  }

  /** `k` steps up. */
  function Ups(r: Ring, k: nat): (r': Ring)
    requires Sane(r)
    ensures Sane(r')
  {
    if k == 0 then r else Prev(Ups(r, k - 1)).0
  }

  /** For every history, from a freshly completed line the k-th up-arrow gives the k-th most recent
      line for k up to the reach, any further one gives nothing, and a down-arrow at any point takes
      back exactly one up-arrow. */
  lemma UpArrows(lines: seq<string>, k: nat)
    requires k <= Reach(|lines|)
    ensures var r := Ups(Rewind(AddAll(EMPTY, lines)), k);
            && Holds(r, lines, k)
            && Prev(r).1 == (if k < Reach(|lines|) then Some(lines[|lines| - 1 - k]) else Null)
            && (k < Reach(|lines|) ==> Next(Prev(r).0).0 == r)
            && (k == 0 <==> Next(r).1 == Null)
  {
    AddAllStores(lines);
    var r0 := Rewind(AddAll(EMPTY, lines));
    UpsHold(r0, lines, k);
    AtStep(Ups(r0, k), lines, k);
  }

  lemma {:induction false} UpsHold(r0: Ring, lines: seq<string>, k: nat)
    requires Holds(r0, lines, 0) && k <= Reach(|lines|)
    ensures Holds(Ups(r0, k), lines, k)
  {
    if k > 0 {
      UpsHold(r0, lines, k - 1);
      PrevSteps(Ups(r0, k - 1), lines, k - 1);
    }
  }

  /** What the arrows do `k` lines up. */
  lemma AtStep(r: Ring, lines: seq<string>, k: nat)
    requires Holds(r, lines, k)
    ensures Prev(r).1 == (if k < Reach(|lines|) then Some(lines[|lines| - 1 - k]) else Null)
    ensures k < Reach(|lines|) ==> Next(Prev(r).0).0 == r
    ensures k == 0 <==> Next(r).1 == Null
  {
    PrevSteps(r, lines, k);
    NextSteps(r, lines, k);
    if k < Reach(|lines|) { NextSteps(Prev(r).0, lines, k + 1); }
  }

  // ----- the static variables -----

  class Hist {
    var lines: seq<string>
    var addIdx: nat
    var max: nat
    var cur: int

    function State(): Ring
      reads this
    {
      Ring(lines, addIdx, max, cur)
    }

    /** `hist_init` */
    constructor ()
      ensures State() == EMPTY && Stores(State(), [])
    {
      lines, addIdx, max, cur := seq(HIST_MAX, _ => ""), 0, 0, -1;
    }

    method AddLine(line: string)
      requires Sane(State())
      modifies this
      ensures State() == Add(old(State()), line)
    {
      lines := lines[addIdx := line];
      addIdx := addIdx + 1;
      if addIdx >= HIST_MAX { addIdx := 0; }
      if addIdx > max { max := addIdx; }
    }

    method GoPrev() returns (ret: Option<string>)
      requires Sane(State())
      modifies this
      ensures (State(), ret) == Prev(old(State()))
    {
      if cur < 0 { return Null; }
      var oldCur := cur;
      cur := cur - 1;
      if cur < 0 { cur := max; }
      if cur == addIdx {
        cur := oldCur;
        ret := Null;
      } else {
        ret := Some(lines[cur]);
      }
    }

    method GoNext() returns (ret: Option<string>)
      requires Sane(State())
      modifies this
      ensures (State(), ret) == Next(old(State()))
    {
      if cur < 0 { return Null; }
      if cur == addIdx { return Null; }
      cur := cur + 1;
      if cur > max { cur := 0; }
      if cur == addIdx { ret := Some(""); } else { ret := Some(lines[cur]); }
    }
  }
}
