/** The boot-key matcher: while the boot delay runs, typed characters pass through a short window that
    is compared with the delay key and the stop key. */
module BootKey {
  const MAX_DELAY_STOP_STR := 32

  /** A turn of the loop: a character was waiting, or none. */
  datatype Event = Typed(c: char) | Idle

  /** The part of a key that counts. */
  function Key(str: string): (key: string)
    ensures |key| == (if |str| < 32 then |str| else 32) && key <= str
  {
    if |str| > MAX_DELAY_STOP_STR then str[..MAX_DELAY_STOP_STR] else str
  }

  function Longest(delay: string, stop: string): nat {
    if |delay| > |stop| then |delay| else |stop|
  }

  /** The text after one more turn. */
  function After(text: string, e: Event): string {
    match e
    case Typed(c) => text + [c]
    case Idle => text
  }

  /** All characters typed in a run of turns. */
  function Text(events: seq<Event>): string {
    if events == [] then "" else After(Text(events[..|events| - 1]), events[|events| - 1])
  }

  predicate EndsIn(s: string, key: string) {
    key != "" && |key| <= |s| && s[|s| - |key|..] == key
  }

  function Last(s: string, n: nat): (r: string)
    ensures |r| == if |s| <= n then |s| else n
  {
    if |s| <= n then s else s[|s| - n..]
  }

  /** Typing into the window is typing into the whole text. */
  lemma LastPush(s: string, n: nat, c: char)
    ensures Last(Last(s, n) + [c], n) == Last(s + [c], n)
  {
  }

  /** The window shows every key no longer than itself. */
  lemma WindowEnds(s: string, n: nat, key: string)
    requires |key| <= n
    ensures EndsIn(Last(s, n), key) <==> EndsIn(s, key)
  {
    var w := Last(s, n);
    if 0 < |key| <= |s| {
      assert w[|w| - |key|..] == s[|s| - |key|..];
    }
  }

  /** The turn after which a key has just been typed, counting from one; or none. */
  ghost predicate Aborts(delay: string, stop: string, events: seq<Event>, k: nat) {
    k <= |events| && (EndsIn(Text(events[..k]), Key(delay)) || EndsIn(Text(events[..k]), Key(stop)))
  }

  /** `presskey_max - 1` in 32 bits: how many characters the shift moves, and then the index it fills. */
  function ShiftEnd(max: nat): nat {
    (max + 0xFFFF_FFFF) % 0x1_0000_0000
  }

  /** The shift writes to index `i`. */
  predicate Written(max: nat, i: nat) {
    i <= ShiftEnd(max)
  }

  /** Every index the shift writes to is inside the array exactly when there is a key to look for. */
  lemma ShiftStaysInside(delay: string, stop: string)
    ensures var max := Longest(Key(delay), Key(stop));
            (forall i: nat :: Written(max, i) ==> i < MAX_DELAY_STOP_STR) <==> delay != "" || stop != ""
  {
    var max := Longest(Key(delay), Key(stop));
    if delay == "" && stop == "" {
      assert Written(max, MAX_DELAY_STOP_STR);
    }
  }

  /** Nothing was typed in the first `n` turns. */
  ghost predicate Silent(events: seq<Event>, n: nat) {
    n <= |events| && forall k :: 0 <= k < n ==> events[k].Idle?
  }

  /** No key was complete after fewer than `n` turns. */
  ghost predicate Unmatched(delay: string, stop: string, events: seq<Event>, n: nat) {
    n <= |events| && forall k :: 0 <= k < n ==> !Aborts(delay, stop, events, k)
  }

  class Window {
    const max: nat
    const presskey: array<char>
    var len: nat

    ghost predicate Valid()
      reads this
    {
      len <= max <= presskey.Length == MAX_DELAY_STOP_STR
    }

    ghost function Shown(): string
      reads this, presskey
      requires Valid()
    {
      presskey[..len]
    }

    constructor (max: nat)
      requires max <= MAX_DELAY_STOP_STR
      ensures Valid() && this.max == max && Shown() == "" && fresh(presskey)
    {
      this.max, len := max, 0;
      presskey := new char[MAX_DELAY_STOP_STR];
    }

    /** Takes one character, dropping the oldest when the window is full. */
    method Push(c: char)
      requires Valid() && 1 <= max
      modifies this`len, presskey
      ensures Valid() && Shown() == Last(old(Shown()) + [c], max)
    {
      if len < max {
        presskey[len] := c;
        len := len + 1;
        assert Shown() == old(Shown()) + [c];
      } else {
        var i := 0;
        while i < ShiftEnd(max)
          invariant i <= max - 1 && len == max
          invariant forall k :: 0 <= k < i ==> presskey[k] == old(presskey[k + 1])
          invariant forall k :: i <= k < max ==> presskey[k] == old(presskey[k])
          modifies presskey
        {
          presskey[i] := presskey[i + 1];
          i := i + 1;
        }
        presskey[i] := c;
        assert Shown() == (old(Shown()) + [c])[1..];
      }
    }

    /** The comparison of one key with the end of the window. */
    method Holds(key: string) returns (hit: bool)
      requires Valid()
      ensures hit <==> EndsIn(Shown(), key)
    {
      if |key| == 0 || len < |key| { return false; }
      hit := presskey[len - |key|..len] == key;
      assert presskey[len - |key|..len] == Shown()[len - |key|..];
    }

    /** The first half of a turn. */
    method Take(e: Event, ghost text: string)
      requires Valid() && Shown() == Last(text, max) && (e.Typed? ==> 1 <= max)
      modifies this`len, presskey
      ensures Valid() && Shown() == Last(After(text, e), max)
    {
      if e.Typed? {
        LastPush(text, max, e.c);
        Push(e.c);
      }
    }

    /** The second half of a turn: both keys are tried. */
    method Check(delay: string, stop: string, ghost text: string) returns (hit: bool, stopped: bool)
      requires Valid() && Shown() == Last(text, max) && |delay| <= max && |stop| <= max
      ensures hit <==> EndsIn(text, delay) || EndsIn(text, stop)
      ensures stopped <==> EndsIn(text, stop)
    {
      WindowEnds(text, max, delay);
      WindowEnds(text, max, stop);
      hit := Holds(delay);
      stopped := Holds(stop);
      if stopped { hit := true; }
    }

    method Turn(e: Event, delay: string, stop: string, ghost text: string) returns (hit: bool, stopped: bool)
      requires Valid() && Shown() == Last(text, max) && |delay| <= max && |stop| <= max && (e.Typed? ==> 1 <= max)
      modifies this`len, presskey
      ensures Valid() && Shown() == Last(After(text, e), max)
      ensures hit <==> EndsIn(After(text, e), delay) || EndsIn(After(text, e), stop)
      ensures stopped <==> EndsIn(After(text, e), stop)
    {
      Take(e, text);
      hit, stopped := Check(delay, stop, After(text, e));
    }

    /** The turn of one event, told by what has been typed up to it. */
    method Round(delay: string, stop: string, events: seq<Event>, k: nat) returns (hit: bool, stopped: bool)
      requires Valid() && k < |events| && Shown() == Last(Text(events[..k]), max)
      requires |Key(delay)| <= max && |Key(stop)| <= max && (events[k].Typed? ==> 1 <= max)
      modifies this`len, presskey
      ensures Valid() && Shown() == Last(Text(events[..k + 1]), max)
      ensures hit <==> Aborts(delay, stop, events, k + 1)
      ensures stopped <==> EndsIn(Text(events[..k + 1]), Key(stop))
    {
      TextStep(events, k);
      hit, stopped := Turn(events[k], Key(delay), Key(stop), Text(events[..k]));
    }
  }

  /** `passwd_abort` over the turns that happen before the time is up.  With no key to look for, the
      first character typed is lost: `stray` says that the shift has left the array there. */
  method PasswdAbort(delay: string, stop: string, events: seq<Event>)
    returns (abort: bool, retry: bool, turns: nat, stray: bool)
    requires events != []
    ensures stray <==> delay == "" && stop == "" && !Silent(events, |events|)
    ensures stray ==> Silent(events, turns) && turns < |events| && events[turns].Typed?
    ensures abort <==> exists k :: Aborts(delay, stop, events, k)
    ensures abort ==> Aborts(delay, stop, events, turns) && Unmatched(delay, stop, events, turns)
    ensures !abort && !stray ==> turns == |events|
    ensures retry <==> !(abort && EndsIn(Text(events[..turns]), Key(stop)))
  {
    var max := Longest(Key(delay), Key(stop));
    var w := new Window(max);
    abort, retry, turns, stray := false, true, 0, false;
    assert events[..0] == [];
    while turns < |events| && !abort
      invariant w.Valid() && fresh(w) && fresh(w.presskey) && w.max == max
      invariant turns <= |events| && w.Shown() == Last(Text(events[..turns]), max)
      invariant abort <==> Aborts(delay, stop, events, turns)
      invariant Unmatched(delay, stop, events, turns) && (max == 0 ==> Silent(events, turns))
      invariant retry <==> !(abort && EndsIn(Text(events[..turns]), Key(stop)))
    {
      if events[turns].Typed? && max == 0 {
        stray := true;
        NoKeyNoAbort(events);
        return;
      }
      var hit, stopped := w.Round(delay, stop, events, turns);
      turns := turns + 1;
      abort, retry := hit, !stopped;
    }
    if !abort { NeverAborts(delay, stop, events); }
  }

  lemma NeverAborts(delay: string, stop: string, events: seq<Event>)
    requires Unmatched(delay, stop, events, |events|) && !Aborts(delay, stop, events, |events|)
    ensures forall k :: !Aborts(delay, stop, events, k)
  {
  }

  lemma NoKeyNoAbort(events: seq<Event>)
    ensures forall k :: !Aborts("", "", events, k)
  {
  }

  lemma TextStep(events: seq<Event>, k: nat)
    requires k < |events|
    ensures Text(events[..k + 1]) == After(Text(events[..k]), events[k])
  {
    assert events[..k + 1][..k] == events[..k];
  }
}
