/** Enumerating storage devices: a state machine driven by the cookie of the last device returned. */
module StorageEnum {
  import opened Options

  const ENUM_IDE: nat := 0
  const ENUM_MAX: nat := 5

  /** A block device, known by its address; an instance of unknown type is not active. */
  datatype Device = Device(id: nat, active: bool)

  /** Per group: how many indices are tried, and what `get_dev` answers for each. */
  datatype Config = Config(max: seq<nat>, slots: seq<seq<Option<Device>>>)

  ghost predicate IsConfig(c: Config) {
    |c.max| == ENUM_MAX && |c.slots| == ENUM_MAX
  }

  type Cookie = Option<nat>

  /** `enum_started` and `enum_ended` of each group. */
  datatype Specs = Specs(started: seq<bool>, ended: seq<bool>)

  ghost predicate IsSpecs(s: Specs) {
    |s.started| == ENUM_MAX && |s.ended| == ENUM_MAX
  }

  const RESET := Specs([false, false, false, false, false], [false, false, false, false, false])

  function GetDev(c: Config, g: nat, i: nat): Option<Device>
    requires IsConfig(c) && g < ENUM_MAX
  {
    if i < |c.slots[g]| then c.slots[g][i] else Null
  }

  function CookieOf(d: Option<Device>): Cookie {
    if d.Null? then Null else Some(d.value.id)
  }

  /** The first index from `i` on, below the group's limit, where the cookie is found; else the limit. */
  function IndexFrom(c: Config, g: nat, cookie: Cookie, i: nat): (k: nat)
    requires IsConfig(c) && g < ENUM_MAX && i <= c.max[g]
    ensures i <= k <= c.max[g]
    ensures k < c.max[g] ==> CookieOf(GetDev(c, g, k)) == cookie
    ensures forall j :: i <= j < k ==> CookieOf(GetDev(c, g, j)) != cookie
    decreases c.max[g] - i
  {
    if i == c.max[g] || CookieOf(GetDev(c, g, i)) == cookie then i else IndexFrom(c, g, cookie, i + 1)
  }

  datatype Got = Got(found: bool, more: bool, cookie: Cookie)

  /** Take device `i` of the group, if there is one. */
  function Take(c: Config, g: nat, i: nat): Got
    requires IsConfig(c) && g < ENUM_MAX
  {
    var d := GetDev(c, g, i);
    if d.Null? then Got(false, false, Null) else Got(d.value.active, i + 1 < c.max[g], CookieOf(d))
  }

  /** `dev_stor_get` */
  function StorGet(c: Config, g: nat, first: bool, cookie: Cookie): Got
    requires IsConfig(c) && g < ENUM_MAX
  {
    if first then Take(c, g, 0)
    else
      var i := IndexFrom(c, g, cookie, 0);
      if i + 1 >= c.max[g] then Got(false, false, Null) else Take(c, g, i + 1)
  }

  /** `dev_stor_type` from group `g` on. */
  function StorType(c: Config, cookie: Cookie, g: nat): (t: nat)
    requires IsConfig(c) && g <= ENUM_MAX
    ensures g <= t <= ENUM_MAX
    decreases ENUM_MAX - g
  {
    if g == ENUM_MAX || IndexFrom(c, g, cookie, 0) < c.max[g] then g else StorType(c, cookie, g + 1)
  }

  datatype Answer = Answer(found: bool, specs: Specs, cookie: Cookie)

  /** `dev_enum_stor` */
  function EnumStor(c: Config, g: nat, s: Specs, cookie: Cookie): (a: Answer)
    requires IsConfig(c) && IsSpecs(s) && g < ENUM_MAX
    ensures IsSpecs(a.specs)
  {
    if cookie.Null? then
      Finish(StorGet(c, g, true, cookie), g, s.(started := s.started[g := true]))
    else if StorType(c, cookie, ENUM_IDE) == g then
      if s.ended[g] then Answer(false, s, cookie) else Finish(StorGet(c, g, false, cookie), g, s)
    else if s.ended[g] then Answer(false, s, cookie)
    else if !s.started[g] then
      Finish(StorGet(c, g, true, cookie), g, s.(started := s.started[g := true]))
    else Finish(Got(false, false, cookie), g, s)
  }

  function Finish(r: Got, g: nat, s: Specs): (a: Answer)
    requires IsSpecs(s) && g < ENUM_MAX
    ensures IsSpecs(a.specs)
  {
    Answer(r.found, s.(ended := s.ended[g := !r.more]), r.cookie)
  }

  /** `dev_enum_storage` from group `g` on. */
  function EnumStorage(c: Config, g: nat, s: Specs, cookie: Cookie): (a: Answer)
    requires IsConfig(c) && IsSpecs(s) && g <= ENUM_MAX
    ensures IsSpecs(a.specs)
    decreases ENUM_MAX - g
  {
    if g == ENUM_MAX then Answer(false, s, cookie)
    else
      var a := EnumStor(c, g, s, cookie);
      if a.found then a else EnumStorage(c, g + 1, a.specs, a.cookie)
  }

  /** `API_dev_enum`, with `net` the current network device. */
  function DevEnum(c: Config, net: Cookie, s: Specs, cookie: Cookie): (a: Answer)
    requires IsConfig(c) && IsSpecs(s)
    ensures IsSpecs(a.specs)
  {
    if cookie.Null? && net.Some? then Answer(true, RESET, net)
    else
      var a := EnumStorage(c, ENUM_IDE, if cookie.Null? then RESET else s, cookie);
      if a.found then a else a.(cookie := Null)
  }

  // ----- what repeated calls return -----

  /** No device appears twice, and none is the network device. */
  ghost predicate Distinct(c: Config, net: Cookie) {
    && IsConfig(c)
    && (forall g, i :: 0 <= g < ENUM_MAX && 0 <= i < |c.slots[g]| && c.slots[g][i].Some? ==>
        CookieOf(c.slots[g][i]) != net)
    && (forall g, i, h, j | 0 <= g < ENUM_MAX && 0 <= i < |c.slots[g]| && 0 <= h < ENUM_MAX && 0 <= j < |c.slots[h]| ::
          c.slots[g][i].Some? && CookieOf(c.slots[g][i]) == CookieOf(c.slots[h][j]) ==> g == h && i == j)
  }

  /** There is an active device at index `i`. */
  predicate Active(c: Config, g: nat, i: nat)
    requires IsConfig(c) && g < ENUM_MAX
  {
    i < |c.slots[g]| && c.slots[g][i].Some? && c.slots[g][i].value.active
  }

  /** It can be returned: the first index is tried whatever the limit, later ones below the limit. */
  predicate Shown(c: Config, g: nat, i: nat)
    requires IsConfig(c) && g < ENUM_MAX
  {
    Active(c, g, i) && (i == 0 || i < c.max[g])
  }

  /** The cookies of one group from index `i` on, up to the first index that cannot be returned. */
  function GroupFrom(c: Config, g: nat, i: nat): seq<Cookie>
    requires IsConfig(c) && g < ENUM_MAX
    decreases if i < |c.slots[g]| then |c.slots[g]| - i else 0
  {
    if Shown(c, g, i) then [CookieOf(c.slots[g][i])] + GroupFrom(c, g, i + 1) else []
  }

  /** The same for all groups from `g` on. */
  function AllFrom(c: Config, g: nat): seq<Cookie>
    requires IsConfig(c) && g <= ENUM_MAX
    decreases ENUM_MAX - g
  {
    if g == ENUM_MAX then [] else GroupFrom(c, g, 0) + AllFrom(c, g + 1)
  }

  /** The groups from `g` on have not been touched. */
  ghost predicate Untouched(s: Specs, g: nat) {
    IsSpecs(s) && forall h :: g <= h < ENUM_MAX ==> !s.started[h] && !s.ended[h]
  }

  /** The groups before `g` have been started or are done: they give nothing to the cookie of another. */
  ghost predicate Behind(s: Specs, g: nat) {
    IsSpecs(s) && g <= ENUM_MAX && forall h :: 0 <= h < g ==> s.started[h] || s.ended[h]
  }

  /** Device `i` of group `g` was returned last. */
  ghost predicate At(c: Config, s: Specs, g: nat, i: nat) {
    && IsConfig(c) && g < ENUM_MAX && Shown(c, g, i)
    && Behind(s, g)
    && s.started[g] && s.ended[g] == (i + 1 >= c.max[g])
    && Untouched(s, g + 1)
  }

  /** The cookie names the device at index `i` of group `h`. */
  ghost predicate In(c: Config, cookie: Cookie, h: nat, i: nat) {
    IsConfig(c) && h < ENUM_MAX && i < |c.slots[h]| && c.slots[h][i].Some? && cookie == CookieOf(c.slots[h][i])
  }

  lemma FindsDevice(c: Config, net: Cookie, cookie: Cookie, h: nat, i: nat)
    requires Distinct(c, net) && In(c, cookie, h, i)
    ensures IndexFrom(c, h, cookie, 0) == if i < c.max[h] then i else c.max[h]
    ensures forall g :: 0 <= g < ENUM_MAX && g != h ==> IndexFrom(c, g, cookie, 0) == c.max[g]
  {
    assert CookieOf(GetDev(c, h, i)) == cookie;
    assert forall g, k :: 0 <= g < ENUM_MAX && 0 <= k < |c.slots[g]| && CookieOf(c.slots[g][k]) == cookie ==>
        g == h && k == i;
    assert forall g, k :: 0 <= g < ENUM_MAX && 0 <= k && CookieOf(GetDev(c, g, k)) == cookie ==> g == h && k == i;
  }

  lemma {:induction false} TypeIs(c: Config, cookie: Cookie, h: nat, g: nat)
    requires IsConfig(c) && g <= h < ENUM_MAX && IndexFrom(c, h, cookie, 0) < c.max[h]
    requires forall k :: 0 <= k < ENUM_MAX && k != h ==> IndexFrom(c, k, cookie, 0) == c.max[k]
    ensures StorType(c, cookie, g) == h
    decreases h - g
  {
    if g < h { TypeIs(c, cookie, h, g + 1); }
  }

  lemma {:induction false} TypeIsNone(c: Config, cookie: Cookie, g: nat)
    requires IsConfig(c) && g <= ENUM_MAX
    requires forall k :: 0 <= k < ENUM_MAX ==> IndexFrom(c, k, cookie, 0) == c.max[k]
    ensures StorType(c, cookie, g) == ENUM_MAX
    decreases ENUM_MAX - g
  {
    if g < ENUM_MAX { TypeIsNone(c, cookie, g + 1); }
  }

  /** The search for a cookie finds its group and index, if that index is below the limit. */
  lemma DeviceType(c: Config, net: Cookie, cookie: Cookie, h: nat, i: nat)
    requires Distinct(c, net) && In(c, cookie, h, i)
    ensures StorType(c, cookie, ENUM_IDE) == if i < c.max[h] then h else ENUM_MAX
    ensures i < c.max[h] ==> IndexFrom(c, h, cookie, 0) == i
  {
    FindsDevice(c, net, cookie, h, i);
    if i < c.max[h] { TypeIs(c, cookie, h, ENUM_IDE); } else { TypeIsNone(c, cookie, ENUM_IDE); }
  }

  lemma NetType(c: Config, net: Cookie)
    requires Distinct(c, net) && net.Some?
    ensures StorType(c, net, ENUM_IDE) == ENUM_MAX
  {
    assert forall g, k :: 0 <= g < ENUM_MAX && 0 <= k ==> CookieOf(GetDev(c, g, k)) != net;
    TypeIsNone(c, net, ENUM_IDE);
  }

  /** What is still to come after device `i` of group `g`. */
  function Remaining(c: Config, g: nat, i: nat): seq<Cookie>
    requires IsConfig(c) && g < ENUM_MAX
  {
    GroupFrom(c, g, i + 1) + AllFrom(c, g + 1)
  }

  lemma RemainingStep(c: Config, g: nat, i: nat)
    requires IsConfig(c) && g < ENUM_MAX
    ensures Remaining(c, g, i) == if Shown(c, g, i + 1) then [CookieOf(c.slots[g][i + 1])] + Remaining(c, g, i + 1)
                                  else AllFrom(c, g + 1)
  {
  }

  lemma AllFromStep(c: Config, g: nat)
    requires IsConfig(c) && g < ENUM_MAX
    ensures AllFrom(c, g)
        == if Shown(c, g, 0) then [CookieOf(c.slots[g][0])] + Remaining(c, g, 0) else AllFrom(c, g + 1)
  {
  }

  /** The answer of a call after which `l` was still to come: null, or the head of `l` with the
      rest of it to come. */
  ghost predicate Moves(c: Config, a: Answer, l: seq<Cookie>, h: nat, j: nat) {
    && IsConfig(c)
    && (a.found <==> l != [])
    && (a.found ==> At(c, a.specs, h, j) && In(c, a.cookie, h, j) && l == [a.cookie] + Remaining(c, h, j))
  }

  /** A cookie that is none of the devices of the groups from `g` on. */
  ghost predicate Outside(c: Config, cookie: Cookie, g: nat) {
    IsConfig(c) && (cookie.Null? || StorType(c, cookie, ENUM_IDE) < g || StorType(c, cookie, ENUM_IDE) == ENUM_MAX)
  }

  /** A group not yet touched gives its first device to any cookie that is not its own. */
  lemma FreshGroup(c: Config, g: nat, s: Specs, cookie: Cookie)
    requires Outside(c, cookie, g) && g < ENUM_MAX && IsSpecs(s) && !s.started[g] && !s.ended[g]
    ensures EnumStor(c, g, s, cookie) == Finish(Take(c, g, 0), g, s.(started := s.started[g := true]))
  {
  }

  lemma StorageStep(c: Config, g: nat, s: Specs, cookie: Cookie)
    requires IsConfig(c) && IsSpecs(s) && g < ENUM_MAX
    ensures var a := EnumStor(c, g, s, cookie);
            EnumStorage(c, g, s, cookie) == if a.found then a else EnumStorage(c, g + 1, a.specs, a.cookie)
  {
  }

  /** From untouched groups on, the first group whose first device is active answers with it. */
  lemma {:induction false} FirstFrom(c: Config, net: Cookie, g: nat, s: Specs, cookie: Cookie) returns (h: nat)
    requires Distinct(c, net) && Behind(s, g) && Untouched(s, g) && Outside(c, cookie, g)
    ensures Moves(c, EnumStorage(c, g, s, cookie), AllFrom(c, g), h, 0)
    decreases ENUM_MAX - g
  {
    h := g;
    if g < ENUM_MAX {
      StorageStep(c, g, s, cookie);
      AllFromStep(c, g);
      if Shown(c, g, 0) {
        FreshGives(c, g, s, cookie);
      } else {
        FreshGivesNone(c, net, g, s, cookie);
        var a := EnumStor(c, g, s, cookie);
        h := FirstFrom(c, net, g + 1, a.specs, a.cookie);
      }
    }
  }

  lemma FreshGives(c: Config, g: nat, s: Specs, cookie: Cookie)
    requires g < ENUM_MAX && Behind(s, g) && Untouched(s, g) && Outside(c, cookie, g) && Shown(c, g, 0)
    ensures var a := EnumStor(c, g, s, cookie); a.found && At(c, a.specs, g, 0) && In(c, a.cookie, g, 0)
  {
    FreshGroup(c, g, s, cookie);
  }

  /** No first device, or an inactive one: nothing found, and the cookie is null or that device's. */
  lemma FreshGivesNone(c: Config, net: Cookie, g: nat, s: Specs, cookie: Cookie)
    requires Distinct(c, net) && g < ENUM_MAX && Behind(s, g) && Untouched(s, g) && Outside(c, cookie, g)
        && !Shown(c, g, 0)
    ensures var a := EnumStor(c, g, s, cookie);
            !a.found && Behind(a.specs, g + 1) && Untouched(a.specs, g + 1) && Outside(c, a.cookie, g + 1)
  {
    FreshGroup(c, g, s, cookie);
    var a := EnumStor(c, g, s, cookie);
    if a.cookie.Some? { DeviceType(c, net, a.cookie, g, 0); }
  }

  /** The groups behind are passed over; those still open are closed on the way. */
  lemma {:induction false} BehindPassed(c: Config, k: nat, g: nat, s: Specs, cookie: Cookie) returns (s': Specs)
    requires IsConfig(c) && Behind(s, g) && k <= g && cookie.Some?
    requires StorType(c, cookie, ENUM_IDE) >= g
    ensures Behind(s', g) && EnumStorage(c, k, s, cookie) == EnumStorage(c, g, s', cookie)
    ensures s'.started == s.started && (forall h :: 0 <= h < ENUM_MAX && !(k <= h < g) ==> s'.ended[h] == s.ended[h])
    decreases g - k
  {
    s' := s;
    if k < g {
      StorageStep(c, k, s, cookie);
      var a := EnumStor(c, k, s, cookie);
      s' := BehindPassed(c, k + 1, g, a.specs, a.cookie);
    }
  }

  /** What the group of the last device does: its next device, if that is active, and else nothing. */
  lemma GroupContinues(c: Config, net: Cookie, s: Specs, g: nat, i: nat)
    requires Distinct(c, net) && At(c, s, g, i)
    ensures var cookie := CookieOf(c.slots[g][i]);
            var a := EnumStor(c, g, s, cookie);
            && (a.found <==> Shown(c, g, i + 1))
            && (a.found ==> At(c, a.specs, g, i + 1) && In(c, a.cookie, g, i + 1))
            && (!a.found ==> Behind(a.specs, g + 1) && Untouched(a.specs, g + 1) && Outside(c, a.cookie, g + 1))
  {
    var cookie := CookieOf(c.slots[g][i]);
    DeviceType(c, net, cookie, g, i);
    var a := EnumStor(c, g, s, cookie);
    if i + 1 < c.max[g] {
      assert a == Finish(Take(c, g, i + 1), g, s);
      if a.cookie.Some? { DeviceType(c, net, a.cookie, g, i + 1); }
    } else {
      assert a == Answer(false, s, cookie);
    }
  }

  /** One call moves to the next device of the group, or to the first device after the group. */
  lemma NextFrom(c: Config, net: Cookie, s: Specs, g: nat, i: nat) returns (h: nat, j: nat)
    requires Distinct(c, net) && At(c, s, g, i)
    ensures Moves(c, EnumStorage(c, ENUM_IDE, s, CookieOf(c.slots[g][i])), Remaining(c, g, i), h, j)
  {
    var cookie := CookieOf(c.slots[g][i]);
    DeviceType(c, net, cookie, g, i);
    var s' := BehindPassed(c, ENUM_IDE, g, s, cookie);
    h, j := FromGroup(c, net, s', g, i);
  }

  lemma FromGroup(c: Config, net: Cookie, s: Specs, g: nat, i: nat) returns (h: nat, j: nat)
    requires Distinct(c, net) && At(c, s, g, i)
    ensures Moves(c, EnumStorage(c, g, s, CookieOf(c.slots[g][i])), Remaining(c, g, i), h, j)
  {
    var cookie := CookieOf(c.slots[g][i]);
    GroupContinues(c, net, s, g, i);
    StorageStep(c, g, s, cookie);
    RemainingStep(c, g, i);
    h, j := g, i + 1;
    if !Shown(c, g, i + 1) {
      var a := EnumStor(c, g, s, cookie);
      h := FirstFrom(c, net, g + 1, a.specs, a.cookie);
      j := 0;
    }
  }

  /** `API_dev_enum` as a step from state and cookie to the answer. */
  ghost function Calls(c: Config, net: Cookie): (f: (Specs, Cookie) -> Answer)
    requires IsConfig(c)
    ensures forall s, cookie :: IsSpecs(s) ==> f(s, cookie) == DevEnum(c, net, s, cookie)
  {
    (s, cookie) => if IsSpecs(s) then DevEnum(c, net, s, cookie) else Answer(false, s, Null)
  }

  /** The cookies of `n` calls in a row. */
  ghost function Results(call: (Specs, Cookie) -> Answer, s: Specs, cookie: Cookie, n: nat): seq<Cookie>
    decreases n
  {
    if n == 0 then []
    else
      var a := call(s, cookie);
      [a.cookie] + Results(call, a.specs, a.cookie, n - 1)
  }

  /** A call that moves on, and the calls after it. */
  lemma ResultsStep(call: (Specs, Cookie) -> Answer, s: Specs, cookie: Cookie, l: seq<Cookie>, rest: seq<Cookie>)
    requires var a := call(s, cookie);
             if l == [] then a.cookie == Null
             else l == [a.cookie] + rest && Results(call, a.specs, a.cookie, |rest| + 1) == rest + [Null]
    ensures Results(call, s, cookie, |l| + 1) == l + [Null]
  {
    var a := call(s, cookie);
    if l != [] {
      assert Results(call, s, cookie, |l| + 1) == [a.cookie] + Results(call, a.specs, a.cookie, |rest| + 1);
      assert [a.cookie] + (rest + [Null]) == l + [Null];
    } else {
      assert Results(call, a.specs, a.cookie, 0) == [];
    }
  }

  /** One call after device `i` of group `g`. */
  lemma CallMoves(c: Config, net: Cookie, s: Specs, g: nat, i: nat) returns (h: nat, j: nat)
    requires Distinct(c, net) && At(c, s, g, i)
    ensures var a, l := DevEnum(c, net, s, CookieOf(c.slots[g][i])), Remaining(c, g, i);
            Moves(c, a, l, h, j) && (l == [] ==> a.cookie == Null)
  {
    h, j := NextFrom(c, net, s, g, i);
  }

  lemma {:induction false} ResultsFrom(c: Config, net: Cookie, s: Specs, g: nat, i: nat)
    requires Distinct(c, net) && At(c, s, g, i)
    ensures var l := Remaining(c, g, i); Results(Calls(c, net), s, CookieOf(c.slots[g][i]), |l| + 1) == l + [Null]
    decreases |Remaining(c, g, i)|
  {
    var cookie, l := CookieOf(c.slots[g][i]), Remaining(c, g, i);
    var h, j := CallMoves(c, net, s, g, i);
    var a := Calls(c, net)(s, cookie);
    if l == [] {
      ResultsStep(Calls(c, net), s, cookie, l, []);
    } else {
      ResultsFrom(c, net, a.specs, h, j);
      ResultsStep(Calls(c, net), s, cookie, l, Remaining(c, h, j));
    }
  }

  /** The first call that reaches the storage groups. */
  lemma FirstCallMoves(c: Config, net: Cookie, s: Specs, cookie: Cookie) returns (h: nat)
    requires Distinct(c, net) && IsSpecs(s)
    requires if cookie.Null? then net.Null? else s == RESET && StorType(c, cookie, ENUM_IDE) == ENUM_MAX
    ensures var a, l := DevEnum(c, net, s, cookie), AllFrom(c, ENUM_IDE);
            Moves(c, a, l, h, 0) && (l == [] ==> a.cookie == Null)
  {
    h := FirstFrom(c, net, ENUM_IDE, RESET, cookie);
  }

  /** A call that moves to a device, and all the calls after it. */
  lemma ResultsAfter(c: Config, net: Cookie, s: Specs, cookie: Cookie, l: seq<Cookie>, h: nat, j: nat)
    requires Distinct(c, net)
    requires var a := Calls(c, net)(s, cookie); Moves(c, a, l, h, j) && (l == [] ==> a.cookie == Null)
    ensures Results(Calls(c, net), s, cookie, |l| + 1) == l + [Null]
  {
    if l == [] {
      ResultsStep(Calls(c, net), s, cookie, l, []);
    } else {
      ResultsFrom(c, net, Calls(c, net)(s, cookie).specs, h, j);
      ResultsStep(Calls(c, net), s, cookie, l, Remaining(c, h, j));
    }
  }

  /** What the calls return before they return null. */
  function Listing(c: Config, net: Cookie): seq<Cookie>
    requires IsConfig(c)
  {
    (if net.Some? then [net] else []) + AllFrom(c, ENUM_IDE)
  }

  /** For all distinct devices, repeated calls from a null cookie, whatever the state before, return
      the network device if there is one, then the devices of each group in order up to the first that
      is missing, inactive or beyond the limit, then null. */
  lemma Enumerates(c: Config, net: Cookie, s: Specs)
    requires Distinct(c, net) && IsSpecs(s)
    ensures Results(Calls(c, net), s, Null, |Listing(c, net)| + 1) == Listing(c, net) + [Null]
  {
    var all := AllFrom(c, ENUM_IDE);
    if net.Some? {
      NetType(c, net);
      var h := FirstCallMoves(c, net, RESET, net);
      ResultsAfter(c, net, RESET, net, all, h, 0);
      assert Calls(c, net)(s, Null) == Answer(true, RESET, net);
      ResultsStep(Calls(c, net), s, Null, [net] + all, all);
    } else {
      var h := FirstCallMoves(c, net, s, Null);
      ResultsAfter(c, net, s, Null, all, h, 0);
      assert [] + all == all;
    }
  }

  // ----- when that is every device -----

  /** Index `i` and all before it can be returned. */
  ghost predicate Reached(c: Config, g: nat, i: nat)
    requires IsConfig(c) && g < ENUM_MAX
  {
    forall j: nat :: j <= i ==> Shown(c, g, j)
  }

  lemma {:induction false} InGroup(c: Config, net: Cookie, g: nat, k: nat, h: nat, i: nat)
    requires Distinct(c, net) && g < ENUM_MAX && h < ENUM_MAX && i < |c.slots[h]| && c.slots[h][i].Some?
    ensures CookieOf(c.slots[h][i]) in GroupFrom(c, g, k)
        <==> g == h && k <= i && forall j :: k <= j <= i ==> Shown(c, g, j)
    decreases if k < |c.slots[g]| then |c.slots[g]| - k else 0
  {
    if Shown(c, g, k) {
      InGroup(c, net, g, k + 1, h, i);
      assert CookieOf(c.slots[g][k]) == CookieOf(c.slots[h][i]) <==> g == h && k == i;
    }
  }

  lemma {:induction false} InAll(c: Config, net: Cookie, g: nat, h: nat, i: nat)
    requires Distinct(c, net) && g <= ENUM_MAX && h < ENUM_MAX && i < |c.slots[h]| && c.slots[h][i].Some?
    ensures CookieOf(c.slots[h][i]) in AllFrom(c, g) <==> g <= h && Reached(c, h, i)
    decreases ENUM_MAX - g
  {
    if g < ENUM_MAX {
      InGroup(c, net, g, 0, h, i);
      InAll(c, net, g + 1, h, i);
    }
  }

  /** Every active device is returned exactly when in each group all active devices are below the limit
      (or first) and none of them follows one that is missing or inactive. */
  lemma AllAreListed(c: Config, net: Cookie)
    requires Distinct(c, net)
    ensures (forall g, i: nat | 0 <= g < ENUM_MAX && Active(c, g, i) :: CookieOf(c.slots[g][i]) in Listing(c, net))
       <==> (forall g, i: nat | 0 <= g < ENUM_MAX && Active(c, g, i) ::
               (i == 0 || i < c.max[g]) && forall j: nat | j < i :: Active(c, g, j))
  {
    forall g, i: nat | 0 <= g < ENUM_MAX && Active(c, g, i)
      ensures CookieOf(c.slots[g][i]) in Listing(c, net)
         <==> (i == 0 || i < c.max[g]) && forall j: nat | j < i :: Active(c, g, j)
    {
      InAll(c, net, ENUM_IDE, g, i);
      ReachedIff(c, g, i);
    }
  }

  lemma ReachedIff(c: Config, g: nat, i: nat)
    requires IsConfig(c) && g < ENUM_MAX && Active(c, g, i)
    ensures Reached(c, g, i) <==> (i == 0 || i < c.max[g]) && forall j: nat | j < i :: Active(c, g, j)
  {
    if Reached(c, g, i) {
      assert Shown(c, g, i);
      forall j: nat | j < i ensures Active(c, g, j) { assert Shown(c, g, j); }
    } else {
      var j: nat :| j <= i && !Shown(c, g, j);
      assert j < i && i < c.max[g] ==> !Active(c, g, j);
    }
  }

  /** A configuration with devices in its first group only. */
  function FirstGroup(max: nat, l: seq<Option<Device>>): (c: Config)
    ensures IsConfig(c)
  {
    Config([max, 0, 0, 0, 0], [l, [], [], [], []])
  }

  lemma {:induction false} NoneAfter(max: nat, l: seq<Option<Device>>, g: nat)
    requires 1 <= g <= ENUM_MAX
    ensures AllFrom(FirstGroup(max, l), g) == []
    decreases ENUM_MAX - g
  {
    if g < ENUM_MAX { NoneAfter(max, l, g + 1); }
  }

  lemma FirstGroupDistinct(max: nat, l: seq<Option<Device>>)
    requires forall i, j :: 0 <= i < |l| && 0 <= j < |l| && l[i].Some? && CookieOf(l[i]) == CookieOf(l[j]) ==> i == j
    ensures Distinct(FirstGroup(max, l), Null)
  {
    var c := FirstGroup(max, l);
    assert c.slots[0] == l;
    assert forall g :: 0 < g < ENUM_MAX ==> c.slots[g] == [];
  }

  lemma FirstOnly(c: Config, s: Specs)
    requires Distinct(c, Null) && IsSpecs(s) && Shown(c, 0, 0) && !Shown(c, 0, 1) && AllFrom(c, 1) == []
    ensures Results(Calls(c, Null), s, Null, 2) == [CookieOf(c.slots[0][0]), Null]
  {
    assert GroupFrom(c, 0, 0) == [CookieOf(c.slots[0][0])] by { assert GroupFrom(c, 0, 1) == []; }
    assert Listing(c, Null) == [CookieOf(c.slots[0][0])];
    Enumerates(c, Null, s);
  }

  /** Three devices of which the middle one is inactive: the calls return the first and then null. */
  lemma MiddleHidesLast(a: nat, b: nat, d: nat, s: Specs)
    requires a != b && b != d && a != d && IsSpecs(s)
    ensures var l := [Some(Device(a, true)), Some(Device(b, false)), Some(Device(d, true))];
            Results(Calls(FirstGroup(3, l), Null), s, Null, 2) == [Some(a), Null]
  {
    var l := [Some(Device(a, true)), Some(Device(b, false)), Some(Device(d, true))];
    FirstGroupDistinct(3, l);
    NoneAfter(3, l, 1);
    FirstOnly(FirstGroup(3, l), s);
  }

  /** No device is returned twice. */
  ghost predicate Once(l: seq<Cookie>) {
    forall m, n :: 0 <= m < n < |l| ==> l[m] != l[n]
  }

  lemma {:induction false} GroupOnce(c: Config, net: Cookie, g: nat, i: nat)
    requires Distinct(c, net) && g < ENUM_MAX
    ensures Once(GroupFrom(c, g, i))
    ensures forall k :: 0 <= k < |GroupFrom(c, g, i)| ==> InSome(c, GroupFrom(c, g, i)[k], g)
    decreases if i < |c.slots[g]| then |c.slots[g]| - i else 0
  {
    if Shown(c, g, i) {
      GroupOnce(c, net, g, i + 1);
      InGroup(c, net, g, i + 1, g, i);
      assert In(c, CookieOf(c.slots[g][i]), g, i);
    }
  }

  /** The cookie names a device of the group. */
  ghost predicate InSome(c: Config, cookie: Cookie, g: nat) {
    exists i: nat :: In(c, cookie, g, i)
  }

  lemma {:induction false} AllOnce(c: Config, net: Cookie, g: nat)
    requires Distinct(c, net) && g <= ENUM_MAX
    ensures Once(AllFrom(c, g))
    ensures forall k :: 0 <= k < |AllFrom(c, g)| ==> InLater(c, AllFrom(c, g)[k], g)
    decreases ENUM_MAX - g
  {
    if g < ENUM_MAX {
      GroupOnce(c, net, g, 0);
      AllOnce(c, net, g + 1);
      forall cookie | InSome(c, cookie, g) ensures InLater(c, cookie, g) && !InLater(c, cookie, g + 1) {
        var i: nat :| In(c, cookie, g, i);
      }
    }
  }

  /** The cookie names a device of the groups from `g` on. */
  ghost predicate InLater(c: Config, cookie: Cookie, g: nat) {
    exists h: nat, i: nat :: g <= h && In(c, cookie, h, i)
  }

  lemma ListedOnce(c: Config, net: Cookie)
    requires Distinct(c, net)
    ensures Once(Listing(c, net)) && Null !in Listing(c, net)
  {
    AllOnce(c, net, ENUM_IDE);
    var all := AllFrom(c, ENUM_IDE);
    forall k | 0 <= k < |all| ensures all[k] != net && all[k] != Null {
      var h: nat, i: nat :| ENUM_IDE <= h && In(c, all[k], h, i);
    }
  }

  // ----- the static table and the caller's record, updated in place -----

  class Enumerator {
    const c: Config
    var started: seq<bool>
    var ended: seq<bool>
    var cookie: Cookie

    ghost predicate Valid()
      reads this
    {
      IsConfig(c) && IsSpecs(State())
    }

    function State(): Specs
      reads this
    {
      Specs(started, ended)
    }

    /** `dev_stor_init` */
    constructor (c: Config)
      requires IsConfig(c)
      ensures Valid() && this.c == c && State() == RESET && cookie == Null
    {
      this.c, cookie := c, Null;
      started, ended := RESET.started, RESET.ended;
    }

    method TakeDevice(g: nat, i: nat) returns (found: bool, more: bool)
      requires Valid() && g < ENUM_MAX
      modifies this`cookie
      ensures Got(found, more, cookie) == Take(c, g, i)
    {
      found, more := false, false;
      var d := GetDev(c, g, i);
      cookie := CookieOf(d);
      if cookie.Null? { return; }
      found := true;
      if i + 1 < c.max[g] { more := true; }
      if !d.value.active { found := false; }
    }

    method DevStorGet(g: nat, first: bool) returns (found: bool, more: bool)
      requires Valid() && g < ENUM_MAX
      modifies this`cookie
      ensures Got(found, more, cookie) == StorGet(c, g, first, old(cookie))
    {
      if first {
        found, more := TakeDevice(g, 0);
        return;
      }
      found, more := false, false;
      var i := 0;
      while i < c.max[g] && cookie != CookieOf(GetDev(c, g, i))
        invariant 0 <= i <= c.max[g] && IndexFrom(c, g, cookie, 0) == IndexFrom(c, g, cookie, i)
      {
        i := i + 1;
      }
      if i + 1 >= c.max[g] {
        cookie := Null;
      } else {
        found, more := TakeDevice(g, i + 1);
      }
    }

    method DevStorType() returns (t: nat)
      requires Valid()
      ensures t == StorType(c, cookie, ENUM_IDE)
    {
      t := ENUM_IDE;
      while t < ENUM_MAX
        invariant t <= ENUM_MAX && StorType(c, cookie, ENUM_IDE) == StorType(c, cookie, t)
      {
        var j := 0;
        while j < c.max[t]
          invariant 0 <= j <= c.max[t] && IndexFrom(c, t, cookie, 0) == IndexFrom(c, t, cookie, j)
        {
          if cookie == CookieOf(GetDev(c, t, j)) { return; }
          j := j + 1;
        }
        t := t + 1;
      }
    }

    method DevEnumStor(g: nat) returns (found: bool)
      requires Valid() && g < ENUM_MAX
      modifies this
      ensures Valid() && Answer(found, State(), cookie) == EnumStor(c, g, old(State()), old(cookie))
    {
      var more;
      var t := DevStorType();
      if cookie.Null? {
        found, more := DevStorGet(g, true);
        started := started[g := true];
      } else if t == g {
        if ended[g] { return false; }
        found, more := DevStorGet(g, false);
      } else {
        if ended[g] { return false; }
        if !started[g] {
          started := started[g := true];
          found, more := DevStorGet(g, true);
        } else {
          found, more := false, false;
        }
      }
      ended := ended[g := !more];
    }

    method DevEnumStorage() returns (found: bool)
      requires Valid()
      modifies this
      ensures Valid() && Answer(found, State(), cookie) == EnumStorage(c, ENUM_IDE, old(State()), old(cookie))
    {
      var i := ENUM_IDE;
      while i < ENUM_MAX
        invariant i <= ENUM_MAX && Valid()
        invariant EnumStorage(c, ENUM_IDE, old(State()), old(cookie)) == EnumStorage(c, i, State(), cookie)
      {
        found := DevEnumStor(i);
        if found { return true; }
        i := i + 1;
      }
      return false;
    }

    method ApiDevEnum(net: Cookie)
      requires Valid()
      modifies this
      ensures Valid()
      ensures State() == DevEnum(c, net, old(State()), old(cookie)).specs
      ensures cookie == DevEnum(c, net, old(State()), old(cookie)).cookie
    {
      if cookie.Null? {
        started, ended := RESET.started, RESET.ended;
        cookie := net;
        if cookie.Some? { return; }
      }
      var found := DevEnumStorage();
      if !found { cookie := Null; }
    }
  }
}
