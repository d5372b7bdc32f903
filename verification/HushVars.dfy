/** The local variables of the hush shell: a list whose head is the read-only `HUSH_VERSION`. */
module HushVars {

  datatype Var = Var(name: string, value: string, flgExport: int, readOnly: bool)

  const VERSION := "HUSH_VERSION"
  const VERSION_VALUE := "0.01"

  /** What `u_boot_hush_start` sets up, and what every call keeps: the read-only version variable
      at the head, no other read-only variable, no name twice. */
  ghost predicate Valid(vars: seq<Var>) {
    && |vars| > 0 && vars[0].name == VERSION && vars[0].value == VERSION_VALUE && vars[0].readOnly
    && (forall i :: 1 <= i < |vars| ==> !vars[i].readOnly)
    && (forall i, j :: 0 <= i < j < |vars| ==> vars[i].name != vars[j].name)
  }

  /** Position of the first variable called `name`, or the length of the list. */
  function Find(vars: seq<Var>, name: string): (k: nat)
    ensures k <= |vars|
    ensures k < |vars| ==> vars[k].name == name
    ensures forall i :: 0 <= i < k ==> vars[i].name != name
  {
    if vars == [] || vars[0].name == name then 0 else 1 + Find(vars[1..], name)
  }

  /** The finite map the list stands for. */
  function AsMap(vars: seq<Var>): map<string, string> {
    if vars == [] then map[] else AsMap(vars[1..])[vars[0].name := vars[0].value]
  }

  predicate IsAlpha(c: char) {
    'a' <= c <= 'z' || 'A' <= c <= 'Z'
  }

  /** Length of the part before the first `=`. */
  function NameLen(s: string): (k: nat)
    ensures k <= |s|
    ensures k < |s| ==> s[k] == '='
    ensures forall i :: 0 <= i < k ==> s[i] != '='
  {
    if s == [] || s[0] == '=' then 0 else 1 + NameLen(s[1..])
  }

  /** `s` is a name, `=` and a non-empty value.  The letter test is on the first character only. */
  predicate IsAssignment(s: string) {
    s != [] && IsAlpha(s[0]) && NameLen(s) + 1 < |s|
  }

  function NameOf(s: string): string
    requires IsAssignment(s)
  {
    s[..NameLen(s)]
  }

  function ValueOf(s: string): string
    requires IsAssignment(s)
  {
    s[NameLen(s) + 1..]
  }

  /** `set_local_var`; `blocked` is the answer of `getenv` to the whole of `s`. */
  function Set(vars: seq<Var>, s: string, flgExport: int, blocked: bool): (r: (seq<Var>, int))
  {
    if blocked || !IsAssignment(s) then (vars, -1)
    else Assigned(vars, NameOf(s), ValueOf(s), flgExport)
  }

  /** The assignment of `value` to `name`. */
  function Assigned(vars: seq<Var>, name: string, value: string, flgExport: int): (r: (seq<Var>, int)) {
    var k := Find(vars, name);
    if k == |vars| then (vars + [Var(name, value, flgExport, false)], 0)
    else if vars[k].value == value then
      if flgExport > 0 && vars[k].flgExport == 0 then (vars[k := vars[k].(flgExport := flgExport)], 0) else (vars, 1)
    else if vars[k].readOnly then (vars, -1)
    else
      var flg := if flgExport > 0 || vars[k].flgExport > 1 then 1 else vars[k].flgExport;
      (vars[k := vars[k].(value := value, flgExport := flg)], 0)
  }

  function Unset(vars: seq<Var>, name: string): seq<Var> {
    var k := Find(vars, name);
    if k == |vars| || vars[k].readOnly then vars else Without(vars, k)
  }

  // ----- the list is a map -----

  lemma {:induction false} FindIs(vars: seq<Var>, k: nat)
    requires k < |vars| && forall i :: 0 <= i < k ==> vars[i].name != vars[k].name
    ensures Find(vars, vars[k].name) == k
  {
    if k != 0 { FindIs(vars[1..], k - 1); }
  }

  lemma {:induction false} MapAt(vars: seq<Var>, name: string)
    ensures name in AsMap(vars) <==> Find(vars, name) < |vars|
    ensures name in AsMap(vars) ==> AsMap(vars)[name] == vars[Find(vars, name)].value
  {
    if vars != [] { MapAt(vars[1..], name); }
  }

  lemma {:induction false} AppendMap(vars: seq<Var>, v: Var)
    requires Find(vars, v.name) == |vars|
    ensures AsMap(vars + [v]) == AsMap(vars)[v.name := v.value]
  {
    if vars == [] {
      assert (vars + [v])[1..] == [];
    } else {
      assert (vars + [v])[1..] == vars[1..] + [v];
      AppendMap(vars[1..], v);
    }
  }

  lemma {:induction false} UpdateMap(vars: seq<Var>, k: nat, v: Var)
    requires k < |vars| && Find(vars, v.name) == k
    ensures AsMap(vars[k := v]) == AsMap(vars)[v.name := v.value]
  {
    if k == 0 {
      assert vars[k := v][1..] == vars[1..];
    } else {
      assert vars[k := v][1..] == vars[1..][k - 1 := v];
      UpdateMap(vars[1..], k - 1, v);
    }
  }

  function Without(vars: seq<Var>, k: nat): seq<Var>
    requires k < |vars|
  {
    vars[..k] + vars[k + 1..]
  }

  lemma {:induction false} RemoveMap(vars: seq<Var>, k: nat)
    requires k < |vars| && forall i, j :: 0 <= i < j < |vars| ==> vars[i].name != vars[j].name
    ensures AsMap(Without(vars, k)) == AsMap(vars) - {vars[k].name}
  {
    if k == 0 {
      assert Without(vars, 0) == vars[1..];
      MapAt(vars[1..], vars[0].name);
    } else {
      assert Without(vars, k)[1..] == Without(vars[1..], k - 1);
      RemoveMap(vars[1..], k - 1);
    }
  }

  lemma RemoveValid(vars: seq<Var>, k: nat)
    requires Valid(vars) && 0 < k < |vars|
    ensures Valid(Without(vars, k))
  {
    var vars' := Without(vars, k);
    assert forall i :: 0 <= i < |vars'| ==> vars'[i] == vars[if i < k then i else i + 1];
  }

  /** What a call does to the map: an accepted assignment updates one key, everything else, a
      change of the version among it, leaves the map alone. */
  function SetMap(m: map<string, string>, s: string, blocked: bool): map<string, string> {
    if blocked || !IsAssignment(s) || (NameOf(s) == VERSION && ValueOf(s) != VERSION_VALUE) then m
    else m[NameOf(s) := ValueOf(s)]
  }

  function UnsetMap(m: map<string, string>, name: string): map<string, string> {
    if name == VERSION then m else m - {name}
  }

  lemma SetIsMapUpdate(vars: seq<Var>, s: string, flgExport: int, blocked: bool)
    requires Valid(vars)
    ensures var (vars', rc) := Set(vars, s, flgExport, blocked);
            && Valid(vars') && AsMap(vars') == SetMap(AsMap(vars), s, blocked)
            && (rc == -1 <==> blocked || !IsAssignment(s) || (NameOf(s) == VERSION && ValueOf(s) != VERSION_VALUE))
  {
    if !blocked && IsAssignment(s) {
      var k := Find(vars, NameOf(s));
      FindIs(vars, 0);
      MapAt(vars, NameOf(s));
      var (vars', _) := Set(vars, s, flgExport, blocked);
      if k == |vars| {
        AppendMap(vars, vars'[k]);
      } else if vars' != vars {
        UpdateMap(vars, k, vars'[k]);
      } else if vars[k].value == ValueOf(s) {
        assert AsMap(vars)[NameOf(s) := ValueOf(s)] == AsMap(vars);
      }
    }
  }

  lemma UnsetIsMapRemoval(vars: seq<Var>, name: string)
    requires Valid(vars)
    ensures Valid(Unset(vars, name)) && AsMap(Unset(vars, name)) == UnsetMap(AsMap(vars), name)
  {
    var k := Find(vars, name);
    FindIs(vars, 0);
    MapAt(vars, name);
    if k == 0 {
    } else if k < |vars| {
      RemoveMap(vars, k);
      RemoveValid(vars, k);
    } else {
      assert AsMap(vars) - {name} == AsMap(vars);
    }
  }

  /** A text of a letter and more, an `=` and at least one character more is an assignment; any other is refused. */
  lemma RefusedUnlessAssignment(vars: seq<Var>, s: string, flgExport: int, k: nat)
    requires k <= |s| && '=' !in s[..k] && (k < |s| ==> s[k] == '=')
    ensures Set(vars, s, flgExport, true) == (vars, -1)
    ensures !(k + 1 < |s| && IsLetter(s[0])) ==> Set(vars, s, flgExport, false) == (vars, -1)
    ensures k + 1 < |s| && IsLetter(s[0]) ==> IsAssignment(s)
  {
    assert forall i :: 0 <= i < k ==> s[i] == s[..k][i];
    if k < |s| { NameLenIs(s, k); } else { NoEquals(s); }
  }

  ghost predicate IsLetter(c: char) {
    65 <= c as int <= 90 || 97 <= c as int <= 122
  }

  lemma {:induction false} NoEquals(s: string)
    requires forall i :: 0 <= i < |s| ==> s[i] != '='
    ensures NameLen(s) == |s|
  {
    if s != [] { NoEquals(s[1..]); }
  }

  /** `name=value` is split at the first `=`. */
  lemma SplitsAtEquals(name: string, value: string)
    requires name != "" && IsAlpha(name[0]) && '=' !in name && value != ""
    ensures var s := name + "=" + value; IsAssignment(s) && NameOf(s) == name && ValueOf(s) == value
  {
    var s := name + "=" + value;
    NameLenIs(s, |name|);
    assert s[..|name|] == name && s[|name| + 1..] == value;
  }

  lemma {:induction false} NameLenIs(s: string, k: nat)
    requires k < |s| && s[k] == '=' && forall i :: 0 <= i < k ==> s[i] != '='
    ensures NameLen(s) == k
  {
    if k != 0 { NameLenIs(s[1..], k - 1); }
  }

  /** Setting `name=value` makes the map send the name to the value and changes nothing else. */
  lemma SetsValue(vars: seq<Var>, name: string, value: string, flgExport: int)
    requires Valid(vars) && name != VERSION
    requires name != "" && IsAlpha(name[0]) && '=' !in name && value != ""
    ensures var (vars', rc) := Set(vars, name + "=" + value, flgExport, false);
            Valid(vars') && rc != -1 && AsMap(vars') == AsMap(vars)[name := value]
  {
    SplitsAtEquals(name, value);
    SetIsMapUpdate(vars, name + "=" + value, flgExport, false);
  }

  /** A variable is exported exactly when this or an earlier call said so; 1 is returned exactly when nothing
      changes. */
  lemma ExportSticks(vars: seq<Var>, name: string, value: string, flgExport: nat)
    requires name != "" && IsLetter(name[0]) && '=' !in name && value != ""
    requires forall i :: 0 <= i < |vars| ==> vars[i].flgExport >= 0
    ensures var (vars', rc) := Set(vars, name + "=" + value, flgExport, false);
            var k := Find(vars, name);
            && (rc == 1 <==> rc != -1 && vars' == vars)
            && (rc != -1 ==>
                  && k < |vars'| && vars'[k].name == name && vars'[k].value == value
                  && (vars'[k].flgExport > 0 <==> flgExport > 0 || (k < |vars| && vars[k].flgExport > 0)))
  {
    SplitsAtEquals(name, value);
  }

  datatype Call = SetCall(s: string, flgExport: int, blocked: bool) | UnsetCall(name: string)

  function Run(vars: seq<Var>, calls: seq<Call>): seq<Var>
    decreases |calls|
  {
    if calls == [] then vars
    else match calls[0]
      case SetCall(s, flgExport, blocked) => Run(Set(vars, s, flgExport, blocked).0, calls[1..])
      case UnsetCall(name) => Run(Unset(vars, name), calls[1..])
  }

  function RunMap(m: map<string, string>, calls: seq<Call>): map<string, string>
    decreases |calls|
  {
    if calls == [] then m
    else match calls[0]
      case SetCall(s, _, blocked) => RunMap(SetMap(m, s, blocked), calls[1..])
      case UnsetCall(name) => RunMap(UnsetMap(m, name), calls[1..])
  }

  /** Over any sequence of calls the list stays well formed and is the map the calls describe. */
  lemma {:induction false} ListIsMap(vars: seq<Var>, calls: seq<Call>)
    requires Valid(vars)
    ensures Valid(Run(vars, calls)) && AsMap(Run(vars, calls)) == RunMap(AsMap(vars), calls)
    decreases |calls|
  {
    if calls != [] {
      match calls[0]
      case SetCall(s, flgExport, blocked) =>
        SetIsMapUpdate(vars, s, flgExport, blocked);
        ListIsMap(Set(vars, s, flgExport, blocked).0, calls[1..]);
      case UnsetCall(name) =>
        UnsetIsMapRemoval(vars, name);
        ListIsMap(Unset(vars, name), calls[1..]);
    }
  }

  // ----- the list as the C code walks it -----

  /** `struct variables` */
  class Node {
    var v: Var
    var next: Node?

    constructor (v: Var)
      ensures this.v == v && next == null
    {
      this.v, next := v, null;
    }
  }

  /** The node behind node `i`. */
  ghost function Behind(nodes: seq<Node>, i: nat): Node? {
    if i + 1 < |nodes| then nodes[i + 1] else null
  }

  /** Each node holds its variable and points to the next node, the last one to none. */
  ghost predicate Linked(nodes: seq<Node>, vars: seq<Var>)
    reads nodes
  {
    && |vars| == |nodes|
    && (forall i :: 0 <= i < |nodes| ==> nodes[i].v == vars[i] && nodes[i].next == Behind(nodes, i))
  }

  /** No node is there twice. */
  ghost predicate Apart(nodes: seq<Node>) {
    forall i, j :: 0 <= i < j < |nodes| ==> nodes[i] != nodes[j]
  }

  class Shell {
    var top: Node?
    ghost var nodes: seq<Node>
    ghost var vars: seq<Var>

    ghost predicate Chained()
      reads this, nodes
    {
      Linked(nodes, vars) && Apart(nodes) && top == if nodes == [] then null else nodes[0]
    }

    /** `u_boot_hush_start` */
    constructor ()
      ensures Chained() && fresh(nodes) && Valid(vars) && AsMap(vars) == map[VERSION := VERSION_VALUE]
    {
      var node := new Node(Var(VERSION, VERSION_VALUE, 0, true));
      top, nodes, vars := node, [node], [Var(VERSION, VERSION_VALUE, 0, true)];
      new;
      assert vars[1..] == [] && AsMap([]) == map[];
    }

    /** Walks along the list to the variable, or off its end. */
    method Lookup(name: string) returns (cur: Node?, ghost k: nat)
      requires Chained()
      ensures k == Find(vars, name) && cur == if k < |nodes| then nodes[k] else null
    {
      cur, k := top, 0;
      while cur != null && cur.v.name != name
        invariant k <= |nodes| && cur == if k < |nodes| then nodes[k] else null
        invariant forall i :: 0 <= i < k ==> vars[i].name != name
        decreases |nodes| - k
      {
        assert cur == nodes[k];
        cur, k := cur.next, k + 1;
      }
    }

    /** `get_local_var` for a name that is not `$?`: the value, or no value. */
    method GetLocalVar(name: string) returns (found: bool, value: string)
      requires Chained() && Valid(vars)
      ensures found <==> name in AsMap(vars)
      ensures found ==> value == AsMap(vars)[name]
    {
      var cur, k := Lookup(name);
      MapAt(vars, name);
      found, value := cur != null, "";
      if cur != null { value := cur.v.value; }
    }

    /** Walks to the last node. */
    method Bottom() returns (bottom: Node)
      requires Chained() && nodes != []
      ensures bottom == nodes[|nodes| - 1]
    {
      bottom := top;
      ghost var k := 0;
      while bottom.next != null
        invariant k < |nodes| && bottom == nodes[k]
        decreases |nodes| - k
      {
        bottom, k := bottom.next, k + 1;
      }
    }

    /** Walks to the node before `cur`.  The walk ends because `cur` is not the head: then some node of
        the list points to it. */
    method Before(cur: Node, ghost k: nat) returns (next: Node)
      requires Chained() && 0 < k < |nodes| && cur == nodes[k]
      ensures next == nodes[k - 1]
    {
      next := top;
      ghost var i := 0;
      while next.next != cur
        invariant i < k && next == nodes[i]
        decreases k - i
      {
        next, i := next.next, i + 1;
      }
    }

    /** Changes the variable in node `k`. */
    method Change(cur: Node, ghost k: nat, v: Var)
      requires Chained() && k < |nodes| && cur == nodes[k]
      modifies this`vars, cur`v
      ensures Chained() && vars == old(vars)[k := v]
    {
      cur.v := v;
      vars := vars[k := v];
    }

    /** Links a new node behind the last one. */
    method LinkBehind(bottom: Node, v: Var)
      requires Chained() && nodes != [] && bottom == nodes[|nodes| - 1]
      modifies this`nodes, this`vars, bottom`next
      ensures Chained() && vars == old(vars) + [v]
    {
      var cur := new Node(v);
      ghost var was := nodes;
      bottom.next := cur;
      nodes, vars := nodes + [cur], vars + [v];
      assert Apart(nodes);
      forall i | 0 <= i < |nodes| ensures nodes[i].v == vars[i] && nodes[i].next == Behind(nodes, i) {
        if i < |was| { assert nodes[i] == was[i]; }
      }
    }

    /** Links the node before `cur` to the node behind. */
    method Unlink(next: Node, cur: Node, ghost k: nat)
      requires Chained() && 0 < k < |nodes| && cur == nodes[k] && next == nodes[k - 1]
      modifies this`nodes, this`vars, next`next
      ensures Chained() && vars == Without(old(vars), k)
    {
      ghost var was := nodes;
      next.next := cur.next;
      nodes, vars := nodes[..k] + nodes[k + 1..], Without(vars, k);
      Removed(was, k, nodes);
      forall i | 0 <= i < |nodes| ensures nodes[i].v == vars[i] && nodes[i].next == Behind(nodes, i) {
        if i < k { assert nodes[i] == was[i]; } else { assert nodes[i] == was[i + 1]; }
      }
    }

    static lemma Removed(was: seq<Node>, k: nat, now: seq<Node>)
      requires k < |was| && now == was[..k] + was[k + 1..] && Apart(was)
      ensures Apart(now) && forall i :: 0 <= i < |now| ==> now[i] == was[if i < k then i else i + 1]
    {
    }

    /** `strchr(name, '=')` */
    static method FindEquals(s: string) returns (e: nat)
      ensures e == NameLen(s)
    {
      e := 0;
      while e < |s| && s[e] != '='
        invariant e <= |s|
        invariant forall i :: 0 <= i < e ==> s[i] != '='
      {
        e := e + 1;
      }
    }

    method SetLocalVar(s: string, flgExport: int, blocked: bool) returns (result: int)
      requires Chained() && Valid(vars)
      modifies this, nodes
      ensures Chained() && (vars, result) == Set(old(vars), s, flgExport, blocked)
      ensures Valid(vars) && AsMap(vars) == SetMap(old(AsMap(vars)), s, blocked)
    {
      SetIsMapUpdate(vars, s, flgExport, blocked);
      if s == "" || !IsAlpha(s[0]) { return -1; }
      if blocked { return -1; }
      var e := FindEquals(s);
      if e + 1 >= |s| { return -1; }
      result := Assign(s[..e], s[e + 1..], flgExport);
    }

    /** The second half of `set_local_var`. */
    method Assign(name: string, value: string, flgExport: int) returns (result: int)
      requires Chained() && nodes != []
      modifies this, nodes
      ensures Chained() && (vars, result) == Assigned(old(vars), name, value, flgExport)
    {
      var cur, k := Lookup(name);
      result := 0;
      if cur != null {
        if cur.v.value == value {
          if flgExport > 0 && cur.v.flgExport == 0 {
            Change(cur, k, cur.v.(flgExport := flgExport));
          } else {
            result := 1;
          }
        } else if cur.v.readOnly {
          result := -1;
        } else {
          var flg := if flgExport > 0 || cur.v.flgExport > 1 then 1 else cur.v.flgExport;
          Change(cur, k, cur.v.(value := value, flgExport := flg));
        }
      } else {
        var bottom := Bottom();
        LinkBehind(bottom, Var(name, value, flgExport, false));
      }
    }

    /** The search for the predecessor starts at the head and would run off the end for the head
        itself; the head is read-only, so it never is the variable searched for. */
    method UnsetLocalVar(name: string)
      requires Chained() && Valid(vars)
      modifies this, nodes
      ensures Chained() && vars == Unset(old(vars), name)
      ensures Valid(vars) && AsMap(vars) == UnsetMap(old(AsMap(vars)), name)
    {
      UnsetIsMapRemoval(vars, name);
      var cur, k := Lookup(name);
      if cur != null {
        if cur.v.readOnly { return; }
        var next := Before(cur, k);
        Unlink(next, cur, k);
      }
    }
  }
}
