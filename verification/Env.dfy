// The environment: a packed table of NAME=VALUE texts, its finite map, and its one-sector image on disk.
module Env {
  import opened CStrings

  const ENV_MAX := 64
  const KV_MAX := 96
  const SECTOR := 512

  // ---- One entry ----

  // Where the first '=' is, or the length when there is none.
  function EqAt(kv: string): (i: nat)
    ensures i <= |kv| && '=' !in kv[..i] && (i < |kv| ==> kv[i] == '=')
  {
    if kv == [] || kv[0] == '=' then 0
    else
      var i := EqAt(kv[1..]);
      assert kv[..1 + i] == [kv[0]] + kv[1..][..i];
      1 + i
  }

  lemma EqAtIs(kv: string, i: nat)
    requires i <= |kv| && '=' !in kv[..i] && (i < |kv| ==> kv[i] == '=')
    ensures EqAt(kv) == i
  {
    var e := EqAt(kv);
    forall k | 0 <= k < i
      ensures kv[k] != '='
    {
      assert kv[k] in kv[..i];
    }
    forall k | 0 <= k < e
      ensures kv[k] != '='
    {
      assert kv[k] in kv[..e];
    }
  }

  function Name(kv: string): string { kv[..EqAt(kv)] }

  function Value(kv: string): string { if EqAt(kv) < |kv| then kv[EqAt(kv) + 1..] else "" }

  // What the table holds: texts of at most 95 characters with a name of 1 to 63 before the '='.
  predicate KvOk(kv: string) { |kv| < KV_MAX && '\0' !in kv && 0 < EqAt(kv) < 64 && EqAt(kv) < |kv| }

  predicate EntriesOk(es: seq<string>) {
    |es| <= ENV_MAX && forall i :: 0 <= i < |es| ==> KvOk(es[i])
  }

  ghost predicate NamesDiffer(es: seq<string>) {
    forall i, j :: 0 <= i < j < |es| ==> Name(es[i]) != Name(es[j])
  }

  ghost predicate EnvOk(es: seq<string>) { EntriesOk(es) && NamesDiffer(es) }

  // ---- The table as a list of texts ----

  // The first entry of that name, -1 for none.
  function Find(es: seq<string>, name: string): (r: int)
    ensures -1 <= r < |es|
    ensures r >= 0 ==> Name(es[r]) == name
    ensures forall i :: 0 <= i < (if r < 0 then |es| else r) ==> Name(es[i]) != name
  {
    if es == [] then -1
    else
      var n := |es| - 1;
      var r := Find(es[..n], name);
      if r >= 0 then r else if Name(es[n]) == name then n else -1
  }

  function CutKv(kv: string): string { kv[..Min(|kv|, KV_MAX - 1)] }

  // env_set
  function Set(es: seq<string>, kv: string): (seq<string>, int) {
    var eq := EqAt(kv);
    if eq >= KV_MAX - 1 && |kv| >= KV_MAX - 1 then (es, -2)
    else if eq == 0 || eq == |kv| then (es, -3)
    else if eq >= 64 then (es, -4)
    else
      var f := Find(es, Name(kv));
      if f >= 0 then (es[f := CutKv(kv)], 0)
      else if |es| >= ENV_MAX then (es, -5)
      else (es + [CutKv(kv)], 0)
  }

  // env_unset: the last entry takes the place of the removed one.
  function Unset(es: seq<string>, name: string): (seq<string>, int) {
    var f := Find(es, name);
    if f < 0 then (es, -1) else (es[f := es[|es| - 1]][..|es| - 1], 0)
  }

  // ---- The finite map it stands for ----

  ghost function NameSet(es: seq<string>): set<string> { set i | 0 <= i < |es| :: Name(es[i]) }

  ghost function Bindings(es: seq<string>): map<string, string> {
    map n | n in NameSet(es) :: Value(es[Find(es, n)])
  }

  lemma BoundIff(es: seq<string>, name: string)
    ensures name in Bindings(es) <==> Find(es, name) >= 0
    ensures name in Bindings(es) ==> Bindings(es)[name] == Value(es[Find(es, name)])
  {
    hide Find, Name, Value;
    var f := Find(es, name);
    if f >= 0 { assert Name(es[f]) in NameSet(es); }
  }

  lemma Bound(es: seq<string>, i: nat)
    requires NamesDiffer(es) && i < |es|
    ensures Name(es[i]) in Bindings(es) && Bindings(es)[Name(es[i])] == Value(es[i]) && Find(es, Name(es[i])) == i
  {
    hide Find, Name, Value, Bindings;
    BoundIff(es, Name(es[i]));
  }

  lemma {:induction false} CountedNames(es: seq<string>)
    requires NamesDiffer(es)
    ensures |NameSet(es)| == |es|
  {
    hide Name;
    if es == [] {
    } else {
      var init, last := es[..|es| - 1], es[|es| - 1];
      assert init + [last] == es;
      CountedNames(init);
      NameSetSnoc(init, last);
    }
  }

  lemma Counted(es: seq<string>)
    requires NamesDiffer(es)
    ensures |es| == |Bindings(es)|
  {
    hide Find, Name, Value, NamesDiffer;
    CountedNames(es);
    assert Bindings(es).Keys == NameSet(es);
    assert |Bindings(es).Keys| == |Bindings(es)|;
  }

  lemma NameSetSnoc(init: seq<string>, last: string)
    ensures NameSet(init + [last]) == NameSet(init) + {Name(last)}
    ensures Name(last) in NameSet(init) ==> exists i :: 0 <= i < |init| && Name(init[i]) == Name(last)
  {
    hide Name;
    var es := init + [last];
    forall n
      ensures n in NameSet(es) <==> n in NameSet(init) + {Name(last)}
    {
      if n in NameSet(init) {
        var i :| 0 <= i < |init| && Name(init[i]) == n;
        assert es[i] == init[i];
      }
      if n == Name(last) { assert es[|init|] == last; }
    }
  }

  // The calls on the map alone, with room for 64 names.
  function MapSet(m: map<string, string>, kv: string): (map<string, string>, int) {
    var name := Name(kv);
    if '=' !in kv[..Min(|kv|, KV_MAX - 1)] then (m, if |kv| < KV_MAX - 1 then -3 else -2)
    else if name == "" then (m, -3)
    else if |name| > 63 then (m, -4)
    else if name !in m && |m| >= ENV_MAX then (m, -5)
    else (m[name := Value(kv)[..Min(|Value(kv)|, KV_MAX - 2 - |name|)]], 0)
  }

  function MapUnset(m: map<string, string>, name: string): (map<string, string>, int) {
    if name in m then (m - {name}, 0) else (m, -1)
  }

  lemma CutKvIs(kv: string)
    requires 0 < EqAt(kv) < 64 && EqAt(kv) < |kv| && '\0' !in kv
    ensures KvOk(CutKv(kv)) && Name(CutKv(kv)) == Name(kv)
    ensures Value(CutKv(kv)) == Value(kv)[..Min(|Value(kv)|, KV_MAX - 2 - |Name(kv)|)]
  {
    var c, e := CutKv(kv), EqAt(kv);
    assert c[..e] == kv[..e];
    EqAtIs(c, e);
    forall x | x in c
      ensures x in kv
    {
    }
  }

  lemma EarlyEq(kv: string)
    ensures '=' !in kv[..Min(|kv|, KV_MAX - 1)] <==> EqAt(kv) >= Min(|kv|, KV_MAX - 1)
  {
    var e, b := EqAt(kv), Min(|kv|, KV_MAX - 1);
    if e < b {
      assert kv[..b][e] == '=';
    } else {
      assert forall x :: x in kv[..b] ==> x in kv[..e];
    }
  }

  // env_set on the table is setting in the map, with the same return code.
  lemma SetRefines(es: seq<string>, kv: string)
    requires EnvOk(es) && '\0' !in kv
    ensures var (es1, r) := Set(es, kv);
            EnvOk(es1) && (Bindings(es1), r) == MapSet(Bindings(es), kv)
  {
    hide Bindings, Value;
    var (es1, r) := Set(es, kv);
    EarlyEq(kv);
    Counted(es);
    BoundIff(es, Name(kv));
    if r == 0 {
      CutKvIs(kv);
      var f := Find(es, Name(kv));
      var k := if f >= 0 then f else |es|;
      forall i | 0 <= i < |es1|
        ensures es1[i] == if i == k then CutKv(kv) else es[i]
      {
      }
      SetDiffers(es, es1, k);
      SetBindings(es, es1, k);
    }
  }

  lemma SetDiffers(es: seq<string>, es1: seq<string>, k: nat)
    requires NamesDiffer(es) && k <= |es| <= |es1| && k < |es1| && |es1| <= |es| + 1 && (|es1| > |es| ==> k == |es|)
    requires forall i :: 0 <= i < |es1| && i != k ==> es1[i] == es[i]
    requires if k < |es| then Name(es[k]) == Name(es1[k]) else Find(es, Name(es1[k])) < 0
    ensures NamesDiffer(es1)
  {
  }

  lemma SetBindings(es: seq<string>, es1: seq<string>, k: nat)
    requires NamesDiffer(es) && NamesDiffer(es1) && k <= |es| <= |es1| && k < |es1| && |es1| <= |es| + 1
    requires |es1| > |es| ==> k == |es|
    requires forall i :: 0 <= i < |es1| && i != k ==> es1[i] == es[i]
    requires if k < |es| then Name(es[k]) == Name(es1[k]) else Find(es, Name(es1[k])) < 0
    ensures Bindings(es1) == Bindings(es)[Name(es1[k]) := Value(es1[k])]
  {
    hide Bindings, Value;
    var a, b := Bindings(es1), Bindings(es)[Name(es1[k]) := Value(es1[k])];
    forall n
      ensures n in a <==> n in b
      ensures n in a && n in b ==> a[n] == b[n]
    {
      BoundIff(es1, n);
      BoundIff(es, n);
      Bound(es1, k);
      var f := Find(es, n);
      if f >= 0 { Bound(es1, f); }
      var g := Find(es1, n);
      if g >= 0 && g != k { Bound(es, g); }
    }
  }

  // What setting NAME=VALUE does: a name of 1 to 63 characters is bound, while it is bound already or fewer than 64
  // are, to as much of the value as 95 characters in all leave room for; every other name keeps its value.
  lemma SetBinds(es: seq<string>, name: Text, value: Text)
    requires EnvOk(es) && '=' !in name
    ensures var (es1, r) := Set(es, name + "=" + value);
            var m := Bindings(es);
            && r == (if |name| >= 95 then -2 else if name == "" then -3 else if |name| > 63 then -4
                     else if name !in m && |es| >= 64 then -5 else 0)
            && Bindings(es1) == if r == 0 then m[name := value[..Min(|value|, 94 - |name|)]] else m
  {
    hide Bindings, Find;
    var kv := name + "=" + value;
    assert kv[..|name|] == name && kv[|name| + 1..] == value;
    EqAtIs(kv, |name|);
    SetRefines(es, kv);
    Counted(es);
    EarlyEq(kv);
  }

  // In the table, a name already bound keeps its row and a new one gets the row behind the last.
  lemma SetPlaces(es: seq<string>, name: Text, value: Text, i: nat)
    requires EnvOk(es) && '=' !in name && i < |es|
    requires Set(es, name + "=" + value).1 == 0
    ensures var es1 := Set(es, name + "=" + value).0;
            && |es1| == (if name in Bindings(es) then |es| else |es| + 1)
            && (Name(es[i]) != name ==> es1[i] == es[i])
            && (Name(es[i]) == name ==> Name(es1[i]) == name)
  {
    hide Bindings;
    var kv := name + "=" + value;
    assert kv[..|name|] == name;
    EqAtIs(kv, |name|);
    BoundIff(es, name);
    Bound(es, i);
    CutKvIs(kv) by { assert forall c :: c in kv ==> c in name || c == '=' || c in value; }
  }

  // Unsetting a bound name: the last row moves to its place, the others stay.
  lemma UnsetMovesLast(es: seq<string>, i: nat, j: nat)
    requires EnvOk(es) && i < |es| && j < |es| - 1
    ensures var (es1, r) := Unset(es, Name(es[i]));
            r == 0 && |es1| == |es| - 1 && es1[j] == if j == i then es[|es| - 1] else es[j]
  {
    hide Bindings, Name;
    Bound(es, i);
  }

  // A text without '=' is refused.
  lemma SetRefuses(es: seq<string>, kv: Text)
    requires '=' !in kv
    ensures Set(es, kv) == (es, if |kv| < 95 then -3 else -2)
  {
    EqAtIs(kv, |kv|);
  }

  // env_unset on the table removes the name from the map and nothing else.
  lemma UnsetRefines(es: seq<string>, name: string)
    requires EnvOk(es)
    ensures var (es1, r) := Unset(es, name);
            EnvOk(es1) && (Bindings(es1), r) == MapUnset(Bindings(es), name)
  {
    hide Bindings;
    var (es1, r) := Unset(es, name);
    BoundIff(es, name);
    if r == 0 {
      var f, n := Find(es, name), |es| - 1;
      forall i | 0 <= i < n
        ensures es1[i] == if i == f then es[n] else es[i]
      {
      }
      UnsetBindings(es, es1, f);
    }
  }

  lemma UnsetBindings(es: seq<string>, es1: seq<string>, f: nat)
    requires NamesDiffer(es) && f < |es| && |es1| == |es| - 1
    requires forall i :: 0 <= i < |es1| ==> es1[i] == if i == f then es[|es| - 1] else es[i]
    ensures NamesDiffer(es1) && Bindings(es1) == Bindings(es) - {Name(es[f])}
  {
    hide Bindings;
    var a, b, n := Bindings(es1), Bindings(es) - {Name(es[f])}, |es| - 1;
    forall x
      ensures x in a <==> x in b
      ensures x in a && x in b ==> a[x] == b[x]
    {
      BoundIff(es1, x);
      BoundIff(es, x);
      Bound(es, f);
      var g, h := Find(es, x), Find(es1, x);
      if g >= 0 && g != f { Bound(es1, if g == n then f else g); }
      if h >= 0 { Bound(es, if h == f then n else h); }
    }
  }

  // ---- Runs ----

  datatype EnvOp = SetOp(kv: Text) | UnsetOp(name: Text)

  function EnvStep(es: seq<string>, op: EnvOp): (seq<string>, int) {
    match op
    case SetOp(kv) => Set(es, kv)
    case UnsetOp(name) => Unset(es, name)
  }

  function MapStep(m: map<string, string>, op: EnvOp): (map<string, string>, int) {
    match op
    case SetOp(kv) => MapSet(m, kv)
    case UnsetOp(name) => MapUnset(m, name)
  }

  function EnvRun(es: seq<string>, ops: seq<EnvOp>): (seq<string>, seq<int>) {
    if ops == [] then (es, [])
    else
      var (es1, rs) := EnvRun(es, ops[..|ops| - 1]);
      var (es2, r) := EnvStep(es1, ops[|ops| - 1]);
      (es2, rs + [r])
  }

  function MapRun(m: map<string, string>, ops: seq<EnvOp>): (map<string, string>, seq<int>) {
    if ops == [] then (m, [])
    else
      var (m1, rs) := MapRun(m, ops[..|ops| - 1]);
      var (m2, r) := MapStep(m1, ops[|ops| - 1]);
      (m2, rs + [r])
  }

  // Over every run the packed table behaves as the finite map, return codes included.
  lemma {:induction false} EnvRunRefines(es: seq<string>, ops: seq<EnvOp>)
    requires EnvOk(es)
    ensures var (es1, rs) := EnvRun(es, ops);
            EnvOk(es1) && (Bindings(es1), rs) == MapRun(Bindings(es), ops)
  {
    if ops == [] {
    } else {
      EnvRunRefines(es, ops[..|ops| - 1]);
      var es1 := EnvRun(es, ops[..|ops| - 1]).0;
      match ops[|ops| - 1]
      case SetOp(kv) => SetRefines(es1, kv);
      case UnsetOp(name) => UnsetRefines(es1, name);
    }
  }
}
