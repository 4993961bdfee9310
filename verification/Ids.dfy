/** Simulation definitions, and the ids the engine gives to entities and systems that have none. */
module Ids {
  import opened Values
  import opened Graph
  import opened Components
  import opened UserComponents
  import opened Indexes
  import opened FlatStore

  type U32 = n: nat | n < 0x1_0000_0000

  datatype EntityDef = EntityDef(id: U32, components: seq<string>)
  datatype ComponentDef = ComponentDef(name: string, schema: Schema)
  datatype SystemDef = SystemDef(id: U32, graph: Outputs)
  datatype SimulationDef = SimulationDef(name: string, entities: seq<EntityDef>, components: seq<ComponentDef>,
                                         systems: seq<SystemDef>, initGraph: Outputs)

  const UNSET := 0

  /** Counting on in 32 bits. */
  function Succ(n: U32): U32 {
    if n + 1 == UINT32 then 0 else n + 1
  }

  // ---------------------------------------------------------------- entities

  /** The ids that are configured. */
  function Configured(es: seq<EntityDef>): seq<U32> {
    if es == [] then [] else (if es[0].id != UNSET then [es[0].id] else []) + Configured(es[1..])
  }

  /** The next id to give: the counter, passing over zero. */
  function NextId(next: U32): U32 {
    if next == UNSET then 1 else next
  }

  /** Entities that are unset get the counter's ids in order. */
  function AssignIds(es: seq<EntityDef>, next: U32): (r: seq<EntityDef>)
    ensures |r| == |es|
  {
    if es == [] then []
    else if es[0].id != UNSET then [es[0]] + AssignIds(es[1..], next)
    else [es[0].(id := NextId(next))] + AssignIds(es[1..], Succ(NextId(next)))
  }

  function WithIds(es: seq<EntityDef>): seq<EntityDef> {
    AssignIds(es, Succ(Largest(Configured(es))))
  }

  function Unset(es: seq<EntityDef>): nat {
    if es == [] then 0 else (if es[0].id == UNSET then 1 else 0) + Unset(es[1..])
  }

  /** The id of the (k+1)-th unset entity when m is the largest configured id: counting on from m, and after the
      largest 32-bit number again from 1. */
  function FreshId(m: U32, k: nat): nat {
    if m + 1 + k < UINT32 then m + 1 + k else m + 2 + k - UINT32
  }

  /** The counter before the (k+1)-th new id. */
  function Counter(m: U32, k: nat): U32
    requires k < UINT32 - 1
  {
    if m + 1 + k == UINT32 then 0 else FreshId(m, k)
  }

  lemma CounterStep(m: U32, k: nat)
    requires k < UINT32 - 2
    ensures NextId(Counter(m, k)) == FreshId(m, k) && Succ(NextId(Counter(m, k))) == Counter(m, k + 1)
  {
  }

  lemma {:induction false} AssignedId(es: seq<EntityDef>, m: U32, k: nat, i: nat)
    requires i < |es| && k + |es| < UINT32 - 1
    ensures var r := AssignIds(es, Counter(m, k));
      r[i].components == es[i].components &&
      r[i].id == if es[i].id != UNSET then es[i].id else FreshId(m, k + Unset(es[..i]))
    decreases |es|
  {
    CounterStep(m, k);
    if i > 0 {
      assert es[..i][0] == es[0] && es[..i][1..] == es[1..][..i - 1];
      AssignedId(es[1..], m, if es[0].id == UNSET then k + 1 else k, i - 1);
    } else {
      assert es[..0] == [];
    }
  }

  /** Configured ids are kept and unset ones counted on from the largest configured id. */
  lemma WithIdsAt(es: seq<EntityDef>, i: nat)
    requires i < |es| < UINT32 - 1
    ensures WithIds(es)[i].components == es[i].components
    ensures WithIds(es)[i].id == if es[i].id != UNSET then es[i].id
        else FreshId(Largest(Configured(es)), Unset(es[..i]))
  {
    hide AssignIds, Unset, Configured, Largest, Counter, FreshId, Succ;
    var m: U32 := Largest(Configured(es));
    FirstCounter(m);
    AssignedId(es, m, 0, i);
  }

  lemma FirstCounter(m: U32)
    ensures Counter(m, 0) == Succ(m)
  {
  }

  lemma {:induction false} ConfiguredIn(es: seq<EntityDef>, i: nat)
    requires i < |es| && es[i].id != UNSET
    ensures es[i].id in Configured(es)
  {
    if i > 0 { ConfiguredIn(es[1..], i - 1); }
  }

  lemma {:induction false} ConfiguredFrom(es: seq<EntityDef>, id: U32) returns (i: nat)
    requires id in Configured(es)
    ensures i < |es| && es[i].id == id != UNSET
  {
    if es[0].id != UNSET && es[0].id == id {
      i := 0;
    } else {
      i := ConfiguredFrom(es[1..], id);
      i := i + 1;
    }
  }

  lemma {:induction false} UnsetMono(es: seq<EntityDef>, i: nat, j: nat)
    requires i < j <= |es|
    ensures Unset(es[..i]) <= Unset(es[..j]) <= Unset(es)
    ensures es[i].id == UNSET ==> Unset(es[..i]) < Unset(es[..j])
    decreases |es|
  {
    if i > 0 {
      assert es[..i][1..] == es[1..][..i - 1] && es[..j][1..] == es[1..][..j - 1];
      UnsetMono(es[1..], i - 1, j - 1);
    } else if j == 1 {
      assert es[..i] == [] && es[..j][1..] == [];
    } else {
      assert es[..i] == [] && es[..j][1..] == es[1..][..j - 1];
      UnsetMono(es[1..], 0, j - 1);
      assert es[1..][..0] == [];
    }
  }

  ghost predicate DistinctIds(es: seq<EntityDef>) {
    forall i, j :: 0 <= i < j < |es| ==> es[i].id != es[j].id
  }

  ghost predicate DistinctConfigured(es: seq<EntityDef>) {
    forall i, j :: 0 <= i < j < |es| && es[i].id != UNSET && es[j].id != UNSET ==> es[i].id != es[j].id
  }

  /** How many ids are given after the count has gone past the largest 32-bit number. */
  function Wrapped(es: seq<EntityDef>): int {
    Largest(Configured(es)) + Unset(es) - (UINT32 - 1)
  }

  lemma WithIdsNonZero(es: seq<EntityDef>, i: nat)
    requires i < |es| < UINT32 - 1
    ensures WithIds(es)[i].id != UNSET
  {
    WithIdsAt(es, i);
  }

  lemma {:induction false} UnsetBound(es: seq<EntityDef>)
    ensures Unset(es) <= |es|
  {
    if es != [] { UnsetBound(es[1..]); }
  }

  /** An entity that was unset differs from the others, when the count did not reach a configured id again. */
  lemma FreshDiffers(es: seq<EntityDef>, i: nat, j: nat)
    requires i < |es| && j < |es| < UINT32 - 1 && i != j && es[i].id == UNSET
    requires forall id :: id in Configured(es) ==> id > Wrapped(es)
    ensures WithIds(es)[i].id != WithIds(es)[j].id
  {
    WithIdsAt(es, i);
    WithIdsAt(es, j);
    UnsetMono(es, i, |es|);
    UnsetMono(es, j, |es|);
    UnsetBound(es);
    assert es[..|es|] == es;
    if i < j { UnsetMono(es, i, j); } else { UnsetMono(es, j, i); }
    if es[j].id != UNSET { ConfiguredIn(es, j); }
  }

  /** Every entity gets a distinct id exactly when the configured ids are distinct and the count does not come round
      to one of them. */
  lemma EntityIdsDistinct(es: seq<EntityDef>)
    requires |es| < UINT32 - 1
    ensures DistinctIds(WithIds(es)) <==> DistinctConfigured(es) && forall id :: id in Configured(es) ==>
        id > Wrapped(es)
  {
    if DistinctConfigured(es) && forall id :: id in Configured(es) ==> id > Wrapped(es) {
      forall i, j | 0 <= i < j < |es|
        ensures WithIds(es)[i].id != WithIds(es)[j].id
      {
        if es[i].id == UNSET {
          FreshDiffers(es, i, j);
        } else if es[j].id == UNSET {
          FreshDiffers(es, j, i);
        } else {
          WithIdsAt(es, i);
          WithIdsAt(es, j);
        }
      }
    } else if !DistinctConfigured(es) {
      var i, j :| 0 <= i < j < |es| && es[i].id != UNSET && es[j].id != UNSET && es[i].id == es[j].id;
      WithIdsAt(es, i);
      WithIdsAt(es, j);
    } else {
      var id :| id in Configured(es) && id <= Wrapped(es);
      Collision(es, id);
    }
  }

  /** A configured id that the count comes round to is given a second time. */
  lemma Collision(es: seq<EntityDef>, id: U32)
    requires |es| < UINT32 - 1 && id in Configured(es) && id <= Wrapped(es)
    ensures !DistinctIds(WithIds(es))
  {
    hide Unset, Configured;
    var m := Largest(Configured(es));
    var i := ConfiguredFrom(es, id);
    UnsetBound(es);
    var j := NthUnset(es, id + UINT32 - 2 - m);
    WithIdsAt(es, i);
    WithIdsAt(es, j);
    assert WithIds(es)[i].id == WithIds(es)[j].id;
  }

  lemma {:induction false} NthUnset(es: seq<EntityDef>, k: nat) returns (i: nat)
    requires k < Unset(es)
    ensures i < |es| && es[i].id == UNSET && Unset(es[..i]) == k
  {
    if es[0].id == UNSET && k == 0 {
      i := 0;
      assert es[..0] == [];
    } else {
      i := NthUnset(es[1..], if es[0].id == UNSET then k - 1 else k);
      i := i + 1;
      assert es[..i][1..] == es[1..][..i - 1];
    }
  }

  /** Applying the returned definition again changes no entity id. */
  lemma WithIdsStable(es: seq<EntityDef>)
    requires |es| < UINT32 - 1
    ensures WithIds(WithIds(es)) == WithIds(es)
  {
    forall i | 0 <= i < |es|
      ensures WithIds(WithIds(es))[i] == WithIds(es)[i]
    {
      WithIdsNonZero(es, i);
      WithIdsAt(WithIds(es), i);
    }
  }

  // ---------------------------------------------------------------- systems

  /** Unset systems are counted on from the largest id, modulo 2^32. */
  function AssignSystemIds(ss: seq<SystemDef>, maxId: U32): (r: seq<SystemDef>)
    ensures |r| == |ss|
  {
    if ss == [] then []
    else if ss[0].id != UNSET then [ss[0]] + AssignSystemIds(ss[1..], maxId)
    else
      var next := Succ(maxId);
      [ss[0].(id := next)] + AssignSystemIds(ss[1..], next)
  }

  function SystemIds(ss: seq<SystemDef>): seq<U32> {
    if ss == [] then [] else [ss[0].id] + SystemIds(ss[1..])
  }

  function UnsetSystems(ss: seq<SystemDef>): nat {
    if ss == [] then 0 else (if ss[0].id == UNSET then 1 else 0) + UnsetSystems(ss[1..])
  }

  /** While the count stays below 2^32, systems keep configured ids and get distinct new ones above them. */
  lemma {:induction false} SystemIdsFresh(ss: seq<SystemDef>, maxId: U32, i: nat, j: nat)
    requires maxId + UnsetSystems(ss) < UINT32 && i < |ss| && j < |ss|
    requires forall k :: 0 <= k < |ss| ==> ss[k].id <= maxId
    ensures var r := AssignSystemIds(ss, maxId);
      r[i].graph == ss[i].graph && (if ss[i].id != UNSET then r[i].id == ss[i].id else maxId < r[i].id) &&
      (i != j && ss[i].id == UNSET ==> r[i].id != r[j].id)
    decreases |ss|
  {
    var next := if ss[0].id == UNSET then maxId + 1 else maxId;
    if i > 0 && j > 0 {
      SystemIdsFresh(ss[1..], next, i - 1, j - 1);
    } else if i > 0 {
      SystemIdsFresh(ss[1..], next, i - 1, i - 1);
    } else if j > 0 {
      SystemIdsFresh(ss[1..], next, j - 1, j - 1);
    }
  }

  ghost predicate AllSet(ss: seq<SystemDef>) {
    forall i :: 0 <= i < |ss| ==> ss[i].id != UNSET
  }

  /** Every system ends with an id exactly when the count stays below 2^32. */
  lemma {:induction false} SystemIdsSet(ss: seq<SystemDef>, maxId: U32)
    requires |ss| < UINT32
    ensures AllSet(AssignSystemIds(ss, maxId)) <==> maxId + UnsetSystems(ss) < UINT32
    decreases |ss|
  {
    if ss != [] {
      var r := AssignSystemIds(ss, maxId);
      UnsetSystemsBound(ss[1..]);
      AllSetCons(r);
      var next := if ss[0].id == UNSET then Succ(maxId) else maxId;
      SystemIdsSet(ss[1..], next);
      assert r[1..] == AssignSystemIds(ss[1..], next);
    }
  }

  /** Once every system has an id, assigning again changes none, wherever the count starts. */
  lemma {:induction false} SystemIdsStable(ss: seq<SystemDef>, maxId: U32)
    requires AllSet(ss)
    ensures AssignSystemIds(ss, maxId) == ss
    decreases |ss|
  {
    if ss != [] {
      AllSetCons(ss);
      SystemIdsStable(ss[1..], maxId);
    }
  }

  lemma AllSetCons(ss: seq<SystemDef>)
    requires ss != []
    ensures AllSet(ss) <==> ss[0].id != UNSET && AllSet(ss[1..])
  {
    if ss[0].id != UNSET && AllSet(ss[1..]) {
      assert forall i :: 1 <= i < |ss| ==> ss[i] == ss[1..][i - 1];
    }
    if AllSet(ss) {
      assert forall i :: 0 <= i < |ss| - 1 ==> ss[1..][i] == ss[i + 1];
    }
  }

  lemma {:induction false} UnsetSystemsBound(ss: seq<SystemDef>)
    ensures UnsetSystems(ss) <= |ss|
  {
    if ss != [] { UnsetSystemsBound(ss[1..]); }
  }

  // ---------------------------------------------------------------- the components of the entities

  /** The schema of a component name: the last definition counts, and an undefined name has no attributes. */
  function SchemaOf(cs: seq<ComponentDef>, name: string): Schema {
    if cs == [] then map[]
    else if cs[|cs| - 1].name == name then cs[|cs| - 1].schema
    else SchemaOf(cs[..|cs| - 1], name)
  }

  /** The schema a name has is that of its last definition. */
  lemma {:induction false} SchemaOfLast(cs: seq<ComponentDef>, name: string, k: nat)
    ensures k < |cs| && cs[k].name == name && (forall j :: k < j < |cs| ==> cs[j].name != name) ==>
              SchemaOf(cs, name) == cs[k].schema
    ensures (forall j :: 0 <= j < |cs| ==> cs[j].name != name) ==> SchemaOf(cs, name) == map[]
  {
    if cs != [] { SchemaOfLast(cs[..|cs| - 1], name, k); }
  }

  function InfosOf(e: EntityDef, cs: seq<ComponentDef>): (r: seq<Info>)
    ensures |r| == |e.components|
  {
    seq(|e.components|, j requires 0 <= j < |e.components| => Info(e.id, e.components[j],
        SchemaOf(cs, e.components[j])))
  }

  /** What is listed: every component of every entity, in order. */
  function ListedInfos(es: seq<EntityDef>, cs: seq<ComponentDef>): seq<Info> {
    if es == [] then [] else ListedInfos(es[..|es| - 1], cs) + InfosOf(es[|es| - 1], cs)
  }

  ghost predicate Lists(es: seq<EntityDef>, i: int, j: int, e: nat, n: string) {
    0 <= i < |es| && 0 <= j < |es[i].components| && es[i].id == e && es[i].components[j] == n
  }

  /** A listed pair is found, and is found once when ids are distinct and no entity repeats a name. */
  lemma {:induction false} ListedAt(es: seq<EntityDef>, cs: seq<ComponentDef>, i: nat, j: nat) returns (k: nat)
    requires i < |es| && j < |es[i].components|
    ensures k < |ListedInfos(es, cs)| &&
        ListedInfos(es, cs)[k] == Info(es[i].id, es[i].components[j], SchemaOf(cs, es[i].components[j]))
    decreases |es|
  {
    var front := es[..|es| - 1];
    if i == |es| - 1 {
      k := |ListedInfos(front, cs)| + j;
    } else {
      k := ListedAt(front, cs, i, j);
    }
  }

  lemma {:induction false} ListedSchema(es: seq<EntityDef>, cs: seq<ComponentDef>, k: nat)
    requires k < |ListedInfos(es, cs)|
    ensures ListedInfos(es, cs)[k].schema == SchemaOf(cs, ListedInfos(es, cs)[k].name)
    decreases |es|
  {
    var front := es[..|es| - 1];
    if k < |ListedInfos(front, cs)| { ListedSchema(front, cs, k); }
  }

  lemma {:induction false} ListedFrom(es: seq<EntityDef>, cs: seq<ComponentDef>, k: nat) returns (i: nat, j: nat)
    requires k < |ListedInfos(es, cs)|
    ensures Lists(es, i, j, ListedInfos(es, cs)[k].entity, ListedInfos(es, cs)[k].name)
    decreases |es|
  {
    var front := es[..|es| - 1];
    var n := |ListedInfos(front, cs)|;
    if k >= n {
      i, j := |es| - 1, k - n;
    } else {
      i, j := ListedFrom(front, cs, k);
    }
  }

  ghost predicate NoRepeats(es: seq<EntityDef>) {
    forall i, j, k :: 0 <= i < |es| && 0 <= j < k < |es[i].components| ==> es[i].components[j] != es[i].components[k]
  }

  /** With distinct ids and no name repeated in an entity, exactly the listed pairs are found. */
  lemma ListedOnce(es: seq<EntityDef>, cs: seq<ComponentDef>, e: nat, n: string)
    requires DistinctIds(es) && NoRepeats(es)
    ensures (exists k :: Once(ListedInfos(es, cs), k, e, n)) <==> exists i, j :: Lists(es, i, j, e, n)
  {
    var infos := ListedInfos(es, cs);
    if i, j :| Lists(es, i, j, e, n) {
      var k := ListedAt(es, cs, i, j);
      forall l | Matches(infos, l, e, n)
        ensures l == k
      {
        SameListing(es, cs, k, l);
      }
      assert Once(infos, k, e, n);
    }
    if k :| Once(infos, k, e, n) {
      var i, j := ListedFrom(es, cs, k);
    }
  }

  lemma {:induction false} SameListing(es: seq<EntityDef>, cs: seq<ComponentDef>, k: nat, l: nat)
    requires DistinctIds(es) && NoRepeats(es) && k < |ListedInfos(es, cs)| && l < |ListedInfos(es, cs)|
    requires ListedInfos(es, cs)[k].entity == ListedInfos(es, cs)[l].entity &&
        ListedInfos(es, cs)[k].name == ListedInfos(es, cs)[l].name
    ensures k == l
    decreases |es|
  {
    var front := es[..|es| - 1];
    var n := |ListedInfos(front, cs)|;
    if k < n && l < n {
      SameListing(front, cs, k, l);
    } else if k < n {
      var i, j := ListedFrom(front, cs, k);
    } else if l < n {
      var i, j := ListedFrom(front, cs, l);
    }
  }
}
