/** The flat map a list of components stands for: attribute references to values. */
module FlatStore {
  import opened Values
  import opened Graph
  import opened UserComponents
  import opened RunGraph

  /** A component listed for an entity. */
  datatype Info = Info(entity: nat, name: string, schema: Schema)

  predicate Matches(infos: seq<Info>, k: int, e: nat, n: string) {
    0 <= k < |infos| && infos[k].entity == e && infos[k].name == n
  }

  /** Entry k is the only one for its entity and name. */
  ghost predicate Once(infos: seq<Info>, k: int, e: nat, n: string) {
    Matches(infos, k, e, n) && forall j :: Matches(infos, j, e, n) ==> j == k
  }

  ghost function Part(info: Info, values: Attributes): Store {
    map a | a in View(values) :: Ref(info.entity, info.name, a) := values[a]
  }

  ghost function PartTypes(info: Info): Types {
    map a | a in info.schema :: Ref(info.entity, info.name, a) := info.schema[a]
  }

  /** The part of component i when it is the only one for its entity and name, nothing otherwise. */
  ghost function Own(infos: seq<Info>, i: nat, values: Attributes): Store
    requires i < |infos|
  {
    if Once(infos, i, infos[i].entity, infos[i].name) then Part(infos[i], values) else map[]
  }

  ghost function OwnTypes(infos: seq<Info>, i: nat): Types
    requires i < |infos|
  {
    if Once(infos, i, infos[i].entity, infos[i].name) then PartTypes(infos[i]) else map[]
  }

  /** The set attributes of the components listed once among the first k. */
  ghost function FlatTo(infos: seq<Info>, vals: seq<Attributes>, k: nat): Store
    requires k <= |infos| == |vals|
  {
    if k == 0 then map[] else FlatTo(infos, vals, k - 1) + Own(infos, k - 1, vals[k - 1])
  }

  ghost function Flat(infos: seq<Info>, vals: seq<Attributes>): Store
    requires |infos| == |vals|
  {
    FlatTo(infos, vals, |infos|)
  }

  ghost function TypesTo(infos: seq<Info>, k: nat): Types
    requires k <= |infos|
  {
    if k == 0 then map[] else TypesTo(infos, k - 1) + OwnTypes(infos, k - 1)
  }

  /** The attributes that can be set, with their types. */
  ghost function AllTypes(infos: seq<Info>): Types {
    TypesTo(infos, |infos|)
  }

  lemma PartAt(info: Info, values: Attributes, r: Ref)
    ensures r in Part(info, values) <==>
        r.entity == info.entity && r.component == info.name && r.attribute in View(values)
    ensures r in Part(info, values) ==> Part(info, values)[r] == View(values)[r.attribute]
    ensures r in PartTypes(info) <==> r.entity == info.entity && r.component == info.name && r.attribute in info.schema
    ensures r in PartTypes(info) ==> PartTypes(info)[r] == info.schema[r.attribute]
  {
  }

  /** Component i has a part in what a reference reads exactly when the reference denotes it. */
  lemma OwnAt(infos: seq<Info>, i: nat, values: Attributes, r: Ref, c: nat)
    requires i < |infos| && Once(infos, c, r.entity, r.component)
    ensures var own := Own(infos, i, values);
      (r in own <==> i == c && r.attribute in View(values)) && (r in own ==> own[r] == View(values)[r.attribute])
  {
    PartAt(infos[i], values, r);
    assert Matches(infos, i, r.entity, r.component) <==> i == c;
  }

  lemma OwnTypesAt(infos: seq<Info>, i: nat, r: Ref, c: nat)
    requires i < |infos| && Once(infos, c, r.entity, r.component)
    ensures var own := OwnTypes(infos, i);
      (r in own <==> i == c && r.attribute in infos[i].schema) && (r in own ==> own[r] == infos[i].schema[r.attribute])
  {
    PartAt(infos[i], map[], r);
    assert Matches(infos, i, r.entity, r.component) <==> i == c;
  }

  /** A reference reads the attribute of the one component listed for its entity and name. */
  lemma {:induction false} FlatAt(infos: seq<Info>, vals: seq<Attributes>, k: nat, r: Ref, c: nat)
    requires k <= |infos| == |vals| && Once(infos, c, r.entity, r.component)
    ensures r in FlatTo(infos, vals, k) <==> c < k && r.attribute in View(vals[c])
    ensures r in FlatTo(infos, vals, k) ==> FlatTo(infos, vals, k)[r] == View(vals[c])[r.attribute]
    decreases k
  {
    if k > 0 {
      hide Own, Part, View, Once, Matches;
      FlatAt(infos, vals, k - 1, r, c);
      OwnAt(infos, k - 1, vals[k - 1], r, c);
      var rest, own := FlatTo(infos, vals, k - 1), Own(infos, k - 1, vals[k - 1]);
      assert FlatTo(infos, vals, k) == rest + own;
      if c == k - 1 {
        assert r !in rest;
      } else {
        assert r !in own;
      }
    }
  }

  /** The type of an attribute of the one component listed for its entity and name. */
  lemma {:induction false} TypesAt(infos: seq<Info>, k: nat, r: Ref, c: nat)
    requires k <= |infos| && Once(infos, c, r.entity, r.component)
    ensures r in TypesTo(infos, k) <==> c < k && r.attribute in infos[c].schema
    ensures r in TypesTo(infos, k) ==> TypesTo(infos, k)[r] == infos[c].schema[r.attribute]
    decreases k
  {
    if k > 0 {
      hide OwnTypes, PartTypes, Once, Matches;
      TypesAt(infos, k - 1, r, c);
      OwnTypesAt(infos, k - 1, r, c);
      var rest, own := TypesTo(infos, k - 1), OwnTypes(infos, k - 1);
      assert TypesTo(infos, k) == rest + own;
      if c == k - 1 {
        assert r !in rest;
      } else {
        assert r !in own;
      }
    }
  }

  /** A reference to a component that is not listed, or listed more than once, reads nothing. */
  lemma {:induction false} FlatMissing(infos: seq<Info>, vals: seq<Attributes>, k: nat, r: Ref)
    requires k <= |infos| == |vals| && forall c :: !Once(infos, c, r.entity, r.component)
    ensures r !in FlatTo(infos, vals, k) && r !in TypesTo(infos, k)
    decreases k
  {
    TypesMissing(infos, k, r);
    if k > 0 { FlatMissing(infos, vals, k - 1, r); }
  }

  lemma {:induction false} TypesMissing(infos: seq<Info>, k: nat, r: Ref)
    requires k <= |infos| && forall c :: !Once(infos, c, r.entity, r.component)
    ensures r !in TypesTo(infos, k)
    decreases k
  {
    if k > 0 { TypesMissing(infos, k - 1, r); }
  }

  /** The flat map at a reference that denotes one component. */
  lemma FlatDenotes(infos: seq<Info>, vals: seq<Attributes>, r: Ref, c: nat)
    requires |infos| == |vals| && Once(infos, c, r.entity, r.component)
    ensures r in Flat(infos, vals) <==> r.attribute in View(vals[c])
    ensures r in Flat(infos, vals) ==> Flat(infos, vals)[r] == View(vals[c])[r.attribute]
    ensures r in AllTypes(infos) <==> r.attribute in infos[c].schema
    ensures r in AllTypes(infos) ==> AllTypes(infos)[r] == infos[c].schema[r.attribute]
  {
    FlatAt(infos, vals, |infos|, r, c);
    TypesAt(infos, |infos|, r, c);
  }

  /** Changing the attributes of one component changes the flat map where references denote it. */
  lemma FlatUpdate(infos: seq<Info>, vals: seq<Attributes>, c: nat, values: Attributes, attr: string)
    requires c < |infos| == |vals| && Once(infos, c, infos[c].entity, infos[c].name)
    requires attr in View(values) && View(values) == View(vals[c])[attr := values[attr]]
    ensures Flat(infos, vals[c := values]) ==
            Flat(infos, vals)[Ref(infos[c].entity, infos[c].name, attr) := values[attr]]
  {
    var q := Ref(infos[c].entity, infos[c].name, attr);
    var after, updated := Flat(infos, vals[c := values]), Flat(infos, vals)[q := values[attr]];
    forall r: Ref
      ensures SameAt(after, updated, r)
    {
      FlatBoth(infos, vals, vals[c := values], r);
      if r == q { FlatAt(infos, vals[c := values], |infos|, r, c); }
      if k :| Once(infos, k, r.entity, r.component) {
        FlatAt(infos, vals, |infos|, r, k);
        FlatAt(infos, vals[c := values], |infos|, r, k);
        if k == c && r != q {
          assert r.attribute != attr;
          assert r.attribute in View(values) <==> r.attribute in View(vals[c]);
          if r.attribute in View(values) { assert View(values)[r.attribute] == View(vals[c])[r.attribute]; }
        }
      }
    }
    SameEverywhere(after, updated);
  }

  lemma SameEverywhere(s: Store, t: Store)
    requires forall r :: SameAt(s, t, r)
    ensures s == t
  {
    forall r | r in s
      ensures r in t && s[r] == t[r]
    {
      assert SameAt(s, t, r);
    }
    forall r | r in t
      ensures r in s
    {
      assert SameAt(s, t, r);
    }
  }

  ghost predicate SameAt(s: Store, t: Store, r: Ref) {
    (r in s <==> r in t) && (r in s ==> s[r] == t[r])
  }

  lemma FlatBoth(infos: seq<Info>, vals: seq<Attributes>, vals': seq<Attributes>, r: Ref)
    requires |infos| == |vals| == |vals'|
    ensures (forall c :: !Once(infos, c, r.entity, r.component)) ==> r !in Flat(infos, vals) && r !in Flat(infos, vals')
  {
    if forall c :: !Once(infos, c, r.entity, r.component) {
      FlatMissing(infos, vals, |infos|, r);
      FlatMissing(infos, vals', |infos|, r);
    }
  }

  /** Changes a read cannot see leave the flat map as it was. */
  lemma {:induction false} FlatSame(infos: seq<Info>, vals: seq<Attributes>, vals': seq<Attributes>, k: nat)
    requires k <= |infos| == |vals| == |vals'|
    requires forall i :: 0 <= i < |vals| ==> View(vals[i]) == View(vals'[i])
    ensures FlatTo(infos, vals, k) == FlatTo(infos, vals', k)
    decreases k
  {
    if k > 0 {
      FlatSame(infos, vals, vals', k - 1);
      PartIsView(infos[k - 1], vals[k - 1], vals'[k - 1]);
    }
  }

  /** An update of one component that a read cannot see. */
  lemma FlatUnseen(infos: seq<Info>, vals: seq<Attributes>, c: nat, values: Attributes)
    requires c < |infos| == |vals| && View(values) == View(vals[c])
    ensures Flat(infos, vals[c := values]) == Flat(infos, vals)
  {
    FlatSame(infos, vals, vals[c := values], |infos|);
  }

  lemma PartIsView(info: Info, a: Attributes, b: Attributes)
    requires View(a) == View(b)
    ensures Part(info, a) == Part(info, b)
  {
    assert forall x :: x in View(a) ==> View(a)[x] == a[x] && View(b)[x] == b[x];
    forall r | r in Part(info, a)
      ensures r in Part(info, b) && Part(info, a)[r] == Part(info, b)[r]
    {
      assert r.attribute in View(a);
    }
    forall r | r in Part(info, b)
      ensures r in Part(info, a)
    {
      assert r.attribute in View(b);
    }
  }
}
