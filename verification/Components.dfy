/** The symbolic store of the SDK: graph components record reads and writes of attributes in ordered dictionaries
    that several components can share. */
module Components {
  import opened Values
  import opened Graph

  /** The outputs dictionary: attribute and the node it was set to, in order. */
  datatype Entry = Entry(ref: Ref, node: Node)
  type Outputs = seq<Entry>

  function Keys(outs: Outputs): seq<Ref> {
    seq(|outs|, i requires 0 <= i < |outs| => outs[i].ref)
  }

  predicate Distinct(outs: Outputs) {
    forall i, j :: 0 <= i < j < |outs| ==> outs[i].ref != outs[j].ref
  }

  function Lookup(outs: Outputs, r: Ref): Option<Node> {
    if outs == [] then None else if outs[0].ref == r then Some(outs[0].node) else Lookup(outs[1..], r)
  }

  /** What reading an attribute gives: the node it was set to, or a retrieve of it. */
  function Current(outs: Outputs, r: Ref): Node {
    if Lookup(outs, r).Some? then Lookup(outs, r).value else Retrieve(r)
  }

  function Without(outs: Outputs, r: Ref): Outputs {
    if outs == [] then [] else if outs[0].ref == r then Without(outs[1..], r) else [outs[0]] + Without(outs[1..], r)
  }

  /** Item assignment of an ordered dictionary: an old key keeps its place. */
  function Assigned(outs: Outputs, r: Ref, n: Node): Outputs {
    if outs == [] then [Entry(r, n)]
    else if outs[0].ref == r then [Entry(r, n)] + outs[1..]
    else [outs[0]] + Assigned(outs[1..], r, n)
  }

  function MovedToEnd(outs: Outputs, r: Ref): Outputs {
    if Lookup(outs, r).Some? then Without(outs, r) + [Entry(r, Lookup(outs, r).value)] else outs
  }

  /** A write of an attribute's own initial value is dropped. */
  predicate Skipped(r: Ref, n: Node) {
    n == Retrieve(r)
  }

  /** set_attr on the outputs. */
  function Set(outs: Outputs, r: Ref, n: Node): Outputs {
    if Skipped(r, n) then outs else Without(outs, r) + [Entry(r, n)]
  }

  lemma {:induction false} LookupIn(outs: Outputs, r: Ref)
    ensures Lookup(outs, r).Some? <==> r in Keys(outs)
    ensures Lookup(outs, r).Some? ==> Entry(r, Lookup(outs, r).value) in outs
    ensures forall i :: 0 <= i < |outs| && outs[i].ref == r && Distinct(outs) ==> Lookup(outs, r) == Some(outs[i].node)
  {
    if outs != [] {
      LookupIn(outs[1..], r);
      assert Keys(outs) == [outs[0].ref] + Keys(outs[1..]);
    }
  }

  lemma {:induction false} WithoutLookup(outs: Outputs, r: Ref, q: Ref)
    ensures Lookup(Without(outs, r), q) == if q == r then None else Lookup(outs, q)
  {
    if outs != [] {
      WithoutLookup(outs[1..], r, q);
      if outs[0].ref != r { assert Without(outs, r)[1..] == Without(outs[1..], r); }
    }
  }

  lemma {:induction false} AppendLookup(outs: Outputs, r: Ref, n: Node, q: Ref)
    ensures Lookup(outs + [Entry(r, n)], q) ==
            if Lookup(outs, q).Some? then Lookup(outs, q) else if q == r then Some(n) else None
  {
    if outs != [] {
      AppendLookup(outs[1..], r, n, q);
      assert (outs + [Entry(r, n)])[1..] == outs[1..] + [Entry(r, n)];
    } else {
      assert (outs + [Entry(r, n)])[1..] == [];
    }
  }

  lemma {:induction false} WithoutKeys(outs: Outputs, r: Ref)
    ensures forall e :: e in Without(outs, r) ==> e in outs && e.ref != r
    ensures Distinct(outs) ==> Distinct(Without(outs, r))
  {
    if outs != [] {
      WithoutKeys(outs[1..], r);
      var w := Without(outs[1..], r);
      if Distinct(outs) {
        forall e | e in w ensures e.ref != outs[0].ref { }
      }
    }
  }

  /** A write is read back, and no other attribute changes. */
  lemma SetLookup(outs: Outputs, r: Ref, n: Node, q: Ref)
    ensures !Skipped(r, n) ==> Lookup(Set(outs, r, n), q) == if q == r then Some(n) else Lookup(outs, q)
    ensures Skipped(r, n) ==> Lookup(Set(outs, r, n), q) == Lookup(outs, q)
  {
    WithoutLookup(outs, r, q);
    AppendLookup(Without(outs, r), r, n, q);
  }

  /** Reading after writing gives what was written, exactly unless the write is dropped over an earlier write
      of something else. */
  lemma ReadAfterWrite(outs: Outputs, r: Ref, n: Node)
    ensures Current(Set(outs, r, n), r) == n <==> !(Skipped(r, n) && Current(outs, r) != Retrieve(r))
  {
    SetLookup(outs, r, n, r);
  }

  /** The keys stay distinct. */
  lemma SetDistinct(outs: Outputs, r: Ref, n: Node)
    requires Distinct(outs)
    ensures Distinct(Set(outs, r, n))
  {
    WithoutKeys(outs, r);
  }

  /** The dictionary's assignment and move to the end do what Set says. */
  lemma {:induction false} AssignThenMove(outs: Outputs, r: Ref, n: Node)
    requires Distinct(outs)
    ensures Distinct(Assigned(outs, r, n))
    ensures Lookup(Assigned(outs, r, n), r) == Some(n)
    ensures Without(Assigned(outs, r, n), r) == Without(outs, r)
    ensures forall e :: e in Assigned(outs, r, n) ==> e == Entry(r, n) || e in outs
  {
    if outs != [] {
      var d := Assigned(outs, r, n);
      if outs[0].ref == r {
        assert d[1..] == outs[1..];
      } else {
        var rest := Assigned(outs[1..], r, n);
        AssignThenMove(outs[1..], r, n);
        assert d[1..] == rest;
        forall j | 1 <= j < |d| ensures d[j].ref != outs[0].ref {
          assert rest[j - 1] in rest;
        }
        assert forall i, j :: 1 <= i < j < |d| ==> d[i] == rest[i - 1] && d[j] == rest[j - 1];
      }
    } else {
      assert Without([Entry(r, n)], r) == [];
    }
  }

  // ---------------------------------------------------------------- order of a run of writes

  /** Outputs after a run of writes. */
  function After(outs: Outputs, writes: seq<Entry>): Outputs
    decreases |writes|
  {
    if writes == [] then outs else After(Set(outs, writes[0].ref, writes[0].node), writes[1..])
  }

  /** The last write of each attribute that is not dropped, in order. */
  function LastWrites(writes: seq<Entry>): seq<Entry> {
    if writes == [] then []
    else
      var rest := LastWrites(writes[1..]);
      if Skipped(writes[0].ref, writes[0].node) || writes[0].ref in Keys(rest) then rest else [writes[0]] + rest
  }

  lemma {:induction false} AfterInOrder(outs: Outputs, writes: seq<Entry>)
    ensures After(outs, writes) == Kept(outs, Keys(LastWrites(writes))) + LastWrites(writes)
    decreases |writes|
  {
    if writes == [] {
      assert Keys(LastWrites(writes)) == [];
      KeptAll(outs);
    } else {
      var w, rest := writes[0], LastWrites(writes[1..]);
      AfterInOrder(Set(outs, w.ref, w.node), writes[1..]);
      if !Skipped(w.ref, w.node) {
        KeptAfterSet(outs, w, rest);
      }
    }
  }

  /** One write in front of others. */
  lemma KeptAfterSet(outs: Outputs, w: Entry, rest: seq<Entry>)
    requires !Skipped(w.ref, w.node)
    ensures Kept(Set(outs, w.ref, w.node), Keys(rest)) + rest ==
            var all := if w.ref in Keys(rest) then rest else [w] + rest; Kept(outs, Keys(all)) + all
  {
    hide Kept, Without, Keys;
    var keys := Keys(rest);
    KeptAppend(Without(outs, w.ref), w, keys);
    KeptWithout(outs, w.ref, keys);
    if w.ref !in keys {
      KeysCons(w, rest);
      KeptSame(outs, [w.ref] + keys, keys + [w.ref]);
      var kept := Kept(outs, keys + [w.ref]);
      assert (kept + [w]) + rest == kept + ([w] + rest);
    } else {
      KeptSame(outs, keys, keys + [w.ref]);
    }
  }

  lemma KeysCons(w: Entry, rest: seq<Entry>)
    ensures Keys([w] + rest) == [w.ref] + Keys(rest)
  {
  }

  /** Entries whose attribute is not among the keys. */
  function Kept(outs: Outputs, keys: seq<Ref>): Outputs {
    if outs == [] then [] else if outs[0].ref in keys then Kept(outs[1..], keys) else [outs[0]] + Kept(outs[1..], keys)
  }

  lemma {:induction false} KeptAll(outs: Outputs)
    ensures Kept(outs, []) == outs
  {
    if outs != [] { KeptAll(outs[1..]); }
  }

  lemma {:induction false} KeptSame(outs: Outputs, a: seq<Ref>, b: seq<Ref>)
    requires forall r :: r in a <==> r in b
    ensures Kept(outs, a) == Kept(outs, b)
  {
    if outs != [] { KeptSame(outs[1..], a, b); }
  }

  lemma {:induction false} KeptAppend(outs: Outputs, e: Entry, keys: seq<Ref>)
    ensures Kept(outs + [e], keys) == Kept(outs, keys) + if e.ref in keys then [] else [e]
  {
    if outs == [] {
      assert outs + [e] == [e];
      assert [e][1..] == [];
    } else {
      KeptAppend(outs[1..], e, keys);
      assert (outs + [e])[1..] == outs[1..] + [e];
    }
  }

  lemma {:induction false} KeptWithout(outs: Outputs, r: Ref, keys: seq<Ref>)
    ensures Kept(Without(outs, r), keys) == Kept(outs, keys + [r])
  {
    if outs != [] {
      KeptWithout(outs[1..], r, keys);
      if outs[0].ref != r { assert Without(outs, r)[1..] == Without(outs[1..], r); }
    }
  }

  /** Outputs that start empty hold exactly the last write of each attribute, in the order of those writes. */
  lemma OutputsInWriteOrder(writes: seq<Entry>)
    ensures After([], writes) == LastWrites(writes)
  {
    AfterInOrder([], writes);
  }

  // ---------------------------------------------------------------- the objects

  class Dict {
    var items: Outputs
    constructor ()
      ensures items == []
    {
      items := [];
    }
  }

  class Inputs {
    var refs: set<Ref>
    constructor ()
      ensures refs == {}
    {
      refs := {};
    }
  }

  class GraphComponent {
    const entity_id: nat
    const name: string
    var inputs: Inputs
    var outputs: Dict

    constructor (entity_id: nat, name: string, inputs: Inputs, outputs: Dict)
      ensures this.entity_id == entity_id && this.name == name && this.inputs == inputs && this.outputs == outputs
    {
      this.entity_id, this.name, this.inputs, this.outputs := entity_id, name, inputs, outputs;
    }

    function RefTo(attr: string): Ref {
      Ref(entity_id, name, attr)
    }

    /** Reads an attribute; a read of an attribute not set so far is recorded as an input. */
    method GetAttr(attr: string) returns (n: Node)
      modifies inputs
      ensures n == Current(outputs.items, RefTo(attr))
      ensures inputs.refs == old(inputs.refs) + if Lookup(outputs.items, RefTo(attr)).Some? then {} else {RefTo(attr)}
    {
      var ref := RefTo(attr);
      if Lookup(outputs.items, ref).Some? {
        return Lookup(outputs.items, ref).value;
      }
      inputs.refs := inputs.refs + {ref};
      return Retrieve(ref);
    }

    /** Sets an attribute for every component that shares the outputs. */
    method SetAttr(attr: string, value: Node)
      requires Distinct(outputs.items)
      modifies outputs
      ensures outputs.items == Set(old(outputs.items), RefTo(attr), value) && Distinct(outputs.items)
    {
      var ref := RefTo(attr);
      if value == Retrieve(ref) {
        return;
      }
      SetDistinct(outputs.items, ref, value);
      AssignThenMove(outputs.items, ref, value);
      outputs.items := Assigned(outputs.items, ref, value);
      outputs.items := MovedToEnd(outputs.items, ref);
    }

    /** A copy with outputs of its own and the same inputs: writes of one are not seen by the other. */
    method DeepCopy() returns (c: GraphComponent)
      ensures fresh(c) && fresh(c.outputs) && c.inputs == inputs && c.outputs.items == outputs.items
      ensures c.entity_id == entity_id && c.name == name
    {
      var d := new Dict();
      d.items := outputs.items;
      c := new GraphComponent(entity_id, name, inputs, d);
    }
  }
}
