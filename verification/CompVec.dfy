/** The slot-recycling vector of components: ids are never reused, places in the vector are. */
module CompVecs {
  import opened Values

  class CompVec<C> {
    var lastId: nat
    var idToIndex: map<nat, nat>
    var inactiveCompIdx: seq<nat>
    var vec: seq<C>
    var isActive: seq<bool>
    // the id that holds a place, 0 for a place that waits for reuse
    ghost var owner: seq<nat>

    /** Ids and places they hold belong to each other; every place no id holds waits for reuse, once. */
    ghost predicate Valid()
      reads this
    {
      |vec| == |isActive| && Fits(lastId, idToIndex, inactiveCompIdx, isActive, owner)
    }

    static ghost predicate Fits(last: nat, places: map<nat, nat>, queue: seq<nat>, active: seq<bool>, owner: seq<nat>) {
      |active| == |owner| &&
      (forall id :: id in places ==> 1 <= id <= last && places[id] < |owner| && owner[places[id]] == id) &&
      (forall i :: 0 <= i < |owner| && owner[i] != 0 ==> owner[i] in places && places[owner[i]] == i) &&
      (forall i :: 0 <= i < |owner| ==> (active[i] <==> owner[i] != 0)) &&
      Waiting(queue, owner)
    }

    /** The queue holds the places without an id, each once. */
    static ghost predicate Waiting(queue: seq<nat>, owner: seq<nat>) {
      (forall i :: 0 <= i < |queue| ==> queue[i] < |owner| && owner[queue[i]] == 0) &&
      (forall i, j :: 0 <= i < j < |queue| ==> queue[i] != queue[j]) &&
      (forall i :: 0 <= i < |owner| && owner[i] == 0 ==> i in queue)
    }

    /** What the ids read: the map the structure stands for. */
    ghost function Model(): map<nat, C>
      requires Valid()
      reads this
    {
      map id | id in idToIndex :: vec[idToIndex[id]]
    }

    constructor ()
      ensures Valid() && Model() == map[] && lastId == 0
    {
      lastId, idToIndex, inactiveCompIdx, vec, isActive, owner := 0, map[], [], [], [], [];
    }

    /** A place for a component: the longest waiting one, or a new one. */
    method AddToVec(val: C) returns (idx: nat)
      requires Valid()
      modifies this`inactiveCompIdx, this`vec, this`isActive
      ensures if old(inactiveCompIdx) == [] then
                idx == |old(vec)| && vec == old(vec) + [val] && isActive == old(isActive) + [true] &&
                    inactiveCompIdx == []
              else
                idx == old(inactiveCompIdx)[0] < |old(vec)| && inactiveCompIdx == old(inactiveCompIdx)[1..] &&
                vec == old(vec)[idx := val] && isActive == old(isActive)[idx := true]
    {
      if inactiveCompIdx != [] {
        idx := inactiveCompIdx[0];
        vec, isActive := vec[idx := val], isActive[idx := true];
        inactiveCompIdx := inactiveCompIdx[1..];
      } else {
        idx := |vec|;
        vec, isActive := vec + [val], isActive + [true];
      }
    }

    /** Taking the first place of the queue. */
    static lemma TakeWaiting(queue: seq<nat>, owner: seq<nat>, id: nat)
      requires Waiting(queue, owner) && id > 0
      ensures queue == [] ==> Waiting([], owner + [id])
      ensures queue != [] ==> Waiting(queue[1..], owner[queue[0] := id])
    {
      if queue != [] {
        forall i | 0 <= i < |owner| && owner[queue[0] := id][i] == 0
          ensures i in queue[1..]
        {
          assert i in queue && i != queue[0];
        }
      }
    }

    static lemma PutWaiting(queue: seq<nat>, owner: seq<nat>, index: nat)
      requires Waiting(queue, owner) && index < |owner| && owner[index] != 0
      ensures Waiting(queue + [index], owner[index := 0])
    {
      forall i | 0 <= i < |owner| && owner[index := 0][i] == 0
        ensures i in queue + [index]
      {
        if i != index { assert i in queue; }
      }
    }

    static lemma AppendFits(last: nat, places: map<nat, nat>, active: seq<bool>, owner: seq<nat>)
      requires Fits(last, places, [], active, owner)
      ensures Fits(last + 1, places[last + 1 := |owner|], [], active + [true], owner + [last + 1])
    {
      TakeWaiting([], owner, last + 1);
    }

    static lemma ReuseFits(last: nat, places: map<nat, nat>, queue: seq<nat>, active: seq<bool>, owner: seq<nat>)
      requires Fits(last, places, queue, active, owner) && queue != []
      ensures Fits(last + 1, places[last + 1 := queue[0]], queue[1..], active[queue[0] := true],
          owner[queue[0] := last + 1])
      ensures forall id :: id in places ==> places[id] != queue[0]
    {
      TakeWaiting(queue, owner, last + 1);
    }

    /** Adds under an id never used before; every other id reads as before. */
    method Add(val: C) returns (id: nat)
      requires Valid()
      modifies this
      ensures Valid() && id == lastId == old(lastId) + 1 && id !in old(Model())
      ensures Model() == old(Model())[id := val]
    {
      hide CompVec.Waiting;
      if inactiveCompIdx == [] {
        AppendFits(lastId, idToIndex, isActive, owner);
      } else {
        ReuseFits(lastId, idToIndex, inactiveCompIdx, isActive, owner);
      }
      var idx := AddToVec(val);
      idToIndex := idToIndex[lastId + 1 := idx];
      lastId := lastId + 1;
      id := lastId;
      owner := if idx == |owner| then owner + [id] else owner[idx := id];
    }

    /** Removes an id and frees its place; an unknown id is an error and changes nothing. */
    method Remove(id: nat) returns (r: Result<()>)
      requires Valid()
      modifies this
      ensures Valid() && lastId == old(lastId)
      ensures r == if id in old(Model()) then Ok(()) else Throws
      ensures Model() == old(Model()) - {id}
    {
      if id !in idToIndex {
        assert Model() - {id} == Model();
        return Throws;
      }
      var index := idToIndex[id];
      PutWaiting(inactiveCompIdx, owner, index);
      isActive := isActive[index := false];
      inactiveCompIdx := inactiveCompIdx + [index];
      idToIndex := idToIndex - {id};
      owner := owner[index := 0];
      return Ok(());
    }

    /** Reads an id; both checks of the program, known id and active place, agree. */
    method At(id: nat) returns (r: Result<C>)
      requires Valid()
      ensures r == if id in Model() then Ok(Model()[id]) else Throws
    {
      if id !in idToIndex {
        return Throws;
      }
      if !isActive[idToIndex[id]] {
        return Throws;
      }
      return Ok(vec[idToIndex[id]]);
    }

    function Size(): nat
      reads this
    {
      |idToIndex|
    }
  }

  function UpTo(n: nat): (s: set<nat>)
    ensures forall i :: i in s <==> 1 <= i <= n
  {
    if n == 0 then {} else UpTo(n - 1) + {n}
  }

  /** The ids 1 to size are the live ids exactly when no live id is beyond the size. */
  lemma EnumeratedIds(ids: set<nat>)
    requires 0 !in ids
    ensures UpTo(|ids|) == ids <==> forall i :: i in ids ==> i <= |ids|
  {
    if forall i :: i in ids ==> i <= |ids| {
      FullRange(ids, |ids|);
    }
  }

  lemma {:induction false} FullRange(ids: set<nat>, n: nat)
    requires |ids| == n && forall i :: i in ids ==> 1 <= i <= n
    ensures ids == UpTo(n)
    decreases n
  {
    if n > 0 {
      if n in ids {
        FullRange(ids - {n}, n - 1);
        assert ids == (ids - {n}) + {n};
      } else {
        SetBound(ids, n - 1);
      }
    }
  }

  lemma {:induction false} SetBound(ids: set<nat>, n: nat)
    requires forall i :: i in ids ==> 1 <= i <= n
    ensures |ids| <= n
    decreases n
  {
    if n > 0 {
      SetBound(ids - {n}, n - 1);
    } else {
      assert ids == {};
    }
  }
}
