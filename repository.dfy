/** The in-memory member store: a table from member id to member that
    `save` writes, `findById` reads and `clear` empties. */
module Repository {
  import opened Wrappers
  import opened Domain

  /** The map's `get`: the member stored under id, or absent (Java's null). */
  function Lookup(store: map<int, Member>, id: int): (r: Option<Member>)
  {
    if id in store then Some(store[id]) else None
  }

  /** The calls that change a store, in the order they were made. */
  datatype StoreOp = SaveOp(member: Member) | ClearOp

  /** The table left behind by a sequence of calls on an empty store. */
  function Replay(ops: seq<StoreOp>): (r: map<int, Member>)
  {
    if ops == [] then map[]
    else
      match ops[|ops| - 1]
      case SaveOp(m) => Replay(ops[..|ops| - 1])[m.id := m]
      case ClearOp => map[]
  }

  /** A call that makes any earlier entry for id unreachable. */
  predicate Overrides(op: StoreOp, id: int)
  {
    op.ClearOp? || op.member.id == id
  }

  /** ops[i] saves a member under id and no later call overwrites or clears it. */
  ghost predicate LatestSave(ops: seq<StoreOp>, i: int, id: int)
  {
    && 0 <= i < |ops|
    && ops[i].SaveOp?
    && ops[i].member.id == id
    && forall j :: i < j < |ops| ==> !Overrides(ops[j], id)
  }

  /** A lookup after a sequence of calls finds exactly the member of the
      latest save of that id not followed by a clear, and is absent when
      there is no such save (the id was never saved, or a clear came after). */
  lemma {:induction false} ReplayLookup(ops: seq<StoreOp>, id: int)
    ensures id in Replay(ops) <==> exists i :: LatestSave(ops, i, id)
    ensures forall i :: LatestSave(ops, i, id) ==> Lookup(Replay(ops), id) == Some(ops[i].member)
  {
    if ops != [] {
      var n := |ops| - 1;
      var pre := ops[..n];
      ReplayLookup(pre, id);
      forall i | 0 <= i < n
        ensures LatestSave(ops, i, id) <==> LatestSave(pre, i, id) && !Overrides(ops[n], id)
      {
        assert forall j :: i < j < n ==> pre[j] == ops[j];
      }
      match ops[n]
      case ClearOp =>
        assert forall i :: !LatestSave(ops, i, id);
      case SaveOp(m) =>
        if m.id == id {
          assert LatestSave(ops, n, id);
          assert forall i :: LatestSave(ops, i, id) ==> i == n;
        } else {
          assert forall i :: LatestSave(ops, i, id) ==> i < n && LatestSave(pre, i, id);
          if exists i :: LatestSave(pre, i, id) {
            var i :| LatestSave(pre, i, id);
            assert LatestSave(ops, i, id);
          }
        }
    }
  }

  /** A member saved before a clear, and not saved again since, is absent. */
  lemma SavedBeforeClearIsAbsent(before: seq<StoreOp>, after: seq<StoreOp>, id: int)
    requires forall k :: 0 <= k < |after| ==> !(after[k].SaveOp? && after[k].member.id == id)
    ensures Lookup(Replay(before + [ClearOp] + after), id) == None
  {
    var ops := before + [ClearOp] + after;
    ReplayLookup(ops, id);
    forall i | 0 <= i < |ops| ensures !LatestSave(ops, i, id) {
      if i <= |before| {
        assert ops[|before|] == ClearOp;
      } else {
        assert ops[i] == after[i - |before| - 1];
      }
    }
  }

  /** `MemoryMemberRepository`: the `store` map is updated in place. */
  class MemoryMemberRepository {
    var store: map<int, Member>
    /** Every save and clear made on this repository, oldest first. */
    ghost var history: seq<StoreOp>

    ghost predicate Valid()
      reads this
    {
      store == Replay(history)
    }

    /** A new repository starts with an empty store. */
    constructor ()
      ensures Valid()
      ensures store == map[] && history == []
    {
      store := map[];
      history := [];
    }

    /** `save`: insert, or overwrite the entry with the same id. Only that
        key may be new, and every other entry is left as it was. */
    method Save(member: Member)
      requires Valid()
      modifies this
      ensures Valid()
      ensures store == old(store)[member.id := member]
      ensures store.Keys == old(store).Keys + {member.id}
      ensures forall id :: id != member.id ==> Lookup(store, id) == Lookup(old(store), id)
      ensures history == old(history) + [SaveOp(member)]
    {
      store := store[member.id := member];
      history := history + [SaveOp(member)];
      assert history[..|history| - 1] == old(history);
    }

    /** `findById`: the stored member, or absent. It reads the store and
        changes nothing; the result is the latest save of id not followed
        by a clear. */
    method FindById(id: int) returns (r: Option<Member>)
      ensures r == Lookup(store, id)
      ensures Valid() ==> (r.Some? <==> exists i :: LatestSave(history, i, id))
      ensures Valid() ==> forall i :: LatestSave(history, i, id) ==> r == Some(history[i].member)
    {
      if id in store {
        r := Some(store[id]);
      } else {
        r := None;
      }
      ReplayLookup(history, id);
    }

    /** `clear`: the store becomes empty, so every lookup is absent. */
    method Clear()
      requires Valid()
      modifies this
      ensures Valid()
      ensures store == map[]
      ensures history == old(history) + [ClearOp]
    {
      store := map[];
      history := history + [ClearOp];
    }
  }
}
