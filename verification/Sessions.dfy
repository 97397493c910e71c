/** The registry of open enclave sessions (src/compartment-manager/enclave_manager.cpp): a list of
    sessions and a list of their contexts. */
module Sessions {
  import opened Words
  import opened TailQueues

  const TEC_ID_LIMIT: nat := 0x1_0000_0000

  datatype TecResult = TEC_SUCCESS | TEC_ERROR_ITEM_NOT_FOUND | TEC_ERROR_GENERIC

  type Context = Node<seq<byte>>

  // addr is the address malloc() returned for the session.
  datatype SessionData = SessionData(addr: u64, ctx: Context)

  type Session = Node<SessionData>

  // A session is known to clients by the low 32 bits of its address.
  function IdOf(s: Session): nat {
    s.data.addr % TEC_ID_LIMIT
  }

  // So a session below 2^32 has its address as its id, and no two sessions share one unless they are a
  // multiple of 2^32 apart.
  lemma IdsExactly(s: Session, t: Session)
    ensures s.data.addr < 0x1_0000_0000 ==> IdOf(s) == s.data.addr
    ensures IdOf(s) == IdOf(t) <==> (s.data.addr - t.data.addr) % 0x1_0000_0000 == 0
  {
  }

  function Ids(nodes: seq<Session>): (ids: seq<nat>)
    ensures |ids| == |nodes|
  {
    if nodes == [] then [] else [IdOf(nodes[0])] + Ids(nodes[1..])
  }

  // The position of the first occurrence, or |ids|.
  function FirstIndex(ids: seq<nat>, id: nat): (k: nat)
    ensures k <= |ids|
    ensures k < |ids| ==> ids[k] == id
    ensures forall j :: 0 <= j < k ==> ids[j] != id
  {
    if ids == [] || ids[0] == id then 0 else 1 + FirstIndex(ids[1..], id)
  }

  lemma {:induction false} IdsAt(nodes: seq<Session>, i: nat)
    requires i < |nodes|
    ensures Ids(nodes)[i] == IdOf(nodes[i])
  {
    if i > 0 {
      IdsAt(nodes[1..], i - 1);
    }
  }

  function Without<T>(s: seq<T>, k: nat): seq<T>
    requires k < |s|
  {
    s[..k] + s[k + 1..]
  }

  lemma IdsWithout(nodes: seq<Session>, k: nat)
    requires k < |nodes|
    ensures Ids(Without(nodes, k)) == Without(Ids(nodes), k)
  {
    forall i | 0 <= i < |nodes| - 1
      ensures Ids(Without(nodes, k))[i] == Without(Ids(nodes), k)[i]
    {
      IdsAt(Without(nodes, k), i);
      IdsAt(nodes, if i < k then i else i + 1);
    }
  }

  lemma IdsSnoc(nodes: seq<Session>, s: Session)
    ensures Ids(nodes + [s]) == Ids(nodes) + [IdOf(s)]
  {
    forall i | 0 <= i <= |nodes|
      ensures Ids(nodes + [s])[i] == (Ids(nodes) + [IdOf(s)])[i]
    {
      IdsAt(nodes + [s], i);
      if i < |nodes| {
        IdsAt(nodes, i);
      }
    }
  }

  // Session i's context is context i.
  predicate Paired(ss: seq<Session>, cs: seq<Context>) {
    |ss| == |cs| && forall i :: 0 <= i < |ss| ==> ss[i].data.ctx == cs[i]
  }

  lemma PairedSnoc(ss: seq<Session>, cs: seq<Context>, s: Session)
    requires Paired(ss, cs)
    ensures Paired(ss + [s], cs + [s.data.ctx])
  {
  }

  lemma PairedWithout(ss: seq<Session>, cs: seq<Context>, k: nat)
    requires Paired(ss, cs) && k < |ss|
    ensures Paired(Without(ss, k), Without(cs, k))
  {
  }

  class Registry {
    const sessions: TailQueue<SessionData>
    const contexts: TailQueue<seq<byte>>

    // Both lists are well formed, and session i's context is context i.
    ghost predicate Valid()
      reads this, sessions, sessions.nodes, contexts, contexts.nodes
    {
      sessions.Valid() && contexts.Valid() && Paired(sessions.nodes, contexts.nodes)
    }

    ghost function LiveIds(): seq<nat>
      reads sessions
    {
      Ids(sessions.nodes)
    }

    constructor ()
      ensures Valid() && LiveIds() == [] && fresh(sessions) && fresh(contexts)
    {
      sessions := new TailQueue();
      contexts := new TailQueue();
    }

    // tec_ta_open_session
    method Open(addr: u64, uuid: seq<byte>) returns (res: TecResult, s: Session)
      requires Valid()
      modifies sessions, sessions.nodes, contexts, contexts.nodes
      ensures Valid() && res == TEC_SUCCESS
      ensures fresh(s) && s.data.addr == addr && s.data.ctx.data == uuid
      ensures sessions.nodes == old(sessions.nodes) + [s]
      ensures LiveIds() == old(LiveIds()) + [addr % 0x1_0000_0000]
    {
      var ctx := new Node(uuid);
      s := new Node(SessionData(addr, ctx));
      Enlist(s);
      IdsSnoc(old(sessions.nodes), s);
      res := TEC_SUCCESS;
    }

    // Puts a new session and its context on their lists.
    method Enlist(s: Session)
      requires Valid() && s !in sessions.nodes && s.data.ctx !in contexts.nodes
      modifies sessions, sessions.nodes, contexts, contexts.nodes, s, s.data.ctx
      ensures Valid()
      ensures sessions.nodes == old(sessions.nodes) + [s] && contexts.nodes == old(contexts.nodes) + [s.data.ctx]
    {
      PairedSnoc(sessions.nodes, contexts.nodes, s);
      sessions.InsertTail(s);
      contexts.InsertTail(s.data.ctx);
    }

    // find_session
    method Find(id: nat) returns (s: Node?<SessionData>)
      requires Valid()
      ensures s == null <==> id !in LiveIds()
      ensures s != null ==>
        var k := FirstIndex(LiveIds(), id); k < |sessions.nodes| && s == sessions.nodes[k] && IdOf(s) == id
    {
      s := sessions.first;
      ghost var i := 0;
      while s != null
        invariant 0 <= i <= |sessions.nodes|
        invariant s == if i < |sessions.nodes| then sessions.nodes[i] else null
        invariant forall j :: 0 <= j < i ==> LiveIds()[j] != id
        decreases |sessions.nodes| - i
      {
        IdsAt(sessions.nodes, i);
        if IdOf(s) == id {
          FirstIndexIs(LiveIds(), id, i);
          return;
        }
        s := s.next;
        i := i + 1;
      }
    }

    // tec_ta_get_session
    method Get(id: nat) returns (res: TecResult, s: Node?<SessionData>)
      requires Valid()
      ensures res == if id in LiveIds() then TEC_SUCCESS else TEC_ERROR_GENERIC
      ensures res == TEC_SUCCESS ==> s != null && s in sessions.nodes && IdOf(s) == id
    {
      s := Find(id);
      res := if s == null then TEC_ERROR_GENERIC else TEC_SUCCESS;
    }

    // tec_ta_close_session.  A session whose id is 0 can never be closed.
    method Close(id: nat) returns (res: TecResult)
      requires Valid()
      modifies sessions, sessions.nodes, contexts, contexts.nodes
      ensures Valid()
      ensures res == if id != 0 && id in old(LiveIds()) then TEC_SUCCESS else TEC_ERROR_ITEM_NOT_FOUND
      ensures res != TEC_SUCCESS ==> sessions.nodes == old(sessions.nodes) && contexts.nodes == old(contexts.nodes)
      ensures res == TEC_SUCCESS ==>
        var k := FirstIndex(old(LiveIds()), id);
        && k < |old(sessions.nodes)| == |old(contexts.nodes)|
        && sessions.nodes == Without(old(sessions.nodes), k) && contexts.nodes == Without(old(contexts.nodes), k)
      ensures LiveIds() == Closed(old(LiveIds()), id)
    {
      if id == 0 {
        return TEC_ERROR_ITEM_NOT_FOUND;
      }
      var s := Find(id);
      if s == null {
        return TEC_ERROR_ITEM_NOT_FOUND;
      }
      Forget(s, FirstIndex(LiveIds(), id));
      res := TEC_SUCCESS;
    }

    // Takes a session and its context off their lists.
    method Forget(s: Session, ghost k: nat)
      requires Valid() && k < |sessions.nodes| && sessions.nodes[k] == s
      modifies sessions, sessions.nodes, contexts, contexts.nodes
      ensures Valid()
      ensures sessions.nodes == Without(old(sessions.nodes), k) && contexts.nodes == Without(old(contexts.nodes), k)
      ensures LiveIds() == Without(old(LiveIds()), k)
    {
      IdsWithout(sessions.nodes, k);
      PairedWithout(sessions.nodes, contexts.nodes, k);
      Delist(s, k);
    }

    method Delist(s: Session, ghost k: nat)
      requires sessions.Valid() && contexts.Valid() && Paired(sessions.nodes, contexts.nodes)
      requires k < |sessions.nodes| && sessions.nodes[k] == s
      modifies sessions, sessions.nodes, contexts, contexts.nodes
      ensures sessions.Valid() && contexts.Valid()
      ensures sessions.nodes == Without(old(sessions.nodes), k) && contexts.nodes == Without(old(contexts.nodes), k)
    {
      var ctx := s.data.ctx;
      sessions.Remove(s, k);
      contexts.Remove(ctx, k);
    }
  }

  lemma FirstIndexIs(ids: seq<nat>, id: nat, k: nat)
    requires k < |ids| && ids[k] == id && forall j :: 0 <= j < k ==> ids[j] != id
    ensures FirstIndex(ids, id) == k
  {
  }

  // --- The compartment of a session ------------------------------------------------------------

  const ADDRESSES_PER_ID: nat := 1_000_000

  // The compartment ID that the manager makes from a session's truncated address.
  function CompartmentIdOf(addr: u64): nat {
    addr % TEC_ID_LIMIT / ADDRESSES_PER_ID
  }

  lemma CompartmentIdExactly(addr: u64, k: nat)
    ensures CompartmentIdOf(addr) == k <==> 1_000_000 * k <= addr % 0x1_0000_0000 < 1_000_000 * k + 1_000_000
  {
  }

  // It is a valid ID exactly for truncated addresses below 4094 million; others are past the end of
  // the descriptor table, by up to 201 entries.
  lemma CompartmentIdValidExactly(addr: u64)
    ensures CompartmentIdOf(addr) < 4094 <==> addr % 0x1_0000_0000 < 4_094_000_000
    ensures CompartmentIdOf(addr) <= 4294
  {
    var t := addr % TEC_ID_LIMIT;
    assert t < TEC_ID_LIMIT && t == ADDRESSES_PER_ID * (t / ADDRESSES_PER_ID) + t % ADDRESSES_PER_ID;
  }

  // Two sessions get the same compartment exactly if no multiple of a million lies between their
  // truncated addresses; so at a distance of a million or more they never do.
  lemma CompartmentsCollideExactly(lower: u64, upper: u64)
    requires lower % TEC_ID_LIMIT <= upper % TEC_ID_LIMIT
    ensures CompartmentIdOf(lower) == CompartmentIdOf(upper) <==>
            forall k: nat :: !(lower % TEC_ID_LIMIT < ADDRESSES_PER_ID * k <= upper % TEC_ID_LIMIT)
    ensures lower % TEC_ID_LIMIT + ADDRESSES_PER_ID <= upper % TEC_ID_LIMIT ==>
            CompartmentIdOf(lower) != CompartmentIdOf(upper)
  {
    var s, t := lower % TEC_ID_LIMIT, upper % TEC_ID_LIMIT;
    var i, j := s / ADDRESSES_PER_ID, t / ADDRESSES_PER_ID;
    assert s == ADDRESSES_PER_ID * i + s % ADDRESSES_PER_ID && t == ADDRESSES_PER_ID * j + t % ADDRESSES_PER_ID;
    if i != j {
      assert s < ADDRESSES_PER_ID * j <= t;
    }
  }

  // --- Histories -------------------------------------------------------------------------------

  function Closed(ids: seq<nat>, id: nat): seq<nat> {
    var k := FirstIndex(ids, id);
    if id != 0 && k < |ids| then Without(ids, k) else ids
  }

  datatype Operation = OpenOp(id: nat) | CloseOp(id: nat)

  // The live ids after a history of operations, oldest first.
  function LiveAfter(ops: seq<Operation>): seq<nat> {
    if ops == [] then []
    else
      var ids := LiveAfter(ops[..|ops| - 1]);
      match ops[|ops| - 1]
      case OpenOp(id) => ids + [id]
      case CloseOp(id) => Closed(ids, id)
  }

  // No session is opened under an id that is live.
  ghost predicate FreshIds(ops: seq<Operation>) {
    forall n :: 0 <= n < |ops| && ops[n].OpenOp? ==> ops[n].id !in LiveAfter(ops[..n])
  }

  // The open that is operation i has not been closed by a later operation.
  predicate StillOpen(ops: seq<Operation>, i: nat)
    requires i < |ops|
  {
    ops[i].OpenOp? && (ops[i].id != 0 ==> forall j :: i < j < |ops| ==> ops[j] != CloseOp(ops[i].id))
  }

  // The ids of those among the first n operations that are opens still open after all of ops.
  function OpenIds(ops: seq<Operation>, n: nat): seq<nat>
    requires n <= |ops|
  {
    if n == 0 then [] else OpenIds(ops, n - 1) + (if StillOpen(ops, n - 1) then [ops[n - 1].id] else [])
  }

  ghost predicate Distinct(ids: seq<nat>) {
    forall i, j :: 0 <= i < j < |ids| ==> ids[i] != ids[j]
  }

  lemma ClosedDistinct(ids: seq<nat>, id: nat)
    requires Distinct(ids)
    ensures Distinct(Closed(ids, id))
    ensures id != 0 ==> id !in Closed(ids, id)
    ensures forall x :: x in Closed(ids, id) ==> x in ids
  {
  }

  lemma {:induction false} LiveDistinct(ops: seq<Operation>)
    requires FreshIds(ops)
    ensures Distinct(LiveAfter(ops))
  {
    if ops != [] {
      var before := ops[..|ops| - 1];
      FreshIdsPrefix(ops);
      LiveDistinct(before);
      match ops[|ops| - 1]
      case OpenOp(id) => assert ops[|ops| - 1].id !in LiveAfter(ops[..|ops| - 1]);
      case CloseOp(id) => ClosedDistinct(LiveAfter(before), id);
    }
  }

  function Drop(ids: seq<nat>, id: nat): seq<nat> {
    if ids == [] then []
    else
      var last := ids[|ids| - 1];
      Drop(ids[..|ids| - 1], id) + (if last == id then [] else [last])
  }

  lemma DropSnoc(ids: seq<nat>, x: nat, id: nat)
    ensures Drop(ids + [x], id) == if x == id then Drop(ids, id) else Drop(ids, id) + [x]
  {
    assert (ids + [x])[..|ids|] == ids;
  }

  lemma {:induction false} DropAbsent(ids: seq<nat>, id: nat)
    requires id !in ids
    ensures Drop(ids, id) == ids
  {
    if ids != [] {
      DropAbsent(ids[..|ids| - 1], id);
    }
  }

  lemma {:induction false} DropPresent(ids: seq<nat>, k: nat)
    requires Distinct(ids) && k < |ids|
    ensures Drop(ids, ids[k]) == Without(ids, k)
    decreases |ids|
  {
    var last := |ids| - 1;
    assert Distinct(ids[..last]);
    if k == last {
      assert ids[k] !in ids[..last];
      DropAbsent(ids[..last], ids[k]);
      assert Without(ids, k) == ids[..last];
    } else {
      assert ids[last] != ids[k];
      DropPresent(ids[..last], k);
      assert Without(ids[..last], k) + [ids[last]] == Without(ids, k);
    }
  }

  // Closing a live id drops it from the opens that are still open, and closing 0 does nothing.
  lemma {:induction false} OpenIdsAfter(ops: seq<Operation>, op: Operation, n: nat)
    requires n <= |ops|
    ensures OpenIds(ops + [op], n) ==
            if op.CloseOp? && op.id != 0 then Drop(OpenIds(ops, n), op.id) else OpenIds(ops, n)
  {
    if n > 0 {
      OpenIdsAfter(ops, op, n - 1);
      var i, all := n - 1, ops + [op];
      assert all[i] == ops[i] && all[|ops|] == op;
      assert forall j :: i < j < |ops| ==> all[j] == ops[j];
      assert StillOpen(all, i) <==> StillOpen(ops, i) && !(op.CloseOp? && op.id != 0 && op.id == ops[i].id);
      DropSnoc(OpenIds(ops, i), ops[i].id, op.id);
      assert OpenIds(ops, n) == if StillOpen(ops, i) then OpenIds(ops, i) + [ops[i].id] else OpenIds(ops, i);
      assert OpenIds(all, n) == if StillOpen(all, i) then OpenIds(all, i) + [ops[i].id] else OpenIds(all, i);
    }
  }

  // The list holds exactly the sessions that were opened and not closed since, in opening order.
  lemma {:induction false} LiveAreStillOpen(ops: seq<Operation>)
    requires FreshIds(ops)
    ensures LiveAfter(ops) == OpenIds(ops, |ops|)
  {
    if ops != [] {
      var n := |ops| - 1;
      var before, op := ops[..n], ops[n];
      assert before + [op] == ops;
      FreshIdsPrefix(ops);
      LiveAreStillOpen(before);
      LiveDistinct(before);
      OpenIdsAfter(before, op, n);
      match op
      case OpenOp(_) =>
      case CloseOp(id) =>
        var ids := LiveAfter(before);
        if id != 0 {
          if FirstIndex(ids, id) < |ids| {
            DropPresent(ids, FirstIndex(ids, id));
          } else {
            DropAbsent(ids, id);
          }
        }
    }
  }

  lemma FreshIdsPrefix(ops: seq<Operation>)
    requires FreshIds(ops) && ops != []
    ensures FreshIds(ops[..|ops| - 1])
  {
    var before := ops[..|ops| - 1];
    forall n | 0 <= n < |before| && before[n].OpenOp?
      ensures before[n].id !in LiveAfter(before[..n])
    {
      assert before[..n] == ops[..n];
    }
  }
}
