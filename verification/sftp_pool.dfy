/** `SftpPool`: a FIFO queue of SFTP sessions. `Get` reuses the oldest
    pooled session (reconnecting it if its connection dropped while it
    waited) or opens a new one; `Dispose` puts a session back at the end.

    A session is its identity and whether it is connected; opening one
    connects it. The transport itself is not part of this model. */
module SftpPool {

  datatype Session = Session(id: nat, connected: bool)

  /** The queue, and the identity the next new session gets. */
  datatype Pool = Pool(queue: seq<Session>, nextId: nat)

  function Ids(q: seq<Session>): (r: seq<nat>)
    ensures |r| == |q| && forall k :: 0 <= k < |q| ==> r[k] == q[k].id
  {
    if |q| == 0 then [] else [q[0].id] + Ids(q[1..])
  }

  /** Every pooled session is distinct and was issued by this pool. */
  predicate Fresh(p: Pool) {
    && (forall i, j :: 0 <= i < j < |p.queue| ==> p.queue[i].id != p.queue[j].id)
    && (forall k :: 0 <= k < |p.queue| ==> p.queue[k].id < p.nextId)
  }

  /** `new SftpPool()`: a new, connected session. */
  function Open(p: Pool): (r: (Pool, Session))
    ensures r.1.connected && r.1.id == p.nextId && r.0.queue == p.queue
    ensures r.0.nextId == p.nextId + 1
  {
    (Pool(p.queue, p.nextId + 1), Session(p.nextId, true))
  }

  /** `Prewarm()`: open `count` sessions (`max_upload_client`) and enqueue
      them; nothing for a count of zero or less. */
  method Prewarm(p: Pool, count: int) returns (r: Pool)
    ensures |r.queue| == |p.queue| + (if count > 0 then count else 0)
    ensures r.queue[..|p.queue|] == p.queue
    ensures forall k :: |p.queue| <= k < |r.queue| ==>
              r.queue[k] == Session(p.nextId + (k - |p.queue|), true)
    ensures Fresh(p) ==> Fresh(r)
  {
    r := p;
    var i := 0;
    while i < count
      invariant 0 <= i && (if count > 0 then i <= count else i == 0)
      invariant |r.queue| == |p.queue| + i && r.nextId == p.nextId + i
      invariant r.queue[..|p.queue|] == p.queue
      invariant forall k :: |p.queue| <= k < |r.queue| ==> r.queue[k] == Session(p.nextId + (k - |p.queue|), true)
      invariant Fresh(p) ==> Fresh(r)
    {
      var made := Open(r);
      r := Pool(made.0.queue + [made.1], made.0.nextId);
      i := i + 1;
    }
  }

  /** `Get()`: dequeue the front session and reconnect it if needed, or
      open a new one when the queue is empty (the queue stays empty). */
  function Get(p: Pool): (r: (Pool, Session))
    ensures r.1.connected
    ensures |p.queue| > 0 ==> r.0 == Pool(p.queue[1..], p.nextId) && r.1.id == p.queue[0].id
    ensures |p.queue| == 0 ==> r.0.queue == [] && r.1.id == p.nextId
  {
    if |p.queue| == 0 then Open(p)
    else
      var s := p.queue[0];
      (Pool(p.queue[1..], p.nextId), if s.connected then s else Session(s.id, true))
  }

  /** `Dispose()`: enqueue at the back. */
  function Dispose(p: Pool, s: Session): (r: Pool)
    ensures |r.queue| == |p.queue| + 1 && r.queue[..|p.queue|] == p.queue && r.queue[|p.queue|] == s
    ensures r.nextId == p.nextId
  {
    Pool(p.queue + [s], p.nextId)
  }

  /** A checked-out session is no longer pooled and the pool stays fresh. */
  lemma GetKeepsFresh(p: Pool)
    requires Fresh(p)
    ensures Fresh(Get(p).0)
    ensures Get(p).1.id < Get(p).0.nextId
    ensures Get(p).1.id !in Ids(Get(p).0.queue)
  {
    var q := Get(p).0;
    var s := Get(p).1;
    if |p.queue| > 0 {
      forall k | 0 <= k < |q.queue| ensures q.queue[k].id != s.id {
        assert q.queue[k] == p.queue[k + 1];
      }
    }
  }

  /** Returning a checked-out session keeps the pool fresh. */
  lemma DisposeKeepsFresh(p: Pool, s: Session)
    requires Fresh(p) && s.id < p.nextId && s.id !in Ids(p.queue)
    ensures Fresh(Dispose(p, s))
  {
    var r := Dispose(p, s);
    forall i, j | 0 <= i < j < |r.queue| ensures r.queue[i].id != r.queue[j].id {
      if j == |p.queue| {
        assert Ids(p.queue)[i] == p.queue[i].id;
      }
    }
  }

  /** First in, first out: `n` consecutive `Get`s hand out the first `n`
      pooled sessions in queue order, and open nothing new. */
  lemma {:induction false} DrainQueue(p: Pool, n: nat)
    requires n <= |p.queue|
    ensures Drain(p, n) == Ids(p.queue[..n])
    ensures DrainPool(p, n) == Pool(p.queue[n..], p.nextId)
    decreases n
  {
    if n > 0 {
      var q := Get(p).0;
      DrainQueue(q, n - 1);
      assert q.queue[..n - 1] == p.queue[1..n];
      assert q.queue[n - 1..] == p.queue[n..];
      assert Ids(p.queue[..n]) == [p.queue[0].id] + Ids(p.queue[..n][1..]);
      assert p.queue[..n][1..] == p.queue[1..n];
    }
  }

  /** A session put back behind `k` pooled ones is the next one out after
      those `k`. */
  lemma DisposedComesBackInTurn(p: Pool, s: Session)
    ensures Drain(Dispose(p, s), |p.queue| + 1) == Ids(p.queue) + [s.id]
  {
    var r := Dispose(p, s);
    DrainQueue(r, |p.queue| + 1);
    assert r.queue[..|p.queue| + 1] == p.queue + [s];
    IdsSnoc(p.queue, s);
  }

  lemma IdsSnoc(q: seq<Session>, s: Session)
    ensures Ids(q + [s]) == Ids(q) + [s.id]
  {
  }

  /** The identities handed out by `n` consecutive `Get`s. */
  function Drain(p: Pool, n: nat): (ids: seq<nat>)
    ensures |ids| == n
    decreases n
  {
    if n == 0 then [] else [Get(p).1.id] + Drain(Get(p).0, n - 1)
  }

  /** The pool after those `n` `Get`s. */
  function DrainPool(p: Pool, n: nat): Pool
    decreases n
  {
    if n == 0 then p else DrainPool(Get(p).0, n - 1)
  }
}
