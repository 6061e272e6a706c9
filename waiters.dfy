/** The request/response correlation registry of the reader client, as
    values: for each 16-bit command id a FIFO queue of single-shot waiters,
    and for each waiter whether it is still pending, has been handed a
    frame, or was cancelled. The class in ReaderSession keeps these as
    fields and updates them in place; the functions here say what each
    update must produce. */
module WaiterQueues {

  import opened Frames

  /** A waiter is a TaskCompletionSource a caller awaits; here it is a
      number handed out once. */
  type WaiterId = nat

  /** A waiter is settled once, either with a frame or by cancellation. */
  datatype WaiterState = Pending | Completed(frame: Frame) | Cancelled

  /** The ushort key of the waiter dictionary: the command id of a request,
      matched against the command field of a reply. */
  datatype CommandId = CommandId(code: bv16)

  /** Command id to its queue of waiters, oldest first. */
  type Registry = map<CommandId, seq<WaiterId>>

  /** No command id is kept with an empty queue. */
  predicate NoEmptyQueue(w: Registry) {
    forall c :: c in w ==> w[c] != []
  }

  /** No waiter appears twice in one queue. */
  predicate Distinct(q: seq<WaiterId>) {
    forall i, j :: 0 <= i < j < |q| ==> q[i] != q[j]
  }

  /** The registry invariant the client keeps: no command id with an empty
      queue, every queued waiter known and at most once in its queue, and
      every known waiter numbered below the next id to hand out. */
  predicate RegistryValid(w: Registry, st: map<WaiterId, WaiterState>, next: WaiterId) {
    && NoEmptyQueue(w)
    && QueuesKnown(w, st)
    && (forall c :: c in w ==> Distinct(w[c]))
    && (forall id :: id in st ==> id < next)
  }

  /** Every queued waiter has a state. */
  predicate QueuesKnown(w: Registry, st: map<WaiterId, WaiterState>) {
    forall c, i :: c in w && 0 <= i < |w[c]| ==> w[c][i] in st
  }

  /** The queue of a command id; an absent id has an empty one. */
  function Queue(w: Registry, c: CommandId): seq<WaiterId> {
    if c in w then w[c] else []
  }

  /** The registry with the queue of `c` replaced by `q`; the id is dropped
      when `q` is empty. */
  function WithQueue(w: Registry, c: CommandId, q: seq<WaiterId>): (r: Registry)
    ensures Queue(r, c) == q
    ensures c in r <==> q != []
    ensures forall d :: d != c ==> (d in r <==> d in w) && Queue(r, d) == Queue(w, d)
    ensures NoEmptyQueue(w) ==> NoEmptyQueue(r)
  {
    if q == [] then w - {c} else w[c := q]
  }

  /** RegisterWaiter: the queue of `c` created if missing, `id` enqueued at
      its tail. */
  function Enqueued(w: Registry, c: CommandId, id: WaiterId): (r: Registry)
    ensures Queue(r, c) == Queue(w, c) + [id]
    ensures c in r
  {
    WithQueue(w, c, Queue(w, c) + [id])
  }

  /** The queue RemoveWaiter rebuilds: every entry but `id`, in order. */
  function Without(q: seq<WaiterId>, id: WaiterId): (r: seq<WaiterId>)
    ensures |r| <= |q|
    ensures id !in r
    ensures forall x :: x in r <==> x in q && x != id
  {
    if q == [] then []
    else if q[0] == id then Without(q[1..], id)
    else [q[0]] + Without(q[1..], id)
  }

  /** RemoveWaiter: the queue of `c` without `id`, the id dropped when that
      leaves it empty; an id with no queue is left alone. */
  function Removed(w: Registry, c: CommandId, id: WaiterId): (r: Registry)
    ensures Queue(r, c) == Without(Queue(w, c), id)
    ensures forall d :: d != c ==> (d in r <==> d in w) && Queue(r, d) == Queue(w, d)
    ensures NoEmptyQueue(w) ==> NoEmptyQueue(r)
  {
    if c in w then WithQueue(w, c, Without(w[c], id)) else w
  }

  /** Index of the first pending waiter of `q`, or |q| when every waiter
      is already settled: the one TryResumeWaiter hands a frame to. */
  function FirstPending(q: seq<WaiterId>, st: map<WaiterId, WaiterState>): (k: nat)
    requires forall i :: 0 <= i < |q| ==> q[i] in st
    ensures k <= |q|
    ensures forall i :: 0 <= i < k ==> !st[q[i]].Pending?
    ensures k < |q| ==> st[q[k]].Pending?
  {
    if q == [] then 0
    else if st[q[0]].Pending? then 0
    else 1 + FirstPending(q[1..], st)
  }

  /** The waiters of a queue, as a set. */
  function IdsOf(q: seq<WaiterId>): set<WaiterId> {
    set id | id in q
  }

  /** Whether a frame for command `c` finds a waiter to take it. */
  predicate HasPendingWaiter(w: Registry, st: map<WaiterId, WaiterState>, c: CommandId)
    requires QueuesKnown(w, st)
    ensures HasPendingWaiter(w, st, c) <==>
      exists i :: 0 <= i < |Queue(w, c)| && Queue(w, c)[i] in st && st[Queue(w, c)[i]].Pending?
  {
    FirstPending(Queue(w, c), st) < |Queue(w, c)|
  }

  /** The registry after a frame for `c` was offered: every waiter up to
      and including the first pending one is dequeued, or the whole queue
      when none is pending. */
  function ResumedRegistry(w: Registry, st: map<WaiterId, WaiterState>, c: CommandId): (r: Registry)
    requires QueuesKnown(w, st)
    ensures |Queue(r, c)| <= |Queue(w, c)|
    ensures Queue(w, c) != [] ==> |Queue(r, c)| < |Queue(w, c)|
    ensures Queue(r, c) == Queue(w, c)[|Queue(w, c)| - |Queue(r, c)|..]
    ensures forall d :: d != c ==> (d in r <==> d in w) && Queue(r, d) == Queue(w, d)
    ensures NoEmptyQueue(w) ==> NoEmptyQueue(r)
  {
    var q := Queue(w, c);
    assert forall i :: 0 <= i < |q| ==> q[i] in st;
    var k := FirstPending(q, st);
    var rest := if k < |q| then q[k + 1..] else [];
    assert rest == q[|q| - |rest|..];
    WithQueue(w, c, rest)
  }

  /** The waiter states after a frame for `c` was offered: the first
      pending waiter of the queue is completed with it. */
  function ResumedStates(w: Registry, st: map<WaiterId, WaiterState>, c: CommandId, frame: Frame): (r: map<WaiterId, WaiterState>)
    requires QueuesKnown(w, st)
    ensures r.Keys == st.Keys
    ensures forall id :: id in st && r[id] != st[id] ==> st[id].Pending? && r[id] == Completed(frame)
    ensures r != st <==> HasPendingWaiter(w, st, c)
  {
    var q := Queue(w, c);
    assert forall i :: 0 <= i < |q| ==> q[i] in st;
    var k := FirstPending(q, st);
    if k < |q| then st[q[k] := Completed(frame)] else st
  }

  /** Every waiter in one of the queues of `w`. */
  function QueuedIds(w: Registry): set<WaiterId> {
    set c, id | c in w && id in w[c] :: id
  }

  /** TrySetCanceled on each waiter of `ids`: pending ones become
      cancelled, settled ones keep their outcome. */
  function CancelAll(st: map<WaiterId, WaiterState>, ids: set<WaiterId>): (r: map<WaiterId, WaiterState>)
    ensures r.Keys == st.Keys
    ensures forall id :: id in st ==> r[id] == (if id in ids && st[id].Pending? then Cancelled else st[id])
  {
    map id | id in st :: if id in ids && st[id].Pending? then Cancelled else st[id]
  }

  /** Removing a waiter that is not queued changes nothing. */
  lemma {:induction false} WithoutAbsent(q: seq<WaiterId>, id: WaiterId)
    requires id !in q
    ensures Without(q, id) == q
  {
    if q != [] {
      WithoutAbsent(q[1..], id);
      assert q == [q[0]] + q[1..];
    }
  }

  /** Removing a waiter that occurs once, at index k, cuts exactly that
      entry out and keeps the order of the others. */
  lemma {:induction false} WithoutOnce(q: seq<WaiterId>, k: nat)
    requires k < |q| && Distinct(q)
    ensures Without(q, q[k]) == q[..k] + q[k + 1..]
  {
    var id := q[k];
    if k == 0 {
      assert id !in q[1..];
      WithoutAbsent(q[1..], id);
    } else {
      WithoutOnce(q[1..], k - 1);
      assert q[1..][..k - 1] == q[1..k];
      assert q[1..][k..] == q[k + 1..];
      assert q[..k] == [q[0]] + q[1..k];
    }
  }

  /** A waiter that was just registered under `c`, when its send fails,
      is removed again and leaves the registry as it was. */
  lemma RemoveAfterEnqueue(w: Registry, c: CommandId, id: WaiterId)
    requires NoEmptyQueue(w) && id !in Queue(w, c)
    ensures Removed(Enqueued(w, c, id), c, id) == w
  {
    var q := Queue(w, c);
    var w' := Enqueued(w, c, id);
    assert w'[c] == q + [id];
    assert Without(q + [id], id) == q by {
      WithoutSnoc(q, id);
    }
    var r := Removed(w', c, id);
    assert forall d :: d in r <==> d in w;
    assert forall d :: d in r ==> r[d] == w[d];
  }

  /** Filtering out a waiter that was appended after a queue without it
      gives back that queue. */
  lemma {:induction false} WithoutSnoc(q: seq<WaiterId>, id: WaiterId)
    requires id !in q
    ensures Without(q + [id], id) == q
  {
    if q == [] {
      assert [id][1..] == [];
    } else {
      assert (q + [id])[1..] == q[1..] + [id];
      WithoutSnoc(q[1..], id);
      assert q == [q[0]] + q[1..];
    }
  }

  /** FIFO: of two waiters registered one after the other under the same
      command, with no other change to that queue, the older one comes
      first, so the first pending one is resumed first. */
  lemma EnqueueOrder(w: Registry, c: CommandId, a: WaiterId, b: WaiterId)
    ensures Queue(Enqueued(Enqueued(w, c, a), c, b), c) == Queue(w, c) + [a, b]
  {
    assert Queue(w, c) + [a] + [b] == Queue(w, c) + [a, b];
  }

  /** Registering under one command id does not touch the queue of any
      other command id. */
  lemma EnqueueIndependent(w: Registry, c: CommandId, d: CommandId, id: WaiterId)
    requires c != d
    ensures Queue(Enqueued(w, c, id), d) == Queue(w, d)
  {
  }

  /** Filtering one more entry: it is kept unless it is the removed one. */
  lemma {:induction false} WithoutAppend(q: seq<WaiterId>, x: WaiterId, id: WaiterId)
    ensures Without(q + [x], id) == Without(q, id) + (if x == id then [] else [x])
  {
    if q == [] {
      assert [x][1..] == [];
    } else {
      assert (q + [x])[1..] == q[1..] + [x];
      WithoutAppend(q[1..], x, id);
    }
  }

  /** Filtering keeps a queue free of duplicates. */
  lemma {:induction false} WithoutDistinct(q: seq<WaiterId>, id: WaiterId)
    requires Distinct(q)
    ensures Distinct(Without(q, id))
  {
    if q != [] {
      assert Distinct(q[1..]);
      WithoutDistinct(q[1..], id);
      if q[0] != id {
        var r := Without(q[1..], id);
        assert q[0] !in q[1..];
        assert q[0] !in r;
        assert forall i :: 0 < i < |[q[0]] + r| ==> ([q[0]] + r)[i] == r[i - 1];
      }
    }
  }

  /** Replacing a queue twice is replacing it once with the second queue. */
  lemma WithQueueTwice(w: Registry, c: CommandId, q1: seq<WaiterId>, q2: seq<WaiterId>)
    ensures WithQueue(WithQueue(w, c, q1), c, q2) == WithQueue(w, c, q2)
  {
  }

  /** Replacing a queue by itself changes nothing, given that no empty
      queue is stored. */
  lemma WithQueueSame(w: Registry, c: CommandId)
    requires NoEmptyQueue(w)
    ensures WithQueue(w, c, Queue(w, c)) == w
  {
  }

  /** Every waiter queued under one of the ids of `cs`. */
  function QueuedUnder(w: Registry, cs: set<CommandId>): set<WaiterId> {
    set c, id | c in cs && c in w && id in w[c] :: id
  }

  /** Going through one more command id adds the waiters of its queue. */
  lemma QueuedUnderAdd(w: Registry, cs: set<CommandId>, c: CommandId)
    requires c in w
    ensures QueuedUnder(w, cs + {c}) == QueuedUnder(w, cs) + IdsOf(w[c])
  {
  }

  /** Going through every command id finds every queued waiter. */
  lemma QueuedUnderAll(w: Registry)
    ensures QueuedUnder(w, w.Keys) == QueuedIds(w)
  {
  }

  /** Cancelling one more waiter, as TrySetCanceled does: a pending waiter
      becomes cancelled and a settled one keeps its outcome. */
  lemma CancelOneMore(st: map<WaiterId, WaiterState>, ids: set<WaiterId>, id: WaiterId)
    requires id in st
    ensures var m := CancelAll(st, ids);
      (if m[id].Pending? then m[id := Cancelled] else m) == CancelAll(st, ids + {id})
  {
  }

  /** Cancelling no waiter changes nothing. */
  lemma CancelNone(st: map<WaiterId, WaiterState>)
    ensures CancelAll(st, {}) == st
  {
  }

  /** Cancelling two sets of waiters one after the other is cancelling
      their union. */
  lemma CancelAllTwice(st: map<WaiterId, WaiterState>, a: set<WaiterId>, b: set<WaiterId>)
    ensures CancelAll(CancelAll(st, a), b) == CancelAll(st, a + b)
  {
  }

  /** Draining the queue of one more command id, as the disconnect loop does,
      extends the cancellation to the waiters of that queue. */
  lemma CancelOneQueue(st: map<WaiterId, WaiterState>, w: Registry, processed: set<CommandId>, c: CommandId)
    requires c in w
    ensures CancelAll(CancelAll(st, QueuedUnder(w, processed)), IdsOf(w[c]))
         == CancelAll(st, QueuedUnder(w, processed + {c}))
  {
    CancelAllTwice(st, QueuedUnder(w, processed), IdsOf(w[c]));
    QueuedUnderAdd(w, processed, c);
  }

  /** One more entry of a queue adds one waiter to its set. */
  lemma IdsOfSnoc(q: seq<WaiterId>, id: WaiterId)
    ensures IdsOf(q + [id]) == IdsOf(q) + {id}
  {
  }

  /** Installing a duplicate-free queue of known waiters keeps the
      registry invariant. */
  lemma WithQueueKeepsValid(w: Registry, st: map<WaiterId, WaiterState>, next: WaiterId, c: CommandId, q: seq<WaiterId>)
    requires RegistryValid(w, st, next)
    requires forall i :: 0 <= i < |q| ==> q[i] in st
    requires Distinct(q)
    ensures RegistryValid(WithQueue(w, c, q), st, next)
  {
    var r := WithQueue(w, c, q);
    forall d, i | d in r && 0 <= i < |r[d]|
      ensures r[d][i] in st
    {
      if d != c {
        assert r[d] == w[d];
      }
    }
    forall d | d in r
      ensures Distinct(r[d])
    {
      if d != c {
        assert r[d] == w[d];
      }
    }
  }

  /** Settling a known waiter keeps the registry invariant. */
  lemma SettleKeepsValid(w: Registry, st: map<WaiterId, WaiterState>, next: WaiterId, id: WaiterId, s: WaiterState)
    requires RegistryValid(w, st, next) && id in st
    ensures RegistryValid(w, st[id := s], next)
  {
  }

  /** FIFO: when the oldest waiter of the queue is pending, it is the one
      that receives the frame, and the queue loses exactly its head. */
  lemma ResumeTakesHead(w: Registry, st: map<WaiterId, WaiterState>, c: CommandId, frame: Frame)
    requires QueuesKnown(w, st) && c in w && w[c] != [] && st[w[c][0]].Pending?
    ensures HasPendingWaiter(w, st, c)
    ensures Queue(ResumedRegistry(w, st, c), c) == w[c][1..]
    ensures ResumedStates(w, st, c, frame) == st[w[c][0] := Completed(frame)]
  {
  }

  /** Cancelled and completed waiters at the head are skipped: the frame
      goes to the first pending one behind them. */
  lemma ResumeSkipsSettled(w: Registry, st: map<WaiterId, WaiterState>, c: CommandId, frame: Frame)
    requires QueuesKnown(w, st) && c in w && |w[c]| >= 2
    requires !st[w[c][0]].Pending? && st[w[c][1]].Pending?
    ensures Queue(ResumedRegistry(w, st, c), c) == w[c][2..]
    ensures ResumedStates(w, st, c, frame) == st[w[c][1] := Completed(frame)]
  {
    var q := w[c];
    assert FirstPending(q[1..], st) == 0;
  }

  /** A frame nobody waits for empties the queue of its command, which is
      then dropped, and settles nothing. */
  lemma ResumeWithoutPending(w: Registry, st: map<WaiterId, WaiterState>, c: CommandId, frame: Frame)
    requires QueuesKnown(w, st) && !HasPendingWaiter(w, st, c)
    ensures c !in ResumedRegistry(w, st, c)
    ensures ResumedStates(w, st, c, frame) == st
  {
  }

  /** Offering a frame for one command id never touches the queue of
      another. */
  lemma ResumeIndependent(w: Registry, st: map<WaiterId, WaiterState>, c: CommandId, d: CommandId)
    requires QueuesKnown(w, st) && c != d
    ensures Queue(ResumedRegistry(w, st, c), d) == Queue(w, d)
  {
  }

  /** Waiters are single-shot: offering a frame settles at most one waiter,
      and only a pending one; every settled waiter keeps its outcome. */
  lemma ResumeSettlesOnce(w: Registry, st: map<WaiterId, WaiterState>, c: CommandId, frame: Frame, id: WaiterId)
    requires QueuesKnown(w, st) && id in st && !st[id].Pending?
    ensures id in ResumedStates(w, st, c, frame) && ResumedStates(w, st, c, frame)[id] == st[id]
  {
  }

  /** Dropping a settled waiter from the head of the queue does not change
      where the frame goes: the recursion step of TryResumeWaiter. */
  lemma ResumeAfterSkip(w: Registry, st: map<WaiterId, WaiterState>, c: CommandId, frame: Frame)
    requires QueuesKnown(w, st) && c in w && w[c] != [] && !st[w[c][0]].Pending?
    ensures QueuesKnown(WithQueue(w, c, w[c][1..]), st)
    ensures var w' := WithQueue(w, c, w[c][1..]);
      && (HasPendingWaiter(w', st, c) <==> HasPendingWaiter(w, st, c))
      && ResumedRegistry(w', st, c) == ResumedRegistry(w, st, c)
      && ResumedStates(w', st, c, frame) == ResumedStates(w, st, c, frame)
  {
    SkipKeepsKnown(w, st, c);
    SkipKeepsRegistry(w, st, c);
    SkipKeepsStates(w, st, c, frame);
  }

  /** The queues stay known when the head of one is dropped. */
  lemma SkipKeepsKnown(w: Registry, st: map<WaiterId, WaiterState>, c: CommandId)
    requires QueuesKnown(w, st) && c in w && w[c] != []
    ensures QueuesKnown(WithQueue(w, c, w[c][1..]), st)
  {
    var q := w[c];
    var w' := WithQueue(w, c, q[1..]);
    forall d, i | d in w' && 0 <= i < |w'[d]|
      ensures w'[d][i] in st
    {
      if d == c {
        assert w'[d][i] == q[i + 1];
      } else {
        assert w'[d] == w[d];
      }
    }
  }

  /** A settled head is passed over by FirstPending. */
  lemma FirstPendingSkip(q: seq<WaiterId>, st: map<WaiterId, WaiterState>)
    requires forall i :: 0 <= i < |q| ==> q[i] in st
    requires q != [] && !st[q[0]].Pending?
    ensures FirstPending(q, st) == 1 + FirstPending(q[1..], st)
  {
  }

  /** Dropping a settled head leaves the registry after a resume as it was. */
  lemma SkipKeepsRegistry(w: Registry, st: map<WaiterId, WaiterState>, c: CommandId)
    requires QueuesKnown(w, st) && c in w && w[c] != [] && !st[w[c][0]].Pending?
    requires QueuesKnown(WithQueue(w, c, w[c][1..]), st)
    ensures ResumedRegistry(WithQueue(w, c, w[c][1..]), st, c) == ResumedRegistry(w, st, c)
  {
    var q := w[c];
    var rest := q[1..];
    var w' := WithQueue(w, c, rest);
    FirstPendingSkip(q, st);
    var k := FirstPending(rest, st);
    var tail := if k < |rest| then rest[k + 1..] else [];
    if k < |rest| {
      assert rest[k + 1..] == q[k + 2..];
    }
    WithQueueTwice(w, c, rest, tail);
  }

  /** Dropping a settled head leaves the states after a resume as they
      were, and a pending waiter is found in one queue as in the other. */
  lemma SkipKeepsStates(w: Registry, st: map<WaiterId, WaiterState>, c: CommandId, frame: Frame)
    requires QueuesKnown(w, st) && c in w && w[c] != [] && !st[w[c][0]].Pending?
    requires QueuesKnown(WithQueue(w, c, w[c][1..]), st)
    ensures var w' := WithQueue(w, c, w[c][1..]);
      && (HasPendingWaiter(w', st, c) <==> HasPendingWaiter(w, st, c))
      && ResumedStates(w', st, c, frame) == ResumedStates(w, st, c, frame)
  {
    var q := w[c];
    var rest := q[1..];
    FirstPendingSkip(q, st);
    var k := FirstPending(rest, st);
    if k < |rest| {
      assert rest[k] == q[k + 1];
    }
  }
}
