// The queue of map blocks waiting to be loaded or generated (src/emerge.cpp).

// The protocol on values: what one critical section does to the shared state, and what holds
// over every interleaving of them.
module EmergeProtocol {
  import opened Options
  import opened Positions
  import opened Numbers

  const PEER_ID_INEXISTENT: u16 := 0
  // MAX_MAP_GENERATION_LIMIT / MAP_BLOCKSIZE
  const MAX_LIMIT_BP := 31007 / 16

  predicate OverMaxLimit(p: Pos) {
    || p.x < -MAX_LIMIT_BP || p.x > MAX_LIMIT_BP
    || p.y < -MAX_LIMIT_BP || p.y > MAX_LIMIT_BP
    || p.z < -MAX_LIMIT_BP || p.z > MAX_LIMIT_BP
  }

  // A callback is a function together with its parameter.
  datatype Callback = Callback(func: nat, param: nat)
  datatype Flags = Flags(allowGen: bool, forceQueue: bool)
  datatype BlockEmergeData = BlockEmergeData(peerRequested: u16, flags: Flags, callbacks: seq<Callback>)
  datatype Limits = Limits(total: nat, diskonly: nat, generate: nat)

  function Or(a: Flags, b: Flags): Flags {
    Flags(a.allowGen || b.allowGen, a.forceQueue || b.forceQueue)
  }

  // A callback accepted for a position.
  datatype Ticket = Ticket(pos: Pos, callback: Callback)

  // What a worker has taken off the queue and is busy with.
  datatype Hand = Idle | Holding(pos: Pos, callbacks: seq<Callback>)

  // blocks, counts and queues are the shared state; hands are the workers' own. The rest is
  // history: the callbacks accepted, run with an outcome, run as cancelled, dropped because the
  // position is over the map limit, and lost with a worker that stopped on an exception.
  datatype State = State(
    limits: Limits,
    blocks: map<Pos, BlockEmergeData>,
    counts: map<u16, nat>,
    queues: seq<seq<Pos>>,
    hands: seq<Hand>,
    accepted: multiset<Ticket>,
    ran: multiset<Ticket>,
    cancelled: multiset<Ticket>,
    dropped: multiset<Ticket>,
    aborted: multiset<Ticket>)

  // ---- sums over the workers

  function Occurs(queues: seq<seq<Pos>>, p: Pos): nat {
    if queues == [] then 0 else multiset(queues[0])[p] + Occurs(queues[1..], p)
  }

  lemma {:induction false} OccursUpdate(queues: seq<seq<Pos>>, w: nat, q: seq<Pos>, p: Pos)
    requires w < |queues|
    ensures Occurs(queues[w := q], p) + multiset(queues[w])[p] == Occurs(queues, p) + multiset(q)[p]
  {
    if w == 0 {
      assert queues[w := q][1..] == queues[1..];
    } else {
      assert queues[w := q][1..] == queues[1..][w - 1 := q];
      OccursUpdate(queues[1..], w - 1, q, p);
    }
  }

  lemma {:induction false} OccursAt(queues: seq<seq<Pos>>, w: nat, p: Pos)
    requires w < |queues|
    ensures multiset(queues[w])[p] <= Occurs(queues, p)
  {
    if w > 0 {
      OccursAt(queues[1..], w - 1, p);
    }
  }

  lemma {:induction false} OccursSomewhere(queues: seq<seq<Pos>>, p: Pos) returns (w: nat)
    requires Occurs(queues, p) > 0
    ensures w < |queues| && p in queues[w]
  {
    if p in multiset(queues[0]) {
      w := 0;
    } else {
      w := OccursSomewhere(queues[1..], p);
      w := w + 1;
    }
  }

  function Tickets(pos: Pos, callbacks: seq<Callback>): multiset<Ticket> {
    if callbacks == [] then multiset{} else multiset{Ticket(pos, callbacks[0])} + Tickets(pos, callbacks[1..])
  }

  lemma {:induction false} TicketsSnoc(pos: Pos, callbacks: seq<Callback>, c: Callback)
    ensures Tickets(pos, callbacks + [c]) == Tickets(pos, callbacks) + multiset{Ticket(pos, c)}
  {
    if callbacks == [] {
      assert ([] + [c])[1..] == [];
      assert callbacks + [c] == [c];
    } else {
      assert (callbacks + [c])[1..] == callbacks[1..] + [c];
      TicketsSnoc(pos, callbacks[1..], c);
    }
  }

  lemma {:induction false} TicketsElsewhere(pos: Pos, callbacks: seq<Callback>, t: Ticket)
    ensures t.pos != pos ==> Tickets(pos, callbacks)[t] == 0
  {
    if callbacks != [] {
      TicketsElsewhere(pos, callbacks[1..], t);
    }
  }

  function InHand(h: Hand): multiset<Ticket> {
    if h.Idle? then multiset{} else Tickets(h.pos, h.callbacks)
  }

  function Held(hands: seq<Hand>): multiset<Ticket> {
    if hands == [] then multiset{} else InHand(hands[0]) + Held(hands[1..])
  }

  lemma {:induction false} HeldUpdate(hands: seq<Hand>, w: nat, h: Hand, t: Ticket)
    requires w < |hands|
    ensures Held(hands[w := h])[t] + InHand(hands[w])[t] == Held(hands)[t] + InHand(h)[t]
  {
    if w == 0 {
      assert hands[w := h][1..] == hands[1..];
    } else {
      assert hands[w := h][1..] == hands[1..][w - 1 := h];
      HeldUpdate(hands[1..], w - 1, h, t);
    }
  }

  // The callbacks waiting in the queue for one position.
  function WaitingAt(blocks: map<Pos, BlockEmergeData>, p: Pos): multiset<Ticket> {
    if p in blocks then Tickets(p, blocks[p].callbacks) else multiset{}
  }

  // The positions a peer asked for first.
  function RequestedBy(blocks: map<Pos, BlockEmergeData>, peer: u16): set<Pos> {
    set p | p in blocks && blocks[p].peerRequested == peer
  }

  function Count(counts: map<u16, nat>, peer: u16): nat {
    if peer in counts then counts[peer] else 0
  }

  // ---- the invariant

  // The enqueued positions are the disjoint union of the worker queues, without repeats.
  ghost predicate QueuesCover(s: State) {
    forall p :: Occurs(s.queues, p) == if p in s.blocks then 1 else 0
  }

  ghost predicate CountersExact(s: State) {
    && (forall peer: u16 :: Count(s.counts, peer) == |RequestedBy(s.blocks, peer)|)
    && (forall p :: p in s.blocks ==> s.blocks[p].peerRequested in s.counts)
  }

  // Every accepted callback is waiting, with a worker, or has met exactly one end.
  ghost predicate Accounted(s: State) {
    && (forall t: Ticket {:trigger s.accepted[t]} {:trigger Total(s, t)} :: s.accepted[t] == Total(s, t))
    && (forall t: Ticket :: t in s.dropped ==> OverMaxLimit(t.pos))
  }

  function Total(s: State, t: Ticket): nat {
    WaitingAt(s.blocks, t.pos)[t] + Held(s.hands)[t] + Ended(s)[t]
  }

  function Ended(s: State): multiset<Ticket> {
    s.ran + s.cancelled + s.dropped + s.aborted
  }

  ghost predicate Inv(s: State) {
    && |s.queues| == |s.hands| > 0
    && QueuesCover(s) && CountersExact(s) && Accounted(s)
  }

  // ---- the critical sections

  // EmergeManager::pushBlockEmergeData: the limits apply to requests that are not forced.
  predicate Admits(s: State, peer: u16, flags: Flags) {
    flags.forceQueue || BelowLimits(s.limits, |s.blocks|, Count(s.counts, peer), peer, flags.allowGen)
  }

  predicate BelowLimits(limits: Limits, queued: nat, countPeer: nat, peer: u16, allowGen: bool) {
    && queued < limits.total
    && if peer != PEER_ID_INEXISTENT
       then countPeer < if allowGen then limits.generate else limits.diskonly
       else countPeer * 2 < limits.total
  }

  function AsSeq(callback: Option<Callback>): seq<Callback> {
    if callback.Some? then [callback.value] else []
  }

  // The first of the shortest queues.
  function Shortest(queues: seq<seq<Pos>>, upto: nat): (w: nat)
    requires 0 < upto <= |queues|
    ensures w < upto
    ensures forall i :: 0 <= i < upto ==> |queues[w]| <= |queues[i]|
    ensures forall i :: 0 <= i < w ==> |queues[w]| < |queues[i]|
  {
    if upto == 1 then 0
    else
      var best := Shortest(queues, upto - 1);
      if |queues[upto - 1]| < |queues[best]| then upto - 1 else best
  }

  // Looking a counter up creates it, even for a request that is then refused.
  function Looked(s: State, peer: u16): State {
    if peer in s.counts then s else s.(counts := s.counts[peer := 0])
  }

  function Enqueue(s: State, pos: Pos, peer: u16, flags: Flags, callback: Option<Callback>): State
    requires s.queues != []
  {
    var s0 := Looked(s, peer);
    if !Admits(s, peer, flags) then s0
    else
      var s1 := s0.(accepted := s0.accepted + Tickets(pos, AsSeq(callback)));
      if pos in s1.blocks then Join(s1, pos, flags, callback)
      else Insert(s1, pos, peer, flags, callback)
  }

  function Join(s: State, pos: Pos, flags: Flags, callback: Option<Callback>): State
    requires pos in s.blocks
  {
    var was := s.blocks[pos];
    s.(blocks := s.blocks[pos := was.(flags := Or(was.flags, flags), callbacks := was.callbacks + AsSeq(callback))])
  }

  function Insert(s: State, pos: Pos, peer: u16, flags: Flags, callback: Option<Callback>): State
    requires s.queues != [] && peer in s.counts
  {
    var w := Shortest(s.queues, |s.queues|);
    s.(blocks := s.blocks[pos := BlockEmergeData(peer, flags, AsSeq(callback))],
       counts := s.counts[peer := s.counts[peer] + 1],
       queues := s.queues[w := s.queues[w] + [pos]])
  }

  predicate CanTake(s: State, w: nat) {
    && w < |s.queues| == |s.hands| && s.queues[w] != []
    && var pos := s.queues[w][0];
      pos in s.blocks && s.blocks[pos].peerRequested in s.counts && s.counts[s.blocks[pos].peerRequested] > 0
  }

  // Taking the front of a queue, with its entry.
  function Take(s: State, w: nat): State
    requires CanTake(s, w)
  {
    var pos := s.queues[w][0];
    var peer := s.blocks[pos].peerRequested;
    s.(blocks := s.blocks - {pos}, counts := s.counts[peer := s.counts[peer] - 1], queues :=
       s.queues[w := s.queues[w][1..]])
  }

  // EmergeThread::popBlockEmerge
  function Pop(s: State, w: nat): State
    requires CanTake(s, w)
  {
    var pos := s.queues[w][0];
    Take(s, w).(hands := s.hands[w := Holding(pos, s.blocks[pos].callbacks)])
  }

  // The rest of one round of EmergeThread::run: positions over the map limit are skipped.
  function Finish(s: State, w: nat): State
    requires w < |s.hands|
  {
    var h := s.hands[w];
    var s0 := s.(hands := s.hands[w := Idle]);
    if h.Holding? && OverMaxLimit(h.pos) then s0.(dropped := s0.dropped + InHand(h))
    else s0.(ran := s0.ran + InHand(h))
  }

  // The worker leaves its loop by an exception.
  function Abort(s: State, w: nat): State
    requires w < |s.hands|
  {
    var h := s.hands[w];
    if h.Holding? && OverMaxLimit(h.pos) then s
    else s.(hands := s.hands[w := Idle], aborted := s.aborted + InHand(h))
  }

  // EmergeThread::cancelPendingItems, one position and then all of them.
  function CancelOne(s: State, w: nat): State
    requires CanTake(s, w)
  {
    var pos := s.queues[w][0];
    Take(s, w).(cancelled := s.cancelled + Tickets(pos, s.blocks[pos].callbacks))
  }

  function Cancel(s: State, w: nat): State
    requires Inv(s) && w < |s.queues|
    decreases |s.queues[w]|
  {
    if s.queues[w] == [] then s
    else
      InvCanTake(s, w);
      CancelOneKeepsInv(s, w);
      Cancel(CancelOne(s, w), w)
  }

  // ---- every step keeps the invariant

  // The entry of a queued position is always there, with a positive counter.
  lemma InvCanTake(s: State, w: nat)
    requires Inv(s) && w < |s.queues| && s.queues[w] != []
    ensures CanTake(s, w)
  {
    var pos := s.queues[w][0];
    assert pos in multiset(s.queues[w]);
    OccursAt(s.queues, w, pos);
    assert pos in RequestedBy(s.blocks, s.blocks[pos].peerRequested);
  }

  lemma LookedKeepsInv(s: State, peer: u16)
    requires Inv(s)
    ensures Inv(Looked(s, peer))
  {
    hide Occurs, Held, RequestedBy;
    var s' := Looked(s, peer);
    assert forall q: u16 :: Count(s'.counts, q) == Count(s.counts, q);
    assert forall t: Ticket :: s'.accepted[t] == s.accepted[t];
  }

  lemma EnqueueKeepsInv(s: State, pos: Pos, peer: u16, flags: Flags, callback: Option<Callback>)
    requires Inv(s)
    ensures Inv(Enqueue(s, pos, peer, flags, callback))
  {
    hide QueuesCover, CountersExact, Accounted, Admits, Join, Insert;
    LookedKeepsInv(s, peer);
    var s0 := Looked(s, peer);
    if Admits(s, peer, flags) {
      var s1 := s0.(accepted := s0.accepted + Tickets(pos, AsSeq(callback)));
      if pos in s.blocks {
        JoinKeepsInv(s0, pos, flags, callback);
        assert Join(s0, pos, flags, callback).(accepted := s1.accepted) == Join(s1, pos, flags, callback) by {
          JoinFrame(s0, s1, pos, flags, callback);
        }
      } else {
        InsertKeepsInv(s0, s1, pos, peer, flags, callback);
      }
    }
  }

  lemma JoinFrame(s0: State, s1: State, pos: Pos, flags: Flags, callback: Option<Callback>)
    requires pos in s0.blocks && s1 == s0.(accepted := s1.accepted)
    ensures Join(s0, pos, flags, callback).(accepted := s1.accepted) == Join(s1, pos, flags, callback)
  {
  }

  lemma JoinKeepsInv(s: State, pos: Pos, flags: Flags, callback: Option<Callback>)
    requires Inv(s) && pos in s.blocks
    ensures Inv(Join(s, pos, flags, callback).(accepted := s.accepted + Tickets(pos, AsSeq(callback))))
  {
    hide Occurs, Accounted, CountersExact;
    JoinCounts(s, pos, flags, callback);
    JoinAccounts(s, pos, flags, callback);
  }

  lemma JoinCounts(s: State, pos: Pos, flags: Flags, callback: Option<Callback>)
    requires CountersExact(s) && pos in s.blocks
    ensures CountersExact(Join(s, pos, flags, callback).(accepted := s.accepted + Tickets(pos, AsSeq(callback))))
  {
    hide Tickets;
    var s' := Join(s, pos, flags, callback);
    forall peer: u16
      ensures RequestedBy(s'.blocks, peer) == RequestedBy(s.blocks, peer)
    {
    }
  }

  lemma JoinAccounts(s: State, pos: Pos, flags: Flags, callback: Option<Callback>)
    requires Accounted(s) && pos in s.blocks
    ensures Accounted(Join(s, pos, flags, callback).(accepted := s.accepted + Tickets(pos, AsSeq(callback))))
  {
    hide Held, Tickets;
    var s' := Join(s, pos, flags, callback).(accepted := s.accepted + Tickets(pos, AsSeq(callback)));
    var old', new' := Tickets(pos, s.blocks[pos].callbacks), Tickets(pos, AsSeq(callback));
    TicketsAppend(pos, s.blocks[pos].callbacks, callback);
    forall t: Ticket
      ensures s'.accepted[t] == Total(s', t)
    {
      TicketsElsewhere(pos, AsSeq(callback), t);
      assert s.accepted[t] == Total(s, t);
      assert (old' + new')[t] == old'[t] + new'[t];
    }
  }

  lemma TicketsAppend(pos: Pos, callbacks: seq<Callback>, callback: Option<Callback>)
    ensures Tickets(pos, callbacks + AsSeq(callback)) == Tickets(pos, callbacks) + Tickets(pos, AsSeq(callback))
  {
    if callback.Some? {
      TicketsSnoc(pos, callbacks, callback.value);
      TicketsSnoc(pos, [], callback.value);
      assert [] + [callback.value] == [callback.value];
    } else {
      assert callbacks + [] == callbacks;
    }
  }

  lemma InsertKeepsInv(s: State, s1: State, pos: Pos, peer: u16, flags: Flags, callback: Option<Callback>)
    requires Inv(s) && pos !in s.blocks && peer in s.counts
    requires s1 == s.(accepted := s.accepted + Tickets(pos, AsSeq(callback)))
    ensures Inv(Insert(s1, pos, peer, flags, callback))
  {
    hide QueuesCover, CountersExact, Accounted, Tickets, Shortest;
    InsertCovers(s1, pos, peer, flags, callback, s);
    InsertCounts(s1, pos, peer, flags, callback, s);
    InsertAccounts(s, s1, pos, peer, flags, callback);
  }

  lemma InsertCovers(s: State, pos: Pos, peer: u16, flags: Flags, callback: Option<Callback>, was: State)
    requires QueuesCover(was) && s.blocks == was.blocks && s.queues == was.queues
    requires s.queues != [] && pos !in s.blocks && peer in s.counts
    ensures QueuesCover(Insert(s, pos, peer, flags, callback))
  {
    hide Occurs;
    var w := Shortest(s.queues, |s.queues|);
    forall p
      ensures Occurs(s.queues[w := s.queues[w] + [pos]], p) == if p == pos || p in s.blocks then 1 else 0
    {
      OccursUpdate(s.queues, w, s.queues[w] + [pos], p);
    }
  }

  lemma InsertCounts(s: State, pos: Pos, peer: u16, flags: Flags, callback: Option<Callback>, was: State)
    requires CountersExact(was) && s.blocks == was.blocks && s.counts == was.counts
    requires s.queues != [] && pos !in s.blocks && peer in s.counts
    ensures CountersExact(Insert(s, pos, peer, flags, callback))
  {
    hide Shortest, RequestedBy;
    var s' := Insert(s, pos, peer, flags, callback);
    forall q: u16
      ensures Count(s'.counts, q) == |RequestedBy(s'.blocks, q)|
    {
      assert Count(s.counts, q) == |RequestedBy(s.blocks, q)|;
      RequestedInsert(s.blocks, pos, s'.blocks[pos], q);
    }
  }

  lemma RequestedInsert(blocks: map<Pos, BlockEmergeData>, pos: Pos, data: BlockEmergeData, q: u16)
    requires pos !in blocks
    ensures |RequestedBy(blocks[pos := data], q)| == |RequestedBy(blocks, q)| + if q == data.peerRequested then 1 else 0
  {
    assert RequestedBy(blocks[pos := data], q) == RequestedBy(blocks, q) + if q == data.peerRequested then {pos}
      else {};
  }

  lemma InsertAccounts(s: State, s1: State, pos: Pos, peer: u16, flags: Flags, callback: Option<Callback>)
    requires Accounted(s) && s.queues != [] && pos !in s.blocks && peer in s.counts
    requires s1 == s.(accepted := s.accepted + Tickets(pos, AsSeq(callback)))
    ensures Accounted(Insert(s1, pos, peer, flags, callback))
  {
    hide Shortest, Held, Tickets;
    var s' := Insert(s1, pos, peer, flags, callback);
    forall t: Ticket
      ensures s'.accepted[t] == Total(s', t)
    {
      TicketsElsewhere(pos, AsSeq(callback), t);
      assert s.accepted[t] == Total(s, t);
    }
  }

  // What Take leaves: cover and counters, and the callbacks of the position now unaccounted for.
  lemma TakeCovers(s: State, w: nat)
    requires QueuesCover(s) && CanTake(s, w)
    ensures QueuesCover(Take(s, w))
  {
    hide Occurs;
    var pos, rest := s.queues[w][0], s.queues[w][1..];
    assert s.queues[w] == [pos] + rest;
    forall p
      ensures Occurs(s.queues[w := rest], p) == if p in s.blocks - {pos} then 1 else 0
    {
      OccursUpdate(s.queues, w, rest, p);
    }
  }

  lemma TakeCounts(s: State, w: nat)
    requires CountersExact(s) && CanTake(s, w)
    ensures CountersExact(Take(s, w))
  {
    hide RequestedBy;
    var pos := s.queues[w][0];
    var s' := Take(s, w);
    forall q: u16
      ensures Count(s'.counts, q) == |RequestedBy(s'.blocks, q)|
    {
      assert Count(s.counts, q) == |RequestedBy(s.blocks, q)|;
      RequestedInsert(s'.blocks, pos, s.blocks[pos], q);
      assert s'.blocks[pos := s.blocks[pos]] == s.blocks;
    }
  }

  // Whoever takes a position has its callbacks, and all others wait as before.
  lemma TakeWaiting(s: State, w: nat, t: Ticket)
    requires CanTake(s, w)
    ensures var pos := s.queues[w][0];
      WaitingAt(s.blocks, t.pos)[t] == WaitingAt(Take(s, w).blocks, t.pos)[t] + Tickets(pos, s.blocks[pos].callbacks)[t]
  {
    var pos := s.queues[w][0];
    TicketsElsewhere(pos, s.blocks[pos].callbacks, t);
  }

  // A state in which some callbacks waiting or held are now held or ended elsewhere.
  lemma MovedAccounts(s: State, s': State)
    requires Accounted(s) && s'.accepted == s.accepted
    requires forall t: Ticket :: t in s'.dropped ==> OverMaxLimit(t.pos)
    requires forall t: Ticket {:trigger s.accepted[t]} {:trigger Total(s', t)} :: Total(s', t) == Total(s, t)
    ensures Accounted(s')
  {
    hide Total;
  }

  lemma PopTotal(s: State, w: nat, t: Ticket)
    requires CanTake(s, w) && s.hands[w].Idle?
    ensures Total(Pop(s, w), t) == Total(s, t)
  {
    hide Held, Tickets;
    TakeWaiting(s, w, t);
    HeldUpdate(s.hands, w, Pop(s, w).hands[w], t);
  }

  lemma PopKeepsInv(s: State, w: nat)
    requires Inv(s) && CanTake(s, w) && s.hands[w].Idle?
    ensures Inv(Pop(s, w))
  {
    hide Occurs, Total, RequestedBy, Accounted;
    TakeCovers(s, w);
    TakeCounts(s, w);
    forall t: Ticket
      ensures Total(Pop(s, w), t) == Total(s, t)
    {
      PopTotal(s, w, t);
    }
    DroppedOverLimit(s);
    MovedAccounts(s, Pop(s, w));
  }

  lemma DroppedOverLimit(s: State)
    requires Accounted(s)
    ensures forall t: Ticket :: t in s.dropped ==> OverMaxLimit(t.pos)
  {
  }

  lemma CancelOneTotal(s: State, w: nat, t: Ticket)
    requires CanTake(s, w)
    ensures Total(CancelOne(s, w), t) == Total(s, t)
  {
    hide Held, Tickets;
    TakeWaiting(s, w, t);
  }

  lemma CancelOneKeepsInv(s: State, w: nat)
    requires Inv(s) && CanTake(s, w)
    ensures Inv(CancelOne(s, w))
  {
    hide Occurs, Total, RequestedBy, Accounted;
    TakeCovers(s, w);
    TakeCounts(s, w);
    forall t: Ticket
      ensures Total(CancelOne(s, w), t) == Total(s, t)
    {
      CancelOneTotal(s, w, t);
    }
    DroppedOverLimit(s);
    MovedAccounts(s, CancelOne(s, w));
  }

  // Putting the hand down: its callbacks have run, or are dropped or lost with the worker.
  lemma FinishTotal(s: State, w: nat, t: Ticket)
    requires w < |s.hands|
    ensures Total(Finish(s, w), t) == Total(s, t)
    ensures t in Finish(s, w).dropped ==> t in s.dropped || OverMaxLimit(t.pos)
  {
    hide Held, Tickets;
    PutDown(s, w, t);
  }

  lemma AbortTotal(s: State, w: nat, t: Ticket)
    requires w < |s.hands|
    ensures Total(Abort(s, w), t) == Total(s, t)
  {
    hide Held, Tickets;
    PutDown(s, w, t);
  }

  lemma FinishKeepsInv(s: State, w: nat)
    requires Inv(s) && w < |s.hands|
    ensures Inv(Finish(s, w))
  {
    hide Occurs, Total, RequestedBy, Accounted, OverMaxLimit;
    DroppedOverLimit(s);
    forall t: Ticket
      ensures Total(Finish(s, w), t) == Total(s, t)
      ensures t in Finish(s, w).dropped ==> OverMaxLimit(t.pos)
    {
      FinishTotal(s, w, t);
    }
    MovedAccounts(s, Finish(s, w));
  }

  lemma AbortKeepsInv(s: State, w: nat)
    requires Inv(s) && w < |s.hands|
    ensures Inv(Abort(s, w))
  {
    hide Occurs, Total, RequestedBy, Accounted, OverMaxLimit;
    DroppedOverLimit(s);
    forall t: Ticket
      ensures Total(Abort(s, w), t) == Total(s, t)
    {
      AbortTotal(s, w, t);
    }
    MovedAccounts(s, Abort(s, w));
  }

  lemma PutDown(s: State, w: nat, t: Ticket)
    requires w < |s.hands|
    ensures Held(s.hands[w := Idle])[t] + InHand(s.hands[w])[t] == Held(s.hands)[t]
    ensures s.hands[w].Holding? && t in InHand(s.hands[w]) ==> t.pos == s.hands[w].pos
  {
    HeldUpdate(s.hands, w, Idle, t);
    if s.hands[w].Holding? {
      TicketsElsewhere(s.hands[w].pos, s.hands[w].callbacks, t);
    }
  }

  lemma {:induction false} CancelKeepsInv(s: State, w: nat)
    requires Inv(s) && w < |s.queues|
    ensures Inv(Cancel(s, w)) && Cancel(s, w).queues == s.queues[w := []]
    ensures Cancel(s, w).hands == s.hands && Cancel(s, w).ran == s.ran && Cancel(s, w).accepted == s.accepted
    ensures Cancel(s, w).dropped == s.dropped && Cancel(s, w).aborted == s.aborted
    ensures Cancel(s, w).limits == s.limits && Cancel(s, w).blocks.Keys <= s.blocks.Keys
    ensures forall p: u16 :: Count(Cancel(s, w).counts, p) <= Count(s.counts, p)
    decreases |s.queues[w]|
  {
    hide Inv, CanTake;
    if s.queues[w] != [] {
      InvCanTake(s, w);
      CancelOneKeepsInv(s, w);
      CancelOneFrame(s, w);
      CancelKeepsInv(CancelOne(s, w), w);
    }
  }

  lemma CancelOneFrame(s: State, w: nat)
    requires CanTake(s, w)
    ensures var s' := CancelOne(s, w);
      && |s'.queues| == |s.queues| && |s'.queues[w]| < |s.queues[w]|
      && s'.queues[w := []] == s.queues[w := []] && s'.blocks.Keys <= s.blocks.Keys
      && forall p: u16 :: Count(s'.counts, p) <= Count(s.counts, p)
  {
  }

  // ---- what the steps change, field by field

  lemma PopParts(s: State, w: nat)
    requires CanTake(s, w)
    ensures var pos := s.queues[w][0];
      && pos in s.blocks && s.blocks[pos].peerRequested in s.counts && s.counts[s.blocks[pos].peerRequested] > 0
      && Pop(s, w) == s.(blocks := s.blocks - {pos}, counts := Lowered(s, pos),
        queues := s.queues[w := s.queues[w][1..]], hands := s.hands[w := Holding(pos, s.blocks[pos].callbacks)])
      && CancelOne(s, w) == s.(blocks := s.blocks - {pos}, counts := Lowered(s, pos),
        queues := s.queues[w := s.queues[w][1..]], cancelled := s.cancelled + Tickets(pos, s.blocks[pos].callbacks))
  {
  }

  function Lowered(s: State, pos: Pos): map<u16, nat>
    requires pos in s.blocks && s.blocks[pos].peerRequested in s.counts && s.counts[s.blocks[pos].peerRequested] > 0
  {
    var peer := s.blocks[pos].peerRequested;
    s.counts[peer := s.counts[peer] - 1]
  }

  function Added(blocks: map<Pos, BlockEmergeData>, pos: Pos, peer: u16, flags: Flags, callback: Option<Callback>)
    : BlockEmergeData
  {
    if pos in blocks
    then blocks[pos].(flags := Or(blocks[pos].flags, flags), callbacks := blocks[pos].callbacks + AsSeq(callback))
    else BlockEmergeData(peer, flags, AsSeq(callback))
  }

  lemma RefusedParts(s: State, pos: Pos, peer: u16, flags: Flags, callback: Option<Callback>)
    requires s.queues != [] && !Admits(s, peer, flags)
    ensures Enqueue(s, pos, peer, flags, callback) == s.(counts := s.counts[peer := Count(s.counts, peer)])
  {
    hide Admits;
    if peer in s.counts {
      assert s.counts[peer := s.counts[peer]] == s.counts;
    }
  }

  lemma JoinParts(s: State, pos: Pos, peer: u16, flags: Flags, callback: Option<Callback>)
    requires s.queues != [] && Admits(s, peer, flags) && pos in s.blocks
    ensures Enqueue(s, pos, peer, flags, callback) == s.(
      blocks := s.blocks[pos := Added(s.blocks, pos, peer, flags, callback)],
      counts := s.counts[peer := Count(s.counts, peer)],
      accepted := s.accepted + Tickets(pos, AsSeq(callback)))
  {
    hide Tickets, Admits;
    if peer in s.counts {
      assert s.counts[peer := s.counts[peer]] == s.counts;
    }
  }

  lemma InsertParts(s: State, pos: Pos, peer: u16, flags: Flags, callback: Option<Callback>)
    requires s.queues != [] && Admits(s, peer, flags) && pos !in s.blocks
    ensures var w := Shortest(s.queues, |s.queues|);
      Enqueue(s, pos, peer, flags, callback) == s.(
        blocks := s.blocks[pos := Added(s.blocks, pos, peer, flags, callback)],
        counts := s.counts[peer := Count(s.counts, peer) + 1],
        queues := s.queues[w := s.queues[w] + [pos]],
        accepted := s.accepted + Tickets(pos, AsSeq(callback)))
  {
    hide Shortest, Tickets, Admits;
    if peer !in s.counts {
      assert s.counts[peer := 0][peer := 1] == s.counts[peer := 1];
    }
  }

  lemma EnqueueQueues(s: State, pos: Pos, peer: u16, flags: Flags, callback: Option<Callback>)
    requires s.queues != []
    ensures var w, s' := Shortest(s.queues, |s.queues|), Enqueue(s, pos, peer, flags, callback);
      && s'.hands == s.hands
      && s'.queues == if Admits(s, peer, flags) && pos !in s.blocks then s.queues[w := s.queues[w] + [pos]]
        else s.queues
  {
    hide Shortest, Tickets, Admits;
  }

  lemma FinishParts(s: State, w: nat)
    requires w < |s.hands| && s.hands[w].Holding?
    ensures var h := s.hands[w];
      && Finish(s, w) == (if OverMaxLimit(h.pos)
        then s.(hands := s.hands[w := Idle], dropped := s.dropped + Tickets(h.pos, h.callbacks))
        else s.(hands := s.hands[w := Idle], ran := s.ran + Tickets(h.pos, h.callbacks)))
      && (!OverMaxLimit(h.pos) ==>
        Abort(s, w) == s.(hands := s.hands[w := Idle], aborted := s.aborted + Tickets(h.pos, h.callbacks)))
  {
  }

  // ---- every run

  datatype Event =
    | Request(pos: Pos, peer: u16, flags: Flags, callback: Option<Callback>)
    | PopFront(worker: nat)
    | Finished(worker: nat)
    | Threw(worker: nat)
    | Stopped(worker: nat)

  predicate Possible(s: State, e: Event) {
    match e
    case Request(_, _, _, _) => true
    case PopFront(w) => w < |s.hands| && s.hands[w].Idle?
    case Finished(w) => w < |s.hands| && s.hands[w].Holding?
    case Threw(w) => w < |s.hands| && s.hands[w].Holding? && !OverMaxLimit(s.hands[w].pos)
    case Stopped(w) => w < |s.hands| && s.hands[w].Idle?
  }

  function Next(s: State, e: Event): State
    requires Inv(s) && Possible(s, e)
  {
    match e
    case Request(pos, peer, flags, callback) => Enqueue(s, pos, peer, flags, callback)
    case PopFront(w) => if s.queues[w] == [] then s else InvCanTake(s, w); Pop(s, w)
    case Finished(w) => Finish(s, w)
    case Threw(w) => Abort(s, w)
    case Stopped(w) => Cancel(s, w)
  }

  lemma NextKeepsInv(s: State, e: Event)
    requires Inv(s) && Possible(s, e)
    ensures Inv(Next(s, e))
  {
    hide QueuesCover, CountersExact, Accounted, Enqueue, Pop, Finish, Abort, Cancel, CanTake;
    match e
    case Request(pos, peer, flags, callback) => EnqueueKeepsInv(s, pos, peer, flags, callback);
    case PopFront(w) =>
      if s.queues[w] != [] {
        InvCanTake(s, w);
        PopKeepsInv(s, w);
      }
    case Finished(w) => FinishKeepsInv(s, w);
    case Threw(w) => AbortKeepsInv(s, w);
    case Stopped(w) => CancelKeepsInv(s, w);
  }

  function Start(limits: Limits, workers: nat): State {
    State(limits, map[], map[], seq(workers, i => []), seq(workers, i => Idle),
      multiset{}, multiset{}, multiset{}, multiset{}, multiset{})
  }

  lemma StartInv(limits: Limits, workers: nat)
    requires workers > 0
    ensures Inv(Start(limits, workers))
  {
    var s := Start(limits, workers);
    forall p
      ensures Occurs(s.queues, p) == 0
    {
      NothingOccurs(s.queues, p);
    }
    NothingHeld(s.hands);
    forall peer: u16
      ensures RequestedBy(s.blocks, peer) == {}
    {
    }
  }

  lemma {:induction false} NothingOccurs(queues: seq<seq<Pos>>, p: Pos)
    requires forall w :: 0 <= w < |queues| ==> queues[w] == []
    ensures Occurs(queues, p) == 0
  {
    if queues != [] {
      NothingOccurs(queues[1..], p);
    }
  }

  lemma {:induction false} NothingHeld(hands: seq<Hand>)
    requires forall w :: 0 <= w < |hands| ==> hands[w].Idle?
    ensures Held(hands) == multiset{}
  {
    if hands != [] {
      NothingHeld(hands[1..]);
    }
  }

  // The critical sections in the order the mutex let them in; one that is not possible does nothing.
  function Execute(s: State, events: seq<Event>): State
    requires Inv(s)
    decreases |events|
  {
    if events == [] then s
    else if Possible(s, events[0]) then
      NextKeepsInv(s, events[0]);
      Execute(Next(s, events[0]), events[1..])
    else Execute(s, events[1..])
  }

  lemma {:induction false} ExecuteKeepsInv(s: State, events: seq<Event>)
    requires Inv(s)
    ensures Inv(Execute(s, events))
    decreases |events|
  {
    hide Inv, Next, Possible;
    if events != [] {
      if Possible(s, events[0]) {
        NextKeepsInv(s, events[0]);
        ExecuteKeepsInv(Next(s, events[0]), events[1..]);
      } else {
        ExecuteKeepsInv(s, events[1..]);
      }
    }
  }

  predicate At(queues: seq<seq<Pos>>, p: Pos, w: int, i: int) {
    0 <= w < |queues| && 0 <= i < |queues[w]| && queues[w][i] == p
  }

  // In every reachable state a position is enqueued exactly when it has a place in some queue,
  // and it has only one.
  lemma OnePlaceEach(limits: Limits, workers: nat, events: seq<Event>, p: Pos)
    requires workers > 0
    ensures Inv(Start(limits, workers))
    ensures var s := Execute(Start(limits, workers), events);
      && (p in s.blocks <==> exists w :: 0 <= w < |s.queues| && p in s.queues[w])
      && forall w, w', i, i' :: At(s.queues, p, w, i) && At(s.queues, p, w', i') ==> w == w' && i == i'
  {
    StartInv(limits, workers);
    ExecuteKeepsInv(Start(limits, workers), events);
    var s := Execute(Start(limits, workers), events);
    assert QueuesCover(s);
    hide Execute, Start, Inv, QueuesCover;
    assert Occurs(s.queues, p) == if p in s.blocks then 1 else 0 by { CoverAt(s, p); }
    if p in s.blocks {
      var w := OccursSomewhere(s.queues, p);
    }
    forall w, w', i, i' | At(s.queues, p, w, i) && At(s.queues, p, w', i')
      ensures w == w' && i == i'
    {
      OnePlace(s.queues, p, w, i, w', i');
    }
    forall w | 0 <= w < |s.queues| && p in s.queues[w]
      ensures p in s.blocks
    {
      assert p in multiset(s.queues[w]);
      OccursAt(s.queues, w, p);
    }
  }

  lemma CoverAt(s: State, p: Pos)
    requires QueuesCover(s)
    ensures Occurs(s.queues, p) == if p in s.blocks then 1 else 0
  {
  }

  lemma TwoPlaces(q: seq<Pos>, i: nat, j: nat)
    requires i < j < |q| && q[i] == q[j]
    ensures multiset(q)[q[i]] >= 2
  {
    assert q == q[..j] + q[j..];
    assert q[i] in q[..j] && q[i] == q[j..][0];
  }

  lemma OnePlace(queues: seq<seq<Pos>>, p: Pos, w: nat, i: nat, w': nat, i': nat)
    requires Occurs(queues, p) <= 1 && w < |queues| && w' < |queues| && i < |queues[w]| && i' < |queues[w']|
    requires queues[w][i] == queues[w'][i'] == p
    ensures w == w' && i == i'
  {
    OccursAt(queues, w, p);
    if w != w' {
      assert p in multiset(queues[w]);
      OccursUpdate(queues, w, [], p);
      OccursAt(queues[w := []], w', p);
    } else if i != i' {
      TwoPlaces(queues[w], if i < i' then i else i', if i < i' then i' else i);
    }
  }

  // Peer counters are exact in every reachable state.
  lemma PeerCountersExact(limits: Limits, workers: nat, events: seq<Event>, peer: u16)
    requires workers > 0
    ensures Inv(Start(limits, workers))
    ensures var s := Execute(Start(limits, workers), events);
      Count(s.counts, peer) == |set p | p in s.blocks && s.blocks[p].peerRequested == peer|
  {
    StartInv(limits, workers);
    ExecuteKeepsInv(Start(limits, workers), events);
    var s := Execute(Start(limits, workers), events);
    assert CountersExact(s);
    assert RequestedBy(s.blocks, peer) == set p | p in s.blocks && s.blocks[p].peerRequested == peer;
  }

  predicate Quiet(s: State) {
    && (forall w :: 0 <= w < |s.queues| ==> s.queues[w] == [])
    && (forall w :: 0 <= w < |s.hands| ==> s.hands[w].Idle?)
  }

  predicate NoException(events: seq<Event>) {
    forall e :: e in events ==> !e.Threw?
  }

  // A callback never runs more often than it was accepted, and once the queues are empty and the
  // workers idle it has run as often, unless its position is over the limit or a worker threw.
  lemma CallbacksRunOnce(limits: Limits, workers: nat, events: seq<Event>, t: Ticket)
    requires workers > 0
    ensures Inv(Start(limits, workers))
    ensures var s := Execute(Start(limits, workers), events);
      && s.ran[t] + s.cancelled[t] <= s.accepted[t]
      && (Quiet(s) && NoException(events) && !OverMaxLimit(t.pos) ==> s.ran[t] + s.cancelled[t] == s.accepted[t])
  {
    StartInv(limits, workers);
    var s0 := Start(limits, workers);
    ExecuteKeepsInv(s0, events);
    var s := Execute(s0, events);
    assert QueuesCover(s) && Accounted(s);
    assert s0.aborted == multiset{};
    if NoException(events) {
      NothingAborted(s0, events);
    }
    hide Execute, Start, Held, QueuesCover, CountersExact, NoException;
    assert s.accepted[t] == Total(s, t);
    if Quiet(s) {
      NothingOccurs(s.queues, t.pos);
      CoverAt(s, t.pos);
      NothingHeld(s.hands);
    }
  }

  lemma {:induction false} NothingAborted(s: State, events: seq<Event>)
    requires Inv(s) && NoException(events)
    ensures Execute(s, events).aborted == s.aborted
    decreases |events|
  {
    hide Inv, Enqueue, Pop, Finish, Cancel, Abort, CanTake;
    if events != [] {
      assert !events[0].Threw? && NoException(events[1..]);
      if Possible(s, events[0]) {
        NextKeepsInv(s, events[0]);
        OnlyThrowsAbort(s, events[0]);
        NothingAborted(Next(s, events[0]), events[1..]);
      } else {
        NothingAborted(s, events[1..]);
      }
    }
  }

  lemma OnlyThrowsAbort(s: State, e: Event)
    requires Inv(s) && Possible(s, e) && !e.Threw?
    ensures Next(s, e).aborted == s.aborted
  {
    hide QueuesCover, CountersExact, Accounted, Cancel;
    if e.Stopped? {
      CancelKeepsInv(s, e.worker);
    }
  }

  // ---- the limits

  predicate NoForce(events: seq<Event>) {
    forall e :: e in events && e.Request? ==> !e.flags.forceQueue
  }

  predicate WithinLimits(s: State) {
    && |s.blocks| <= s.limits.total
    && forall peer: u16 :: Count(s.counts, peer) <= Share(s.limits, peer)
  }

  // Requests made for the server's own active blocks get half of the queue.
  function Share(limits: Limits, peer: u16): nat {
    if peer != PEER_ID_INEXISTENT then PeerLimit(limits) else (limits.total + 1) / 2
  }

  function PeerLimit(limits: Limits): nat {
    if limits.diskonly > limits.generate then limits.diskonly else limits.generate
  }

  // Without forced requests the queue and every peer's share of it stay within the limits.
  lemma {:induction false} UnforcedRunsStayWithinLimits(s: State, events: seq<Event>)
    requires Inv(s) && WithinLimits(s) && NoForce(events)
    ensures WithinLimits(Execute(s, events))
    decreases |events|
  {
    hide Inv, Next, Possible, WithinLimits;
    if events != [] {
      assert NoForce(events[1..]) && events[0] in events;
      if Possible(s, events[0]) {
        NextKeepsInv(s, events[0]);
        NextWithinLimits(s, events[0]);
        UnforcedRunsStayWithinLimits(Next(s, events[0]), events[1..]);
      } else {
        UnforcedRunsStayWithinLimits(s, events[1..]);
      }
    }
  }

  lemma NextWithinLimits(s: State, e: Event)
    requires Inv(s) && Possible(s, e) && WithinLimits(s) && (e.Request? ==> !e.flags.forceQueue)
    ensures WithinLimits(Next(s, e))
  {
    hide QueuesCover, CountersExact, Accounted, Cancel, Share, Enqueue;
    match e
    case Request(pos, peer, flags, callback) =>
      EnqueueWithinLimits(s, pos, peer, flags, callback);
    case PopFront(w) =>
      if s.queues[w] != [] {
        InvCanTake(s, w);
        SubsetSmaller(Pop(s, w).blocks, s.blocks);
        assert forall p: u16 :: Count(Pop(s, w).counts, p) <= Count(s.counts, p);
      }
    case Finished(w) =>
    case Threw(w) =>
    case Stopped(w) =>
      CancelKeepsInv(s, w);
      SubsetSmaller(Cancel(s, w).blocks, s.blocks);
  }

  lemma SubsetSmaller(a: map<Pos, BlockEmergeData>, b: map<Pos, BlockEmergeData>)
    requires a.Keys <= b.Keys
    ensures |a| <= |b|
  {
    assert b.Keys == a.Keys + (b.Keys - a.Keys);
  }

  lemma InsertAddsOne(s: State, pos: Pos, peer: u16, flags: Flags, callback: Option<Callback>)
    requires s.queues != [] && pos !in s.blocks && peer in s.counts
    ensures var s' := Insert(s, pos, peer, flags, callback);
      && |s'.blocks| == |s.blocks| + 1 && s'.limits == s.limits
      && s'.counts == s.counts[peer := s.counts[peer] + 1]
  {
    hide Shortest, AsSeq;
    var s' := Insert(s, pos, peer, flags, callback);
    assert s'.blocks.Keys == s.blocks.Keys + {pos};
  }

  lemma JoinAddsNone(s: State, pos: Pos, flags: Flags, callback: Option<Callback>)
    requires pos in s.blocks
    ensures var s' := Join(s, pos, flags, callback);
      |s'.blocks| == |s.blocks| && s'.limits == s.limits && s'.counts == s.counts
  {
    assert Join(s, pos, flags, callback).blocks.Keys == s.blocks.Keys;
  }

  // A request adds at most one position, and counts it for the peer.
  lemma EnqueueAddsOne(s: State, pos: Pos, peer: u16, flags: Flags, callback: Option<Callback>)
    requires s.queues != []
    ensures var s' := Enqueue(s, pos, peer, flags, callback);
      var added := if Admits(s, peer, flags) && pos !in s.blocks then 1 else 0;
      && |s'.blocks| == |s.blocks| + added && s'.limits == s.limits
      && forall q: u16 :: Count(s'.counts, q) == Count(s.counts, q) + if q == peer then added else 0
  {
    hide Tickets, Admits, Insert, Join;
    var s0 := Looked(s, peer);
    var s1 := s0.(accepted := s0.accepted + Tickets(pos, AsSeq(callback)));
    if pos in s.blocks {
      JoinAddsNone(s1, pos, flags, callback);
    } else {
      InsertAddsOne(s1, pos, peer, flags, callback);
    }
  }

  lemma EnqueueWithinLimits(s: State, pos: Pos, peer: u16, flags: Flags, callback: Option<Callback>)
    requires WithinLimits(s) && !flags.forceQueue && s.queues != []
    ensures WithinLimits(Enqueue(s, pos, peer, flags, callback))
  {
    hide Enqueue, Share;
    EnqueueAddsOne(s, pos, peer, flags, callback);
    if Admits(s, peer, flags) {
      AdmittedBelowShare(s, peer, flags);
    }
  }

  lemma AdmittedBelowShare(s: State, peer: u16, flags: Flags)
    requires !flags.forceQueue && Admits(s, peer, flags)
    ensures |s.blocks| < s.limits.total && Count(s.counts, peer) < Share(s.limits, peer)
  {
  }
}

// The manager and its worker threads, as the source keeps them.
module Emerge {
  import opened Options
  import opened Positions
  import opened Numbers
  import opened EmergeProtocol

  // What getBlockOrStartGen and finishGen came to, or the exception that left them.
  datatype Outcome = Errored | FromMemory | FromDisk | Generated | Exception

  class EmergeThread {
    const id: nat
    var blockQueue: seq<Pos>
    // what the locals pos and bedata of run hold between popBlockEmerge and the callbacks
    var hand: Hand

    constructor (id: nat)
      ensures this.id == id && blockQueue == [] && hand == Idle
    {
      this.id := id;
      blockQueue := [];
      hand := Idle;
    }

    method PushBlock(pos: Pos)
      modifies this`blockQueue
      ensures blockQueue == old(blockQueue) + [pos]
    {
      blockQueue := blockQueue + [pos];
    }

    // Takes the front of the queue with its entry, which is always found.
    method PopBlockEmerge(emerge: EmergeManager) returns (popped: bool)
      requires emerge.Valid() && emerge.Has(this) && hand.Idle?
      modifies this, emerge
      ensures emerge.Valid() && emerge.Has(this)
      ensures popped <==> old(blockQueue) != []
      ensures emerge.Value() == Next(old(emerge.Value()), PopFront(id))
    {
      hide Inv, Pop, CancelOne, CanTake, Tickets, Start;
      if blockQueue == [] {
        return false;
      }
      ghost var s := emerge.Value();
      InvCanTake(s, id);
      PopKeepsInv(s, id);
      PopParts(s, id);
      var pos := blockQueue[0];
      blockQueue := blockQueue[1..];
      var found, bedata := emerge.PopBlockEmergeData(pos);
      hand := Holding(pos, if found then bedata.callbacks else []);
      emerge.IsValue(id, s, Pop(s, id));
      popped := true;
    }

    // One round of the loop of run after a pop; its callbacks run unless an exception was thrown.
    method Process(emerge: EmergeManager, outcome: Outcome) returns (stopped: bool)
      requires emerge.Valid() && emerge.Has(this) && hand.Holding?
      modifies this, emerge
      ensures emerge.Valid() && emerge.Has(this)
      ensures stopped <==> outcome.Exception? && !OverMaxLimit(old(hand.pos))
      ensures emerge.Value() == Next(old(emerge.Value()), if stopped then Threw(id) else Finished(id))
    {
      hide Inv, OverMaxLimit, Tickets, Finish, Abort;
      ghost var s := emerge.Value();
      var pos, callbacks := hand.pos, hand.callbacks;
      FinishKeepsInv(s, id);
      AbortKeepsInv(s, id);
      FinishParts(s, id);
      hand := Idle;
      stopped := false;
      if OverMaxLimit(pos) {
        emerge.dropped := emerge.dropped + Tickets(pos, callbacks);
      } else if outcome.Exception? {
        emerge.aborted := emerge.aborted + Tickets(pos, callbacks);
        stopped := true;
      } else {
        var done := RunCompletionCallbacks(pos, callbacks);
        emerge.ran := emerge.ran + done;
      }
      emerge.IsValue(id, s, if stopped then Abort(s, id) else Finish(s, id));
    }

    // The callbacks run in order, each once.
    method RunCompletionCallbacks(pos: Pos, callbacks: seq<Callback>) returns (ghost done: multiset<Ticket>)
      ensures done == Tickets(pos, callbacks)
    {
      done := multiset{};
      var i := 0;
      while i != |callbacks|
        invariant i <= |callbacks| && done == Tickets(pos, callbacks[..i])
      {
        done := done + multiset{Ticket(pos, callbacks[i])};
        TicketsSnoc(pos, callbacks[..i], callbacks[i]);
        assert callbacks[..i + 1] == callbacks[..i] + [callbacks[i]];
        i := i + 1;
      }
      assert callbacks[..|callbacks|] == callbacks;
    }

    // One round of the loop of cancelPendingItems.
    method CancelFront(emerge: EmergeManager)
      requires emerge.Valid() && emerge.Has(this) && blockQueue != []
      modifies this`blockQueue, emerge
      ensures emerge.Valid() && emerge.Has(this) && |blockQueue| == |old(blockQueue)| - 1
      ensures CanTake(old(emerge.Value()), id) && emerge.Value() == CancelOne(old(emerge.Value()), id)
    {
      hide Inv, CancelOne, Pop, CanTake, Tickets;
      ghost var s := emerge.Value();
      InvCanTake(s, id);
      CancelOneKeepsInv(s, id);
      PopParts(s, id);
      var pos := blockQueue[0];
      blockQueue := blockQueue[1..];
      var found, bedata := emerge.PopBlockEmergeData(pos);
      var done := RunCompletionCallbacks(pos, if found then bedata.callbacks else []);
      emerge.cancelled := emerge.cancelled + done;
      emerge.IsValue(id, s, CancelOne(s, id));
    }

    method CancelPendingItems(emerge: EmergeManager)
      requires emerge.Valid() && emerge.Has(this) && hand.Idle?
      modifies this, emerge
      ensures emerge.Valid() && emerge.Has(this)
      ensures emerge.Value() == Next(old(emerge.Value()), Stopped(id))
    {
      hide Inv, CancelOne, Cancel, CanTake;
      ghost var s0 := emerge.Value();
      while blockQueue != []
        invariant emerge.Valid() && emerge.Has(this) && hand.Idle?
        invariant Cancel(emerge.Value(), id) == Cancel(s0, id)
        decreases |blockQueue|
      {
        ghost var s := emerge.Value();
        CancelFront(emerge);
        CancelStep(s, id);
      }
      CancelDone(emerge.Value(), id);
    }
  }

  class EmergeManager {
    const threads: seq<EmergeThread>
    const limits: Limits
    var blocksEnqueued: map<Pos, BlockEmergeData>
    var peerQueueCount: map<u16, nat>
    // the history of callbacks, as in EmergeProtocol.State
    ghost var accepted: multiset<Ticket>
    ghost var ran: multiset<Ticket>
    ghost var cancelled: multiset<Ticket>
    ghost var dropped: multiset<Ticket>
    ghost var aborted: multiset<Ticket>

    ghost function Queues(): (q: seq<seq<Pos>>)
      reads threads
      ensures |q| == |threads| && forall i :: 0 <= i < |q| ==> q[i] == threads[i].blockQueue
    {
      seq(|threads|, i requires 0 <= i < |threads| reads threads => threads[i].blockQueue)
    }

    ghost function Hands(): (h: seq<Hand>)
      reads threads
      ensures |h| == |threads| && forall i :: 0 <= i < |h| ==> h[i] == threads[i].hand
    {
      seq(|threads|, i requires 0 <= i < |threads| reads threads => threads[i].hand)
    }

    ghost function Value(): State
      reads this, threads
    {
      State(limits, blocksEnqueued, peerQueueCount, Queues(), Hands(), accepted, ran, cancelled, dropped, aborted)
    }

    ghost predicate Valid()
      reads this, threads
    {
      && (forall i :: 0 <= i < |threads| ==> threads[i].id == i)
      && Inv(Value())
    }

    ghost predicate Has(t: EmergeThread)
      reads t
    {
      t.id < |threads| && threads[t.id] == t
    }

    constructor (threads: seq<EmergeThread>, limits: Limits)
      requires |threads| > 0 && forall i :: 0 <= i < |threads| ==> threads[i].id == i
      requires forall i :: 0 <= i < |threads| ==> threads[i].blockQueue == [] && threads[i].hand.Idle?
      ensures Valid() && this.threads == threads && Value() == Start(limits, |threads|)
    {
      this.threads, this.limits := threads, limits;
      blocksEnqueued, peerQueueCount := map[], map[];
      accepted, ran, cancelled, dropped, aborted := multiset{}, multiset{}, multiset{}, multiset{}, multiset{};
      new;
      StartInv(limits, |threads|);
      assert Value() == Start(limits, |threads|);
    }

    // The limits, for a request that is not forced. The u32 product does not wrap.
    method CheckLimits(countPeer: nat, peer: u16, flags: Flags) returns (ok: bool)
      requires countPeer < 0x8000_0000
      ensures ok <==> BelowLimits(limits, |blocksEnqueued|, countPeer, peer, flags.allowGen)
    {
      if |blocksEnqueued| >= limits.total {
        return false;
      }
      if peer != PEER_ID_INEXISTENT {
        var qlimitPeer := if flags.allowGen then limits.generate else limits.diskonly;
        return countPeer < qlimitPeer;
      }
      return (countPeer * 2) % 0x1_0000_0000 < limits.total;
    }

    method PushBlockEmergeData(pos: Pos, peer: u16, flags: Flags, callback: Option<Callback>)
      returns (ok: bool, entryAlreadyExists: bool)
      requires Valid() && |blocksEnqueued| < 0x8000_0000
      modifies this`blocksEnqueued, this`peerQueueCount, this`accepted
      ensures ok <==> Admits(old(Value()), peer, flags)
      ensures ok ==> (entryAlreadyExists <==> pos in old(blocksEnqueued))
      ensures !ok ==>
        && blocksEnqueued == old(blocksEnqueued) && accepted == old(accepted)
        && peerQueueCount == old(peerQueueCount)[peer := Count(old(peerQueueCount), peer)]
      ensures ok ==>
        && blocksEnqueued == old(blocksEnqueued)[pos := Added(old(blocksEnqueued), pos, peer, flags, callback)]
        && accepted == old(accepted) + Tickets(pos, AsSeq(callback))
        && peerQueueCount == old(peerQueueCount)[peer :=
          Count(old(peerQueueCount), peer) + if entryAlreadyExists then 0 else 1]
    {
      hide Inv, Tickets, BelowLimits, AsSeq, Added;
      CounterSmall(Value(), peer);
      if peer !in peerQueueCount {
        peerQueueCount := peerQueueCount[peer := 0];
      }
      var countPeer := peerQueueCount[peer];
      ok, entryAlreadyExists := true, false;
      if !flags.forceQueue {
        ok := CheckLimits(countPeer, peer, flags);
      }
      if ok {
        entryAlreadyExists := AddBlockEmergeData(pos, peer, flags, callback, countPeer);
      }
    }

    // The part of pushBlockEmergeData behind the limits.
    method AddBlockEmergeData(pos: Pos, peer: u16, flags: Flags, callback: Option<Callback>, countPeer: nat)
      returns (entryAlreadyExists: bool)
      requires countPeer < 0x8000_0000
      modifies this`blocksEnqueued, this`peerQueueCount, this`accepted
      ensures entryAlreadyExists <==> pos in old(blocksEnqueued)
      ensures blocksEnqueued == old(blocksEnqueued)[pos := Added(old(blocksEnqueued), pos, peer, flags, callback)]
      ensures accepted == old(accepted) + Tickets(pos, AsSeq(callback))
      ensures peerQueueCount ==
        if entryAlreadyExists then old(peerQueueCount) else old(peerQueueCount)[peer := countPeer + 1]
    {
      hide Tickets;
      entryAlreadyExists := pos in blocksEnqueued;
      var bedata := if entryAlreadyExists then blocksEnqueued[pos] else BlockEmergeData(0, Flags(false, false), []);
      accepted := accepted + Tickets(pos, AsSeq(callback));
      if callback.Some? {
        bedata := bedata.(callbacks := bedata.callbacks + [callback.value]);
      }
      if entryAlreadyExists {
        bedata := bedata.(flags := Or(bedata.flags, flags));
      } else {
        bedata := bedata.(flags := flags, peerRequested := peer);
        peerQueueCount := peerQueueCount[peer := (countPeer + 1) % 0x1_0000_0000];
      }
      Append(bedata.callbacks, callback);
      blocksEnqueued := blocksEnqueued[pos := bedata];
    }

    method PopBlockEmergeData(pos: Pos) returns (found: bool, bedata: BlockEmergeData)
      requires pos in blocksEnqueued && blocksEnqueued[pos].peerRequested in peerQueueCount ==>
        peerQueueCount[blocksEnqueued[pos].peerRequested] != 0
      modifies this`blocksEnqueued, this`peerQueueCount
      ensures found <==> pos in old(blocksEnqueued) && old(blocksEnqueued)[pos].peerRequested in old(peerQueueCount)
      ensures found ==>
        && bedata == old(blocksEnqueued)[pos] && blocksEnqueued == old(blocksEnqueued) - {pos}
        && peerQueueCount == old(peerQueueCount)[bedata.peerRequested := old(peerQueueCount)[bedata.peerRequested] - 1]
      ensures !found ==> blocksEnqueued == old(blocksEnqueued) && peerQueueCount == old(peerQueueCount)
    {
      bedata := BlockEmergeData(0, Flags(false, false), []);
      if pos !in blocksEnqueued {
        return false, bedata;
      }
      bedata := blocksEnqueued[pos];
      if bedata.peerRequested !in peerQueueCount {
        return false, bedata;
      }
      var countPeer := peerQueueCount[bedata.peerRequested];
      assert countPeer != 0;
      peerQueueCount := peerQueueCount[bedata.peerRequested := countPeer - 1];
      blocksEnqueued := blocksEnqueued - {pos};
      found := true;
    }

    method GetOptimalThread() returns (thread: EmergeThread)
      requires |threads| > 0
      ensures thread == threads[Shortest(Queues(), |threads|)]
    {
      var index := 0;
      var nitemsLowest := |threads[0].blockQueue|;
      var i := 1;
      while i < |threads|
        invariant 1 <= i <= |threads|
        invariant index == Shortest(Queues(), i) && nitemsLowest == |threads[index].blockQueue|
      {
        var nitems := |threads[i].blockQueue|;
        if nitems < nitemsLowest {
          index := i;
          nitemsLowest := nitems;
        }
        i := i + 1;
      }
      thread := threads[index];
    }

    // A request is refused exactly by the limits; otherwise it joins the position's entry or
    // queues the position with the least loaded worker.
    method EnqueueBlockEmergeEx(pos: Pos, peer: u16, flags: Flags, callback: Option<Callback>) returns (ok: bool)
      requires Valid() && |blocksEnqueued| < 0x8000_0000
      modifies this, threads
      ensures Valid()
      ensures ok <==> Admits(old(Value()), peer, flags)
      ensures Value() == Enqueue(old(Value()), pos, peer, flags, callback)
    {
      hide Inv, Shortest, Admits, Enqueue, Added, Count, Tickets, AsSeq;
      ghost var s := Value();
      SomeWorker(s);
      EnqueueKeepsInv(s, pos, peer, flags, callback);
      EnqueueQueues(s, pos, peer, flags, callback);
      var entryAlreadyExists;
      ok, entryAlreadyExists := PushBlockEmergeData(pos, peer, flags, callback);
      PushedIsEnqueue(s, Value(), ok, entryAlreadyExists, pos, peer, flags, callback);
      if !ok || entryAlreadyExists {
        return;
      }
      PushToOptimalThread(pos);
    }

    // The end of enqueueBlockEmergeEx: the position goes to the back of the first shortest queue.
    method PushToOptimalThread(pos: Pos)
      requires |threads| > 0 && forall i :: 0 <= i < |threads| ==> threads[i].id == i
      modifies threads
      ensures var w := Shortest(old(Queues()), |threads|); Queues() == old(Queues())[w := old(Queues())[w] + [pos]]
      ensures Hands() == old(Hands())
    {
      hide Shortest;
      var thread := GetOptimalThread();
      thread.PushBlock(pos);
      assert forall i :: 0 <= i < |threads| && i != thread.id ==> threads[i] != thread;
    }

    // With only one thread's fields changed, the whole value is told by that thread.
    lemma IsValue(w: nat, s: State, s': State)
      requires w < |threads| && forall i :: 0 <= i < |threads| ==> threads[i].id == i
      requires |s.queues| == |s.hands| == |threads|
      requires forall i :: 0 <= i < |threads| && i != w ==>
        threads[i].blockQueue == s.queues[i] && threads[i].hand == s.hands[i]
      requires s'.queues == s.queues[w := threads[w].blockQueue] && s'.hands == s.hands[w := threads[w].hand]
      requires Value() == s'.(queues := Queues(), hands := Hands())
      ensures Value() == s'
    {
      assert Queues() == s'.queues && Hands() == s'.hands;
    }
  }

  lemma Append(callbacks: seq<Callback>, callback: Option<Callback>)
    ensures callbacks + AsSeq(callback) == if callback.Some? then callbacks + [callback.value] else callbacks
    ensures [] + AsSeq(callback) == AsSeq(callback)
  {
  }

  // What pushBlockEmergeData does is everything but the worker's queue.
  lemma PushedIsEnqueue(s: State, s': State, ok: bool, existed: bool, pos: Pos, peer: u16, flags: Flags,
                        callback: Option<Callback>)
    requires s.queues != [] && (ok <==> Admits(s, peer, flags)) && (ok ==> (existed <==> pos in s.blocks))
    requires s' == s.(blocks := s'.blocks, counts := s'.counts, accepted := s'.accepted)
    requires !ok ==>
      s'.blocks == s.blocks && s'.accepted == s.accepted && s'.counts == s.counts[peer := Count(s.counts, peer)]
    requires ok ==>
      && s'.blocks == s.blocks[pos := Added(s.blocks, pos, peer, flags, callback)]
      && s'.accepted == s.accepted + Tickets(pos, AsSeq(callback))
      && s'.counts == s.counts[peer := Count(s.counts, peer) + if existed then 0 else 1]
    ensures s' == Enqueue(s, pos, peer, flags, callback).(queues := s.queues)
  {
    hide Enqueue, Admits, Added, Tickets;
    if !ok {
      RefusedParts(s, pos, peer, flags, callback);
    } else if pos in s.blocks {
      JoinParts(s, pos, peer, flags, callback);
    } else {
      InsertParts(s, pos, peer, flags, callback);
    }
  }

  lemma CancelStep(s: State, w: nat)
    requires Inv(s) && w < |s.queues| && s.queues[w] != [] && CanTake(s, w)
    ensures Inv(CancelOne(s, w)) && |CancelOne(s, w).queues| == |s.queues|
    ensures Cancel(s, w) == Cancel(CancelOne(s, w), w)
  {
    CancelOneKeepsInv(s, w);
  }

  lemma CancelDone(s: State, w: nat)
    requires Inv(s) && w < |s.queues| && s.queues[w] == []
    ensures Cancel(s, w) == s
  {
  }

  lemma SomeWorker(s: State)
    requires Inv(s)
    ensures s.queues != []
  {
  }

  lemma CounterSmall(s: State, peer: u16)
    requires Inv(s)
    ensures Count(s.counts, peer) <= |s.blocks|
  {
    assert RequestedBy(s.blocks, peer) <= s.blocks.Keys;
    var others := s.blocks.Keys - RequestedBy(s.blocks, peer);
    assert s.blocks.Keys == RequestedBy(s.blocks, peer) + others;
  }
}
