// Which requests are accepted, and what an entry of the emerge queue keeps of them
// (src/emerge.cpp:291-434).

module EmergeLaws {
  import opened Numbers
  import opened Options
  import opened Positions
  import opened EmergeProtocol

  // The number of entries a peer requested first.
  ghost function Entries(s: State, peer: u16): nat {
    |set p | p in s.blocks && s.blocks[p].peerRequested == peer|
  }

  // A request that is not forced needs room in the queue, and its peer fewer entries than the limit of
  // its own kind: that for blocks that may be generated, or that for blocks from the disk. Peer 0, the
  // server itself, needs less than half of the whole.
  lemma AcceptedExactly(s: State, peer: u16, flags: Flags)
    requires Inv(s)
    ensures Admits(s, peer, flags) <==>
      flags.forceQueue
      || (|s.blocks| < s.limits.total
          && (peer == 0 ==> 2 * Entries(s, peer) < s.limits.total)
          && (peer != 0 && flags.allowGen ==> Entries(s, peer) < s.limits.generate)
          && (peer != 0 && !flags.allowGen ==> Entries(s, peer) < s.limits.diskonly))
  {
    hide QueuesCover, Accounted;
    assert Entries(s, peer) == |RequestedBy(s.blocks, peer)|;
    assert Count(s.counts, peer) == |RequestedBy(s.blocks, peer)|;
  }

  predicate FirstShortest(queues: seq<seq<Pos>>, w: nat) {
    && w < |queues| && (forall v :: 0 <= v < |queues| ==> |queues[w]| <= |queues[v]|)
    && forall v :: 0 <= v < w ==> |queues[w]| < |queues[v]|
  }

  // A request that is refused leaves the queue alone. One that is accepted changes or makes the entry of
  // its position: it may be generated if one of its requests allows that, and belongs to the first peer.
  lemma RequestMeans(s: State, pos: Pos, peer: u16, flags: Flags, callback: Option<Callback>)
    requires Inv(s)
    ensures var t := Next(s, Event.Request(pos, peer, flags, callback));
      && (!Admits(s, peer, flags) ==> t.blocks == s.blocks && t.queues == s.queues)
      && (Admits(s, peer, flags) && pos !in s.blocks ==>
            && t.blocks == s.blocks[pos := BlockEmergeData(peer, flags, AsSeq(callback))]
            && exists w: nat :: FirstShortest(s.queues, w) && t.queues == s.queues[w := s.queues[w] + [pos]])
      && (Admits(s, peer, flags) && pos in s.blocks ==>
            && t.queues == s.queues && t.blocks.Keys == s.blocks.Keys
            && (forall p :: p in s.blocks && p != pos ==> t.blocks[p] == s.blocks[p])
            && t.blocks[pos].peerRequested == s.blocks[pos].peerRequested
            && (t.blocks[pos].flags.allowGen <==> s.blocks[pos].flags.allowGen || flags.allowGen)
            && (t.blocks[pos].flags.forceQueue <==> s.blocks[pos].flags.forceQueue || flags.forceQueue)
            && t.blocks[pos].callbacks == s.blocks[pos].callbacks + AsSeq(callback))
  {
    hide QueuesCover, Accounted, CountersExact, Admits;
    var w := Shortest(s.queues, |s.queues|);
    assert FirstShortest(s.queues, w);
    var t := Next(s, Event.Request(pos, peer, flags, callback));
    if Admits(s, peer, flags) && pos !in s.blocks {
      assert t.queues == s.queues[w := s.queues[w] + [pos]];
    }
  }

  lemma {:induction false} CancelOnlyRemoves(s: State, w: nat)
    requires Inv(s) && w < |s.queues|
    ensures forall p :: p in Cancel(s, w).blocks ==> p in s.blocks && Cancel(s, w).blocks[p] == s.blocks[p]
    decreases |s.queues[w]|
  {
    hide Inv, QueuesCover, Accounted, CountersExact;
    if s.queues[w] != [] {
      InvCanTake(s, w);
      CancelOneKeepsInv(s, w);
      CancelOnlyRemoves(CancelOne(s, w), w);
    }
  }

  // While an entry stays in the queue it never loses the permission to be generated.
  lemma PermissionKept(s: State, e: Event, pos: Pos)
    requires Inv(s) && Possible(s, e) && pos in s.blocks && s.blocks[pos].flags.allowGen
    ensures pos in Next(s, e).blocks ==> Next(s, e).blocks[pos].flags.allowGen
  {
    hide QueuesCover, Accounted, CountersExact, Enqueue, Cancel;
    match e
    case Request(p, peer, flags, callback) => RequestMeans(s, p, peer, flags, callback);
    case PopFront(w) =>
      if s.queues[w] != [] {
        InvCanTake(s, w);
      }
    case Finished(_) =>
    case Threw(_) =>
    case Stopped(w) => CancelOnlyRemoves(s, w);
  }

  // So over any run during which it stays an entry may be generated if one of its requests, the first
  // or a later one, allowed it.
  lemma {:induction false} PermissionStays(s: State, events: seq<Event>, pos: Pos)
    requires Inv(s) && pos in s.blocks && s.blocks[pos].flags.allowGen
    requires forall k :: 0 <= k <= |events| ==> pos in Execute(s, events[..k]).blocks
    ensures pos in Execute(s, events).blocks && Execute(s, events).blocks[pos].flags.allowGen
    decreases |events|
  {
    hide Inv, Next, Possible;
    if events == [] {
      assert events[..0] == events;
    } else {
      var t := AfterFirst(s, events, pos);
      PermissionStays(t, events[1..], pos);
    }
  }

  lemma AfterFirst(s: State, events: seq<Event>, pos: Pos) returns (t: State)
    requires Inv(s) && events != [] && pos in s.blocks && s.blocks[pos].flags.allowGen
    requires forall k :: 0 <= k <= |events| ==> pos in Execute(s, events[..k]).blocks
    ensures Inv(t) && pos in t.blocks && t.blocks[pos].flags.allowGen
    ensures Execute(s, events) == Execute(t, events[1..])
    ensures forall k :: 0 <= k <= |events[1..]| ==> pos in Execute(t, events[1..][..k]).blocks
  {
    hide Inv, Next, Possible;
    if Possible(s, events[0]) {
      NextKeepsInv(s, events[0]);
      t := Next(s, events[0]);
    } else {
      t := s;
    }
    forall k | 0 <= k <= |events[1..]|
      ensures pos in Execute(t, events[1..][..k]).blocks
    {
      assert events[..k + 1][1..] == events[1..][..k] && events[..k + 1][0] == events[0];
      assert pos in Execute(s, events[..k + 1]).blocks;
    }
    assert events[1..][..0] == [];
    if Possible(s, events[0]) {
      PermissionKept(s, events[0], pos);
    }
  }

  // ---- first come, first served

  // A worker takes the front of its own queue, with the callbacks of its entry, and leaves the rest.
  lemma TakesFirst(s: State, w: nat)
    requires Inv(s) && w < |s.queues| && s.hands[w].Idle? && s.queues[w] != []
    ensures var pos, t := s.queues[w][0], Next(s, Event.PopFront(w));
      && pos in s.blocks && t.hands == s.hands[w := Holding(pos, s.blocks[pos].callbacks)]
      && t.queues == s.queues[w := s.queues[w][1..]] && t.blocks == s.blocks - {pos}
  {
    hide QueuesCover, Accounted, CountersExact;
    InvCanTake(s, w);
  }

  // A queue of which the first positions have left, while others were added at its end.
  ghost predicate Advanced(was: seq<Pos>, now: seq<Pos>, added: seq<Pos>, k: nat) {
    k <= |was + added| && now == (was + added)[k..]
  }

  lemma AdvancedTwice(a: seq<Pos>, b: seq<Pos>, c: seq<Pos>, x: seq<Pos>, k: nat, y: seq<Pos>, l: nat)
    requires Advanced(a, b, x, k) && Advanced(b, c, y, l)
    ensures Advanced(a, c, x + y, k + l)
  {
    assert a + (x + y) == (a + x) + y;
    assert ((a + x) + y)[k..] == (a + x)[k..] + y;
    assert (b + y)[l..] == ((a + x) + y)[k..][l..] == ((a + x) + y)[k + l..];
  }

  lemma {:induction false} CancelEmpties(s: State, w: nat, v: nat)
    requires Inv(s) && w < |s.queues| && v < |s.queues|
    ensures |Cancel(s, w).queues| == |s.queues|
    ensures Cancel(s, w).queues[v] == if v == w then [] else s.queues[v]
    decreases |s.queues[w]|
  {
    hide Inv, QueuesCover, Accounted, CountersExact;
    if s.queues[w] != [] {
      InvCanTake(s, w);
      CancelOneKeepsInv(s, w);
      CancelEmpties(CancelOne(s, w), w, v);
    }
  }

  lemma StepAdvances(s: State, e: Event, v: nat) returns (added: seq<Pos>, k: nat)
    requires Inv(s) && Possible(s, e) && v < |s.queues|
    ensures |Next(s, e).queues| == |s.queues| && Advanced(s.queues[v], Next(s, e).queues[v], added, k)
  {
    hide QueuesCover, Accounted, CountersExact, Enqueue, Cancel, Admits;
    added, k := [], 0;
    match e
    case Request(pos, peer, flags, callback) =>
      RequestMeans(s, pos, peer, flags, callback);
      if Next(s, e).queues != s.queues {
        var w: nat :| FirstShortest(s.queues, w) && Next(s, e).queues == s.queues[w := s.queues[w] + [pos]];
        added := if v == w then [pos] else [];
      }
    case PopFront(w) =>
      if s.queues[w] != [] {
        TakesFirst(s, w);
        k := if v == w then 1 else 0;
      }
    case Finished(_) =>
    case Threw(_) =>
    case Stopped(w) =>
      CancelEmpties(s, w, v);
      k := if v == w then |s.queues[v]| else 0;
  }

  // Over any run, whatever is interleaved with it, positions leave a queue in the order in which they
  // came to it.
  lemma {:induction false} ServedInOrder(s: State, events: seq<Event>, v: nat) returns (added: seq<Pos>, k: nat)
    requires Inv(s) && v < |s.queues|
    ensures |Execute(s, events).queues| == |s.queues|
    ensures Advanced(s.queues[v], Execute(s, events).queues[v], added, k)
    decreases |events|
  {
    hide Inv, Next, Possible, Advanced;
    if events == [] {
      NotAdvanced(s.queues[v]);
      added, k := [], 0;
    } else if Possible(s, events[0]) {
      var t := Next(s, events[0]);
      NextKeepsInv(s, events[0]);
      var x, i := StepAdvances(s, events[0], v);
      var y, j := ServedInOrder(t, events[1..], v);
      AdvancedTwice(s.queues[v], t.queues[v], Execute(t, events[1..]).queues[v], x, i, y, j);
      added, k := x + y, i + j;
    } else {
      added, k := ServedInOrder(s, events[1..], v);
    }
  }

  lemma NotAdvanced(q: seq<Pos>)
    ensures Advanced(q, q, [], 0)
  {
  }

  // Positions are over the limit from block 1938 on in any direction.
  lemma OverTheLimit(p: Pos)
    ensures OverMaxLimit(p) <==>
      !(-1938 < p.x < 1938 && -1938 < p.y < 1938 && -1938 < p.z < 1938)
  {
  }
}
