/**
 Messages about threads blocked on black holes, after kernel/rts/Messages.c and the wakeups of kernel/rts/Threads.c.
 Threads, black holes, blocking queues and messages are numbered; lists start with their heads.
 */
module Messages {
  import opened Base

  type CapId = nat
  type ThreadId = nat
  type HoleId = nat
  type QueueId = nat
  type MsgId = nat

  datatype Thread = Thread(cap: CapId, bq: seq<QueueId>)

  /** What a black hole's indirectee is. */
  datatype Indirectee = Owner(t: ThreadId) | Blocked(q: QueueId) | Result

  /** BLACKHOLE, then CAF_BLACKHOLE, EAGER_BLACKHOLE and WHITEHOLE, then anything the collector has put in their
      place. */
  datatype HoleKind = Plain | Special | Gone

  datatype Hole = Hole(kind: HoleKind, indirectee: Indirectee)

  datatype Queue = Queue(bh: HoleId, queue: seq<MsgId>, owner: ThreadId, dead: bool)   // dead: overwritten with an IND

  /** The thread that last claimed a black hole, and how many queues there were by then. */
  datatype Claimant = Claimant(t: ThreadId, since: nat)

  datatype Msg = Msg(tso: ThreadId, bh: HoleId, revoked: bool)   // revoked: overwritten with an IND

  /** Where a message is.  InHand: a capability is executing it. */
  datatype Place = InHand(cap: CapId) | InInbox(cap: CapId) | InQueue(q: QueueId) | Woken | Dropped

  /** 0, 1 and one more turn of the loop. */
  datatype Verdict = NotBlocked | StillBlocked | Again

  lemma TailNoDup(m: MsgId, s: seq<MsgId>)
    requires NoDup([m] + s)
    ensures NoDup(s) && m !in s
  {
    var t := [m] + s;
    forall i | 0 <= i < |s| ensures s[i] == t[i + 1] != m {
      assert t[0] != t[i + 1];
    }
  }

  /** What blackHoleOwner finds: NULL, a thread, or an IND, on which it reads the indirectee again. */
  datatype Answer = Unowned | OwnedBy(t: ThreadId) | ReadAgain

  class Scheduler {
    var threads: seq<Thread>
    var holes: seq<Hole>
    var queues: seq<Queue>
    var msgs: seq<Msg>
    var inbox: seq<seq<MsgId>>
    ghost var place: seq<Place>
    ghost var claims: map<HoleId, Claimant>

    constructor (threads: seq<Thread>, holes: seq<Hole>, caps: nat)
      requires forall t :: 0 <= t < |threads| ==> threads[t].cap < caps && threads[t].bq == []
      requires forall b :: 0 <= b < |holes| ==> (holes[b].indirectee.Owner? ==> holes[b].indirectee.t < |threads|)
                                                && !holes[b].indirectee.Blocked?
      ensures Valid() && this.threads == threads && this.holes == holes && msgs == [] && queues == [] && |inbox| == caps
      ensures forall b: nat :: b < |holes| && holes[b].indirectee.Owner? ==>
                b in claims && claims[b] == Claimant(holes[b].indirectee.t, 0)
    {
      claims := map b: HoleId | b < |holes| && holes[b].indirectee.Owner? :: Claimant(holes[b].indirectee.t, 0);
      this.threads, this.holes, queues, msgs, inbox, place := threads, holes, [], [], seq(caps, _ => []), [];
    }

    ghost predicate InboxOk(c: CapId)
      requires c < |inbox|
      reads this`inbox, this`place
    {
      NoDup(inbox[c]) && forall m :: m in inbox[c] ==> m < |place| && place[m] == InInbox(c)
    }

    ghost predicate QueueOk(q: QueueId)
      requires q < |queues|
      reads this`queues, this`msgs, this`place, this`threads, this`holes
    {
      var k := queues[q];
      k.owner < |threads| && k.bh < |holes| && (!k.dead ==>
        && NoDup(k.queue) && q in threads[k.owner].bq
        && forall m :: m in k.queue ==> m < |place| == |msgs| && place[m] == InQueue(q) && msgs[m].bh == k.bh)
    }

    ghost predicate PlaceOk(m: MsgId)
      requires m < |place|
      reads this`inbox, this`queues, this`place
    {
      match place[m]
      case InInbox(c) => c < |inbox| && m in inbox[c]
      case InQueue(q) => q < |queues| && !queues[q].dead && m in queues[q].queue
      case _ => true
    }

    /** A queue installed in a black hole names it; and it is dead only in the special black holes. */
    ghost predicate HoleOk(b: HoleId)
      requires b < |holes|
      reads this`holes, this`queues, this`threads
    {
      && (holes[b].indirectee.Owner? ==> holes[b].indirectee.t < |threads|)
      && (holes[b].indirectee.Blocked? && !holes[b].kind.Gone? ==>
            var q := holes[b].indirectee.q;
            q < |queues| && queues[q].bh == b && (queues[q].dead ==> holes[b].kind.Special?))
    }

    ghost predicate ThreadOk(t: ThreadId)
      requires t < |threads|
      reads this`threads, this`queues, this`inbox
    {
      threads[t].cap < |inbox| && forall q :: q in threads[t].bq ==> q < |queues| && queues[q].owner == t
    }

    /** Since a thread claimed the black hole, every queue made for it is that thread's; and while one is alive, it
        is installed there, or the hole has been updated. */
    ghost predicate ClaimOk(b: HoleId)
      requires b in claims && b < |holes|
      reads this`claims, this`holes, this`queues
    {
      && claims[b].since <= |queues|
      && (holes[b].indirectee.Owner? ==> holes[b].indirectee.t == claims[b].t)
      && (forall q: nat :: claims[b].since <= q < |queues| && queues[q].bh == b && !queues[q].dead ==>
            && queues[q].owner == claims[b].t && !holes[b].kind.Gone?
            && (holes[b].indirectee == Blocked(q) || holes[b].indirectee == Result))
    }

    ghost predicate Valid()
      reads this
    {
      && |place| == |msgs|
      && (forall c: nat :: c < |inbox| ==> InboxOk(c))
      && (forall q: nat :: q < |queues| ==> QueueOk(q))
      && (forall m: nat :: m < |msgs| ==> PlaceOk(m) && msgs[m].bh < |holes|)
      && (forall b: nat :: b < |holes| ==> HoleOk(b))
      && (forall t: nat :: t < |threads| ==> ThreadOk(t))
      && (forall b :: b in claims ==> b < |holes| && ClaimOk(b))
    }

    ghost predicate Held(m: MsgId)
      reads this`place
    {
      m < |place| && place[m].InHand?
    }

    // ----- one message moves -----

    /** sendMessage. */
    method SendMessage(to_cap: CapId, m: MsgId)
      requires Valid() && Held(m) && to_cap < |inbox|
      modifies this`inbox, this`place
      ensures Valid() && inbox == old(inbox)[to_cap := [m] + old(inbox)[to_cap]]
      ensures place == old(place)[m := InInbox(to_cap)]
    {
      hide HoleOk;
      inbox := inbox[to_cap := [m] + inbox[to_cap]];
      place := place[m := InInbox(to_cap)];
      forall c: nat | c < |inbox| ensures InboxOk(c) { assert old(InboxOk(c)); }
      forall q: nat | q < |queues| ensures QueueOk(q) { assert old(QueueOk(q)); }
      forall k: nat | k < |msgs| ensures PlaceOk(k) { assert old(PlaceOk(k)); }
      forall t: nat | t < |threads| ensures ThreadOk(t) { assert old(ThreadOk(t)); }
    }

    /** Taking the message at the head of the inbox. */
    method Receive(cap: CapId) returns (m: MsgId)
      requires Valid() && cap < |inbox| && inbox[cap] != []
      modifies this`inbox, this`place
      ensures Valid() && cap < |inbox| && old(inbox)[cap] == [m] + inbox[cap]
      ensures inbox == old(inbox)[cap := inbox[cap]]
      ensures m < |old(place)| && place == old(place)[m := InHand(cap)]
    {
      hide HoleOk;
      assert InboxOk(cap);
      m := inbox[cap][0];
      assert m in inbox[cap];
      var rest := inbox[cap][1..];
      assert inbox[cap] == [m] + rest;
      TailNoDup(m, rest);
      assert forall k :: k in rest ==> k in inbox[cap];
      inbox := inbox[cap := rest];
      place := place[m := InHand(cap)];
      forall c: nat | c < |inbox| ensures InboxOk(c) { assert old(InboxOk(c)); }
      forall q: nat | q < |queues| ensures QueueOk(q) { assert old(QueueOk(q)); }
      forall k: nat | k < |msgs| ensures PlaceOk(k) { assert old(PlaceOk(k)); }
      forall t: nat | t < |threads| ensures ThreadOk(t) { assert old(ThreadOk(t)); }
    }

    /** msg->link = bq->queue; bq->queue = msg. */
    method Enqueue(q: QueueId, m: MsgId)
      requires Valid() && Held(m) && q < |queues| && !queues[q].dead && msgs[m].bh == queues[q].bh
      modifies this`queues, this`place
      ensures Valid() && queues == old(queues)[q := old(queues)[q].(queue := [m] + old(queues)[q].queue)]
      ensures place == old(place)[m := InQueue(q)]
    {
      queues := queues[q := queues[q].(queue := [m] + queues[q].queue)];
      place := place[m := InQueue(q)];
      forall c: nat | c < |inbox| ensures InboxOk(c) { assert old(InboxOk(c)); }
      forall q: nat | q < |queues| ensures QueueOk(q) { assert old(QueueOk(q)); }
      forall k: nat | k < |msgs| ensures PlaceOk(k) { assert old(PlaceOk(k)); }
      forall b: nat | b < |holes| ensures HoleOk(b) { assert old(HoleOk(b)); }
      forall t: nat | t < |threads| ensures ThreadOk(t) { assert old(ThreadOk(t)); }
      forall b | b in claims ensures b < |holes| && ClaimOk(b) { assert old(ClaimOk(b)); }
    }

    /** A BLOCKING_QUEUE for the first thread blocked, linked on its owner and installed in the black hole. */
    method NewQueue(bh: HoleId, owner: ThreadId, m: MsgId)
      requires Valid() && Held(m) && bh < |holes| && owner < |threads| && msgs[m].bh == bh
      requires !holes[bh].kind.Gone? && holes[bh].indirectee == Owner(owner)
      modifies this`queues, this`threads, this`holes, this`place
      ensures Valid() && queues == old(queues) + [Queue(bh, [m], owner, false)]
      ensures threads == old(threads)[owner := old(threads)[owner].(bq := [|old(queues)|] + old(threads)[owner].bq)]
      ensures holes == old(holes)[bh := old(holes)[bh].(indirectee := Blocked(|old(queues)|))]
      ensures place == old(place)[m := InQueue(|old(queues)|)]
    {
      var q := |queues|;
      queues := queues + [Queue(bh, [m], owner, false)];
      threads := threads[owner := threads[owner].(bq := [q] + threads[owner].bq)];
      holes := holes[bh := holes[bh].(indirectee := Blocked(q))];
      place := place[m := InQueue(q)];
      forall c: nat | c < |inbox| ensures InboxOk(c) { assert old(InboxOk(c)); }
      forall q: nat | q < |queues| ensures QueueOk(q) {
        if q < |old(queues)| { assert old(QueueOk(q)); }
      }
      forall k: nat | k < |msgs| ensures PlaceOk(k) { assert old(PlaceOk(k)); }
      forall b: nat | b < |holes| ensures HoleOk(b) { assert old(HoleOk(b)); }
      forall t: nat | t < |threads| ensures ThreadOk(t) { assert old(ThreadOk(t)); }
      forall b | b in claims ensures b < |holes| && ClaimOk(b) { assert old(ClaimOk(b)); }
    }

    // ----- messageBlackHole -----

    /** The queue installed in the black hole is dead. */
    ghost predicate InstalledDead(b: HoleId)
      requires b < |holes|
      reads this`holes, this`queues
    {
      !holes[b].kind.Gone? && holes[b].indirectee.Blocked? && holes[b].indirectee.q < |queues|
      && queues[holes[b].indirectee.q].dead
    }

    /** One pass of blackHoleOwner. */
    function BlackHoleOwner(bh: HoleId): (r: Answer)
      requires Valid() && bh < |holes|
      reads this
      ensures r.OwnedBy? ==> r.t < |threads|
      ensures r.Unowned? <==> holes[bh].kind.Gone? || holes[bh].indirectee.Result?
      ensures r.ReadAgain? <==> InstalledDead(bh)
      ensures !holes[bh].kind.Gone? ==>
        match holes[bh].indirectee
        case Owner(t) => r == OwnedBy(t)
        case Blocked(q) => q < |queues| && (!queues[q].dead ==> r == OwnedBy(queues[q].owner))
        case Result => true
    {
      assert HoleOk(bh);
      if holes[bh].kind.Gone? then Unowned else
      match holes[bh].indirectee
      case Owner(t) => OwnedBy(t)
      case Blocked(q) => assert QueueOk(q); if queues[q].dead then ReadAgain else OwnedBy(queues[q].owner)
      case Result => Unowned
    }

    /** Everything messageBlackHole may do to queues: add one message to one queue, or one queue. */
    twostate predicate Extended(x: (CapId, MsgId))
      reads this
    {
      var (cap, m) := x;
      |old(queues)| <= |queues| && |threads| == |old(threads)|
      && (forall t: nat :: t < |threads| ==> threads[t].cap == old(threads)[t].cap)
      && (forall q: nat :: q < |queues| && (q < |old(queues)| ==> queues[q] != old(queues)[q]) ==>
            && queues[q].owner < |threads| && threads[queues[q].owner].cap == cap
            && queues[q].queue == [m] + (if q < |old(queues)| then old(queues)[q].queue else [])
            && (q < |old(queues)| ==> queues[q] == old(queues)[q].(queue := queues[q].queue)))
    }

    /** The owner that a black hole names, itself or in its live queue. */
    ghost predicate Names(bh: HoleId, owner: ThreadId)
      requires bh < |holes|
      reads this`holes, this`queues
    {
      && !holes[bh].kind.Gone?
      && (holes[bh].indirectee == Owner(owner)
          || (&& holes[bh].indirectee.Blocked? && holes[bh].indirectee.q < |queues|
              && var k := queues[holes[bh].indirectee.q]; !k.dead && k.owner == owner))
    }

    /** The message is forwarded to the capability home, and nothing else happens. */
    twostate predicate Forwarded(x: (MsgId, CapId))
      reads this
    {
      var (m, home) := x;
      && home < |old(inbox)| && inbox == old(inbox)[home := [m] + old(inbox)[home]]
      && m < |old(place)| && place == old(place)[m := InInbox(home)]
      && queues == old(queues) && threads == old(threads) && holes == old(holes)
    }

    /** The message is the first in the queue of the black hole: a new queue of the thread that had claimed it, or the
        queue there was. */
    twostate predicate Queued(x: (MsgId, HoleId))
      requires x.1 < |old(holes)|
      reads this
    {
      var (m, bh) := x;
      && inbox == old(inbox) && |holes| == |old(holes)| && holes[bh].indirectee.Blocked?
      && var q := holes[bh].indirectee.q;
         && q < |queues| && !queues[q].dead && queues[q].bh == bh
         && m < |old(place)| && place == old(place)[m := InQueue(q)]
         && match old(holes)[bh].indirectee
            case Owner(t) =>
              && |queues| == q + 1 == |old(queues)| + 1 && queues[q].queue == [m] && queues[q].owner == t
              && t < |old(threads)| && threads == old(threads)[t := old(threads)[t].(bq := [q] + old(threads)[t].bq)]
              && holes == old(holes)[bh := old(holes)[bh].(indirectee := Blocked(q))]
            case Blocked(p) =>
              && p == q && |queues| == |old(queues)| && queues[q].owner == old(queues)[q].owner
              && queues[q].queue == [m] + old(queues)[q].queue
              && threads == old(threads) && holes == old(holes)
            case Result => false
    }

    /** The message waits where the owner of its black hole lives: in the inbox there, or in the hole's queue. */
    twostate predicate Waits(x: (CapId, MsgId))
      requires old(Valid()) && x.1 < |old(msgs)|
      reads this
    {
      var (cap, m) := x;
      var bh := old(msgs)[m].bh;
      assert old(PlaceOk(m));
      exists owner: ThreadId :: old(Names(bh, owner)) && owner < |old(threads)| &&
        var home := old(threads)[owner].cap;
        if home != cap then Forwarded((m, home)) else Queued((m, bh))
    }

    /**
     One pass of messageBlackHole; Again is the jump back to loop, taken when the installed queue is dead.
     The message ends where the owner of the black hole says.
     */
    method MessageBlackHole(cap: CapId, m: MsgId) returns (r: Verdict)
      requires Valid() && Held(m) && place[m] == InHand(cap) && cap < |inbox|
      modifies this
      ensures Valid() && Extended((cap, m)) && msgs == old(msgs)
      ensures claims == old(claims) && msgs[m].bh < |old(holes)|
      ensures r == NotBlocked <==> old(holes)[msgs[m].bh].kind.Gone? || old(holes)[msgs[m].bh].indirectee.Result?
      ensures r == Again <==> old(InstalledDead(msgs[m].bh))
      ensures !r.StillBlocked? ==> place == old(place) && queues == old(queues) && threads == old(threads)
                                   && holes == old(holes) && inbox == old(inbox)
      ensures r.StillBlocked? ==> Waits((cap, m))
    {
      var bh := msgs[m].bh;
      assert PlaceOk(m) && HoleOk(bh);
      if holes[bh].kind.Gone? {
        return NotBlocked;
      }
      match holes[bh].indirectee {
        case Owner(owner) =>
          assert ThreadOk(owner);
          assert Names(bh, owner);
          if threads[owner].cap != cap {
            SendMessage(threads[owner].cap, m);
          } else {
            NewQueue(bh, owner, m);
          }
          return StillBlocked;
        case Blocked(q) =>
          assert QueueOk(q);
          if queues[q].dead {
            return Again;
          }
          var owner := queues[q].owner;
          assert ThreadOk(owner) && Names(bh, owner);
          if threads[owner].cap != cap {
            SendMessage(threads[owner].cap, m);
          } else {
            Enqueue(q, m);
          }
          return StillBlocked;
        case Result =>
          return NotBlocked;
      }
    }

    /** executeMessage on a MSG_BLACKHOLE, or on what is left of a revoked one. */
    method ExecuteMessage(cap: CapId, m: MsgId) returns (r: Verdict)
      requires Valid() && Held(m) && place[m] == InHand(cap) && cap < |inbox|
      modifies this
      ensures Valid() && Extended((cap, m)) && msgs == old(msgs)
      ensures msgs[m].revoked ==> r == NotBlocked && place == old(place)[m := Dropped]
      ensures claims == old(claims)
      ensures !msgs[m].revoked ==>
        match old(BlackHoleOwner(msgs[m].bh))
        case Unowned => r == NotBlocked && place == old(place)[m := Woken]
        case ReadAgain => r == Again
        case OwnedBy(_) => r == StillBlocked && Waits((cap, m))
      ensures !r.StillBlocked? ==>
          queues == old(queues) && threads == old(threads) && holes == old(holes) && inbox == old(inbox)
      ensures r == Again <==> place == old(place)
      ensures forall k :: 0 <= k < |msgs| && k != m ==> place[k] == old(place)[k]
    {
      if msgs[m].revoked {
        r := NotBlocked;
        Finish(m, Dropped);
      } else {
        r := MessageBlackHole(cap, m);
        if r == NotBlocked {
          Finish(m, Woken);
        }
      }
    }

    /** The message is done with. */
    method Finish(m: MsgId, ghost p: Place)
      requires Valid() && Held(m) && (p == Woken || p == Dropped)
      modifies this`place
      ensures Valid() && place == old(place)[m := p]
    {
      place := place[m := p];
      forall c: nat | c < |inbox| ensures InboxOk(c) { assert old(InboxOk(c)); }
      forall q: nat | q < |queues| ensures QueueOk(q) { assert old(QueueOk(q)); }
      forall k: nat | k < |msgs| ensures PlaceOk(k) { assert old(PlaceOk(k)); }
    }

    // ----- updating a thunk -----

    /**
     Nothing happens to queues but that some die, and with them exactly their messages are settled:
     the thread of each is woken, or the message had been revoked.
     */
    twostate predicate OnlyKilled()
      reads this
    {
      && |queues| == |old(queues)| && |place| == |old(place)| == |msgs|
      && (forall q: nat :: q < |queues| ==> queues[q] == old(queues)[q] || queues[q] == old(queues)[q].(dead := true))
      && (forall m: nat :: m < |place| && old(place)[m].InQueue? ==>
            && old(place)[m].q < |queues|
            && place[m] == if !queues[old(place)[m].q].dead then old(place)[m]
                           else if msgs[m].revoked then Dropped else Woken)
      && (forall m: nat :: m < |place| && !old(place)[m].InQueue? ==> place[m] == old(place)[m])
    }

    /** wakeBlockingQueue. */
    method WakeBlockingQueue(q: QueueId)
      requires Valid() && q < |queues| && !queues[q].dead
      requires forall b: nat :: b < |holes| && holes[b].kind.Plain? ==> holes[b].indirectee != Blocked(q)
      modifies this`queues, this`place
      ensures Valid() && OnlyKilled() && queues == old(queues)[q := old(queues)[q].(dead := true)]
      ensures forall m :: m in queues[q].queue ==> m < |place| && place[m] == if msgs[m].revoked then Dropped else Woken
    {
      assert QueueOk(q);
      var i := 0;
      while i < |queues[q].queue|
        invariant queues == old(queues) && 0 <= i <= |queues[q].queue| && |place| == |msgs|
        invariant forall m: nat :: m < |place| ==>
          place[m] == if m !in queues[q].queue[..i] then old(place)[m] else if msgs[m].revoked then Dropped else Woken
      {
        var m := queues[q].queue[i];
        assert m in queues[q].queue;
        assert old(QueueOk(q));
        if msgs[m].revoked {
          place := place[m := Dropped];
        } else {
          place := place[m := Woken];
        }
        i := i + 1;
      }
      assert queues[q].queue[..i] == queues[q].queue;
      queues := queues[q := queues[q].(dead := true)];
      forall m: nat | m < |msgs| ensures old(place)[m] == InQueue(q) <==> m in queues[q].queue
        ensures PlaceOk(m)
      { assert old(PlaceOk(m)); }
      forall c: nat | c < |inbox| ensures InboxOk(c) { assert old(InboxOk(c)); }
      forall q: nat | q < |queues| ensures QueueOk(q) { assert old(QueueOk(q)); }
      forall b: nat | b < |holes| ensures HoleOk(b) { assert old(HoleOk(b)); }
      forall t: nat | t < |threads| ensures ThreadOk(t) { assert old(ThreadOk(t)); }
      forall b | b in claims ensures b < |holes| && ClaimOk(b) { assert old(ClaimOk(b)); }
    }

    /** A plain black hole points to the queue. */
    ghost predicate Installed(q: QueueId)
      requires q < |queues|
      reads this`queues, this`holes
    {
      queues[q].bh < |holes| && holes[queues[q].bh] == Hole(Plain, Blocked(q))
    }

    /** A live queue is an orphan to checkBlockingQueues unless a plain black hole still points to it. */
    ghost predicate Orphan(q: QueueId)
      requires q < |queues|
      reads this`queues, this`holes
    {
      !queues[q].dead && !Installed(q)
    }

    /** checkBlockingQueues: of the thread's queues exactly the orphans are woken, and none is left. */
    method CheckBlockingQueues(t: ThreadId)
      requires Valid() && t < |threads|
      modifies this`queues, this`place
      ensures Valid() && OnlyKilled()
      ensures forall q: nat :: q < |queues| ==> (queues[q] != old(queues)[q] <==> q in threads[t].bq && old(Orphan(q)))
      ensures forall q :: q in threads[t].bq ==> q < |queues| && !Orphan(q)
    {
      var bq := threads[t].bq;
      assert ThreadOk(t);
      NoneKilled();
      var i := 0;
      while i < |bq|
        invariant 0 <= i <= |bq| && Valid() && OnlyKilled()
        invariant forall q: nat :: q < |queues| ==> (queues[q] != old(queues)[q] <==> q in bq[..i] && old(Orphan(q)))
      {
        var q := bq[i];
        assert q in threads[t].bq;
        assert QueueOk(q);
        if !queues[q].dead {
          var h := holes[queues[q].bh];
          if !h.kind.Plain? || h.indirectee != Blocked(q) {
            assert forall b: nat :: b < |holes| && holes[b].kind.Plain? && holes[b].indirectee == Blocked(q) ==>
                HoleOk(b);
            WakeBlockingQueue(q);
          }
        }
        i := i + 1;
      }
      assert bq[..i] == bq;
    }

    /** The live queue q is installed in the black hole b. */
    ghost predicate Alive(b: HoleId, q: QueueId)
      requires b < |holes| && q < |queues|
      reads this`holes, this`queues
    {
      !holes[b].kind.Gone? && holes[b].indirectee == Blocked(q) && !queues[q].dead
    }

    /** t updates a black hole that another thread has claimed, or whose queue belongs to another or is dead, or that
        has a value. */
    ghost predicate Collision(t: ThreadId, thunk: HoleId)
      requires thunk < |holes|
      reads this`holes, this`queues
    {
      && !holes[thunk].kind.Gone?
      && match holes[thunk].indirectee
         case Owner(u) => u != t
         case Blocked(q) => q < |queues| && (queues[q].dead || queues[q].owner != t)
         case Result => true
    }

    /** In a collision exactly the thread's orphans die; without one exactly the queue installed in the thunk, if there
        is one. */
    twostate predicate Kills(x: (ThreadId, HoleId))
      requires x.0 < |threads| && x.1 < |old(holes)|
      reads this
    {
      var (t, thunk) := x;
      && |queues| == |old(queues)|
      && forall q: nat :: q < |queues| ==>
           (queues[q] != old(queues)[q] <==>
              if old(Collision(t, thunk)) then q in threads[t].bq && !old(queues)[q].dead && !Installed(q)
              else !old(holes)[thunk].kind.Gone? && old(holes)[thunk].indirectee == Blocked(q))
    }

    /** So a live queue installed in another black hole dies exactly when the thread owns it, the hole is a special
        one, and there is a collision. */
    twostate lemma OtherHoles(x: (ThreadId, HoleId))
      requires old(Valid()) && Valid() && x.0 < |threads| && x.1 < |old(holes)| && threads == old(threads)
      requires OnlyKilled() && holes == old(holes)[x.1 := Hole(Plain, Result)] && Kills(x)
      ensures forall b: nat, q: nat :: b < |holes| && b != x.1 && q < |queues| && old(Alive(b, q)) ==>
                (queues[q].dead <==>
                   queues[q].owner == x.0 && old(holes)[b].kind.Special? && old(Collision(x.0, x.1)))
    {
      hide InboxOk, PlaceOk, ClaimOk;
      assert old(HoleOk(x.1)) && ThreadOk(x.0);
      forall b: nat, q: nat | b < |holes| && b != x.1 && q < |queues| && old(Alive(b, q))
        ensures queues[q].dead <==>
                  queues[q].owner == x.0 && old(holes)[b].kind.Special? && old(Collision(x.0, x.1))
      {
        assert old(HoleOk(b)) && old(QueueOk(q));
      }
    }

    /** Messages for b wait only in queues made before it was claimed. */
    ghost predicate NoneWaits(b: HoleId)
      requires b in claims
      reads this
    {
      && (forall q: nat :: claims[b].since <= q < |queues| && queues[q].bh == b ==> queues[q].dead)
      && (forall m: nat :: m < |place| == |msgs| && place[m].InQueue? && msgs[m].bh == b ==>
            place[m].q < claims[b].since)
    }

    /** And when the thread that claimed the black hole updates it, no queue made since then for it stays alive. */
    twostate lemma ClaimEnds(x: (ThreadId, HoleId))
      requires old(Valid()) && Valid() && x.0 < |threads| && x.1 < |old(holes)| && threads == old(threads)
      requires OnlyKilled() && holes == old(holes)[x.1 := Hole(Plain, Result)] && Kills(x) && claims == old(claims)
      requires x.1 in claims && claims[x.1].t == x.0
      ensures NoneWaits(x.1)
    {
      hide InboxOk;
      OwnersKnown(x.0);
      assert old(ClaimOk(x.1)) && ClaimOk(x.1);
      forall m: nat | m < |place| && place[m].InQueue? && msgs[m].bh == x.1
        ensures place[m].q < claims[x.1].since
      { assert PlaceOk(m) && QueueOk(place[m].q); }
    }

    /**
     updateThunk.  No message is lost: a queue that dies wakes all its threads.  If the thread is the one that claimed
     the thunk, every message put in a queue for the thunk since then has been settled, whoever else has updated it.
     */
    method UpdateThunk(t: ThreadId, thunk: HoleId)
      requires Valid() && t < |threads| && thunk < |holes|
      modifies this`holes, this`queues, this`place
      ensures Valid() && OnlyKilled() && holes == old(holes)[thunk := Hole(Plain, Result)]
      ensures Kills((t, thunk))
      ensures forall b: nat, q: nat :: b < |holes| && b != thunk && q < |queues| && old(Alive(b, q)) ==>
                (queues[q].dead <==> queues[q].owner == t && old(holes)[b].kind.Special? && old(Collision(t, thunk)))
      ensures thunk in claims && claims[thunk].t == t ==> NoneWaits(thunk)
    {
      hide *;
      Update(t, thunk);
      OtherHoles((t, thunk));
      if thunk in claims && claims[thunk].t == t {
        ClaimEnds((t, thunk));
      }
    }

    method Update(t: ThreadId, thunk: HoleId)
      requires Valid() && t < |threads| && thunk < |holes|
      modifies this`holes, this`queues, this`place
      ensures Valid() && OnlyKilled() && holes == old(holes)[thunk := Hole(Plain, Result)]
      ensures Kills((t, thunk))
    {
      hide InboxOk, PlaceOk, ClaimOk;
      NoneKilled();
      OwnersKnown(t);
      assert HoleOk(thunk);
      forall b: nat, q: nat | b < |holes| && holes[b].indirectee == Blocked(q) && !holes[b].kind.Gone?
        ensures q < |queues| && queues[q].bh == b
      { assert HoleOk(b); }
      var h := holes[thunk];
      if h.kind.Gone? {
        UpdateWithIndirection(thunk);
        return;
      }
      var v := h.indirectee;
      UpdateWithIndirection(thunk);
      if v == Owner(t) {
        return;
      }
      if !v.Blocked? {
        CheckBlockingQueues(t);
        return;
      }
      assert QueueOk(v.q);
      if queues[v.q].dead {      // an IND by now
        CheckBlockingQueues(t);
        return;
      }
      var owner := queues[v.q].owner;
      if owner != t {
        CheckBlockingQueues(t);
      } else {
        forall b: nat | b < |holes| && holes[b].kind.Plain? ensures holes[b].indirectee != v {
          assert old(HoleOk(b));
        }
        WakeBlockingQueue(v.q);
      }
    }

    lemma NoneKilled()
      requires Valid()
      ensures forall m: nat :: m < |place| && place[m].InQueue? ==> place[m].q < |queues| && !queues[place[m].q].dead
    {
      forall m: nat | m < |place| && place[m].InQueue?
        ensures place[m].q < |queues| && !queues[place[m].q].dead
      { assert PlaceOk(m); }
    }

    /** The list of a thread holds the live queues it owns. */
    lemma OwnersKnown(t: ThreadId)
      requires Valid() && t < |threads|
      ensures forall q: nat :: q < |queues| && !queues[q].dead ==> (q in threads[t].bq <==> queues[q].owner == t)
    {
      assert ThreadOk(t);
      forall q: nat | q < |queues| && !queues[q].dead
        ensures q in threads[t].bq <==> queues[q].owner == t
      { assert QueueOk(q); }
    }

    /** updateWithIndirection. */
    method UpdateWithIndirection(thunk: HoleId)
      requires Valid() && thunk < |holes|
      modifies this`holes
      ensures Valid() && holes == old(holes)[thunk := Hole(Plain, Result)]
    {
      holes := holes[thunk := Hole(Plain, Result)];
      forall q: nat | q < |queues| ensures QueueOk(q) { assert old(QueueOk(q)); }
      forall b: nat | b < |holes| ensures HoleOk(b) { assert old(HoleOk(b)); }
      forall b | b in claims ensures b < |holes| && ClaimOk(b) { assert old(ClaimOk(b)); }
    }

    // ----- the other steps -----

    /** A thread enters a black hole and makes a message of it. */
    method NewMessage(cap: CapId, tso: ThreadId, bh: HoleId) returns (m: MsgId)
      requires Valid() && cap < |inbox| && tso < |threads| && bh < |holes|
      modifies this`msgs, this`place
      ensures Valid() && m == |old(msgs)| && msgs == old(msgs) + [Msg(tso, bh, false)]
      ensures place == old(place) + [InHand(cap)]
    {
      m := |msgs|;
      msgs := msgs + [Msg(tso, bh, false)];
      place := place + [InHand(cap)];
      forall c: nat | c < |inbox| ensures InboxOk(c) { assert old(InboxOk(c)); }
      forall q: nat | q < |queues| ensures QueueOk(q) { assert old(QueueOk(q)); }
      forall k: nat | k < |msgs| ensures PlaceOk(k) && msgs[k].bh < |holes| {
        if k < m { assert old(PlaceOk(k)); }
      }
    }

    /** An exception takes the thread off the black hole: its message is overwritten where it is. */
    method Revoke(m: MsgId)
      requires Valid() && m < |msgs|
      modifies this`msgs
      ensures Valid() && msgs == old(msgs)[m := old(msgs)[m].(revoked := true)]
    {
      msgs := msgs[m := msgs[m].(revoked := true)];
      forall q: nat | q < |queues| ensures QueueOk(q) { assert old(QueueOk(q)); }
      forall k: nat | k < |msgs| ensures PlaceOk(k) { assert old(PlaceOk(k)); }
    }

    /** A thread marks a thunk as its own, perhaps over the claim or the queue of another. */
    method Claim(b: HoleId, kind: HoleKind, t: ThreadId)
      requires Valid() && b < |holes| && t < |threads|
      modifies this`holes, this`claims
      ensures Valid() && holes == old(holes)[b := Hole(kind, Owner(t))]
      ensures claims == old(claims)[b := Claimant(t, |queues|)]
    {
      holes := holes[b := Hole(kind, Owner(t))];
      claims := claims[b := Claimant(t, |queues|)];
      forall q: nat | q < |queues| ensures QueueOk(q) { assert old(QueueOk(q)); }
      forall b: nat | b < |holes| ensures HoleOk(b) { assert old(HoleOk(b)); }
      forall d | d in claims ensures d < |holes| && ClaimOk(d) {
        if d != b { assert old(ClaimOk(d)); }
      }
    }

    /** migrateThread. */
    method Migrate(t: ThreadId, to: CapId)
      requires Valid() && t < |threads| && to < |inbox|
      modifies this`threads
      ensures Valid() && threads == old(threads)[t := old(threads)[t].(cap := to)]
    {
      threads := threads[t := threads[t].(cap := to)];
      forall q: nat | q < |queues| ensures QueueOk(q) { assert old(QueueOk(q)); }
      forall b: nat | b < |holes| ensures HoleOk(b) { assert old(HoleOk(b)); }
      forall t: nat | t < |threads| ensures ThreadOk(t) { assert old(ThreadOk(t)); }
    }

    // ----- what the invariant says -----

    /** A message waits in one inbox or in one live queue, once, or else it is in hand, woken or dropped. */
    lemma InOnePlace(m: MsgId)
      requires Valid() && m < |msgs|
      ensures forall c: nat :: c < |inbox| ==> NoDup(inbox[c]) && (m in inbox[c] <==> place[m] == InInbox(c))
      ensures forall q: nat :: q < |queues| && !queues[q].dead ==>
                NoDup(queues[q].queue) && (m in queues[q].queue <==> place[m] == InQueue(q))
      ensures place[m].InInbox? ==> place[m].cap < |inbox|
      ensures place[m].InQueue? ==> place[m].q < |queues| && !queues[place[m].q].dead
    {
      assert PlaceOk(m);
      forall c: nat | c < |inbox|
        ensures NoDup(inbox[c]) && (m in inbox[c] <==> place[m] == InInbox(c))
      { assert InboxOk(c); }
      forall q: nat | q < |queues| && !queues[q].dead
        ensures NoDup(queues[q].queue) && (m in queues[q].queue <==> place[m] == InQueue(q))
      { assert QueueOk(q); }
    }

    /** An installed queue names its black hole and is on the list of its owner; in a plain one it is alive. */
    lemma InstalledNames(b: HoleId)
      requires Valid() && b < |holes| && !holes[b].kind.Gone? && holes[b].indirectee.Blocked?
      ensures holes[b].indirectee.q < |queues|
      ensures var k := queues[holes[b].indirectee.q];
        k.bh == b && (!k.dead ==> k.owner < |threads| && holes[b].indirectee.q in threads[k.owner].bq)
      ensures holes[b].kind.Plain? ==> !queues[holes[b].indirectee.q].dead
    {
      assert HoleOk(b);
      assert QueueOk(holes[b].indirectee.q);
    }
  }

  /**
   A live queue can die while a CAF still points to it: checkBlockingQueues takes every black hole but the
   plain ones for updated.  The next thread to block on the CAF then goes round the loop of messageBlackHole.
   */
  method DeadInCaf() returns (r: Verdict)
    ensures r == Again
  {
    hide Scheduler.InboxOk, Scheduler.QueueOk, Scheduler.PlaceOk, Scheduler.ThreadOk, Scheduler.HoleOk;
    hide Scheduler.ClaimOk, Scheduler.Extended, Scheduler.BlackHoleOwner, Scheduler.Valid;
    hide Scheduler.Kills;
    var s := new Scheduler([Thread(0, []), Thread(0, [])], [Hole(Special, Owner(0)), Hole(Plain, Owner(1))], 1);
    var m := s.NewMessage(0, 1, 0);
    r := s.MessageBlackHole(0, m);
    assert s.holes[0] == Hole(Special, Blocked(0)) && s.threads[0].bq == [0] && !s.queues[0].dead;
    s.UpdateThunk(0, 1);
    assert 0 in s.threads[0].bq && s.queues[0].dead;
    var n := s.NewMessage(0, 1, 0);
    r := s.MessageBlackHole(0, n);
  }
}
