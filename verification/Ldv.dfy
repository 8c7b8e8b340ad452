/**
 The lag, drag and void accounts of biographical heap profiles, after kernel/rts/ProfHeap.c and LdvProfile.c: what
 LDV_recordDead books at deaths, what aggregateCensusInfo makes of it and what dumpCensus prints.
 */
module Ldv {
  import opened Base

  type Id = nat

  /** The LDV word of a closure: created in an era and never used, or last used in one. */
  datatype Ldvw = Created(create: nat) | Used(create: nat, last: nat)

  /** A closure of the given size and identity that died in an era. */
  datatype Death = Death(id: Id, size: nat, ldvw: Ldvw, era: nat)

  datatype Kind = Void | Drag

  // ----- what is meant -----

  /** The first census that finds the closure void, or dragged. */
  function Lo(k: Kind, d: Death): nat {
    match k case Void => if d.ldvw.Created? then d.ldvw.create else d.era
            case Drag => if d.ldvw.Used? then d.ldvw.last + 1 else d.era
  }

  /** Census t is taken while the closure, dead later, is void or dragged. */
  predicate Counts(k: Kind, d: Death, t: nat) {
    Lo(k, d) <= t < d.era
  }

  /** All closures, or those of one identity. */
  predicate Picks(who: Option<Id>, d: Death) {
    who.None? || who.value == d.id
  }

  /** The total size of the recorded closures that are void, or dragged, at census t. */
  function Live(k: Kind, log: seq<Death>, who: Option<Id>, t: nat): (n: nat) {
    if log == [] then 0 else
      (if Picks(who, log[0]) && Counts(k, log[0], t) then log[0].size else 0) + Live(k, log[1..], who, t)
  }

  /** The total size of those that were so from before the first census, which is number 1. */
  function Early(k: Kind, log: seq<Death>, who: Option<Id>): (n: nat) {
    if log == [] then 0 else
      (if Picks(who, log[0]) && Counts(k, log[0], 0) then log[0].size else 0) + Early(k, log[1..], who)
  }

  // ----- what is booked -----

  /** A death books its size to the first census it counts in, and takes it off the census of its own era. */
  function Delta(k: Kind, d: Death, t: nat): int {
    if Lo(k, d) < d.era then (if t == Lo(k, d) then d.size else 0) - (if t == d.era then d.size else 0) else 0
  }

  function Booked(k: Kind, log: seq<Death>, who: Option<Id>, t: nat): int {
    if log == [] then 0 else (if Picks(who, log[0]) then Delta(k, log[0], t) else 0) + Booked(k, log[1..], who, t)
  }

  /** What the censuses 1 to t have been booked. */
  function Running(k: Kind, log: seq<Death>, who: Option<Id>, t: nat): int {
    if t == 0 then 0 else Running(k, log, who, t - 1) + Booked(k, log, who, t)
  }

  lemma {:induction false} BookedSnoc(k: Kind, log: seq<Death>, who: Option<Id>, d: Death, t: nat)
    ensures Booked(k, log + [d], who, t) == Booked(k, log, who, t) + if Picks(who, d) then Delta(k, d, t) else 0
  {
    if log == [] {
      assert log + [d] == [d] && [d][1..] == [];
    } else {
      BookedSnoc(k, log[1..], who, d, t);
      assert (log + [d])[1..] == log[1..] + [d];
    }
  }

  /** Nothing is booked to a census before it can be. */
  lemma {:induction false} BookedNone(k: Kind, log: seq<Death>, who: Option<Id>, t: nat)
    requires forall d :: d in log ==> d.era < t
    ensures Booked(k, log, who, t) == 0
  {
    if log != [] {
      assert log[0] in log;
      BookedNone(k, log[1..], who, t);
    }
  }

  /** One death telescopes. */
  function DeltaSum(k: Kind, d: Death, t: nat): (r: int)
    ensures r == (if Counts(k, d, t) then d.size else 0) - (if Counts(k, d, 0) then d.size else 0)
  {
    if t == 0 then 0 else DeltaSum(k, d, t - 1) + Delta(k, d, t)
  }

  lemma {:induction false} RunningSplit(k: Kind, log: seq<Death>, who: Option<Id>, t: nat)
    requires log != []
    ensures Running(k, log, who, t)
        == (if Picks(who, log[0]) then DeltaSum(k, log[0], t) else 0) + Running(k, log[1..], who, t)
  {
    if t > 0 { RunningSplit(k, log, who, t - 1); }
  }

  lemma {:induction false} RunningNone(k: Kind, who: Option<Id>, t: nat)
    ensures Running(k, [], who, t) == 0
  {
    if t > 0 { RunningNone(k, who, t - 1); }
  }

  /** The running total of what was booked is what is void or dragged, but for what was so before census 1. */
  lemma {:induction false} Telescopes(k: Kind, log: seq<Death>, who: Option<Id>, t: nat)
    ensures Running(k, log, who, t) == Live(k, log, who, t) - Early(k, log, who)
  {
    if log == [] {
      RunningNone(k, who, t);
    } else {
      RunningSplit(k, log, who, t);
      Telescopes(k, log[1..], who, t);
    }
  }

  /** So it is exact if and only if nothing recorded was void before census 1; a drag never is. */
  lemma {:induction false} ExactIff(k: Kind, log: seq<Death>, who: Option<Id>, t: nat)
    ensures Running(k, log, who, t) == Live(k, log, who, t) <==>
      forall d :: d in log && Picks(who, d) && Counts(k, d, 0) ==> d.size == 0
    ensures k == Drag ==> Running(k, log, who, t) == Live(k, log, who, t)
  {
    Telescopes(k, log, who, t);
    NoneEarly(k, log, who);
  }

  lemma {:induction false} NoneEarly(k: Kind, log: seq<Death>, who: Option<Id>)
    ensures Early(k, log, who) == 0 <==> forall d :: d in log && Picks(who, d) && Counts(k, d, 0) ==> d.size == 0
    ensures k == Drag ==> Early(k, log, who) == 0
  {
    if log != [] {
      NoneEarly(k, log[1..], who);
      assert log[0] in log;
      assert log == [log[0]] + log[1..];
    }
  }

  lemma {:induction false} LiveSnoc(k: Kind, log: seq<Death>, who: Option<Id>, d: Death, t: nat)
    ensures Live(k, log + [d], who, t) == Live(k, log, who, t) + if Picks(who, d) && Counts(k, d, t) then d.size else 0
  {
    if log == [] {
      assert log + [d] == [d] && [d][1..] == [];
    } else {
      LiveSnoc(k, log[1..], who, d, t);
      assert (log + [d])[1..] == log[1..] + [d];
    }
  }

  lemma {:induction false} LiveNone(k: Kind, log: seq<Death>, who: Option<Id>, t: nat)
    requires forall d :: d in log && Picks(who, d) ==> !Counts(k, d, t)
    ensures Live(k, log, who, t) == 0
  {
    if log != [] {
      assert log[0] in log;
      LiveNone(k, log[1..], who, t);
    }
  }

  // ----- the heap -----

  /** A closure in the heap; size is without the profiling header.  Only those that satisfy the selectors are counted;
      those of primitive types are inherently used, and no deaths of theirs are recorded. */
  datatype Object = Object(id: Id, size: nat, ldvw: Ldvw, satisfies: bool, prim: bool)

  /** The closure, should it never be used again, is void or dragged at census t. */
  predicate Idle(k: Kind, o: Object, who: Option<Id>, t: nat) {
    && o.satisfies && !o.prim && (who.None? || who.value == o.id)
    && match k case Void => o.ldvw.Created? && o.ldvw.create <= t
               case Drag => o.ldvw.Used? && o.ldvw.last < t
  }

  function Still(k: Kind, heap: seq<Object>, who: Option<Id>, t: nat): (n: nat) {
    if heap == [] then 0 else (if Idle(k, heap[0], who, t) then heap[0].size else 0) + Still(k, heap[1..], who, t)
  }

  lemma {:induction false} StillAppend(k: Kind, a: seq<Object>, b: seq<Object>, who: Option<Id>, t: nat)
    ensures Still(k, a + b, who, t) == Still(k, a, who, t) + Still(k, b, who, t)
  {
    if a == [] {
      assert a + b == b;
    } else {
      StillAppend(k, a[1..], b, who, t);
      assert (a + b)[1..] == a[1..] + b;
    }
  }

  lemma StillSnoc(k: Kind, a: seq<Object>, o: Object, who: Option<Id>, t: nat)
    ensures Still(k, a + [o], who, t) == Still(k, a, who, t) + if Idle(k, o, who, t) then o.size else 0
  {
    StillAppend(k, a, [o], who, t);
    assert [o][1..] == [];
  }

  lemma {:induction false} StillLater(k: Kind, heap: seq<Object>, who: Option<Id>, t: nat)
    ensures Still(k, heap, who, t) <= Still(k, heap, who, t + 1)
  {
    if heap != [] { StillLater(k, heap[1..], who, t); }
  }

  /** Taking a closure out of the heap. */
  lemma StillRemoved(k: Kind, heap: seq<Object>, i: nat, who: Option<Id>, t: nat)
    requires i < |heap|
    ensures Still(k, heap, who, t)
         == Still(k, heap[..i] + heap[i + 1..], who, t) + if Idle(k, heap[i], who, t) then heap[i].size else 0
  {
    assert heap == heap[..i] + [heap[i]] + heap[i + 1..];
    StillAppend(k, heap[..i] + [heap[i]], heap[i + 1..], who, t);
    StillSnoc(k, heap[..i], heap[i], who, t);
    StillAppend(k, heap[..i], heap[i + 1..], who, t);
  }

  /** Changing one where it is. */
  lemma StillChanged(k: Kind, heap: seq<Object>, i: nat, o: Object, who: Option<Id>, t: nat)
    requires i < |heap| && !Idle(k, o, who, t)
    ensures Still(k, heap[i := o], who, t) <= Still(k, heap, who, t)
  {
    StillRemoved(k, heap, i, who, t);
    StillRemoved(k, heap[i := o], i, who, t);
    assert heap[i := o][..i] == heap[..i] && heap[i := o][i + 1..] == heap[i + 1..];
  }

  // ----- the censuses -----

  datatype Ctr = Ctr(prim: int, not_used: int, used: int, void_total: int, drag_total: int)

  /** The counts of the plain profile, and the counters of the profile by another key restricted by biography. */
  datatype Census = Census(plain: Ctr, hash: map<Id, Ctr>)

  /** initLDVCtr. */
  const ZERO := Ctr(0, 0, 0, 0, 0)
  const EMPTY := Census(ZERO, map[])

  /** What has been booked as void or dragged. */
  function Of(k: Kind, c: Ctr): int {
    if k == Void then c.void_total else c.drag_total
  }

  /** What was found never used, or used. */
  function Found(k: Kind, c: Ctr): int {
    if k == Void then c.not_used else c.used
  }

  function CtrOf(hash: map<Id, Ctr>, id: Id): Ctr {
    if id in hash then hash[id] else ZERO
  }

  /** The counts for all closures, or for those of one identity. */
  function CountsOf(c: Census, who: Option<Id>): Ctr {
    if who.None? then c.plain else CtrOf(c.hash, who.value)
  }

  function Added(a: Ctr, k: Kind, n: int): Ctr {
    if k == Void then a.(void_total := a.void_total + n) else a.(drag_total := a.drag_total + n)
  }

  function Plus(a: Ctr, b: Ctr): Ctr {
    a.(void_total := a.void_total + b.void_total, drag_total := a.drag_total + b.drag_total)
  }

  function Taken(a: Ctr, b: Ctr): Ctr {
    a.(void_total := b.void_total, drag_total := b.drag_total)
  }

  /** The counts with a closure that a census comes upon. */
  function Seen(c: Ctr, o: Object): Ctr {
    if o.prim then c.(prim := c.prim + o.size)
    else if o.ldvw.Created? then c.(not_used := c.not_used + o.size)
    else c.(used := c.used + o.size)
  }

  /** Nothing but the totals of void and drag has changed, and no counter has gone. */
  ghost predicate Same(was: Census, c: Census) {
    && was.hash.Keys <= c.hash.Keys
    && forall who: Option<Id> :: CountsOf(c, who) == Taken(CountsOf(was, who), CountsOf(c, who))
  }

  class Censuses {
    const bioSelector: bool
    var era: nat
    var censuses: seq<Census>
    var heap: seq<Object>
    ghost var log: seq<Death>

    /** initHeapProfiling: era 1; census 0 is never initialised. */
    constructor (bioSelector: bool, zero: Census)
      ensures Valid() && era == 1 && heap == [] && log == [] && this.bioSelector == bioSelector
    {
      this.bioSelector := bioSelector;
      era, heap, log := 1, [], [];
      censuses := [zero, EMPTY];
    }

    /** Closures are counted all together, or by identity. */
    ghost predicate By(who: Option<Id>) {
      bioSelector <==> who.Some?
    }

    /** Census t holds what it has been booked. */
    ghost predicate Books(t: nat)
      requires t < |censuses|
      reads this`censuses, this`log
    {
      forall who: Option<Id>, k: Kind :: By(who) ==> Of(k, CountsOf(censuses[t], who)) == Booked(k, log, who, t)
    }

    /** Census t has counters for the closures it found. */
    ghost predicate Knows(t: nat)
      requires t < |censuses|
      reads this`censuses, this`log, this`heap
    {
      bioSelector ==>
        && (forall i :: 0 <= i < |heap| && heap[i].satisfies && heap[i].ldvw.create <= t ==>
             heap[i].id in censuses[t].hash)
        && (forall d :: d in log && d.ldvw.create <= t < d.era ==> d.id in censuses[t].hash)
    }

    /** It found at least those that turned out to be void or dragged then, and those that still may. */
    ghost predicate Covers(t: nat)
      requires t < |censuses|
      reads this`censuses, this`log, this`heap
    {
      forall who: Option<Id>, k: Kind :: By(who) ==>
        Found(k, CountsOf(censuses[t], who)) >= Live(k, log, who, t) + Still(k, heap, who, t)
    }

    /** What the assertions of processHeapClosureForDead say of the words. */
    predicate WordOk(w: Ldvw, now: nat) {
      1 <= w.create <= now && (w.Used? ==> w.create <= w.last <= now)
    }

    ghost predicate Valid()
      reads this
    {
      && 1 <= era && |censuses| == era + 1
      && (forall d :: d in log ==> d.era <= era && WordOk(d.ldvw, d.era))
      && (forall i :: 0 <= i < |heap| ==> WordOk(heap[i].ldvw, era))
      && (forall t: nat :: 1 <= t <= era ==> Books(t))
      && (forall t: nat :: 1 <= t < era ==> Knows(t) && Covers(t))
      && (forall who: Option<Id> :: CountsOf(censuses[era], who) == Taken(ZERO, CountsOf(censuses[era], who)))
    }

    // ----- the life of closures -----

    method Create(id: Id, size: nat, satisfies: bool, prim: bool)
      requires Valid()
      modifies this`heap
      ensures Valid() && heap == old(heap) + [Object(id, size, Created(era), satisfies, prim)]
    {
      var o := Object(id, size, Created(era), satisfies, prim);
      heap := heap + [o];
      forall t: nat | 1 <= t < era ensures Knows(t) && Covers(t) {
        assert old(Knows(t) && Covers(t));
        forall k: Kind, who: Option<Id> ensures Still(k, heap, who, t) == Still(k, old(heap), who, t) {
          StillSnoc(k, old(heap), o, who, t);
        }
      }
    }

    /** LDV_RECORD_USE. */
    method Use(i: nat)
      requires Valid() && i < |heap|
      modifies this`heap
      ensures Valid() && heap == old(heap)[i := old(heap)[i].(ldvw := Used(old(heap)[i].ldvw.create, era))]
    {
      var o := heap[i].(ldvw := Used(heap[i].ldvw.create, era));
      heap := heap[i := o];
      forall t: nat | 1 <= t < era ensures Knows(t) && Covers(t) {
        assert old(Knows(t) && Covers(t));
        forall k: Kind, who: Option<Id> ensures Still(k, heap, who, t) <= Still(k, old(heap), who, t) {
          StillChanged(k, old(heap), i, o, who, t);
        }
      }
    }

    /** Adding to the totals, or to a counter of the identity, made if there is none. */
    method Book(t: nat, k: Kind, id: Id, n: int)
      requires t < |censuses|
      modifies this`censuses
      ensures |censuses| == |old(censuses)| && censuses == old(censuses)[t := censuses[t]]
      ensures var c, was := censuses[t], old(censuses[t]);
        && was.hash.Keys <= c.hash.Keys
        && forall who: Option<Id> ::
             CountsOf(c, who)
             == if By(who) && (who.None? || who.value == id) then Added(CountsOf(was, who), k, n)
                else CountsOf(was, who)
    {
      var c := censuses[t];
      if !bioSelector {
        c := c.(plain := Added(c.plain, k, n));
      } else {
        c := c.(hash := c.hash[id := Added(CtrOf(c.hash, id), k, n)]);
      }
      censuses := censuses[t := c];
    }

    /** The bookings of LDV_recordDead for a closure that satisfies the selectors; with a selector there is a counter
        already in the first of the two censuses. */
    method BookDeath(o: Object)
      requires Valid() && o.satisfies && WordOk(o.ldvw, era)
      requires bioSelector ==> forall t: nat :: o.ldvw.create <= t < era ==> o.id in censuses[t].hash
      modifies this`censuses
      ensures |censuses| == |old(censuses)|
      ensures forall t: nat :: 1 <= t <= era ==> Same(old(censuses)[t], censuses[t])
      ensures forall t: nat, k: Kind, who: Option<Id> :: 1 <= t <= era && By(who) ==>
        Of(k, CountsOf(censuses[t], who))
        == Of(k, CountsOf(old(censuses)[t], who)) + DeltaFor(k, o, who, t)
    {
      var k := if o.ldvw.Created? then Void else Drag;
      var t := if o.ldvw.Created? then o.ldvw.create else o.ldvw.last + 1;
      if t < era {
        assert bioSelector ==> o.id in censuses[t].hash;
        Book(t, k, o.id, o.size);
        var size: int := o.size;
        Book(era, k, o.id, -size);
      }
    }

    /** What the death of o books. */
    ghost function DeltaFor(k: Kind, o: Object, who: Option<Id>, t: nat): int
      reads this`era
    {
      var d := Death(o.id, o.size, o.ldvw, era);
      if Picks(who, d) then Delta(k, d, t) else 0
    }

    /** LDV_recordDead. */
    method RecordDead(i: nat)
      requires Valid() && i < |heap| && !heap[i].prim
      modifies this`censuses, this`log, this`heap
      ensures Valid() && heap == old(heap)[..i] + old(heap)[i + 1..] && Died(old(heap)[i])
    {
      var o := heap[i];
      if o.satisfies {
        forall t: nat | o.ldvw.create <= t < era && bioSelector ensures o.id in censuses[t].hash { assert Knows(t); }
        BookDeath(o);
        hide Booked, Live, Still, Delta;
        log := log + [Death(o.id, o.size, o.ldvw, era)];
      }
      heap := heap[..i] + heap[i + 1..];
      assert heap == old(heap)[..i] + old(heap)[i + 1..];
      hide Books, Knows, Covers, Same;
      DeadBooks(o);
      DeadCovers(i);
    }

    /** processHeapClosureForDead. */
    method ProcessDead(i: nat)
      requires Valid() && i < |heap|
      modifies this`censuses, this`log, this`heap
      ensures Valid() && heap == old(heap)[..i] + old(heap)[i + 1..]
      ensures if old(heap)[i].prim then censuses == old(censuses) && log == old(log) else Died(old(heap)[i])
    {
      if heap[i].prim {
        heap := heap[..i] + heap[i + 1..];
        DeadCovers(i);
      } else {
        RecordDead(i);
      }
    }

    /** o has died, and its bookings have been made. */
    twostate predicate Died(o: Object)
      reads this
    {
      && era == old(era) && |censuses| == |old(censuses)|
      && log == (if o.satisfies then old(log) + [Death(o.id, o.size, o.ldvw, era)] else old(log))
      && (forall t: nat :: 1 <= t <= era && t < |censuses| ==> Same(old(censuses)[t], censuses[t]))
      && (forall t: nat, k: Kind, who: Option<Id> :: 1 <= t <= era && t < |censuses| && By(who) ==>
            Of(k, CountsOf(censuses[t], who))
            == Of(k, CountsOf(old(censuses)[t], who)) + if o.satisfies then DeltaFor(k, o, who, t) else 0)
    }

    twostate lemma DeadBooks(o: Object)
      requires old(Valid()) && Died(o)
      ensures forall t: nat :: 1 <= t <= era ==> Books(t)
    {
      forall t: nat | 1 <= t <= era
        ensures Books(t)
      {
        assert old(Books(t));
        if o.satisfies {
          var d := Death(o.id, o.size, o.ldvw, era);
          forall k: Kind, who: Option<Id>
            ensures Booked(k, log, who, t) == Booked(k, old(log), who, t) + DeltaFor(k, o, who, t)
          { BookedSnoc(k, old(log), who, d, t); }
        }
        hide Booked, DeltaFor;
      }
    }

    /** What the death moves from the heap to the log. */
    twostate lemma DeadCovers(i: nat)
      requires old(Valid()) && i < |old(heap)| && heap == old(heap)[..i] + old(heap)[i + 1..]
      requires if old(heap)[i].prim then censuses == old(censuses) && log == old(log) && era == old(era)
               else Died(old(heap)[i])
      ensures forall t: nat :: 1 <= t < era ==> Knows(t) && Covers(t)
    {
      var o := old(heap)[i];
      var d := Death(o.id, o.size, o.ldvw, era);
      forall t: nat | 1 <= t < era
        ensures Knows(t) && Covers(t)
      {
        assert old(Knows(t) && Covers(t));
        assert Same(old(censuses)[t], censuses[t]);
        forall k: Kind, who: Option<Id>
          ensures Live(k, log, who, t) + Still(k, heap, who, t)
              == Live(k, old(log), who, t) + Still(k, old(heap), who, t)
        {
          StillRemoved(k, old(heap), i, who, t);
          LiveSnoc(k, old(log), who, d, t);
        }
        hide Live, Still;
      }
    }

    // ----- the census -----

    /** heapProfObject. */
    method ProfObject(o: Object)
      requires |censuses| == era + 1
      modifies this`censuses
      ensures |censuses| == |old(censuses)| && censuses == old(censuses)[era := censuses[era]]
      ensures var c, was := censuses[era], old(censuses)[era];
        && was.hash.Keys <= c.hash.Keys && (bioSelector && o.satisfies ==> o.id in c.hash)
        && forall who: Option<Id> ::
             CountsOf(c, who)
             == if o.satisfies && By(who) && (who.None? || who.value == o.id) then Seen(CountsOf(was, who), o)
                else CountsOf(was, who)
    {
      var c := censuses[era];
      if o.satisfies {
        if bioSelector {
          c := c.(hash := c.hash[o.id := Seen(CtrOf(c.hash, o.id), o)]);
        } else {
          c := c.(plain := Seen(c.plain, o));
        }
      }
      censuses := censuses[era := c];
    }

    /** The census of era has counted the first n closures of the heap. */
    ghost predicate Counted(n: nat)
      requires n <= |heap| && |censuses| == era + 1
      reads this`censuses, this`era, this`heap
    {
      forall who: Option<Id> :: By(who) ==>
        && CountsOf(censuses[era], who).not_used == Still(Void, heap[..n], who, era)
        && CountsOf(censuses[era], who).used == Still(Drag, heap[..n], who, era + 1)
    }

    lemma CountedOne(n: nat, was: Census)
      requires n < |heap| && |censuses| == era + 1 && WordOk(heap[n].ldvw, era)
      requires forall who: Option<Id> :: By(who) ==>
        && CountsOf(was, who).not_used == Still(Void, heap[..n], who, era)
        && CountsOf(was, who).used == Still(Drag, heap[..n], who, era + 1)
      requires forall who: Option<Id> ::
        CountsOf(censuses[era], who)
        == if heap[n].satisfies && By(who) && (who.None? || who.value == heap[n].id)
           then Seen(CountsOf(was, who), heap[n])
           else CountsOf(was, who)
      ensures Counted(n + 1)
    {
      assert heap[..n + 1] == heap[..n] + [heap[n]];
      forall who: Option<Id> | By(who)
        ensures CountsOf(censuses[era], who).not_used == Still(Void, heap[..n + 1], who, era)
        ensures CountsOf(censuses[era], who).used == Still(Drag, heap[..n + 1], who, era + 1)
      {
        StillSnoc(Void, heap[..n], heap[n], who, era);
        StillSnoc(Drag, heap[..n], heap[n], who, era + 1);
      }
    }

    /** heapCensusChain: every closure in the heap is counted. */
    method CountHeap()
      requires Valid()
      modifies this`censuses
      ensures |censuses| == |old(censuses)| && censuses == old(censuses)[era := censuses[era]]
      ensures Books(era) && Knows(era) && Covers(era) && Counted(|heap|)
    {
      hide Booked, Live, Still;
      assert Books(era);
      var i := 0;
      StartCount();
      while i < |heap|
        invariant 0 <= i <= |heap| && |censuses| == |old(censuses)| && censuses == old(censuses)[era := censuses[era]]
        invariant Books(era) && Counted(i)
        invariant bioSelector ==> forall j :: 0 <= j < i && heap[j].satisfies ==> heap[j].id in censuses[era].hash
      {
        ghost var was := censuses[era];
        ProfObject(heap[i]);
        CountedOne(i, was);
        i := i + 1;
      }
      CountedCovers();
    }

    lemma StartCount()
      requires Valid()
      ensures Counted(0)
    {
    }

    lemma CountedCovers()
      requires |censuses| == era + 1 && Counted(|heap|) && forall d :: d in log ==> d.era <= era
      ensures Covers(era)
    {
      assert heap[..|heap|] == heap;
      forall who: Option<Id>, k: Kind | By(who)
        ensures Found(k, CountsOf(censuses[era], who)) >= Live(k, log, who, era) + Still(k, heap, who, era)
      {
        StillLater(Drag, heap, who, era);
        LiveNone(k, log, who, era);
      }
    }

    /** heapCensus: a census of the heap ends the era. */
    method HeapCensus()
      requires Valid()
      modifies this`era, this`censuses
      ensures Valid() && era == old(era) + 1 && censuses[era] == EMPTY
      ensures forall t: nat :: 1 <= t < old(era) ==> censuses[t] == old(censuses)[t]
      ensures forall who: Option<Id> :: By(who) ==>
        && CountsOf(censuses[old(era)], who).not_used == Still(Void, heap, who, old(era))
        && CountsOf(censuses[old(era)], who).used == Still(Drag, heap, who, old(era) + 1)
    {
      hide Booked, Live, Still;
      CountHeap();
      assert heap[..|heap|] == heap;
      forall t: nat | 1 <= t <= era ensures Books(t) && Knows(t) && Covers(t) {
        if t < era {
          assert old(Books(t) && Knows(t) && Covers(t));
          assert censuses[t] == old(censuses)[t];
        }
      }
      hide Books, Knows, Covers;
      NextEra();
    }

    /** nextEra, initEra. */
    method NextEra()
      requires 1 <= era && |censuses| == era + 1
      requires forall d :: d in log ==> d.era <= era && WordOk(d.ldvw, d.era)
      requires forall i :: 0 <= i < |heap| ==> WordOk(heap[i].ldvw, era)
      requires forall t: nat :: 1 <= t <= era ==> Books(t) && Knows(t) && Covers(t)
      modifies this`era, this`censuses
      ensures Valid() && era == old(era) + 1 && censuses == old(censuses) + [EMPTY]
    {
      era := era + 1;
      censuses := censuses + [EMPTY];
      forall t: nat | 1 <= t < era ensures Books(t) && Knows(t) && Covers(t) {
        assert old(Books(t) && Knows(t) && Covers(t));
      }
      forall k: Kind, who: Option<Id> ensures Booked(k, log, who, era) == 0 { BookedNone(k, log, who, era); }
    }

    // ----- aggregation -----

    /** Census t says what was void and dragged then, within what it found; nothing else has changed. */
    twostate predicate Settled(t: nat)
      reads this
    {
      && t < |old(censuses)| == |censuses| && censuses[t].hash.Keys == old(censuses)[t].hash.Keys
      && forall who: Option<Id>, k: Kind :: By(who) ==>
           Exactly(CountsOf(old(censuses)[t], who), CountsOf(censuses[t], who), k, who, t)
    }

    ghost predicate Exactly(was: Ctr, c: Ctr, k: Kind, who: Option<Id>, t: nat)
      reads this`log
    {
      c == Taken(was, c) && Of(k, c) == Live(k, log, who, t) <= Found(k, c)
    }

    /** What is printed: for lag the sizes never used then that were to be used later, for drag those that have been
        used for the last time, for void those that never will be, and for use the used ones that will be again.
        So no part is negative, whatever phases are selected, and all four make up what the census found. */
    twostate lemma Printed(t: nat)
      requires Settled(t)
      ensures forall who: Option<Id>, lag: bool, drag: bool, void: bool, use: bool :: By(who) ==>
        var c := CountsOf(censuses[t], who);
        && Selected(c, lag, drag, void, use)
           == (if lag then c.not_used - Live(Void, log, who, t) else 0) + (if drag then Live(Drag, log, who, t) else 0)
              + (if void then Live(Void, log, who, t) else 0) + (if use then c.used - Live(Drag, log, who, t) else 0)
        && 0 <= Selected(c, lag, drag, void, use) <= Selected(c, true, true, true, true) == c.not_used + c.used
    {
      forall who: Option<Id>, k: Kind | By(who)
        ensures 0 <= Of(k, CountsOf(censuses[t], who)) <= Found(k, CountsOf(censuses[t], who))
      {
        assert Exactly(CountsOf(old(censuses)[t], who), CountsOf(censuses[t], who), k, who, t);
      }
      forall who: Option<Id>, lag: bool, drag: bool, void: bool, use: bool | By(who)
        ensures var c := CountsOf(censuses[t], who);
          && Selected(c, lag, drag, void, use)
             == (if lag then c.not_used - Live(Void, log, who, t) else 0)
                + (if drag then Live(Drag, log, who, t) else 0)
                + (if void then Live(Void, log, who, t) else 0)
                + (if use then c.used - Live(Drag, log, who, t) else 0)
          && 0 <= Selected(c, lag, drag, void, use) <= Selected(c, true, true, true, true) == c.not_used + c.used
      {
        var c := CountsOf(censuses[t], who);
        assert Exactly(CountsOf(old(censuses)[t], who), c, Void, who, t);
        assert Exactly(CountsOf(old(censuses)[t], who), c, Drag, who, t);
        assert Of(Void, c) == Live(Void, log, who, t) && Of(Drag, c) == Live(Drag, log, who, t);
        assert 0 <= Of(Void, c) <= Found(Void, c) && 0 <= Of(Drag, c) <= Found(Drag, c);
      }
    }

    /** aggregateCensusInfo without a selector. */
    method AggregatePlain()
      requires Valid() && !bioSelector
      modifies this`censuses
      ensures forall t: nat :: 1 <= t < era ==> Settled(t)
    {
      hide Live, Booked, Still;
      var void_total, drag_total := 0, 0;
      var t := 1;
      while t < era
        invariant 1 <= t <= era && |censuses| == |old(censuses)|
        invariant void_total == Running(Void, log, None, t - 1) && drag_total == Running(Drag, log, None, t - 1)
        invariant forall s: nat :: t <= s <= era ==> censuses[s] == old(censuses)[s]
        invariant forall s: nat :: 1 <= s < t ==> RanTo(old(censuses)[s], censuses[s], s)
      {
        assert old(Books(t));
        assert Of(Void, CountsOf(old(censuses)[t], None)) == censuses[t].plain.void_total;
        assert Of(Drag, CountsOf(old(censuses)[t], None)) == censuses[t].plain.drag_total;
        void_total := void_total + censuses[t].plain.void_total;
        drag_total := drag_total + censuses[t].plain.drag_total;
        censuses := censuses[t := censuses[t].(
          plain := censuses[t].plain.(void_total := void_total, drag_total := drag_total))];
        t := t + 1;
      }
      forall s: nat | 1 <= s < era
        ensures Settled(s)
      {
        assert old(Covers(s)) && RanTo(old(censuses)[s], censuses[s], s);
        Exact(Void, None, s);
        Exact(Drag, None, s);
      }
    }

    ghost predicate RanTo(was: Census, c: Census, t: nat)
      reads this`log
    {
      && c.hash == was.hash && c.plain == Taken(was.plain, c.plain)
      && c.plain.void_total == Running(Void, log, None, t) && c.plain.drag_total == Running(Drag, log, None, t)
    }

    /** Each running counter whose identity the census knows: added to the census, and taken from there. */
    method AddRunning(t: nat, acc: map<Id, Ctr>) returns (acc': map<Id, Ctr>)
      requires t < |censuses|
      requires forall id :: id in acc && id !in censuses[t].hash ==> acc[id].void_total == 0 == acc[id].drag_total
      modifies this`censuses
      ensures |censuses| == |old(censuses)|
      ensures censuses == old(censuses)[t := old(censuses)[t].(hash := censuses[t].hash)]
      ensures censuses[t].hash.Keys == old(censuses)[t].hash.Keys && acc'.Keys == acc.Keys
      ensures forall id :: id in censuses[t].hash ==>
        censuses[t].hash[id] == Plus(old(censuses)[t].hash[id], CtrOf(acc, id))
      ensures forall id :: id in acc ==>
        acc'[id] == if id in censuses[t].hash then Taken(acc[id], censuses[t].hash[id]) else acc[id]
    {
      var ctrs := acc.Keys;
      var hash := censuses[t].hash;
      acc' := acc;
      while ctrs != {}
        invariant ctrs <= acc.Keys == acc'.Keys && hash.Keys == censuses[t].hash.Keys
        invariant forall id :: id in hash ==>
          hash[id] == if id in acc && id !in ctrs then Plus(censuses[t].hash[id], acc[id]) else censuses[t].hash[id]
        invariant forall id :: id in acc ==>
          acc'[id] == if id in hash && id !in ctrs then Taken(acc[id], hash[id]) else acc[id]
        decreases |ctrs|
      {
        var c :| c in ctrs;
        if c in hash {
          hash := hash[c := Plus(hash[c], acc'[c])];
          acc' := acc'[c := Taken(acc'[c], hash[c])];
        } else {
          assert acc'[c].void_total == 0 == acc'[c].drag_total;
        }
        ctrs := ctrs - {c};
      }
      censuses := censuses[t := censuses[t].(hash := hash)];
    }

    /** Each counter of the census that is new starts a running counter. */
    method AddNew(t: nat, acc: map<Id, Ctr>) returns (acc': map<Id, Ctr>)
      requires t < |censuses|
      ensures forall id :: id in acc' <==> id in acc || id in censuses[t].hash
      ensures forall id :: id in acc' ==> acc'[id] == if id in acc then acc[id] else Taken(ZERO, censuses[t].hash[id])
    {
      var hash := censuses[t].hash;
      var ctrs := hash.Keys;
      acc' := acc;
      while ctrs != {}
        invariant ctrs <= hash.Keys
        invariant forall id :: id in acc' <==> id in acc || (id in hash && id !in ctrs)
        invariant forall id :: id in acc' ==> acc'[id] == if id in acc then acc[id] else Taken(ZERO, hash[id])
        decreases |ctrs|
      {
        var c :| c in ctrs;
        if c !in acc' {
          acc' := acc'[c := Taken(ZERO, hash[c])];
        }
        ctrs := ctrs - {c};
      }
    }

    /** The counters of the census hold the running totals of their identities, up to census t. */
    ghost predicate RunsTo(was: Census, c: Census, t: nat)
      reads this`log
    {
      && c.plain == was.plain && c.hash.Keys == was.hash.Keys
      && forall id: Id :: id in c.hash ==>
           && c.hash[id] == Taken(was.hash[id], c.hash[id])
           && c.hash[id].void_total == Running(Void, log, Some(id), t)
           && c.hash[id].drag_total == Running(Drag, log, Some(id), t)
    }

    /** aggregateCensusInfo with a selector: the same for each identity. */
    method AggregateBySelector()
      requires Valid() && bioSelector
      modifies this`censuses
      ensures forall t: nat :: 1 <= t < era ==> Settled(t)
    {
      hide Live, Booked, Still, RunsTo;
      var acc: map<Id, Ctr> := map[];
      var t := 1;
      while t < era
        invariant 1 <= t <= era && |censuses| == |old(censuses)|
        invariant forall s: nat :: t <= s <= era ==> censuses[s] == old(censuses)[s]
        invariant forall id: Id, k: Kind :: Of(k, CtrOf(acc, id)) == Running(k, log, Some(id), t - 1)
        invariant forall s: nat :: 1 <= s < t ==> RunsTo(old(censuses)[s], censuses[s], s)
      {
        assert Books(t) && Knows(t) by {
          assert old(Books(t) && Knows(t));
          assert censuses[t] == old(censuses)[t];
        }
        acc := Aggregate(t, acc);
        t := t + 1;
      }
      forall s: nat | 1 <= s < era
        ensures Settled(s)
      {
        assert old(Knows(s) && Covers(s));
        SettledBy(s);
      }
    }

    twostate lemma SettledBy(t: nat)
      requires bioSelector && t < |old(censuses)| == |censuses| && RunsTo(old(censuses)[t], censuses[t], t)
      requires old(Knows(t) && Covers(t)) && log == old(log) && heap == old(heap)
      requires forall d :: d in log ==> WordOk(d.ldvw, d.era)
      ensures Settled(t)
    {
      forall who: Option<Id>, k: Kind | By(who)
        ensures Exactly(CountsOf(old(censuses)[t], who), CountsOf(censuses[t], who), k, who, t)
      {
        Exact(k, who, t);
        if who.value !in censuses[t].hash {
          Absent(k, who.value, censuses[t].hash, t);
        }
        hide Live, Still, Running;
      }
    }

    lemma Exact(k: Kind, who: Option<Id>, t: nat)
      requires forall d :: d in log ==> WordOk(d.ldvw, d.era)
      ensures Running(k, log, who, t) == Live(k, log, who, t)
    {
      ExactIff(k, log, who, t);
    }

    /** No closure of an identity without a counter was void or dragged at the census. */
    lemma Absent(k: Kind, id: Id, hash: map<Id, Ctr>, t: nat)
      requires forall d :: d in log ==> WordOk(d.ldvw, d.era)
      requires forall d :: d in log && d.ldvw.create <= t < d.era ==> d.id in hash
      requires id !in hash
      ensures Live(k, log, Some(id), t) == 0
    {
      LiveNone(k, log, Some(id), t);
    }

    /** What a census has been booked never exceeds what it found, and stays strictly below exactly when something was
        void, or dragged, at the census before, or not all that it found unused has died unused, or all used
        undragged. */
    lemma BelowIff(k: Kind, who: Option<Id>, t: nat)
      requires Valid() && By(who) && 1 <= t < era
      ensures Of(k, CountsOf(censuses[t], who)) <= Found(k, CountsOf(censuses[t], who))
      ensures Of(k, CountsOf(censuses[t], who)) < Found(k, CountsOf(censuses[t], who))
              <==> Live(k, log, who, t - 1) > 0 || Live(k, log, who, t) < Found(k, CountsOf(censuses[t], who))
    {
      assert Books(t) && Covers(t);
      Exact(k, who, t);
      Exact(k, who, t - 1);
      hide Live, Booked, Still;
    }

    /** One census. */
    method Aggregate(t: nat, acc: map<Id, Ctr>) returns (acc': map<Id, Ctr>)
      requires 1 <= t < |censuses| && bioSelector && Books(t) && Knows(t)
      requires forall d :: d in log ==> WordOk(d.ldvw, d.era)
      requires forall id: Id, k: Kind :: Of(k, CtrOf(acc, id)) == Running(k, log, Some(id), t - 1)
      modifies this`censuses
      ensures |censuses| == |old(censuses)| && censuses == old(censuses)[t := censuses[t]]
      ensures RunsTo(old(censuses)[t], censuses[t], t)
      ensures forall id: Id, k: Kind :: Of(k, CtrOf(acc', id)) == Running(k, log, Some(id), t)
    {
      hide Live, Booked;
      ghost var hash := censuses[t].hash;
      forall id: Id, k: Kind
        ensures Of(k, CtrOf(hash, id)) == Booked(k, log, Some(id), t)
        ensures id !in hash ==> Of(k, CtrOf(acc, id)) == 0
      {
        assert Of(k, CountsOf(censuses[t], Some(id))) == Of(k, CtrOf(hash, id));
        if id !in hash {
          Absent(k, id, hash, t);
          Exact(k, Some(id), t);
        }
      }
      forall id | id in acc && id !in hash ensures acc[id].void_total == 0 == acc[id].drag_total {
        assert Of(Void, CtrOf(acc, id)) == 0 && Of(Drag, CtrOf(acc, id)) == 0;
      }
      acc' := AddRunning(t, acc);
      acc' := AddNew(t, acc');
      forall id: Id, k: Kind
        ensures Of(k, CtrOf(acc', id)) == Of(k, CtrOf(acc, id)) + Of(k, CtrOf(hash, id)) == Running(k, log, Some(id), t)
        ensures id in hash ==> id in censuses[t].hash && Of(k, censuses[t].hash[id]) == Of(k, acc'[id])
      { assert id in hash <==> id in censuses[t].hash; }
      forall id | id in censuses[t].hash
        ensures censuses[t].hash[id].void_total == Running(Void, log, Some(id), t)
        ensures censuses[t].hash[id].drag_total == Running(Drag, log, Some(id), t)
      {
        assert Of(Void, censuses[t].hash[id]) == Running(Void, log, Some(id), t);
        assert Of(Drag, censuses[t].hash[id]) == Running(Drag, log, Some(id), t);
      }
    }
  }

  // ----- what is printed -----

  datatype Phase = Lag | Drags | Voids | Use

  /** The part of a count that is in a phase of its life. */
  function Part(c: Ctr, p: Phase): int {
    match p
    case Lag => c.not_used - c.void_total
    case Drags => c.drag_total
    case Voids => c.void_total
    case Use => c.used - c.drag_total
  }

  /** dumpCensus: the count printed for the phases selected. */
  function Selected(c: Ctr, lag: bool, drag: bool, void: bool, use: bool): int {
    (if lag then Part(c, Lag) else 0) + (if drag then Part(c, Drags) else 0)
    + (if void then Part(c, Voids) else 0) + (if use then Part(c, Use) else 0)
  }

  /**
   LDV_recordDead asserts, when debugging, that void_total of the census of the creation stays strictly below not_used.
   It does not when all that the first census found unused dies; BelowIff says exactly when it does.
   */
  method AllVoid() returns (void_total: int, not_used: int)
    ensures void_total == not_used
  {
    var c := new Censuses(false, EMPTY);
    c.Create(0, 1, true, false);
    c.HeapCensus();
    assert c.heap == [] + [Object(0, 1, Created(1), true, false)];
    StillSnoc(Void, [], c.heap[0], None, 1);
    assert c.Books(1);
    assert CountsOf(c.censuses[1], None).not_used == 1;
    c.RecordDead(0);
    c.BelowIff(Void, None, 1);
    void_total, not_used := c.censuses[1].plain.void_total, c.censuses[1].plain.not_used;
  }
}
