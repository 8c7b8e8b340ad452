/**
 The traversal of kernel/rts/RetainerProfile.c: retainClosure, retainStack and the roots.  It runs on the records of
 RetainerRecords; rset, stack and boundary are the values they stand for at any time.
 */
module RetainerProfile {
  import opened Base
  import opened Retainers
  import opened RetainerRecords
  import TS = TraverseStack
  import Ch = Children
  import RV = RetainerView

  /** The visits so far: the retainers each closure has been visited with, and those that were not in its set then. */
  datatype Log = Log(visits: seq<set<Retainer>>, got: seq<set<Retainer>>)

  /** The child t of n is still to be visited with retainer r. */
  datatype Pend = Pend(n: Node, r: Retainer, t: Node)

  function Noted(log: Log, c: Node, r: Retainer, accepted: bool): Log
    requires c < |log.visits| == |log.got|
  {
    Log(log.visits[c := log.visits[c] + {r}], if accepted then log.got[c := log.got[c] + {r}] else log.got)
  }

  class Traversal {
    const h: Heap
    const rec: Records
    ghost const height: seq<nat>
    ghost const roots: set<Node>
    ghost const ord: seq<nat>        // an order of the closures, if there is one
    const max: nat                   // maxRetainerSetSize
    ghost var rset: seq<RSet>
    ghost var stack: seq<Elem>       // the top last
    ghost var boundary: nat          // currentStackBoundary, as a depth
    ghost var expanded: seq<nat>     // how often the children of each closure have been gone through
    ghost var log: Log
    ghost var exact: bool            // no set was taken over that adding the retainer would not have made

    constructor (h: Heap, layouts: seq<Ch.Layout>, size: nat, ghost height: seq<nat>, ghost roots: set<Node>,
                 ghost ord: seq<nat>, max: nat)
      requires WellFormed(h, height) && max > 0 && size > 1 && |layouts| == |h|
      requires forall n: Node :: n < |h| && h[n].kind.Pushed? ==>
        && Ch.Ok(layouts[n]) && Ch.Children(layouts[n]) == h[n].children && (h[n].kind.eager <==> Ch.Eager(layouts[n]))
      ensures Valid() && Linked() && this !in rec.Repr && Closed({}) && stack == [] && boundary == 0 && Orderly({})
      ensures this.h == h && this.height == height && this.roots == roots && this.ord == ord && this.max == max
    {
      this.h, this.height, this.roots, this.ord, this.max := h, height, roots, ord, max;
      var records := new Records(h, layouts, max, size);
      rec := records;
      rset := seq(|h|, _ => Unset);
      stack, boundary := [], 0;
      expanded := seq(|h|, _ => 0);
      log, exact := Log(seq(|h|, _ => {}), seq(|h|, _ => {})), true;
    }

    /** The records stand for these values. */
    ghost predicate Linked()
      reads this`rset, this`stack, this`boundary, rec, rec.ts, rec.Repr
    {
      rec.h == h && rec.pool.maxRetainerSetSize == max && rec.Agrees(rset, stack, boundary)
    }

    ghost predicate Shape()
      reads this
    {
      && WellFormed(h, height) && |rset| == |h| == |expanded| && max > 0 && boundary <= |stack| && LogShape(log)
    }

    ghost predicate LogShape(log: Log) {
      |log.visits| == |log.got| == |h|
    }

    ghost predicate SetOk(n: Node)
      requires n < |rset| == |expanded| == |h| && LogShape(log)
      reads this`rset, this`expanded, this`log
    {
      && (log.visits[n] == {} <==> rset[n].Unset?) && (log.got[n] == {} <==> rset[n].Unset?)
      && (h[n].kind.Skipped? ==> rset[n].Unset?)
      && Sized(rset[n], max)
      && expanded[n] <= Rank(rset[n], max)
    }

    /** Every retainer in a set is one, and rs_MANY is the set only of closures with more than maxRetainerSetSize of
        them. */
    ghost predicate Sound()
      requires WellFormed(h, height) && |rset| == |h|
      reads this`rset
    {
      forall n: Node :: n < |h| ==> Means(h, height, roots, max, rset[n], n)
    }

    /** r is what the children of cp are retained by. */
    ghost predicate Gives(cp: Node, r: Retainer)
      requires WellFormed(h, height)
    {
      cp < |h| && if h[cp].isRetainer then r == h[cp].retainer else Retains(h, height, roots, r, cp)
    }

    ghost predicate ElemOk(e: Elem)
      requires WellFormed(h, height)
    {
      && Gives(e.c, e.r)
      && forall j :: 0 <= j < |e.rest| ==> e.rest[j] < |h| && Edge(h, height, e.c, Target(h, height, e.rest[j]))
    }

    ghost predicate Valid()
      reads this
    {
      && Shape() && (forall n: Node :: n < |h| ==> SetOk(n)) && Sound()
      && StackOk(stack) && (exact ==> ExactIn(rset, log))
    }

    /** Sets are what the closures have been visited with, up to the limit. */
    ghost predicate ExactIn(rset: seq<RSet>, log: Log)
      requires |rset| == |h| && LogShape(log)
    {
      forall n: Node :: n < |h| ==>
        && rset[n] == Capped(log.got[n], max)
        && forall r :: r in log.visits[n] ==> r in log.got[n] || |log.got[n]| > max
    }

    // ----- depth first, on a heap without cycles -----

    /** Pointers go down in ord, and the children of no closure are visited by calls that empty the stack. */
    ghost predicate Acyclic()
      requires WellFormed(h, height)
    {
      && |ord| == |h| && (forall n: Node, t: Node :: n < |h| && t < |h| && Edge(h, height, n, t) ==> ord[t] < ord[n])
      && forall n: Node :: n < |h| && h[n].kind.InOneGo? ==> h[n].kind.direct == 0
    }

    /** Each entry is of a closure below those of the entries before. */
    ghost predicate Chain(es: seq<Elem>, log: Log)
      requires |ord| == |h| && LogShape(log)
    {
      && (forall i :: 0 <= i < |es| ==> es[i].c < |h| && es[i].r in Out(log, es[i].c))
      && (forall i, j :: 0 <= i < j < |es| ==> ord[es[j].c] < ord[es[i].c])
    }

    /** n is below all closures whose children are being visited. */
    ghost predicate Under(n: Node, es: seq<Elem>, others: set<Pend>)
      requires |ord| == |h| && n < |h|
    {
      && (forall i :: 0 <= i < |es| ==> es[i].c < |h| && ord[n] < ord[es[i].c])
      && UnderAll(n, others)
    }

    ghost predicate EntriesUnder(es: seq<Elem>, b: nat, others: set<Pend>)
      requires |ord| == |h|
    {
      forall i :: b <= i < |es| ==> es[i].c < |h| && UnderAll(es[i].c, others)
    }

    ghost predicate UnderAll(n: Node, others: set<Pend>)
      requires |ord| == |h| && n < |h|
    {
      forall p :: p in others ==> p.n < |h| && ord[n] < ord[p.n]
    }

    ghost predicate OrderlyIn(es: seq<Elem>, log: Log, b: nat, exact: bool, others: set<Pend>)
      requires WellFormed(h, height) && LogShape(log)
    {
      Acyclic() ==> exact && Chain(es, log) && EntriesUnder(es, b, others)
    }

    ghost predicate Orderly(others: set<Pend>)
      requires Shape()
      reads this
    {
      OrderlyIn(stack, log, boundary, exact, others)
    }

    /** The item comes from a root, or from a closure below all others whose children are being visited. */
    ghost predicate ItemIn(c: Node, cp: Node, r: Retainer, es: seq<Elem>, log: Log, others: set<Pend>)
      requires WellFormed(h, height) && LogShape(log) && c < |h| && cp < |h|
    {
      Acyclic() ==>
        || (cp == c && es == [] && others == {})
        || (&& Edge(h, height, cp, Target(h, height, c)) && r in Out(log, cp)
            && (forall i :: 0 <= i < |es| ==>
                  es[i].c < |h| && (ord[cp] < ord[es[i].c] || (es[i].c == cp && es[i].r == r)))
            && (forall p :: p in others ==> p.n < |h| && (ord[cp] < ord[p.n] || (p.n == cp && p.r == r))))
    }

    ghost predicate ItemOrd(c: Node, cp: Node, r: Retainer, others: set<Pend>)
      requires Shape() && c < |h| && cp < |h|
      reads this
    {
      ItemIn(c, cp, r, stack, log, others)
    }

    lemma DropOrd(es: seq<Elem>, log: Log, b: nat, exact: bool, others: set<Pend>)
      requires WellFormed(h, height) && LogShape(log) && es != [] && OrderlyIn(es, log, b, exact, others)
      ensures OrderlyIn(es[..|es| - 1], log, b, exact, others)
    {
      var fs := es[..|es| - 1];
      assert forall i :: 0 <= i < |fs| ==> fs[i] == es[i];
      hide Acyclic, Out;
      if Acyclic() {
        assert Chain(fs, log);
        assert EntriesUnder(fs, b, others);
      }
    }

    lemma TakeOrd(es: seq<Elem>, fs: seq<Elem>, log: Log, b: nat, exact: bool, others: set<Pend>)
      requires WellFormed(h, height) && LogShape(log) && es != [] && es[|es| - 1].rest != [] && StackOk(es) && b < |es|
      requires OrderlyIn(es, log, b, exact, others)
      requires var n, e := |es| - 1, es[|es| - 1];
               fs == es[n := e.(rest := e.rest[1..])] || (fs == es[..n] && |e.rest| == 1)
      ensures OrderlyIn(fs, log, b, exact, others)
      ensures var e := es[|es| - 1];
        e.c < |h| && e.rest[0] < |h| && ItemIn(e.rest[0], e.c, e.r, fs, log, others)
    {
      assert ElemOk(es[|es| - 1]);
    }

    /** The children of c, below all others, are being visited with r. */
    ghost predicate Below(c: Node, r: Retainer, others: set<Pend>)
      requires Shape() && c < |h|
      reads this
    {
      Acyclic() ==> Under(c, stack, others) && r in Out(log, c)
    }

    ghost predicate FrameOrd(c: Node, r: Retainer, others: set<Pend>)
      requires Shape() && c < |h|
      reads this
    {
      Acyclic() ==> exact && Chain(stack, log) && Under(c, stack, others) && r in Out(log, c) && |stack| == boundary
    }

    /** Then the set a closure is given is the one that adding the retainer to its own makes. */
    lemma ItemExact(c: Node, t: Node, cp: Node, r: Retainer, others: set<Pend>)
      requires Valid() && c < |h| && t == Target(h, height, c) && ItemOk(c, cp, r) && !h[t].kind.Ignored?
      requires Closed(others + {Pend(cp, r, t)}) && Orderly(others) && ItemOrd(c, cp, r, others) && Acyclic()
      requires rset[t].Unset? || !Member(r, rset[t])
      ensures Updated(if h[cp].isRetainer then Unset else rset[cp], rset[t], r, max) == Capped(log.got[t] + {r}, max)
    {
      assert SetOk(cp) && SetOk(t) && SetOk(c);
      var s := if h[cp].isRetainer then Unset else rset[cp];
      if s.Unset? || (cp == c && stack == [] && others == {}) {
        UpdatedExactIff(s, log.got[t], r, max);
      } else {
        forall x | x in log.got[cp] && x != r
          ensures x in log.got[t] || |log.got[t]| > max
        {
          assert Due(Pend(cp, x, t), log);
          assert Settled(Pend(cp, x, t), log, stack, others + {Pend(cp, r, t)});
          assert !Among(Pend(cp, x, t), stack);
        }
        TakeoverExact(log.got[cp], log.got[t], r, max);
      }
    }

    lemma AcyclicFits(c: Node, t: Node, cp: Node, r: Retainer, others: set<Pend>)
      requires Valid() && c < |h| && t == Target(h, height, c) && ItemOk(c, cp, r) && !h[t].kind.Ignored? && cp < |h|
      requires Closed(others + {Pend(cp, r, t)}) && Orderly(others) && ItemOrd(c, cp, r, others)
      ensures Fits(c, t, cp, r, others)
    {
      if Acyclic() && (rset[t].Unset? || !Member(r, rset[t])) {
        ItemExact(c, t, cp, r, others);
      }
    }

    lemma StartOrd(es: seq<Elem>, e: Elem, others: set<Pend>, b: nat)
      requires |ord| == |h| && LogShape(log) && e.c < |h| && e.r in Out(log, e.c)
      requires Chain(es, log) && Under(e.c, es, others) && EntriesUnder(es, b, others)
      ensures Chain(es + [e], log) && EntriesUnder(es + [e], b, others)
    {
    }

    /** The retainers with which the children of n are visited: its own, or those that its set has got. */
    ghost function Out(log: Log, n: Node): set<Retainer>
      requires LogShape(log) && n < |h|
    {
      if !h[n].isRetainer then log.got[n] else if log.got[n] == {} then {} else {h[n].retainer}
    }

    ghost predicate Among(p: Pend, es: seq<Elem>)
      requires WellFormed(h, height)
    {
      exists i, j :: 0 <= i < |es| && 0 <= j < |es[i].rest| && es[i].c == p.n && es[i].r == p.r && es[i].rest[j] < |h|
          && Target(h, height, es[i].rest[j]) == p.t
    }

    /** The child t has been visited with retainer r because of n, or will be by way of the stack or the callers. */
    ghost predicate Settled(p: Pend, log: Log, es: seq<Elem>, others: set<Pend>)
      requires WellFormed(h, height) && p.t < |h| && LogShape(log)
    {
      h[p.t].kind.Ignored? || p.r in log.visits[p.t] || p in others || Among(p, es)
    }

    ghost predicate Due(p: Pend, log: Log)
      requires WellFormed(h, height) && LogShape(log)
    {
      p.n < |h| && p.t < |h| && p.r in Out(log, p.n) && Edge(h, height, p.n, p.t)
    }

    /** So for the children of every closure visited, and every retainer they are to be visited with. */
    ghost predicate ClosedIn(log: Log, es: seq<Elem>, others: set<Pend>)
      requires WellFormed(h, height) && LogShape(log)
    {
      forall p: Pend :: Due(p, log) ==> Settled(p, log, es, others)
    }

    ghost predicate Closed(others: set<Pend>)
      requires Shape()
      reads this
    {
      ClosedIn(log, stack, others)
    }

    ghost predicate StackOk(es: seq<Elem>)
      requires WellFormed(h, height)
    {
      forall i :: 0 <= i < |es| ==> ElemOk(es[i])
    }

    ghost predicate ItemOk(c: Node, cp: Node, r: Retainer)
      requires WellFormed(h, height)
    {
      && c < |h| && cp < |h|
      && if c == cp && c in roots && r == RootRetainer(h, c) then true
         else Gives(cp, r) && Edge(h, height, cp, Target(h, height, c))
    }

    /** A closure reached from an item has the item's retainer. */
    lemma ItemRetains(c: Node, cp: Node, r: Retainer)
      requires WellFormed(h, height) && ItemOk(c, cp, r)
      ensures Retains(h, height, roots, r, Target(h, height, c))
    {
      if c == cp && c in roots && r == RootRetainer(h, c) {
        RetainsRoot(h, height, roots, c);
      } else if h[cp].isRetainer {
        RetainsChild(h, height, roots, cp, Target(h, height, c));
      } else {
        RetainsNext(h, height, roots, r, cp, Target(h, height, c));
      }
    }

    // ----- the retainer set of one closure -----

    /** What visiting c from cp with r does, whether the children are next, and with which retainer. */
    twostate predicate Visited(a: (Node, Node, Retainer, bool, Retainer))
      requires old(Shape()) && Shape() && a.0 < |h| && a.1 < |h|
      reads this
    {
      var (c, cp, r, expand, c_child_r) := a;
      var rs := old(rset)[c];
      var accepted := rs.Unset? || !Member(r, rs);
      && rset == old(rset)[c := Updated(if h[cp].isRetainer then Unset else old(rset)[cp], rs, r, max)]
      && log == Noted(old(log), c, r, accepted)
      && exact == (old(exact) && (accepted ==> rset[c] == Capped(old(log).got[c] + {r}, max)))
      && (expand <==> rs.Unset? || (!Member(r, rs) && !h[c].isRetainer))
      && c_child_r == (if h[c].isRetainer then h[c].retainer else r)
      && expanded == (if expand then old(expanded)[c := old(expanded)[c] + 1] else old(expanded))
    }

    /** The part of retainClosure between the special cases and the children. */
    method Associate(c: Node, cp: Node, r: Retainer) returns (expand: bool, c_child_r: Retainer)
      requires Shape() && c < |h| && cp < |h|
      requires Linked() && this !in rec.Repr
      modifies this`rset, this`expanded, this`log, this`exact, rec, rec.Repr
      ensures Linked() && this !in rec.Repr && fresh(rec.Repr - old(rec.Repr)) && old(rec.ts.groups) <= rec.ts.groups
      ensures Shape() && Visited((c, cp, r, expand, c_child_r))
    {
      hide Updated, Capped, Member, Records.Agrees;
      expand, c_child_r := rec.Associate(c, cp, r, rset, stack, boundary);
      ghost var u := Updated(if h[cp].isRetainer then Unset else rset[cp], rset[c], r, max);
      ghost var accepted := rset[c].Unset? || !Member(r, rset[c]);
      exact := exact && (accepted ==> u == Capped(log.got[c] + {r}, max));
      log := Noted(log, c, r, accepted);
      rset := rset[c := u];
      if expand {
        expanded := expanded[c := expanded[c] + 1];
      }
    }

    twostate lemma SoundStill(a: (Node, Node, Retainer, Node))
      requires var (c, cp, r, c0) := a;
               old(Valid()) && Shape() && stack == old(stack) && boundary == old(boundary)
               && ItemOk(c0, cp, r) && c == Target(h, height, c0)
               && rset == old(rset)[c :=
                    Updated(if h[cp].isRetainer then Unset else old(rset)[cp], old(rset)[c], r, max)]
               && forall n: Node :: n < |h| && n != c ==>
                    && expanded[n] == old(expanded)[n]
                    && log.visits[n] == old(log).visits[n] && log.got[n] == old(log).got[n]
      ensures Sound() && forall n: Node :: n < |h| && n != a.0 ==> SetOk(n)
    {
      var (c, cp, r, c0) := a;
      var s := if h[cp].isRetainer then Unset else old(rset)[cp];
      ItemRetains(c0, cp, r);
      forall n: Node | n < |h| && n != c
        ensures SetOk(n)
      {
        assert old(SetOk(n));
      }
      assert old(SetOk(cp));
      hide Retains, Updated;
      if cp != c && !s.Unset? {
        MeansNext(h, height, roots, max, s, cp, c);
      }
      UpdatedMeans(h, height, roots, max, s, old(rset)[c], c, r);
    }

    /** The set of the closure grows, or nothing happens. */
    method Visit(c: Node, cp: Node, r: Retainer, ghost c0: Node) returns (expand: bool, c_child_r: Retainer)
      requires Valid() && ItemOk(c0, cp, r) && c == Target(h, height, c0)
      requires Linked() && this !in rec.Repr
      modifies this`rset, this`expanded, this`log, this`exact, rec, rec.Repr
      ensures Linked() && this !in rec.Repr && fresh(rec.Repr - old(rec.Repr)) && old(rec.ts.groups) <= rec.ts.groups
      ensures Valid() && cp < |h| && Visited((c, cp, r, expand, c_child_r))
    {
      ItemNode(c0, cp, r);
      hide Linked, StackOk, Sound, SetOk, ItemOk, ExactIn, Visited;
      expand, c_child_r := Associate(c, cp, r);
      VisitValid(((c, cp, r, expand, c_child_r), c0));
    }

    twostate lemma VisitValid(b: ((Node, Node, Retainer, bool, Retainer), Node))
      requires var (a, c0) := b;
        && old(Valid()) && Shape() && a.0 < |h| && a.1 < |h| && Visited(a) && stack == old(stack)
        && boundary == old(boundary) && ItemOk(c0, a.1, a.2) && a.0 == Target(h, height, c0)
      ensures Valid()
    {
      var ((c, cp, r, expand, c_child_r), c0) := b;
      var s, rs := if h[cp].isRetainer then Unset else old(rset)[cp], old(rset)[c];
      assert old(SetOk(c) && SetOk(cp));
      UpdatedGrows(s, rs, r, max);
      hide StackOk, Updated, Retains, ItemOk, ExactIn, Capped;
      SoundStill((c, cp, r, c0));
      ExactStill((c, r));
    }

    twostate lemma ExactStill(a: (Node, Retainer))
      requires old(Valid()) && a.0 < |h| == |rset| && LogShape(log)
      requires var (c, r) := a; var accepted := old(rset)[c].Unset? || !Member(r, old(rset)[c]);
        && log == Noted(old(log), c, r, accepted) && rset == old(rset)[c := rset[c]]
        && (!accepted ==> rset[c] == old(rset)[c])
        && exact == (old(exact) && (accepted ==> rset[c] == Capped(old(log).got[c] + {r}, max)))
      ensures exact ==> ExactIn(rset, log)
    {
    }

    // ----- the traverse stack -----

    /** The children ns of n, to be visited with r. */
    ghost function Pends(n: Node, r: Retainer, ns: seq<Node>): (ps: set<Pend>)
      requires WellFormed(h, height) && forall i :: 0 <= i < |ns| ==> ns[i] < |h|
    {
      set i | 0 <= i < |ns| :: Pend(n, r, Target(h, height, ns[i]))
    }

    lemma ClosedLess(log: Log, es: seq<Elem>, fs: seq<Elem>, others: set<Pend>, more: set<Pend>)
      requires WellFormed(h, height) && LogShape(log) && ClosedIn(log, es, others)
      requires forall p :: Among(p, es) ==> Among(p, fs) || p in more
      ensures ClosedIn(log, fs, others + more)
    {
      hide Among, Out, Edge;
      forall p: Pend | Due(p, log)
        ensures Settled(p, log, fs, others + more)
      {
        assert Settled(p, log, es, others);
      }
    }

    /** Dropping an entry with no children left. */
    lemma DropEmpty(es: seq<Elem>, log: Log, others: set<Pend>)
      requires WellFormed(h, height) && es != [] && es[|es| - 1].rest == [] && StackOk(es)
      requires LogShape(log) && ClosedIn(log, es, others)
      ensures StackOk(es[..|es| - 1]) && ClosedIn(log, es[..|es| - 1], others)
    {
      hide Gives, ElemOk;
      DropAmong(es);
      ClosedLess(log, es, es[..|es| - 1], others, {});
      assert others + {} == others;
    }

    lemma DropAmong(es: seq<Elem>)
      requires WellFormed(h, height) && es != [] && es[|es| - 1].rest == []
      ensures forall p :: Among(p, es) ==> Among(p, es[..|es| - 1])
    {
      var fs := es[..|es| - 1];
      forall p | Among(p, es)
        ensures Among(p, fs)
      {
        var i, j :| 0 <= i < |es| && 0 <= j < |es[i].rest| && es[i].c == p.n && es[i].r == p.r
            && es[i].rest[j] < |h| && Target(h, height, es[i].rest[j]) == p.t;
        assert fs[i].rest[j] == es[i].rest[j];
      }
    }

    /** Taking the next child of the topmost entry, which may be dropped with its last one. */
    lemma TakeNext(es: seq<Elem>, fs: seq<Elem>, log: Log, others: set<Pend>)
      requires WellFormed(h, height) && es != [] && es[|es| - 1].rest != [] && StackOk(es)
      requires LogShape(log) && ClosedIn(log, es, others)
      requires var n, e := |es| - 1, es[|es| - 1];
               fs == es[n := e.(rest := e.rest[1..])] || (fs == es[..n] && |e.rest| == 1)
      ensures es[|es| - 1].rest[0] < |h|
      ensures StackOk(fs) && Pending(fs) < Pending(es)
      ensures var e := es[|es| - 1]; ClosedIn(log, fs, others + {Pend(e.c, e.r, Target(h, height, e.rest[0]))})
    {
      var n, e := |es| - 1, es[|es| - 1];
      var e' := e.(rest := e.rest[1..]);
      PendingPop(es, e');
      assert ElemOk(e);
      RestOk(e, e');
      hide Gives, ElemOk;
      TakeAmong(es, fs);
      ClosedLess(log, es, fs, others, {Pend(e.c, e.r, Target(h, height, e.rest[0]))});
    }

    lemma RestOk(e: Elem, e': Elem)
      requires WellFormed(h, height) && ElemOk(e) && e.rest != [] && e' == e.(rest := e.rest[1..])
      ensures e.rest[0] < |h| && ElemOk(e')
    {
      assert forall j :: 0 <= j < |e'.rest| ==> e'.rest[j] == e.rest[j + 1];
    }

    lemma TakeAmong(es: seq<Elem>, fs: seq<Elem>)
      requires WellFormed(h, height) && es != [] && es[|es| - 1].rest != [] && es[|es| - 1].rest[0] < |h|
      requires var n, e := |es| - 1, es[|es| - 1];
               fs == es[n := e.(rest := e.rest[1..])] || (fs == es[..n] && |e.rest| == 1)
      ensures var e := es[|es| - 1];
        forall p :: Among(p, es) ==> Among(p, fs) || p == Pend(e.c, e.r, Target(h, height, e.rest[0]))
    {
      var n, e := |es| - 1, es[|es| - 1];
      var x := Pend(e.c, e.r, Target(h, height, e.rest[0]));
      forall p | Among(p, es)
        ensures Among(p, fs) || p == x
      {
        var i, j :| 0 <= i < |es| && 0 <= j < |es[i].rest| && es[i].c == p.n && es[i].r == p.r
            && es[i].rest[j] < |h| && Target(h, height, es[i].rest[j]) == p.t;
        if i < n {
          assert fs[i].rest[j] == es[i].rest[j];
        } else if j > 0 {
          assert fs[n].rest[j - 1] == es[n].rest[j];
        }
      }
    }

    /** pop: the next child of the topmost entry that has one, down to the boundary. */
    method Pop(ghost others: set<Pend>) returns (c: Option<Node>, cp: Node, r: Retainer)
      requires Valid() && Closed(others) && Orderly(others)
      requires Linked() && this !in rec.Repr
      modifies this`stack, rec, rec.Repr
      ensures Linked() && this !in rec.Repr && fresh(rec.Repr - old(rec.Repr)) && old(rec.ts.groups) <= rec.ts.groups
      ensures Valid() && stack[..boundary] == old(stack)[..boundary]
      ensures c.None? ==> |stack| == boundary && Closed(others)
      ensures c.Some? ==> ItemOk(c.value, cp, r) && Closed(others + {Pend(cp, r, Target(h, height, c.value))})
      ensures c.Some? ==> Pending(stack) < Pending(old(stack))
      ensures Orderly(others) && (c.Some? ==> c.value < |h| && cp < |h| && ItemOrd(c.value, cp, r, others))
    {
      hide StackOk, ClosedIn, Sound, SetOk, Records.Agrees, OrderlyIn, ItemIn;
      while true
        invariant Shape() && StackOk(stack) && Closed(others) && Orderly(others)
        invariant stack[..boundary] == old(stack)[..boundary]
        invariant Linked() && this !in rec.Repr && fresh(rec.Repr - old(rec.Repr))
        invariant old(rec.ts.groups) <= rec.ts.groups
        invariant Pending(stack) <= Pending(old(stack))
        decreases |stack|
      {
        var on := rec.IsOnBoundary(rset, stack, boundary);
        if on {
          return None, 0, 0;
        }
        ghost var es := stack;
        c, cp, r := rec.NextChild(rset, es, boundary);
        stack := rec.Left(es);
        if c.None? {
          DropEmpty(es, log, others);
          DropOrd(es, log, boundary, exact, others);
        } else {
          TopOk(es);
          TakeNext(es, stack, log, others);
          TakeOrd(es, stack, log, boundary, exact, others);
          return;
        }
      }
    }

    lemma TopOk(es: seq<Elem>)
      requires WellFormed(h, height) && es != [] && StackOk(es) && es[|es| - 1].rest != []
      ensures es[|es| - 1].c < |h| && ItemOk(es[|es| - 1].rest[0], es[|es| - 1].c, es[|es| - 1].r)
    {
    }

    ghost predicate Nodes(ns: seq<Node>) {
      forall i :: 0 <= i < |ns| ==> ns[i] < |h|
    }

    /** Visiting c settles one thing and leaves its children to be settled, if the visit is passed on to them. */
    lemma VisitClosed(log: Log, log': Log, x: Pend, expand: bool, r: Retainer, es: seq<Elem>, others: set<Pend>)
      requires WellFormed(h, height) && LogShape(log) && LogShape(log') && x.t < |h|
      requires Nodes(h[x.t].children) && ClosedIn(log, es, others + {x})
      requires log'.visits == log.visits[x.t := log.visits[x.t] + {x.r}]
      requires forall n: Node :: n < |h| && n != x.t ==> log'.got[n] == log.got[n]
      requires if expand then Out(log', x.t) <= Out(log, x.t) + {r} else Out(log', x.t) == Out(log, x.t)
      ensures ClosedIn(log', es, if expand then others + Pends(x.t, r, h[x.t].children) else others)
    {
      var more := if expand then others + Pends(x.t, r, h[x.t].children) else others;
      hide Among;
      forall p: Pend | Due(p, log')
        ensures Settled(p, log', es, more)
      {
        if Due(p, log) {
          assert Settled(p, log, es, others + {x});
        } else {
          assert p.n == x.t && p.r == r && expand;
          var i :| 0 <= i < |h[x.t].children| && Target(h, height, h[x.t].children[i]) == p.t;
          assert Pend(x.t, r, Target(h, height, h[x.t].children[i])) in Pends(x.t, r, h[x.t].children);
        }
      }
    }

    lemma PushAmong(es: seq<Elem>, e: Elem, others: set<Pend>, ch: seq<Node>, log: Log)
      requires WellFormed(h, height) && LogShape(log) && Nodes(ch) && ch != [] && e.rest == ch[1..]
      requires ClosedIn(log, es, others + Pends(e.c, e.r, ch))
      ensures ClosedIn(log, es + [e], others + {Pend(e.c, e.r, Target(h, height, ch[0]))})
    {
      var fs := es + [e];
      hide Out, Edge;
      forall p: Pend | Due(p, log)
        ensures Settled(p, log, fs, others + {Pend(e.c, e.r, Target(h, height, ch[0]))})
      {
        assert Settled(p, log, es, others + Pends(e.c, e.r, ch));
        if p in Pends(e.c, e.r, ch) {
          var i :| 0 <= i < |ch| && Pend(e.c, e.r, Target(h, height, ch[i])) == p;
          if i > 0 {
            assert fs[|es|].rest[i - 1] == ch[i];
          }
        } else if Among(p, es) {
          var i, j :| 0 <= i < |es| && 0 <= j < |es[i].rest| && es[i].c == p.n && es[i].r == p.r
              && es[i].rest[j] < |h| && Target(h, height, es[i].rest[j]) == p.t;
          assert fs[i].rest[j] == es[i].rest[j];
        }
      }
    }

    lemma FewPends(n: Node, r: Retainer, ch: seq<Node>)
      requires WellFormed(h, height) && Nodes(ch) && |ch| <= 1
      ensures Pends(n, r, ch) == if ch == [] then {} else {Pend(n, r, Target(h, height, ch[0]))}
    {
    }

    /** push: the first child, and an entry for the others unless a fixed layout has no others. */
    method Push(c: Node, c_child_r: Retainer, ghost others: set<Pend>) returns (first_child: Option<Node>)
      requires Valid() && c < |h| && h[c].kind.Pushed? && Gives(c, c_child_r)
      requires Nodes(h[c].children) && Closed(others + Pends(c, c_child_r, h[c].children))
      requires Orderly(others) && Below(c, c_child_r, others)
      requires Linked() && this !in rec.Repr
      modifies this`stack, rec, rec.Repr
      ensures Linked() && this !in rec.Repr && fresh(rec.Repr - old(rec.Repr)) && old(rec.ts.groups) <= rec.ts.groups
      ensures Valid() && old(stack) <= stack && |stack| <= |old(stack)| + 1
      ensures Orderly(others)
      ensures first_child.Some? ==> first_child.value < |h| && ItemOrd(first_child.value, c, c_child_r, others)
      ensures first_child.None? ==> Closed(others)
      ensures first_child.Some? ==>
                && ItemOk(first_child.value, c, c_child_r)
                && Closed(others + {Pend(c, c_child_r, Target(h, height, first_child.value))})
    {
      hide StackOk, ClosedIn, Sound, SetOk, Records.Agrees;
      ghost var ch := h[c].children;
      first_child := rec.Push(c, c_child_r, rset, stack, boundary);
      if |ch| <= 1 {
        FewPends(c, c_child_r, ch);
        assert others + {} == others;
      }
      if first_child.Some? {
        assert Edge(h, height, c, Target(h, height, ch[0]));
        if !(h[c].kind.eager && |ch| == 1) {
          ghost var se := Elem(c, c_child_r, ch[1..]);
          PushAmong(stack, se, others, ch, log);
          PushOk(stack, se, ch);
          if Acyclic() {
            StartOrd(stack, se, others, boundary);
          }
          stack := stack + [se];
        }
      }
    }

    lemma PushOk(es: seq<Elem>, e: Elem, ch: seq<Node>)
      requires WellFormed(h, height) && StackOk(es) && Gives(e.c, e.r) && e.c < |h| && ch == h[e.c].children
      requires ch != [] && e.rest == ch[1..]
      ensures StackOk(es + [e])
    {
      forall j | 0 <= j < |e.rest|
        ensures e.rest[j] < |h| && Edge(h, height, e.c, Target(h, height, e.rest[j]))
      {
        assert e.rest[j] == ch[j + 1];
      }
    }

    // ----- the traversal -----

    /** Retainer sets have only grown. */
    twostate predicate Grown()
      reads this
    {
      && |rset| == |old(rset)| && Potential(rset, max) <= old(Potential(rset, max))
      && (forall n: Node :: n < |rset| ==> Rank(old(rset)[n], max) <= Rank(rset[n], max))
      && LogShape(log) && old(LogShape(log))
      && forall n: Node :: n < |h| ==> old(log).visits[n] <= log.visits[n] && old(log).got[n] <= log.got[n]
    }

    /** The closure has been visited with r, or is one that is not visited. */
    ghost predicate Done(c: Node, r: Retainer)
      requires Shape() && c < |h|
      reads this
    {
      var t := Target(h, height, c);
      h[t].kind.Ignored? || r in log.visits[t]
    }

    twostate lemma DoneStill(a: (Node, Retainer))
      requires old(Valid()) && Valid() && a.0 < |h| && old(Done(a.0, a.1)) && Grown()
      ensures Done(a.0, a.1)
    {
    }

    /** The loop over IND_STATIC. */
    method Resolve(c: Node) returns (t: Node)
      requires WellFormed(h, height) && c < |h|
      ensures t == Target(h, height, c)
    {
      t := c;
      while h[t].kind.Skipped?
        invariant t < |h| && Target(h, height, t) == Target(h, height, c)
        decreases height[t]
      {
        t := h[t].kind.to;
      }
    }

    method RetainClosure(c0: Node, cp0: Node, r0: Retainer, ghost others: set<Pend>)
      requires Valid() && ItemOk(c0, cp0, r0) && Closed(others + {Pend(cp0, r0, Target(h, height, c0))})
      requires c0 < |h| && cp0 < |h| && Orderly(others) && ItemOrd(c0, cp0, r0, others)
      requires Linked() && this !in rec.Repr
      modifies this`rset, this`stack, this`boundary, this`expanded, this`log, this`exact, rec, rec.Repr
      ensures Linked() && this !in rec.Repr && fresh(rec.Repr - old(rec.Repr)) && old(rec.ts.groups) <= rec.ts.groups
      ensures Valid() && boundary == old(boundary) && stack == old(stack)[..boundary] && Closed(others)
      ensures Grown() && Done(c0, r0) && Orderly(others)
      decreases Potential(rset, max), 1
    {
      hide StackOk, Closed, Sound, SetOk, Linked, Potential, Pending, ItemOk, Orderly, ItemOrd, ExactIn;
      var c: Node, cp: Node, r, more := c0, cp0, r0, true;
      ItemNode(c0, cp0, r0);
      while more
        invariant Valid() && boundary == old(boundary) && stack[..boundary] == old(stack)[..boundary]
        invariant if more then c < |h| && ItemOk(c, cp, r) && Closed(others + {Pend(cp, r, Target(h, height, c))})
                  else |stack| == boundary && Closed(others)
        invariant Orderly(others) && (more ==> cp < |h| && ItemOrd(c, cp, r, others))
        invariant Linked() && this !in rec.Repr && fresh(rec.Repr - old(rec.Repr))
        invariant old(rec.ts.groups) <= rec.ts.groups
        invariant Grown() && ((more && c == c0 && r == r0) || Done(c0, r0))
        decreases more, Potential(rset, max), Pending(stack)
      {
        label before:
        var first, t, c_child_r := Expand(c, cp, r, others);
        if c != c0 || r != r0 {
          DoneStill@before((c0, r0));
        }
        if first.Some? {
          c, cp, r := first.value, t, c_child_r;
        } else {
          var o;
          o, cp, r := Pop(others);
          if o.None? {
            more := false;
          } else {
            c := o.value;
            ItemNode(c, cp, r);
          }
        }
      }
    }

    lemma ItemNode(c: Node, cp: Node, r: Retainer)
      requires WellFormed(h, height) && ItemOk(c, cp, r)
      ensures c < |h| && cp < |h|
    {
    }

    lemma IgnoredClosed(x: Pend, others: set<Pend>)
      requires Shape() && x.t < |h| && h[x.t].kind.Ignored? && Closed(others + {x})
      ensures Closed(others)
    {
      hide Among, Out, Edge;
      forall p: Pend | Due(p, log)
        ensures Settled(p, log, stack, others)
      {
        assert Settled(p, log, stack, others + {x});
      }
    }

    lemma Smaller(rs: seq<RSet>, t: Node, s: RSet)
      requires t < |rs| && Rank(s, max) <= max + 1 && (s == rs[t] || Rank(rs[t], max) < Rank(s, max))
      ensures Potential(rs[t := s], max) <= Potential(rs, max)
      ensures Rank(rs[t], max) < Rank(s, max) ==> Potential(rs[t := s], max) < Potential(rs, max)
    {
      if s == rs[t] {
        assert rs[t := s] == rs;
      } else {
        PotentialFalls(rs, max, t, s);
      }
    }

    /** The children of c can be visited with retainer r. */
    ghost predicate ItemsOk(ns: seq<Node>, c: Node, r: Retainer)
      requires WellFormed(h, height)
    {
      Nodes(ns) && forall i :: 0 <= i < |ns| ==> ItemOk(ns[i], c, r) && Edge(h, height, c, Target(h, height, ns[i]))
    }

    lemma Children(c: Node, r: Retainer, k: nat)
      requires WellFormed(h, height) && c < |h| && k <= |h[c].children|
      ensures Nodes(h[c].children) && Nodes(h[c].children[..k]) && Nodes(h[c].children[k..])
      ensures Pends(c, r, h[c].children) == Pends(c, r, h[c].children[..k]) + Pends(c, r, h[c].children[k..])
      ensures Gives(c, r) ==> ItemsOk(h[c].children[..k], c, r) && ItemsOk(h[c].children[k..], c, r)
    {
      var ch := h[c].children;
      assert forall i :: 0 <= i < |ch| ==> Edge(h, height, c, Target(h, height, ch[i]));
      SplitPends(c, r, ch, k);
      hide Edge, Gives;
    }

    lemma SplitPends(n: Node, r: Retainer, ns: seq<Node>, k: nat)
      requires WellFormed(h, height) && Nodes(ns) && k <= |ns|
      ensures Pends(n, r, ns) == Pends(n, r, ns[..k]) + Pends(n, r, ns[k..])
    {
      forall p | p in Pends(n, r, ns)
        ensures p in Pends(n, r, ns[..k]) + Pends(n, r, ns[k..])
      {
        var i :| 0 <= i < |ns| && Pend(n, r, Target(h, height, ns[i])) == p;
        if i < k {
          assert ns[..k][i] == ns[i];
        } else {
          assert ns[k..][i - k] == ns[i];
        }
      }
    }

    /** The closure is given its set; nothing is done about its children yet. */
    method VisitOne(c: Node, t: Node, cp: Node, r: Retainer, ghost others: set<Pend>)
      returns (expand: bool, c_child_r: Retainer)
      requires Valid() && c < |h| && t == Target(h, height, c) && ItemOk(c, cp, r) && Closed(others + {Pend(cp, r, t)})
      requires cp < |h| && Orderly(others) && ItemOrd(c, cp, r, others) && !h[t].kind.Ignored?
      requires Linked() && this !in rec.Repr
      modifies this`rset, this`expanded, this`log, this`exact, rec, rec.Repr
      ensures Linked() && this !in rec.Repr && fresh(rec.Repr - old(rec.Repr)) && old(rec.ts.groups) <= rec.ts.groups
      ensures Valid() && VisitPost(((t, cp, r, expand, c_child_r), c, others))
    {
      AcyclicFits(c, t, cp, r, others);
      assert Nodes(h[t].children) by { Children(t, r, 0); }
      hide Linked, Valid, ItemOk, Closed, Fits, VisitPost, Orderly, ItemOrd;
      expand, c_child_r := VisitAndNote(c, t, cp, r, others);
    }

    method VisitAndNote(c: Node, t: Node, cp: Node, r: Retainer, ghost others: set<Pend>)
      returns (expand: bool, c_child_r: Retainer)
      requires Valid() && c < |h| && t == Target(h, height, c) && ItemOk(c, cp, r) && cp < |h| && t < |h|
      requires Closed(others + {Pend(cp, r, t)}) && Fits(c, t, cp, r, others) && Nodes(h[t].children)
      requires Linked() && this !in rec.Repr
      modifies this`rset, this`expanded, this`log, this`exact, rec, rec.Repr
      ensures Linked() && this !in rec.Repr && fresh(rec.Repr - old(rec.Repr)) && old(rec.ts.groups) <= rec.ts.groups
      ensures Valid() && VisitPost(((t, cp, r, expand, c_child_r), c, others))
    {
      hide Linked, StackOk, Closed, Visited, ItemOk, Fits, Sound, SetOk, ExactIn, VisitPost;
      expand, c_child_r := Visit(t, cp, r, c);
      VisitDone(((t, cp, r, expand, c_child_r), c, others));
    }

    /** The visit is one the order allows, if there is one. */
    ghost predicate Fits(c: Node, t: Node, cp: Node, r: Retainer, others: set<Pend>)
      requires Shape() && c < |h| && cp < |h| && t < |h|
      reads this
    {
      && Orderly(others) && ItemOrd(c, cp, r, others)
      && (Acyclic() ==> exact && (rset[t].Unset? || !Member(r, rset[t]) ==>
            Updated(if h[cp].isRetainer then Unset else rset[cp], rset[t], r, max) == Capped(log.got[t] + {r}, max)))
    }

    /** Sets have grown, and if the children are next they are to be visited with c_child_r; otherwise nothing is
        left. */
    twostate predicate VisitPost(b: ((Node, Node, Retainer, bool, Retainer), Node, set<Pend>))
      requires old(Shape()) && Shape() && b.0.0 < |h| && b.1 < |h|
      reads this
    {
      var ((t, cp, r, expand, c_child_r), c, others) := b;
      && Nodes(h[t].children) && Grown() && Done(c, r) && Orderly(others)
      && if expand then
           && Gives(t, c_child_r) && Closed(others + Pends(t, c_child_r, h[t].children)) && Below(t, c_child_r, others)
           && Potential(rset, max) < old(Potential(rset, max))
         else Closed(others)
    }

    twostate lemma VisitDone(b: ((Node, Node, Retainer, bool, Retainer), Node, set<Pend>))
      requires var (a, c, others) := b;
        && old(Valid()) && Valid() && a.0 < |h| && a.1 < |h| && c < |h| && a.0 == Target(h, height, c)
        && Visited(a) && stack == old(stack) && boundary == old(boundary) && ItemOk(c, a.1, a.2)
        && Nodes(h[a.0].children) && old(Closed(others + {Pend(a.1, a.2, a.0)}) && Fits(c, a.0, a.1, a.2, others))
      ensures VisitPost(b)
    {
      var (a, c, others) := b;
      hide StackOk, Acyclic, OrderlyIn, ItemIn, ClosedIn, Visited, ItemOk, Gives, Updated, Capped, Sound, SetOk;
      hide ExactIn;
      VisitGrown(a);
      VisitCarried((a, others));
      VisitOrd((a, c, others));
      VisitGives((a, c));
    }

    /** Sets only grow, and do if the children are next. */
    twostate lemma VisitGrown(a: (Node, Node, Retainer, bool, Retainer))
      requires old(Valid()) && Valid() && a.0 < |h| && a.1 < |h| && Visited(a)
      ensures Grown() && a.2 in log.visits[a.0]
      ensures a.3 ==> Potential(rset, max) < old(Potential(rset, max))
    {
      var (c, cp, r, expand, _) := a;
      hide Sound, StackOk, ExactIn;
      assert old(SetOk(c) && SetOk(cp)) && SetOk(c);
      hide SetOk;
      UpdatedGrows(if h[cp].isRetainer then Unset else old(rset)[cp], old(rset)[c], r, max);
      hide Updated, Potential;
      Smaller(old(rset), c, rset[c]);
    }

    /** What is settled stays so, and the children are still to be visited if they are next. */
    twostate lemma VisitCarried(b: ((Node, Node, Retainer, bool, Retainer), set<Pend>))
      requires var (a, others) := b;
        && old(Valid()) && Valid() && a.0 < |h| && a.1 < |h| && Visited(a) && stack == old(stack)
        && Nodes(h[a.0].children) && old(Closed(others + {Pend(a.1, a.2, a.0)}))
      ensures Closed(if b.0.3 then b.1 + Pends(b.0.0, b.0.4, h[b.0.0].children) else b.1)
    {
      var (a, others) := b;
      assert old(SetOk(a.0));
      hide Updated, Capped, Sound, StackOk, SetOk, ClosedIn;
      VisitClosed(old(log), log, Pend(a.1, a.2, a.0), a.3, a.4, stack, others);
    }

    twostate lemma VisitOrd(b: ((Node, Node, Retainer, bool, Retainer), Node, set<Pend>))
      requires var (a, c, others) := b;
        && old(Valid()) && Valid() && a.0 < |h| && a.1 < |h| && c < |h| && a.0 == Target(h, height, c) && Visited(a)
        && stack == old(stack) && boundary == old(boundary)
        && old(Orderly(others) && ItemOrd(c, a.1, a.2, others))
        && (Acyclic() ==> old(exact) && (old(rset)[a.0].Unset? || !Member(a.2, old(rset)[a.0]) ==>
              Updated(if h[a.1].isRetainer then Unset else old(rset)[a.1], old(rset)[a.0], a.2, max)
              == Capped(old(log).got[a.0] + {a.2}, max)))
      ensures Orderly(b.2) && (b.0.3 ==> Below(b.0.0, b.0.4, b.2))
    {
      var (a, c, others) := b;
      assert SetOk(a.0) && old(SetOk(a.0));
      hide Updated, Capped, Sound, StackOk, SetOk, ExactIn, Chain, EntriesUnder, Under, ItemIn, Acyclic;
      if Acyclic() {
        GrownOrd(a.0, c, a.1, a.2, stack, old(log), log, boundary, others);
      }
    }

    lemma GrownOrd(t: Node, c: Node, cp: Node, r: Retainer, es: seq<Elem>, log: Log, log': Log, b: nat,
                   others: set<Pend>)
      requires WellFormed(h, height) && Acyclic() && LogShape(log) && LogShape(log') && c < |h| && cp < |h|
      requires Chain(es, log) && EntriesUnder(es, b, others) && ItemIn(c, cp, r, es, log, others)
      requires t == Target(h, height, c) && forall n: Node :: n < |h| ==> log.got[n] <= log'.got[n]
      ensures Chain(es, log') && Under(t, es, others)
    {
      assert forall n: Node :: n < |h| ==> Out(log, n) <= Out(log', n);
    }

    twostate lemma VisitGives(b: ((Node, Node, Retainer, bool, Retainer), Node))
      requires var (a, c) := b;
        && old(Valid()) && Valid() && a.0 < |h| && a.1 < |h| && Visited(a)
        && ItemOk(c, a.1, a.2) && a.0 == Target(h, height, c)
      ensures b.0.3 ==> Gives(b.0.0, b.0.4)
    {
      ItemRetains(b.1, b.0.1, b.0.2);
    }

    /** One round of retainClosure: the closure is visited, and its children are done, or one of them is next. */
    method Expand(c: Node, cp: Node, r: Retainer, ghost others: set<Pend>)
      returns (first: Option<Node>, t: Node, c_child_r: Retainer)
      requires Valid() && c < |h| && ItemOk(c, cp, r) && Closed(others + {Pend(cp, r, Target(h, height, c))})
      requires cp < |h| && Orderly(others) && ItemOrd(c, cp, r, others)
      requires Linked() && this !in rec.Repr
      modifies this`rset, this`stack, this`boundary, this`expanded, this`log, this`exact, rec, rec.Repr
      ensures Linked() && this !in rec.Repr && fresh(rec.Repr - old(rec.Repr)) && old(rec.ts.groups) <= rec.ts.groups
      ensures Valid() && boundary == old(boundary) && stack[..boundary] == old(stack)[..boundary] && Grown()
      ensures Done(c, r) && Orderly(others)
      ensures first.Some? ==> first.value < |h| && t < |h| && ItemOrd(first.value, t, c_child_r, others)
      ensures if first.Some? then
                && first.value < |h| && ItemOk(first.value, t, c_child_r)
                && Closed(others + {Pend(t, c_child_r, Target(h, height, first.value))})
                && Potential(rset, max) < old(Potential(rset, max))
              else
                Closed(others) && (Potential(rset, max) < old(Potential(rset, max)) || stack == old(stack))
      decreases Potential(rset, max), 0
    {
      hide StackOk, ClosedIn, Sound, SetOk, Linked, ItemOk, Potential;
      t := Resolve(c);
      if h[t].kind.Ignored? {
        IgnoredClosed(Pend(cp, r, t), others);
        return None, t, r;
      }
      var expand;
      expand, c_child_r := VisitOne(c, t, cp, r, others);
      if !expand {
        return None, t, r;
      }
      if h[t].kind.InOneGo? {
        label before:
        RetainChildren(t, c_child_r, h[t].kind.direct, others);
        DoneStill@before((c, r));
        return None, t, c_child_r;
      }
      first := Push(t, c_child_r, others);
      if first.Some? {
        ItemNode(first.value, t, c_child_r);
      }
    }

    /** TSO, STACK, PAP, AP and AP_STACK. */
    method RetainChildren(c: Node, c_child_r: Retainer, direct: nat, ghost others: set<Pend>)
      requires Valid() && c < |h| && Gives(c, c_child_r) && Nodes(h[c].children)
      requires Closed(others + Pends(c, c_child_r, h[c].children))
      requires h[c].kind == InOneGo(direct) && Orderly(others) && Below(c, c_child_r, others)
      requires Linked() && this !in rec.Repr
      modifies this`rset, this`stack, this`boundary, this`expanded, this`log, this`exact, rec, rec.Repr
      ensures Linked() && this !in rec.Repr && fresh(rec.Repr - old(rec.Repr)) && old(rec.ts.groups) <= rec.ts.groups
      ensures Valid() && boundary == old(boundary) && stack[..boundary] == old(stack)[..boundary] && Grown()
      ensures Closed(others) && Orderly(others)
      decreases Potential(rset, max), 4
    {
      hide StackOk, ClosedIn, Sound, SetOk, Linked, ItemOk, Potential, Gives;
      var ch := h[c].children;
      var k := if direct < |ch| then direct else |ch|;
      Children(c, c_child_r, k);
      ghost var later := Pends(c, c_child_r, ch[k..]);
      assert others + Pends(c, c_child_r, ch) == (others + later) + Pends(c, c_child_r, ch[..k]);
      if k > 0 {
        RetainAll(ch[..k], c, c_child_r, others + later);
      } else {
        assert Pends(c, c_child_r, ch[..k]) == {};
        assert (others + later) + {} == others + later;
      }
      if k < |ch| {
        RetainStack(ch[k..], c, c_child_r, others);
      } else {
        assert others + later == others;
      }
    }

    /** Recursive calls for some children, which also empty the current chunk of the traverse stack. */
    method RetainAll(ns: seq<Node>, c: Node, c_child_r: Retainer, ghost others: set<Pend>)
      requires Valid() && ItemsOk(ns, c, c_child_r) && Closed(others + Pends(c, c_child_r, ns))
      requires c < |h| && FrameOrd(c, c_child_r, others)
      requires Linked() && this !in rec.Repr
      modifies this`rset, this`stack, this`boundary, this`expanded, this`log, this`exact, rec, rec.Repr
      ensures Linked() && this !in rec.Repr && fresh(rec.Repr - old(rec.Repr)) && old(rec.ts.groups) <= rec.ts.groups
      ensures Valid() && boundary == old(boundary) && stack[..boundary] == old(stack)[..boundary] && Grown()
      ensures Closed(others) && (if ns == [] then stack == old(stack) else |stack| == boundary)
      ensures FrameOrd(c, c_child_r, others)
      decreases Potential(rset, max), 2
    {
      hide StackOk, ClosedIn, Sound, SetOk, Linked, ItemOk, Potential;
      var i := 0;
      assert ns[0..] == ns;
      while i < |ns|
        invariant i <= |ns| && Valid() && boundary == old(boundary) && stack[..boundary] == old(stack)[..boundary]
        invariant Grown()
        invariant Linked() && this !in rec.Repr && fresh(rec.Repr - old(rec.Repr))
        invariant old(rec.ts.groups) <= rec.ts.groups
        invariant Nodes(ns[i..]) && Closed(others + Pends(c, c_child_r, ns[i..]))
        invariant if i == 0 then stack == old(stack) else |stack| == boundary
        invariant FrameOrd(c, c_child_r, others)
      {
        OnePend(c, c_child_r, ns, i, others);
        label before:
        FrameItem(ns, i, c, c_child_r, others);
        RetainClosure(ns[i], c, c_child_r, others + Pends(c, c_child_r, ns[i + 1..]));
        FrameStill@before((c, c_child_r, others, Pends(c, c_child_r, ns[i + 1..])));
        i := i + 1;
      }
      assert others + Pends(c, c_child_r, ns[i..]) == others;
    }

    lemma FrameItem(ns: seq<Node>, i: nat, c: Node, r: Retainer, others: set<Pend>)
      requires Shape() && ItemsOk(ns, c, r) && i < |ns| && c < |h| && FrameOrd(c, r, others)
      ensures Nodes(ns[i + 1..]) && ns[i] < |h|
      ensures var more := others + Pends(c, r, ns[i + 1..]); Orderly(more) && ItemOrd(ns[i], c, r, more)
    {
    }

    twostate lemma FrameStill(a: (Node, Retainer, set<Pend>, set<Pend>))
      requires old(Shape() && a.0 < |h| && FrameOrd(a.0, a.1, a.2)) && Shape() && Orderly(a.2 + a.3) && Grown()
      requires boundary == old(boundary) && stack == old(stack)[..boundary]
      ensures FrameOrd(a.0, a.1, a.2)
    {
    }

    lemma OnePend(n: Node, r: Retainer, ns: seq<Node>, i: nat, others: set<Pend>)
      requires WellFormed(h, height) && i < |ns| && Nodes(ns[i..])
      ensures Nodes(ns[i + 1..]) && ns[i] < |h|
      ensures others + Pends(n, r, ns[i..])
           == (others + Pends(n, r, ns[i + 1..])) + {Pend(n, r, Target(h, height, ns[i]))}
    {
      assert ns[i..][1..] == ns[i + 1..] && ns[i..][0] == ns[i];
      FirstPend(n, r, ns[i..]);
    }

    lemma FirstPend(n: Node, r: Retainer, ns: seq<Node>)
      requires WellFormed(h, height) && Nodes(ns) && ns != []
      ensures Pends(n, r, ns) == {Pend(n, r, Target(h, height, ns[0]))} + Pends(n, r, ns[1..])
    {
      SplitPends(n, r, ns, 1);
      FewPends(n, r, ns[..1]);
    }

    /** currentStackBoundary = stackTop; the boundary there was, and the number of its group. */
    method Mark() returns (b: TS.Pointer<Entry>, ghost k: nat)
      requires Valid() && Linked() && this !in rec.Repr
      modifies this`boundary, rec`boundary, rec`k
      ensures Valid() && Linked() && boundary == |stack|
      ensures rec.ts.Marks(b, old(boundary), k)
    {
      hide StackOk, Sound, SetOk;
      b, k := rec.boundary, rec.k;
      assert rec.ts.Marks(b, boundary, k);
      hide Records.Agrees;
      rec.Mark(rset, stack, boundary);
      boundary := |stack|;
    }

    method Restore(b: TS.Pointer<Entry>, ghost depth: nat, ghost k: nat)
      requires Valid() && Linked() && this !in rec.Repr && depth <= |stack| && rec.ts.Marks(b, depth, k)
      modifies this`boundary, rec`boundary, rec`k
      ensures Valid() && Linked() && boundary == depth
    {
      hide StackOk, Sound, SetOk, Records.Agrees;
      rec.Restore(b, rset, stack, boundary, (depth, k));
      boundary := depth;
    }

    /** retainStack: a chunk of its own on the traverse stack, which is left as it was. */
    method RetainStack(ns: seq<Node>, c: Node, c_child_r: Retainer, ghost others: set<Pend>)
      requires Valid() && ItemsOk(ns, c, c_child_r) && Closed(others + Pends(c, c_child_r, ns))
      requires c < |h| && Orderly(others) && Below(c, c_child_r, others)
      requires Linked() && this !in rec.Repr
      modifies this`rset, this`stack, this`boundary, this`expanded, this`log, this`exact, rec, rec.Repr
      ensures Linked() && this !in rec.Repr && fresh(rec.Repr - old(rec.Repr)) && old(rec.ts.groups) <= rec.ts.groups
      ensures Valid() && boundary == old(boundary) && stack == old(stack) && Grown()
      ensures Closed(others) && Orderly(others)
      decreases Potential(rset, max), 3
    {
      hide StackOk, ClosedIn, Sound, SetOk, Linked, ItemOk, Potential, ItemsOk;
      ghost var depth := boundary;
      var oldStackBoundary, k := Mark();
      label before:
      RetainAll(ns, c, c_child_r, others);
      rec.ts.MarkKept@before((oldStackBoundary, depth, k));
      Restore(oldStackBoundary, depth, k);
    }

    /** retainRoot. */
    method RetainRoot(c: Node)
      requires Valid() && Closed({}) && Orderly({}) && stack == [] && boundary == 0 && c < |h| && c in roots
      requires Linked() && this !in rec.Repr
      modifies this`rset, this`stack, this`boundary, this`expanded, this`log, this`exact, rec, rec.Repr
      ensures Linked() && this !in rec.Repr && fresh(rec.Repr - old(rec.Repr)) && old(rec.ts.groups) <= rec.ts.groups
      ensures Valid() && Closed({}) && stack == [] && boundary == 0 && Grown() && Done(c, RootRetainer(h, c))
      ensures Orderly({})
    {
      hide StackOk, ClosedIn, Sound, SetOk, Linked, Potential;
      MoreOthers(Pend(c, RootRetainer(h, c), Target(h, height, c)));
      var _, _ := Mark();
      if h[c].isRetainer {
        RetainClosure(c, c, h[c].retainer, {});
      } else {
        RetainClosure(c, c, SYSTEM, {});
      }
    }

    lemma MoreOthers(x: Pend)
      requires Shape() && Closed({})
      ensures Closed({} + {x})
    {
      hide Among, Out, Edge;
      forall p: Pend | Due(p, log)
        ensures Settled(p, log, stack, {} + {x})
      {
        assert Settled(p, log, stack, {});
      }
    }

    /** Nothing is left on the stack: the closures visited are those reached from the roots. */
    ghost predicate Complete(rs: seq<Node>)
      requires Shape() && Nodes(rs)
      reads this
    {
      forall p: seq<Node> ::
        Path(h, height, p) && (exists i :: 0 <= i < |rs| && Target(h, height, rs[i]) == p[0]) ==>
            !rset[p[|p| - 1]].Unset?
    }

    lemma AllReached(rs: seq<Node>)
      requires Valid() && Closed({}) && stack == [] && Nodes(rs)
      requires forall i :: 0 <= i < |rs| ==> Done(rs[i], RootRetainer(h, rs[i]))
      ensures Complete(rs)
    {
      var visited := set n: Node | 0 <= n < |h| && !rset[n].Unset?;
      forall n, t: Node | n in visited && Edge(h, height, n, t) && t < |h| && !h[t].kind.Ignored?
        ensures t in visited
      {
        assert SetOk(n) && SetOk(t);
        var r :| r in Out(log, n);
        assert Due(Pend(n, r, t), log);
      }
      forall i | 0 <= i < |rs|
        ensures var t := Target(h, height, rs[i]); h[t].kind.Ignored? || t in visited
      {
        assert SetOk(Target(h, height, rs[i]));
      }
      forall p: seq<Node> | Path(h, height, p) && exists i :: 0 <= i < |rs| && Target(h, height, rs[i]) == p[0]
        ensures !rset[p[|p| - 1]].Unset?
      {
        ReachedVisited(h, height, visited, p);
      }
    }

    // ----- every retainer is found -----

    /** Every retainer that a closure passes on has visited each of its children. */
    ghost predicate Carried()
      requires Shape()
      reads this
    {
      forall p: Pend :: Due(p, log) && !h[p.t].kind.Ignored? ==> p.r in log.visits[p.t]
    }

    lemma AllCarried()
      requires Shape() && Closed({}) && stack == []
      ensures Carried()
    {
      forall p: Pend | Due(p, log) && !h[p.t].kind.Ignored?
        ensures p.r in log.visits[p.t]
      {
        assert Settled(p, log, stack, {});
      }
    }

    /** x is a root, or reached from one. */
    ghost predicate Starts(rs: seq<Node>, x: Node)
      requires WellFormed(h, height) && Nodes(rs)
    {
      || x in rs
      || exists q, i ::
           Path(h, height, q) && q[|q| - 1] == x && 0 <= i < |rs| && Target(h, height, rs[i]) == q[0]
    }

    /** r retains c along closures that are visited, from a source that is. */
    ghost predicate LiveRetains(rs: seq<Node>, r: Retainer, c: Node)
      requires WellFormed(h, height) && Nodes(rs)
    {
      exists p :: LiveVia(rs, p, r, c)
    }

    ghost predicate LiveVia(rs: seq<Node>, p: seq<Node>, r: Retainer, c: Node)
      requires WellFormed(h, height) && Nodes(rs)
    {
      Via(h, height, roots, p, r, c) && Starts(rs, p[0]) && forall i :: 0 <= i < |p| ==> !h[p[i]].kind.Ignored?
    }

    /** The closure has been visited with r, or has too many others. */
    ghost predicate Has(n: Node, r: Retainer)
      requires Shape() && n < |h|
      reads this
    {
      r in log.visits[n] || |log.got[n]| > max
    }

    ghost predicate Finished(rs: seq<Node>)
      reads this
    {
      && Valid() && exact && Carried() && Nodes(rs) && Complete(rs) && (forall x :: x in roots ==> x in rs)
      && forall i :: 0 <= i < |rs| ==> Done(rs[i], RootRetainer(h, rs[i]))
    }

    lemma OneOn(rs: seq<Node>, n: Node, t: Node, r: Retainer)
      requires Finished(rs) && n < |h| && t < |h| && Edge(h, height, n, t) && !h[t].kind.Ignored? && !h[n].isRetainer
      requires Has(n, r)
      ensures Has(t, r)
    {
      if r in log.got[n] {
        assert Due(Pend(n, r, t), log);
      } else {
        forall x | x in log.got[n]
          ensures x in log.got[t] || |log.got[t]| > max
        {
          assert Due(Pend(n, x, t), log);
        }
        if |log.got[t]| <= max {
          NotMore(log.got[n], log.got[t]);
        }
      }
    }

    /** The first closure of the path that is visited with r. */
    lemma FirstHas(rs: seq<Node>, p: seq<Node>, r: Retainer, c: Node) returns (k: nat)
      requires Finished(rs) && LiveVia(rs, p, r, c) && c < |h| && !h[c].kind.Skipped?
      ensures k < |p| && k <= 1 && Has(p[k], r) && (k == 0 ==> !h[p[0]].isRetainer || |p| == 1)
      ensures !h[p[k]].kind.Skipped?
    {
      var x := p[0];
      assert |p| > 1 ==> Step(h, height, roots, p[0], p[1]);
      if x in roots {
        var i :| 0 <= i < |rs| && rs[i] == x;
        assert Done(rs[i], RootRetainer(h, rs[i]));
      }
      if h[x].isRetainer && |p| > 1 {
        assert SetOk(x) && Edge(h, height, x, p[1]);
        if x in roots {
          assert x == Target(h, height, x);
        } else {
          assert !rset[x].Unset?;
        }
        assert Due(Pend(x, r, p[1]), log);
        return 1;
      } else if h[x].kind.Skipped? {
        return 1;
      } else {
        return 0;
      }
    }

    lemma {:induction false} Along(rs: seq<Node>, p: seq<Node>, r: Retainer, c: Node, j: nat, k: nat)
      requires Nodes(rs) && Finished(rs) && LiveVia(rs, p, r, c) && Shape() && Nodes(p) && j <= k < |p|
      requires Has(p[j], r) && !h[p[j]].kind.Skipped?
      requires j == 0 ==> !h[p[0]].isRetainer || |p| == 1
      ensures Has(p[k], r) && !h[p[k]].kind.Skipped?
      decreases k
    {
      hide Finished, LiveVia, Has, Starts, Edge;
      if j < k {
        Along(rs, p, r, c, j, k - 1);
        OnPath(rs, p, r, c, k - 1);
        OneOn(rs, p[k - 1], p[k], r);
      }
    }

    lemma OnPath(rs: seq<Node>, p: seq<Node>, r: Retainer, c: Node, k: nat)
      requires WellFormed(h, height) && Nodes(rs) && LiveVia(rs, p, r, c) && k + 1 < |p| && !h[p[k]].kind.Skipped?
      ensures Edge(h, height, p[k], p[k + 1]) && !h[p[k + 1]].kind.Skipped? && !h[p[k + 1]].kind.Ignored?
      ensures Nodes(p) && (k > 0 ==> !h[p[k]].isRetainer)
    {
      hide Starts;
      assert Step(h, height, roots, p[k], p[k + 1]);
    }

    /** So, if no wrong set was ever taken over, every retainer of a closure is in its set. */
    lemma AllFound(rs: seq<Node>, r: Retainer, c: Node)
      requires Shape() && Nodes(rs) && Finished(rs) && c < |h| && !h[c].kind.Skipped? && LiveRetains(rs, r, c)
      ensures Member(r, rset[c])
    {
      hide Finished, LiveVia, Has, Starts, Edge, Member;
      var p :| LiveVia(rs, p, r, c);
      Ends(rs, p, r, c);
      var k := FirstHas(rs, p, r, c);
      HasMember(rs, c, r);
      Along(rs, p, r, c, k, |p| - 1);
    }

    lemma Ends(rs: seq<Node>, p: seq<Node>, r: Retainer, c: Node)
      requires Finished(rs) && LiveVia(rs, p, r, c)
      ensures Shape() && Nodes(rs) && Nodes(p) && p != [] && p[|p| - 1] == c
    {
      hide Starts, Step, Complete, Carried;
    }

    lemma HasMember(rs: seq<Node>, c: Node, r: Retainer)
      requires Finished(rs) && c < |h|
      ensures Has(c, r) ==> Member(r, rset[c])
    {
      hide Complete, Carried, Sound, StackOk;
      assert ExactIn(rset, log);
    }

    lemma SetsAre()
      requires Linked()
      ensures |rec.sets| == |h| && forall n: Node :: n < |h| ==> RV.View(rec.pool, rec.sets[n]) == rset[n]
    {
    }

    lemma FewVisits()
      requires Valid()
      ensures forall n: Node :: n < |h| ==> expanded[n] <= max + 1
    {
      forall n: Node | n < |h|
        ensures expanded[n] <= max + 1
      {
        assert SetOk(n);
      }
    }

    lemma AllMembers(rs: seq<Node>)
      requires Valid() && Carried() && Nodes(rs) && Complete(rs) && Orderly({})
      requires forall i :: 0 <= i < |rs| ==> Done(rs[i], RootRetainer(h, rs[i]))
      ensures Acyclic() ==> exact
      ensures exact && (forall x :: x in roots ==> x in rs) ==>
                forall r: Retainer, c: Node ::
                  c < |h| && !h[c].kind.Skipped? && LiveRetains(rs, r, c) ==> Member(r, rset[c])
    {
      hide Sound, StackOk, LiveRetains, Complete, Carried;
      if exact && (forall x :: x in roots ==> x in rs) {
        forall r: Retainer, c: Node | c < |h| && !h[c].kind.Skipped? && LiveRetains(rs, r, c)
          ensures Member(r, rset[c])
        {
          AllFound(rs, r, c);
        }
      }
    }

    /** computeRetainerSet: every closure reached from the roots has a set, the sets mean what they say, and the
        children of no closure have been gone through more often than maxRetainerSetSize + 1 times. */
    method ComputeRetainerSet(rs: seq<Node>)
      requires Valid() && Closed({}) && stack == [] && boundary == 0 && Orderly({})
      requires Nodes(rs) && forall i :: 0 <= i < |rs| ==> rs[i] in roots
      requires Linked() && this !in rec.Repr
      modifies this`rset, this`stack, this`boundary, this`expanded, this`log, this`exact, rec, rec.Repr
      ensures Linked() && this !in rec.Repr && fresh(rec.Repr - old(rec.Repr)) && old(rec.ts.groups) <= rec.ts.groups
      ensures Valid() && Complete(rs) && Sound() && Carried() && (Acyclic() ==> exact)
      ensures exact && (forall x :: x in roots ==> x in rs) ==>
                forall r: Retainer, c: Node ::
                  c < |h| && !h[c].kind.Skipped? && LiveRetains(rs, r, c) ==> Member(r, rset[c])
      ensures forall n: Node :: n < |h| ==> expanded[n] <= max + 1
      ensures |rec.sets| == |h| && forall n: Node :: n < |h| ==> RV.View(rec.pool, rec.sets[n]) == rset[n]
    {
      hide StackOk, ClosedIn, SetOk, Linked, Potential, Sound;
      var i := 0;
      while i < |rs|
        invariant i <= |rs| && Valid() && Closed({}) && stack == [] && boundary == 0 && Orderly({})
        invariant Linked() && this !in rec.Repr && fresh(rec.Repr - old(rec.Repr))
        invariant old(rec.ts.groups) <= rec.ts.groups
        invariant forall j :: 0 <= j < i ==> Done(rs[j], RootRetainer(h, rs[j]))
      {
        label before:
        RetainRoot(rs[i]);
        forall j | 0 <= j < i
          ensures Done(rs[j], RootRetainer(h, rs[j]))
        {
          DoneStill@before((rs[j], RootRetainer(h, rs[j])));
        }
        i := i + 1;
      }
      AllReached(rs);
      AllCarried();
      AllMembers(rs);
      FewVisits();
      SetsAre();
    }
  }
}
