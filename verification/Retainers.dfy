/**
 The heap as the retainer profiler of kernel/rts/RetainerProfile.c sees it, and what retaining means.
 */
module Retainers {
  import S = RetainerSets

  type Node = nat
  type Retainer = S.Retainer

  const SYSTEM: Retainer := 0     // CCS_SYSTEM

  datatype Kind =
    | Skipped(to: Node)           // IND_STATIC
    | Ignored                     // CONSTR_NOCAF_STATIC, static closures without SRT, dead threads
    | Pushed(eager: bool)         // children taken from the stack one at a time; eager when their number is fixed
    | InOneGo(direct: nat)        // children visited by recursive calls, from number direct on by retainStack

  datatype Info = Info(kind: Kind, isRetainer: bool, retainer: Retainer, children: seq<Node>)

  type Heap = seq<Info>

  /** Pointers stay inside the heap, and chains of static indirections end: height counts what is left of them. */
  ghost predicate WellFormed(h: Heap, height: seq<nat>) {
    && |height| == |h|
    && (forall n, i :: 0 <= n < |h| && 0 <= i < |h[n].children| ==> h[n].children[i] < |h|)
    && (forall n :: 0 <= n < |h| && h[n].kind.Skipped? ==>
          h[n].kind.to < |h| && height[h[n].kind.to] < height[n] && !h[n].isRetainer && h[n].children == [])
  }

  /** The closure visited instead of n. */
  ghost function Target(h: Heap, height: seq<nat>, n: Node): (t: Node)
    requires WellFormed(h, height) && n < |h|
    ensures t < |h| && !h[t].kind.Skipped?
    decreases height[n]
  {
    if h[n].kind.Skipped? then Target(h, height, h[n].kind.to) else n
  }

  ghost predicate Edge(h: Heap, height: seq<nat>, y: Node, t: Node)
    requires WellFormed(h, height)
  {
    y < |h| && exists i :: 0 <= i < |h[y].children| && Target(h, height, h[y].children[i]) == t
  }

  // ----- sets -----

  datatype RSet = Unset | Elems(elems: set<Retainer>) | Many

  function Rank(s: RSet, max: nat): nat {
    match s case Unset => 0 case Elems(e) => |e| case Many => max + 1
  }

  predicate Member(r: Retainer, s: RSet) {
    s.Many? || (s.Elems? && r in s.elems)
  }

  function AddElement(r: Retainer, s: RSet, max: nat): RSet
    requires s.Elems? || s.Many?
  {
    if s.Many? || |s.elems| == max then Many else Elems(s.elems + {r})
  }

  /** The num field; rs_MANY has none. */
  function Num(s: RSet): nat {
    if s.Elems? then |s.elems| else 0
  }

  /** The new set of a closure with set rs visited with retainer r from a parent with set s, Unset when the parent is a
      retainer. */
  function Updated(s: RSet, rs: RSet, r: Retainer, max: nat): RSet {
    if rs.Unset? then (if s.Unset? then Elems({r}) else s)
    else if Member(r, rs) then rs
    else if s.Unset? || Num(s) != Num(rs) + 1 then AddElement(r, rs, max)
    else s
  }

  predicate Sized(s: RSet, max: nat) {
    s.Elems? ==> 0 < |s.elems| <= max
  }

  lemma UpdatedGrows(s: RSet, rs: RSet, r: Retainer, max: nat)
    requires Sized(s, max) && Sized(rs, max) && max > 0
    ensures var u := Updated(s, rs, r, max);
            && Sized(u, max) && !u.Unset?
            && (if rs.Unset? || !Member(r, rs) then Rank(rs, max) < Rank(u, max) else u == rs)
  {
  }

  /** The set with exactly these members, if that is not too large. */
  function Capped(g: set<Retainer>, max: nat): RSet {
    if g == {} then Unset else if |g| <= max then Elems(g) else Many
  }

  /** What the new set of a closure adds to the old one is r and nothing else, and nothing is lost, if and only if a set
      taken over from the parent is the one that adding r would have made. */
  lemma UpdatedExactIff(s: RSet, g: set<Retainer>, r: Retainer, max: nat)
    requires Sized(s, max) && max > 0 && !Member(r, Capped(g, max))
    ensures Updated(s, Capped(g, max), r, max) == Capped(g + {r}, max) <==>
              if g == {} then s.Unset? || s == Elems({r})
              else s.Unset? || Num(s) != |g| + 1 || s == Elems(g + {r})
  {
    assert r !in g;
    assert |g + {r}| == |g| + 1;
  }

  /** When each member of the parent's set but r is in the closure's already, it is. */
  lemma TakeoverExact(gp: set<Retainer>, g: set<Retainer>, r: Retainer, max: nat)
    requires max > 0 && r in gp && !Member(r, Capped(g, max))
    requires forall x :: x in gp && x != r ==> x in g || |g| > max
    ensures Updated(Capped(gp, max), Capped(g, max), r, max) == Capped(g + {r}, max)
  {
    UpdatedExactIff(Capped(gp, max), g, r, max);
    assert |g + {r}| == |g| + 1;
    if |g| <= max {
      assert gp <= g + {r};
      if |gp| == |g| + 1 {
        SameSize(gp, g + {r});
      }
      if g == {} {
        assert gp == {r};
      }
    }
  }

  lemma SameSize<T>(a: set<T>, b: set<T>)
    requires a <= b && |a| == |b|
    ensures a == b
  {
    if x :| x in b && x !in a {
      NotMore(a, b - {x});
    }
  }

  lemma {:induction false} NotMore<T>(a: set<T>, b: set<T>)
    requires a <= b
    ensures |a| <= |b|
  {
    if x :| x in a {
      NotMore(a - {x}, b - {x});
    }
  }

  // ----- retaining -----

  /** Where a path that makes r a retainer may begin: at a closure r comes from, or at a root that is not a retainer. */
  ghost predicate Source(h: Heap, roots: set<Node>, x: Node, r: Retainer, length: nat) {
    x < |h| && if h[x].isRetainer then r == h[x].retainer && (length > 1 || x in roots) else r == SYSTEM && x in roots
  }

  /** p leads from a source of r to c, along pointers, with no retainer in between. */
  ghost predicate Via(h: Heap, height: seq<nat>, roots: set<Node>, p: seq<Node>, r: Retainer, c: Node)
    requires WellFormed(h, height)
  {
    && p != [] && p[|p| - 1] == c && Source(h, roots, p[0], r, |p|)
    && (forall i :: 0 <= i < |p| ==> p[i] < |h|)
    && (forall i :: 0 < i < |p| - 1 ==> !h[p[i]].isRetainer)
    && (forall i :: 0 <= i < |p| - 1 ==> Step(h, height, roots, p[i], p[i + 1]))
  }

  /** One pointer, or the indirections at a root. */
  ghost predicate Step(h: Heap, height: seq<nat>, roots: set<Node>, y: Node, t: Node)
    requires WellFormed(h, height)
  {
    Edge(h, height, y, t) || (y < |h| && y in roots && t == Target(h, height, y) && t != y)
  }

  ghost predicate Retains(h: Heap, height: seq<nat>, roots: set<Node>, r: Retainer, c: Node)
    requires WellFormed(h, height)
  {
    exists p :: Via(h, height, roots, p, r, c)
  }

  ghost predicate AllRetain(h: Heap, height: seq<nat>, roots: set<Node>, rs: set<Retainer>, c: Node)
    requires WellFormed(h, height)
  {
    forall r :: r in rs ==> Retains(h, height, roots, r, c)
  }

  /** More retainers reach c than a set can hold. */
  ghost predicate Crowded(h: Heap, height: seq<nat>, roots: set<Node>, max: nat, c: Node)
    requires WellFormed(h, height)
  {
    exists rs: set<Retainer> :: |rs| > max && AllRetain(h, height, roots, rs, c)
  }

  /** A set in the heap means what it says: its members are retainers of the closure, and rs_MANY that there are too
      many. */
  ghost predicate Means(h: Heap, height: seq<nat>, roots: set<Node>, max: nat, s: RSet, c: Node)
    requires WellFormed(h, height)
  {
    && (s.Elems? ==> AllRetain(h, height, roots, s.elems, c))
    && (s.Many? ==> Crowded(h, height, roots, max, c))
  }

  /** One more retainer. */
  lemma MeansMore(h: Heap, height: seq<nat>, roots: set<Node>, max: nat, s: RSet, c: Node, r: Retainer)
    requires WellFormed(h, height) && (s.Elems? || s.Many?) && !Member(r, s)
    requires Means(h, height, roots, max, s, c) && Retains(h, height, roots, r, c)
    ensures Means(h, height, roots, max, AddElement(r, s, max), c)
  {
    hide Retains;
    assert s.Elems? ==> AllRetain(h, height, roots, s.elems + {r}, c) && |s.elems + {r}| == |s.elems| + 1;
  }

  /** The set of a closure that is not a retainer means the same of those it points to. */
  lemma MeansNext(h: Heap, height: seq<nat>, roots: set<Node>, max: nat, s: RSet, y: Node, t: Node)
    requires WellFormed(h, height) && y < |h| && t < |h| && !h[y].isRetainer && Step(h, height, roots, y, t)
    requires Means(h, height, roots, max, s, y)
    ensures Means(h, height, roots, max, s, t)
  {
    hide Retains, Step;
    if s.Elems? || s.Many? {
      var rs: set<Retainer> :| AllRetain(h, height, roots, rs, y) && if s.Elems? then rs == s.elems else |rs| > max;
      forall r | r in rs
        ensures Retains(h, height, roots, r, t)
      {
        RetainsNext(h, height, roots, r, y, t);
      }
      assert AllRetain(h, height, roots, rs, t);
    }
  }

  /** So does the set that a closure visited is given. */
  lemma UpdatedMeans(h: Heap, height: seq<nat>, roots: set<Node>, max: nat, s: RSet, rs: RSet, c: Node, r: Retainer)
    requires WellFormed(h, height) && Retains(h, height, roots, r, c)
    requires Means(h, height, roots, max, s, c) && Means(h, height, roots, max, rs, c)
    ensures Means(h, height, roots, max, Updated(s, rs, r, max), c)
  {
    hide Retains;
    if !rs.Unset? && !Member(r, rs) {
      MeansMore(h, height, roots, max, rs, c, r);
    }
  }

  /** One more pointer from a closure that is not a retainer. */
  lemma RetainsNext(h: Heap, height: seq<nat>, roots: set<Node>, r: Retainer, y: Node, t: Node)
    requires WellFormed(h, height) && y < |h| && t < |h| && !h[y].isRetainer && Step(h, height, roots, y, t)
    requires Retains(h, height, roots, r, y)
    ensures Retains(h, height, roots, r, t)
  {
    var p :| Via(h, height, roots, p, r, y);
    var q := p + [t];
    forall i | 0 <= i < |q| - 1
      ensures Step(h, height, roots, q[i], q[i + 1])
    {
      assert i < |p| - 1 ==> q[i] == p[i] && q[i + 1] == p[i + 1];
    }
    assert Via(h, height, roots, q, r, t);
  }

  lemma RetainsChild(h: Heap, height: seq<nat>, roots: set<Node>, y: Node, t: Node)
    requires WellFormed(h, height) && y < |h| && t < |h| && h[y].isRetainer && Edge(h, height, y, t)
    ensures Retains(h, height, roots, h[y].retainer, t)
  {
    assert Via(h, height, roots, [y, t], h[y].retainer, t);
  }

  function RootRetainer(h: Heap, n: Node): Retainer
    requires n < |h|
  {
    if h[n].isRetainer then h[n].retainer else SYSTEM
  }

  lemma RetainsRoot(h: Heap, height: seq<nat>, roots: set<Node>, n: Node)
    requires WellFormed(h, height) && n < |h| && n in roots
    ensures Retains(h, height, roots, RootRetainer(h, n), Target(h, height, n))
  {
    var t := Target(h, height, n);
    if t == n {
      assert Via(h, height, roots, [n], RootRetainer(h, n), n);
    } else {
      assert Via(h, height, roots, [n, t], RootRetainer(h, n), t);
    }
  }

  // ----- what is left to do -----

  /** How often retainer sets can still grow. */
  function Potential(rset: seq<RSet>, max: nat): nat {
    if rset == [] then 0
    else
      var rank := Rank(rset[|rset| - 1], max);
      Potential(rset[..|rset| - 1], max) + (if rank > max then 0 else max + 1 - rank)
  }

  lemma {:induction false} PotentialFalls(rset: seq<RSet>, max: nat, c: Node, s: RSet)
    requires c < |rset| && Rank(rset[c], max) < Rank(s, max) <= max + 1
    ensures Potential(rset[c := s], max) < Potential(rset, max)
  {
    var n := |rset| - 1;
    if c == n {
      assert rset[c := s][..n] == rset[..n];
    } else {
      assert rset[c := s][..n] == rset[..n][c := s];
      PotentialFalls(rset[..n], max, c, s);
    }
  }

  /** An entry of the traverse stack: a closure, its children's retainer and the children still to come. */
  datatype Elem = Elem(c: Node, r: Retainer, rest: seq<Node>)

  function Pending(stack: seq<Elem>): nat {
    if stack == [] then 0 else Pending(stack[..|stack| - 1]) + |stack[|stack| - 1].rest| + 1
  }

  // ----- reachability -----

  ghost predicate Path(h: Heap, height: seq<nat>, p: seq<Node>)
    requires WellFormed(h, height)
  {
    p != [] && (forall i :: 0 <= i < |p| ==> p[i] < |h| && !h[p[i]].kind.Ignored?)
    && forall i :: 0 <= i < |p| - 1 ==> Edge(h, height, p[i], p[i + 1])
  }

  /** A set of visited closures that contains the children of its members contains what they reach. */
  lemma {:induction false} ReachedVisited(h: Heap, height: seq<nat>, visited: set<Node>, p: seq<Node>)
    requires WellFormed(h, height) && Path(h, height, p) && p[0] in visited
    requires forall n, t: Node :: n in visited && Edge(h, height, n, t) && t < |h| && !h[t].kind.Ignored? ==>
        t in visited
    ensures p[|p| - 1] in visited
    decreases |p|
  {
    if |p| > 1 {
      var q := p[..|p| - 1];
      ReachedVisited(h, height, visited, q);
      assert Edge(h, height, p[|p| - 2], p[|p| - 1]);
    }
  }

  lemma PendingPop(stack: seq<Elem>, e: Elem)
    requires stack != [] && |e.rest| < |stack[|stack| - 1].rest|
    ensures Pending(stack[..|stack| - 1]) < Pending(stack)
    ensures Pending(stack[|stack| - 1 := e]) < Pending(stack)
  {
    assert stack[|stack| - 1 := e][..|stack| - 1] == stack[..|stack| - 1];
  }
}
