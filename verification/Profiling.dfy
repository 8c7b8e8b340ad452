/**
 Cost-centre stacks, after kernel/rts/Profiling.c: a tree of nodes that share their parents, memoised pushes,
 and the operator ++> computed on entering a function.
 */
module Profiling {
  import opened Base

  // ----- stacks as lists of cost centres, the root first -----

  datatype CostCentre = CostCentre(ccID: nat, is_caf: bool)

  type Centres = seq<CostCentre>

  /** Pushing a centre that is already there truncates the stack to it. */
  function Push(s: Centres, cc: CostCentre): (r: Centres)
    ensures NoDup(s) ==> NoDup(r)
    ensures r != [] && r[|r| - 1] == cc
    decreases |s|
  {
    if cc !in s then s + [cc]
    else if s[|s| - 1] == cc then s
    else Push(s[..|s| - 1], cc)
  }

  lemma {:induction false} PushTruncates(s: Centres, cc: CostCentre, k: nat)
    requires NoDup(s) && k < |s| && s[k] == cc
    ensures Push(s, cc) == s[..k + 1]
    decreases |s|
  {
    if k == |s| - 1 {
      assert s[..k + 1] == s;
    } else {
      PushTruncates(s[..|s| - 1], cc, k);
      assert s[..|s| - 1][..k + 1] == s[..k + 1];
    }
  }

  function PushAll(s: Centres, ccs: Centres): Centres
    decreases |ccs|
  {
    if ccs == [] then s else PushAll(Push(s, ccs[0]), ccs[1..])
  }

  /** dropCommonPrefix: what is left of b. */
  function DropCommonPrefix(a: Centres, b: Centres): Centres {
    if a == [] || b == [] || a[0] != b[0] then b else DropCommonPrefix(a[1..], b[1..])
  }

  /** a ++> b, each element of what is left being pushed in turn. */
  function Enter(a: Centres, b: Centres): Centres {
    PushAll(a, DropCommonPrefix(a, b))
  }

  /** What appendCCS pushes: the elements of b above its root, above the last CAF on it, or above a. */
  function Above(a: Centres, b: Centres): Centres
    decreases |b|
  {
    if |b| <= 1 || a == b || b[|b| - 1].is_caf then [] else Above(a, b[..|b| - 1]) + [b[|b| - 1]]
  }

  lemma {:induction false} AboveAll(a: Centres, b: Centres)
    requires b != [] && (!(a <= b) || |a| <= 1) && forall i :: 0 < i < |b| ==> !b[i].is_caf
    ensures Above(a, b) == b[1..]
    decreases |b|
  {
    if |b| > 1 {
      AboveAll(a, b[..|b| - 1]);
      assert b[1..] == b[..|b| - 1][1..] + [b[|b| - 1]];
    }
  }

  lemma {:induction false} PushAllSnoc(s: Centres, ccs: Centres, cc: CostCentre)
    ensures PushAll(s, ccs + [cc]) == Push(PushAll(s, ccs), cc)
    decreases |ccs|
  {
    if ccs == [] {
      assert ([] + [cc])[1..] == [];
    } else {
      assert (ccs + [cc])[1..] == ccs[1..] + [cc];
      PushAllSnoc(Push(s, ccs[0]), ccs[1..], cc);
    }
  }

  lemma {:induction false} DropAll(a: Centres)
    ensures DropCommonPrefix(a, a) == []
  {
    if a != [] {
      DropAll(a[1..]);
    }
  }

  lemma PrefixCons(x: CostCentre, s: Centres, t: Centres)
    ensures s <= t ==> [x] + s <= [x] + t
  {
  }

  /** The last element of b is dropped only if it is in the common prefix. */
  lemma {:induction false} DropSnoc(a: Centres, b: Centres, cc: CostCentre)
    requires !(b + [cc] <= a)
    ensures DropCommonPrefix(a, b + [cc]) == DropCommonPrefix(a, b) + [cc]
  {
    if a == [] || b == [] || a[0] != b[0] {
      if b == [] {
        assert ([] + [cc])[1..] == [];
      }
    } else {
      assert (b + [cc])[1..] == b[1..] + [cc];
      PrefixCons(a[0], b[1..] + [cc], a[1..]);
      assert a == [a[0]] + a[1..] && b + [cc] == [b[0]] + (b[1..] + [cc]);
      DropSnoc(a[1..], b[1..], cc);
    }
  }

  /** Elements of a beyond the length of b do not matter. */
  lemma {:induction false} DropTake(a: Centres, b: Centres, n: nat)
    requires |b| <= n <= |a|
    ensures DropCommonPrefix(a[..n], b) == DropCommonPrefix(a, b)
  {
    if !(a == [] || b == [] || a[0] != b[0]) {
      assert a[..n][1..] == a[1..][..n - 1];
      DropTake(a[1..], b[1..], n - 1);
    }
  }

  // ----- repeated pushes in closed form -----

  /** The lowest element of s that is in l. */
  function Low(s: Centres, l: Centres): (q: nat)
    ensures q <= |s| && (q < |s| ==> s[q] in l) && forall i :: 0 <= i < q ==> s[i] !in l
  {
    if s == [] || s[0] in l then 0 else
      var q := 1 + Low(s[1..], l);
      assert forall i :: 0 < i < |s| ==> s[i] == s[1..][i - 1];
      q
  }

  function After(l: Centres, x: CostCentre): (r: Centres)
    requires x in l
    ensures |r| < |l| && forall y :: y in r ==> y in l
  {
    if l[0] == x then l[1..] else After(l[1..], x)
  }

  lemma {:induction false} AfterAt(l: Centres, j: nat)
    requires NoDup(l) && j < |l|
    ensures After(l, l[j]) == l[j + 1..]
  {
    if j > 0 {
      AfterAt(l[1..], j - 1);
    }
  }

  /** The stack is cut above the lowest element pushed that is on it, and what was pushed after that is put on top. */
  function Cut(s: Centres, l: Centres): Centres {
    var q := Low(s, l);
    if q == |s| then s + l else s[..q + 1] + After(l, s[q])
  }

  lemma {:induction false} PushAllIs(s: Centres, l: Centres)
    requires NoDup(s) && NoDup(l)
    ensures PushAll(s, l) == Cut(s, l)
    decreases |l|
  {
    if l != [] {
      var x, t, s1 := l[0], l[1..], Push(s, l[0]);
      assert l == [x] + t;
      PushAllIs(s1, t);
      if x in s {
        var k :| 0 <= k < |s| && s[k] == x;
        PushTruncates(s, x, k);
      }
      assert forall y :: y in t ==> y in l && y != x;
      CutPush(s, x, t);
    } else {
      assert s + l == s;
    }
  }

  lemma LowIs(s: Centres, l: Centres, q: nat)
    requires q <= |s| && (q < |s| ==> s[q] in l) && forall i :: 0 <= i < q ==> s[i] !in l
    ensures Low(s, l) == q
  {
  }

  lemma CutPush(s: Centres, x: CostCentre, t: Centres)
    requires NoDup(s) && x !in t
    requires forall k :: 0 <= k < |s| && s[k] == x ==> Push(s, x) == s[..k + 1]
    ensures Cut(Push(s, x), t) == Cut(s, [x] + t)
  {
    hide Low;
    assert ([x] + t)[1..] == t;
    if x !in s {
      CutNew(s, x, t);
    } else {
      var k :| 0 <= k < |s| && s[k] == x;
      CutOld(s, x, t, k);
    }
  }

  lemma CutNew(s: Centres, x: CostCentre, t: Centres)
    requires x !in t && x !in s
    ensures Cut(s + [x], t) == Cut(s, [x] + t)
  {
    hide Low, After;
    var l, q := [x] + t, Low(s, [x] + t);
    if q < |s| {
      LowIs(s + [x], t, q);
      assert (s + [x])[q] == s[q] && (s + [x])[..q + 1] == s[..q + 1];
      AfterCons(x, t, s[q]);
    } else {
      LowIs(s + [x], t, |s| + 1);
      assert s + [x] + t == s + l;
    }
  }

  lemma CutOld(s: Centres, x: CostCentre, t: Centres, k: nat)
    requires NoDup(s) && x !in t && k < |s| && s[k] == x
    ensures Cut(s[..k + 1], t) == Cut(s, [x] + t)
  {
    hide Low, After;
    var l, q := [x] + t, Low(s, [x] + t);
    assert s[k] in l;
    if q < k {
      LowIs(s[..k + 1], t, q);
      assert s[..k + 1][..q + 1] == s[..q + 1];
      AfterCons(x, t, s[q]);
    } else {
      LowIs(s[..k + 1], t, k + 1);
      AfterFirst(x, t);
    }
  }

  lemma AfterCons(x: CostCentre, t: Centres, y: CostCentre)
    requires y in t && y != x
    ensures After([x] + t, y) == After(t, y)
  {
    assert ([x] + t)[1..] == t;
  }

  lemma AfterFirst(x: CostCentre, t: Centres)
    ensures After([x] + t, x) == t
  {
    assert ([x] + t)[1..] == t;
  }

  /** Leaving out d before pushing y makes no difference. */
  predicate Spare(s: Centres, d: Centres, y: Centres) {
    var q := Low(s, d + y);
    q < |s| && (s[q] in y || (s[q] in d && Follows(s[q + 1..], After(d, s[q]), y)))
  }

  /** u is e, or goes on with the first element of y. */
  predicate Follows(u: Centres, e: Centres, y: Centres) {
    e <= u && (|e| == |u| || (y != [] && u[|e|] == y[0]))
  }

  lemma {:induction false} AfterAppend(d: Centres, y: Centres, x: CostCentre)
    requires x in d + y
    ensures After(d + y, x) == if x in d then After(d, x) + y else After(y, x)
  {
    if d == [] {
      assert d + y == y;
    } else {
      assert (d + y)[1..] == d[1..] + y && d == [d[0]] + d[1..];
      if d[0] != x {
        AfterAppend(d[1..], y, x);
      }
    }
  }

  /** Pushing d and then y, or only y, comes to the same if and only if the lowest element of s that is pushed is in y;
      or it is in d, and s above it reads as what follows it in d, and then ends or goes on with y. */
  lemma SpareIff(s: Centres, d: Centres, y: Centres)
    requires NoDup(s) && NoDup(d + y) && d != []
    ensures PushAll(s, d + y) == PushAll(s, y) <==> Spare(s, d, y)
  {
    assert NoDup(y) by {
      assert forall i :: 0 <= i < |y| ==> (d + y)[|d| + i] == y[i];
    }
    assert forall x :: x in d ==> x !in y by {
      forall i, j | 0 <= i < |d| && 0 <= j < |y| ensures d[i] != y[j] {
        assert (d + y)[i] == d[i] && (d + y)[|d| + j] == y[j];
      }
    }
    PushAllIs(s, d + y);
    PushAllIs(s, y);
    var q := Low(s, d + y);
    if q == |s| {
      assert forall i :: 0 <= i < |s| ==> s[i] !in d + y && s[i] !in y;
      assert |s + (d + y)| != |s + y|;
    } else if s[q] in y {
      LowIs(s, y, q);
      AfterAppend(d, y, s[q]);
    } else {
      AfterAppend(d, y, s[q]);
      SpareInDropped(s, d, y, q);
    }
  }

  lemma SpareInDropped(s: Centres, d: Centres, y: Centres, q: nat)
    requires NoDup(y) && (forall x :: x in d ==> x !in y)
    requires q < |s| && s[q] in d && forall i :: 0 <= i < q ==> s[i] !in d + y
    ensures s[..q + 1] + (After(d, s[q]) + y) == Cut(s, y) <==> Follows(s[q + 1..], After(d, s[q]), y)
  {
    hide Low, After, Cut, NoDup;
    var e, u := After(d, s[q]), s[q + 1..];
    assert forall i :: 0 <= i <= q ==> s[i] !in y;
    if Follows(u, e, y) {
      SpareIf(s, e, y, q);
    }
    if s[..q + 1] + (e + y) == Cut(s, y) {
      SpareOnlyIf(s, e, y, q);
    }
  }

  lemma SpareIf(s: Centres, e: Centres, y: Centres, q: nat)
    requires q < |s| && (forall x :: x in e ==> x !in y) && forall i :: 0 <= i <= q ==> s[i] !in y
    requires Follows(s[q + 1..], e, y)
    ensures s[..q + 1] + (e + y) == Cut(s, y)
  {
    hide Low, After;
    var u, m := s[q + 1..], q + 1 + |e|;
    forall i | 0 <= i < m ensures s[i] !in y {
      if i > q { assert s[i] == u[i - q - 1] == e[i - q - 1]; }
    }
    LowIs(s, y, m);
    if m == |s| {
      assert s + y == s[..q + 1] + (e + y);
    } else {
      assert s[m] == u[|e|] == y[0];
      AfterFirst(y[0], y[1..]);
      assert y == [y[0]] + y[1..];
      assert s[..m + 1] == s[..q + 1] + e + [y[0]];
    }
  }

  lemma SpareOnlyIf(s: Centres, e: Centres, y: Centres, q: nat)
    requires NoDup(y) && q < |s| && forall i :: 0 <= i <= q ==> s[i] !in y
    requires s[..q + 1] + (e + y) == Cut(s, y)
    ensures Follows(s[q + 1..], e, y)
  {
    hide Low, After;
    var u, p, m, l := s[q + 1..], Low(s, y), q + 1 + |e|, s[..q + 1] + (e + y);
    if p == |s| {
      assert |l| == m + |y| == |s| + |y|;
      assert l[q + 1..m] == e && (s + y)[q + 1..m] == u;
    } else {
      var j := Index(y, s[p]);
      AfterAt(y, j);
      assert l == s[..p + 1] + y[j + 1..];
      assert |l| == m + |y| == p + 1 + |y| - (j + 1);
      assert l[m] == y[0] == s[m];
      assert p == m;
      assert l[q + 1..m] == e && (s[..p + 1] + y[j + 1..])[q + 1..m] == u[..|e|];
      assert u[|e|] == y[0];
    }
  }

  lemma Index(y: Centres, x: CostCentre) returns (j: nat)
    requires x in y
    ensures j < |y| && y[j] == x
  {
    j :| 0 <= j < |y| && y[j] == x;
  }

  /** appendCCS stops at the root, at a CAF, or where the function stack is the current one. */
  predicate StopsAt(a: Centres, b: Centres, k: nat)
    requires 1 <= k <= |b|
  {
    k == 1 || b[k - 1].is_caf || b[..k] == a
  }

  /** What it pushes is what is above the highest of these places. */
  lemma {:induction false} AboveHighestStop(a: Centres, b: Centres) returns (k: nat)
    requires b != []
    ensures 1 <= k <= |b| && StopsAt(a, b, k) && Above(a, b) == b[k..]
    ensures forall j :: k < j <= |b| ==> !StopsAt(a, b, j)
    decreases |b|
  {
    k := |b|;
    assert b[..k] == b;
    if !StopsAt(a, b, k) {
      var c := b[..|b| - 1];
      k := AboveHighestStop(a, c);
      forall j | 1 <= j <= |c|
        ensures StopsAt(a, b, j) <==> StopsAt(a, c, j)
      { assert b[..j] == c[..j]; }
      forall j | k < j <= |b|
        ensures !StopsAt(a, b, j)
      { if j <= |c| { assert !StopsAt(a, c, j); } }
      assert b[k..] == c[k..] + [b[|b| - 1]];
    }
  }

  /** Above is a suffix. */
  lemma {:induction false} AboveSuffix(a: Centres, b: Centres)
    requires b != []
    ensures |Above(a, b)| < |b| && b == b[..|b| - |Above(a, b)|] + Above(a, b)
    decreases |b|
  {
    if !(|b| <= 1 || a == b || b[|b| - 1].is_caf) {
      AboveSuffix(a, b[..|b| - 1]);
    }
  }

  /** What appendCCS does not push: the elements above the root up to the last CAF. */
  function LeavesOut(a: Centres, f: Centres): (d: Centres)
    requires f != []
    ensures d + Above(a, f) == f[1..]
  {
    AboveSuffix(a, f);
    var d := f[1..|f| - |Above(a, f)|];
    assert f[1..] == d + Above(a, f);
    d
  }

  lemma AboveSpareIff(a: Centres, f: Centres)
    requires NoDup(a) && NoDup(f) && f != [] && DropCommonPrefix(a, f) == f[1..]
    ensures PushAll(a, Above(a, f)) == Enter(a, f) <==> LeavesOut(a, f) == [] || Spare(a, LeavesOut(a, f), Above(a, f))
  {
    var d, y := LeavesOut(a, f), Above(a, f);
    hide Spare, Above, LeavesOut, PushAll, DropCommonPrefix;
    assert NoDup(d + y) by {
      assert forall i :: 0 <= i < |d + y| ==> (d + y)[i] == f[i + 1];
    }
    if d == [] {
      assert d + y == y;
    } else {
      SpareIff(a, d, y);
    }
  }

  // ----- nodes -----

  datatype IndexTable = EmptyTable | IndexEntry(cc: CostCentre, ccs: Ccs, back_edge: bool, next: IndexTable)

  class Ccs {
    const cc: CostCentre
    const prevStack: Ccs?
    const root: Ccs
    const depth: nat
    var indexTable: IndexTable

    /** CCS_MAIN, and the stacks registered at start-up, are their own root. */
    constructor Root(cc: CostCentre, prevStack: Ccs?)
      ensures this.cc == cc && this.prevStack == prevStack && root == this && indexTable == EmptyTable
      ensures depth == if prevStack == null then 0 else prevStack.depth + 1
    {
      this.cc, this.prevStack, root, indexTable := cc, prevStack, this, EmptyTable;
      depth := if prevStack == null then 0 else prevStack.depth + 1;
    }

    constructor Child(cc: CostCentre, ccs: Ccs)
      ensures this.cc == cc && prevStack == ccs && root == ccs.root && indexTable == EmptyTable
      ensures depth == ccs.depth + 1
    {
      this.cc, prevStack, root, depth, indexTable := cc, ccs, ccs.root, ccs.depth + 1, EmptyTable;
    }
  }

  /** The stack a node stands for. */
  ghost function Stack(c: Ccs): (s: Centres)
    ensures s != [] && s[|s| - 1] == c.cc
    decreases c.depth
  {
    if c.prevStack == null || c.prevStack.depth >= c.depth then [c.cc] else Stack(c.prevStack) + [c.cc]
  }

  function Memo(it: IndexTable, cc: CostCentre): Ccs? {
    match it
    case EmptyTable => null
    case IndexEntry(cc', ccs, _, next) => if cc' == cc then ccs else Memo(next, cc)
  }

  /** isInIndexTable. */
  method IsInIndexTable(it: IndexTable, cc: CostCentre) returns (ccs: Ccs?)
    ensures ccs == Memo(it, cc)
  {
    var it' := it;
    while it' != EmptyTable
      invariant Memo(it', cc) == Memo(it, cc)
      decreases it'
    {
      if it'.cc == cc {
        return it'.ccs;
      }
      it' := it'.next;
    }
    return null;
  }

  /** Depth and root match the chain of parents, which ends in CCS_MAIN. */
  ghost predicate ShapeOf(main: Ccs, nodes: set<Ccs>) {
    && main in nodes && main.prevStack == null && main.root == main && main.depth == 0
    && forall n :: n in nodes && n != main ==> Below(n, main) && n.prevStack in nodes
  }

  ghost predicate Below(n: Ccs, main: Ccs) {
    && n.prevStack != null && n.depth == n.prevStack.depth + 1
    && (if n.prevStack == main then n.root == n || n.root == main else n.root == n.prevStack.root)
  }

  class Tree {
    const main: Ccs
    ghost var nodes: set<Ccs>

    ghost predicate Shape()
      reads this
    {
      ShapeOf(main, nodes)
    }

    /** No cost centre repeats on a stack. */
    ghost predicate Distinct()
      reads this
    {
      forall n :: n in nodes ==> NoDup(Stack(n))
    }

    /** What is memoised for a node is the result of the push, back edge or not. */
    ghost predicate TableOk(n: Ccs)
      reads this, n
    {
      forall cc :: Memo(n.indexTable, cc) != null ==>
        Memo(n.indexTable, cc) in nodes && Stack(Memo(n.indexTable, cc)) == Push(Stack(n), cc)
    }

    /** Every node is memoised by its parent. */
    ghost predicate Complete()
      requires Shape()
      reads this, nodes
    {
      forall n :: n in nodes && n != main ==> Memo(n.prevStack.indexTable, n.cc) == n
    }

    ghost predicate Valid()
      reads this, nodes
    {
      Shape() && Distinct() && (forall n :: n in nodes ==> TableOk(n)) && Complete()
    }

    predicate IsRoot(n: Ccs?) {
      n != null && n.root == n
    }

    /** initProfiling2: the registered stacks become children of CCS_MAIN, and roots of their own. */
    constructor (main_cc: CostCentre, registered: Centres)
      requires NoDup([main_cc] + registered)
      ensures Valid() && fresh(nodes) && main.cc == main_cc
      ensures forall i :: 0 <= i < |registered| ==> IsRoot(Memo(main.indexTable, registered[i]))
    {
      main := new Ccs.Root(main_cc, null);
      nodes := {main};
      new;
      hide Shape, Distinct, TableOk, Complete, NoDup;
      MainAlone();
      var i := 0;
      while i < |registered|
        invariant i <= |registered| && Valid() && main in nodes && fresh(nodes) && main.cc == main_cc
        invariant Stack(main) == [main_cc]
        invariant forall j :: i <= j < |registered| ==> Memo(main.indexTable, registered[j]) == null
        invariant forall j :: 0 <= j < i ==> IsRoot(Memo(main.indexTable, registered[j]))
      {
        var cc := registered[i];
        Others(main_cc, registered, i);
        Register(cc);
        i := i + 1;
      }
    }

    lemma Others(main_cc: CostCentre, registered: Centres, i: nat)
      requires NoDup([main_cc] + registered) && i < |registered|
      ensures registered[i] != main_cc && forall j :: 0 <= j < |registered| && j != i ==> registered[j] != registered[i]
    {
      var all := [main_cc] + registered;
      assert all[0] == main_cc && forall j :: 0 <= j < |registered| ==> registered[j] == all[j + 1];
    }

    lemma MainAlone()
      requires nodes == {main} && main.prevStack == null && main.root == main && main.depth == 0
      requires main.indexTable == EmptyTable
      ensures Valid() && Stack(main) == [main.cc]
    {
    }

    method Register(cc: CostCentre)
      requires Valid() && main in nodes && Stack(main) == [main.cc] && cc != main.cc
      requires Memo(main.indexTable, cc) == null
      modifies this`nodes, main`indexTable
      ensures Valid() && old(nodes) <= nodes && fresh(nodes - old(nodes)) && IsRoot(Memo(main.indexTable, cc))
      ensures forall c :: c != cc ==> Memo(main.indexTable, c) == old(Memo(main.indexTable, c))
    {
      hide Shape, Distinct, TableOk, Complete;
      var ccs := new Ccs.Root(cc, main);
      Extend(main, cc, ccs);
    }

    /** Distinct nodes denote distinct stacks. */
    lemma {:induction false} Canonical(m: Ccs, n: Ccs)
      requires Shape() && Complete() && m in nodes && n in nodes && Stack(m) == Stack(n)
      ensures m == n
      decreases m.depth
    {
      if m == main || n == main {
        StackLength(m);
        StackLength(n);
      } else {
        assert Stack(m)[..|Stack(m)| - 1] == Stack(m.prevStack);
        assert Stack(n)[..|Stack(n)| - 1] == Stack(n.prevStack);
        Canonical(m.prevStack, n.prevStack);
      }
    }

    lemma {:induction false} StackLength(n: Ccs)
      requires Shape() && n in nodes
      ensures |Stack(n)| == n.depth + 1 && Stack(n)[0] == main.cc && (n.depth == 0 <==> n == main)
      decreases n.depth
    {
      if n != main {
        StackLength(n.prevStack);
      }
    }

    /** checkLoop: the nearest node at or above ccs with the centre. */
    method CheckLoop(ccs: Ccs, cc: CostCentre) returns (r: Ccs?)
      requires Shape() && ccs in nodes
      ensures r == null <==> cc !in Stack(ccs)
      ensures r != null ==> r in nodes && Stack(r) == Push(Stack(ccs), cc)
    {
      var c: Ccs? := ccs;
      while c != null
        invariant c != null ==> c in nodes && (cc in Stack(ccs) ==> Push(Stack(c), cc) == Push(Stack(ccs), cc))
        invariant cc in Stack(ccs) <==> c != null && cc in Stack(c)
        decreases if c == null then 0 else c.depth + 1
      {
        if c.cc == cc {
          return c;
        }
        assert c != main ==> Stack(c)[..|Stack(c)| - 1] == Stack(c.prevStack);
        c := c.prevStack;
      }
      return null;
    }

    /** addToIndexTable, on the table of a node. */
    method AddToIndexTable(ccs: Ccs, new_ccs: Ccs, cc: CostCentre, back_edge: bool)
      modifies ccs`indexTable
      ensures Added((ccs, new_ccs, cc))
    {
      ccs.indexTable := IndexEntry(cc, new_ccs, back_edge, ccs.indexTable);
    }

    twostate predicate Added(a: (Ccs, Ccs, CostCentre))
      reads a.0
    {
      forall c :: Memo(a.0.indexTable, c) == if c == a.2 then a.1 else old(Memo(a.0.indexTable, c))
    }

    /** A result memoised for a centre that had none. */
    twostate lemma AddedKeeps(a: (Ccs, Ccs, CostCentre))
      requires old(Valid() && a.0 in nodes && Memo(a.0.indexTable, a.2) == null) && Added(a)
      requires a.1 in nodes && Stack(a.1) == Push(Stack(a.0), a.2)
      requires old(nodes) <= nodes && forall n :: n in old(nodes) && n != a.0 ==> unchanged(n)
      ensures forall n :: n in old(nodes) ==> TableOk(n)
      ensures forall n :: n in old(nodes) && n != main ==> Memo(n.prevStack.indexTable, n.cc) == n
    {
      hide Distinct;
      forall n | n in old(nodes)
        ensures TableOk(n)
      {
        assert old(TableOk(n));
      }
    }

    method Extend(ccs: Ccs, cc: CostCentre, new_ccs: Ccs)
      requires Valid() && ccs in nodes && Memo(ccs.indexTable, cc) == null && cc !in Stack(ccs)
      requires new_ccs !in nodes && new_ccs.prevStack == ccs && new_ccs.cc == cc
      requires new_ccs.depth == ccs.depth + 1 && new_ccs.indexTable == EmptyTable
      requires new_ccs.root == ccs.root || (new_ccs.root == new_ccs && ccs == main)
      modifies this`nodes, ccs`indexTable
      ensures Valid() && nodes == old(nodes) + {new_ccs} && Added((ccs, new_ccs, cc))
    {
      hide TableOk, Added, Shape, Distinct, Complete;
      InShape(ccs, new_ccs);
      AddToIndexTable(ccs, new_ccs, cc, false);
      nodes := nodes + {new_ccs};
      AddedKeeps((ccs, new_ccs, cc));
      NewOk((ccs, new_ccs, cc));
    }

    lemma InShape(ccs: Ccs, new_ccs: Ccs)
      requires Shape() && ccs in nodes && new_ccs !in nodes && new_ccs.prevStack == ccs
      requires new_ccs.depth == ccs.depth + 1 && (new_ccs.root == ccs.root || (new_ccs.root == new_ccs && ccs == main))
      ensures new_ccs != ccs && ShapeOf(main, nodes + {new_ccs}) && Stack(new_ccs) == Stack(ccs) + [new_ccs.cc]
    {
    }

    twostate lemma NewOk(a: (Ccs, Ccs, CostCentre))
      requires old(Valid() && a.0 in nodes && a.2 !in Stack(a.0)) && Added(a) && nodes == old(nodes) + {a.1}
      requires ShapeOf(main, nodes) && a.1 != main && a.1.prevStack == a.0 && a.1.cc == a.2
      requires a.1.indexTable == EmptyTable
      requires Stack(a.1) == Stack(a.0) + [a.2]
      requires forall n :: n in old(nodes) ==> TableOk(n)
      requires forall n :: n in old(nodes) && n != main ==> Memo(n.prevStack.indexTable, n.cc) == n
      ensures Valid()
    {
      assert NoDup(Stack(a.0));
      assert TableOk(a.1);
    }

    /** actualPush. */
    method ActualPush(ccs: Ccs, cc: CostCentre) returns (new_ccs: Ccs)
      requires Valid() && ccs in nodes && cc !in Stack(ccs) && Memo(ccs.indexTable, cc) == null
      modifies this`nodes, ccs`indexTable
      ensures Valid() && fresh(new_ccs) && nodes == old(nodes) + {new_ccs} && Stack(new_ccs) == Push(Stack(ccs), cc)
    {
      new_ccs := new Ccs.Child(cc, ccs);
      Extend(ccs, cc, new_ccs);
    }

    /** pushCostCentre. */
    method PushCostCentre(ccs: Ccs, cc: CostCentre) returns (r: Ccs)
      requires Valid() && ccs in nodes
      modifies this`nodes, ccs`indexTable
      ensures Valid() && r in nodes && old(nodes) <= nodes && fresh(nodes - old(nodes))
      ensures Stack(r) == Push(Stack(ccs), cc)
    {
      if ccs.cc == cc {
        return ccs;
      }
      var temp_ccs := IsInIndexTable(ccs.indexTable, cc);
      if temp_ccs != null {
        assert TableOk(ccs);
        return temp_ccs;
      }
      temp_ccs := CheckLoop(ccs, cc);
      if temp_ccs != null {
        AddToIndexTable(ccs, temp_ccs, cc, true);
        AddedKeeps((ccs, temp_ccs, cc));
        return temp_ccs;
      }
      r := ActualPush(ccs, cc);
    }

    // ----- ++> -----

    /** enterFunEqualStacks: ccsapp and ccsfn are equally deep; the elements are pushed onto ccs0. */
    method EnterFunEqualStacks(ccs0: Ccs, ccsapp: Ccs, ccsfn: Ccs) returns (r: Ccs)
      requires Valid() && ccs0 in nodes && ccsapp in nodes && ccsfn in nodes && ccsapp.depth == ccsfn.depth
      modifies this`nodes, nodes`indexTable
      ensures Valid() && r in nodes && old(nodes) <= nodes && fresh(nodes - old(nodes))
      ensures Stack(r) == PushAll(Stack(ccs0), DropCommonPrefix(Stack(ccsapp), Stack(ccsfn)))
      decreases ccsapp.depth
    {
      if ccsapp == ccsfn {
        DropAll(Stack(ccsapp));
        return ccs0;
      }
      Parents(ccsapp, ccsfn);
      hide Valid, TableOk, Distinct, Complete, Push;
      var below := EnterFunEqualStacks(ccs0, ccsapp.prevStack, ccsfn.prevStack);
      PushAllSnoc(Stack(ccs0), DropCommonPrefix(Stack(ccsapp.prevStack), Stack(ccsfn.prevStack)), ccsfn.cc);
      r := PushCostCentre(below, ccsfn.cc);
    }

    /** Different nodes of equal depth are below CCS_MAIN, and what tells them apart is in the stacks. */
    lemma Parents(ccsapp: Ccs, ccsfn: Ccs)
      requires Valid() && ccsapp in nodes && ccsfn in nodes && ccsapp.depth == ccsfn.depth && ccsapp != ccsfn
      ensures ccsapp.prevStack != null && ccsapp.prevStack in nodes && ccsfn.prevStack != null
      ensures ccsfn.prevStack in nodes
      ensures ccsapp.prevStack.depth == ccsfn.prevStack.depth == ccsapp.depth - 1
      ensures DropCommonPrefix(Stack(ccsapp), Stack(ccsfn))
              == DropCommonPrefix(Stack(ccsapp.prevStack), Stack(ccsfn.prevStack)) + [ccsfn.cc]
    {
      StackLength(ccsapp);
      StackLength(ccsfn);
      var a, f := Stack(ccsapp.prevStack), Stack(ccsfn.prevStack);
      assert Stack(ccsapp) == a + [ccsapp.cc] && Stack(ccsfn) == f + [ccsfn.cc];
      if Stack(ccsapp) == Stack(ccsfn) {
        Canonical(ccsapp, ccsfn);
      }
      hide TableOk, Distinct, Complete;
      assert |a| == |f|;
      DropSnoc(a + [ccsapp.cc], f, ccsfn.cc);
      DropTake(a + [ccsapp.cc], f, |a|);
      assert (a + [ccsapp.cc])[..|a|] == a;
    }

    /** enterFunCurShorter: ccsfn is n deeper than ccsapp. */
    method EnterFunCurShorter(ccsapp: Ccs, ccsfn: Ccs, n: nat) returns (r: Ccs)
      requires Valid() && ccsapp in nodes && ccsfn in nodes && ccsapp.depth + n == ccsfn.depth
      modifies this`nodes, nodes`indexTable
      ensures Valid() && r in nodes && old(nodes) <= nodes && fresh(nodes - old(nodes))
      ensures Stack(r) == Enter(Stack(ccsapp), Stack(ccsfn))
      decreases n
    {
      if n == 0 {
        r := EnterFunEqualStacks(ccsapp, ccsapp, ccsfn);
        return;
      }
      Deeper(ccsapp, ccsfn);
      hide Valid, TableOk, Distinct, Complete, Push;
      var below := EnterFunCurShorter(ccsapp, ccsfn.prevStack, n - 1);
      PushAllSnoc(Stack(ccsapp), DropCommonPrefix(Stack(ccsapp), Stack(ccsfn.prevStack)), ccsfn.cc);
      r := PushCostCentre(below, ccsfn.cc);
    }

    lemma Deeper(ccsapp: Ccs, ccsfn: Ccs)
      requires Shape() && ccsapp in nodes && ccsfn in nodes && ccsapp.depth < ccsfn.depth
      ensures ccsfn.prevStack != null && ccsfn.prevStack in nodes && ccsfn.prevStack.depth + 1 == ccsfn.depth
      ensures DropCommonPrefix(Stack(ccsapp), Stack(ccsfn))
              == DropCommonPrefix(Stack(ccsapp), Stack(ccsfn.prevStack)) + [ccsfn.cc]
    {
      StackLength(ccsapp);
      StackLength(ccsfn);
      DropSnoc(Stack(ccsapp), Stack(ccsfn.prevStack), ccsfn.cc);
    }

    /** The loop of case 4: n steps up from ccsapp. */
    method Ancestor(ccsapp: Ccs, n: nat) returns (tmp: Ccs)
      requires Shape() && ccsapp in nodes && n <= ccsapp.depth
      ensures n < |Stack(ccsapp)|
      ensures tmp in nodes && tmp.depth == ccsapp.depth - n && Stack(tmp) == Stack(ccsapp)[..|Stack(ccsapp)| - n]
    {
      tmp := ccsapp;
      StackLength(ccsapp);
      for i := 0 to n
        invariant tmp in nodes && tmp.depth == ccsapp.depth - i && Stack(tmp) == Stack(ccsapp)[..|Stack(ccsapp)| - i]
      {
        StackLength(tmp);
        assert Stack(tmp) == Stack(tmp.prevStack) + [tmp.cc];
        tmp := tmp.prevStack;
        StackLength(tmp);
      }
    }

    /** appendCCS. */
    method AppendCCS(ccs1: Ccs, ccs2: Ccs) returns (r: Ccs)
      requires Valid() && ccs1 in nodes && ccs2 in nodes
      modifies this`nodes, nodes`indexTable
      ensures Valid() && r in nodes && old(nodes) <= nodes && fresh(nodes - old(nodes))
      ensures Stack(r) == PushAll(Stack(ccs1), Above(Stack(ccs1), Stack(ccs2)))
      decreases ccs2.depth
    {
      AboveIs(ccs1, ccs2);
      hide Valid, TableOk, Distinct, Complete, Push, PushAll, Above, Stack;
      if ccs1 == ccs2 {
        return ccs1;
      }
      if ccs2 == main || ccs2.cc.is_caf {
        return ccs1;
      }
      var below := AppendCCS(ccs1, ccs2.prevStack);
      r := PushCostCentre(below, ccs2.cc);
    }

    lemma AboveIs(ccs1: Ccs, ccs2: Ccs)
      requires Valid() && ccs1 in nodes && ccs2 in nodes
      ensures if ccs1 == ccs2 || ccs2 == main || ccs2.cc.is_caf
              then PushAll(Stack(ccs1), Above(Stack(ccs1), Stack(ccs2))) == Stack(ccs1)
              else ccs2.prevStack != null && ccs2.prevStack in nodes && ccs2.prevStack.depth < ccs2.depth
                   && PushAll(Stack(ccs1), Above(Stack(ccs1), Stack(ccs2)))
                      == Push(PushAll(Stack(ccs1), Above(Stack(ccs1), Stack(ccs2.prevStack))), ccs2.cc)
    {
      StackLength(ccs2);
      hide TableOk, Distinct;
      if !(ccs1 == ccs2 || ccs2 == main || ccs2.cc.is_caf) {
        AboveSnoc(ccs1, ccs2);
        hide Above;
        PushAllSnoc(Stack(ccs1), Above(Stack(ccs1), Stack(ccs2.prevStack)), ccs2.cc);
      }
    }

    lemma AboveSnoc(ccs1: Ccs, ccs2: Ccs)
      requires Valid() && ccs1 in nodes && ccs2 in nodes && ccs1 != ccs2 && ccs2 != main && !ccs2.cc.is_caf
      ensures Above(Stack(ccs1), Stack(ccs2)) == Above(Stack(ccs1), Stack(ccs2.prevStack)) + [ccs2.cc]
    {
      StackLength(ccs2);
      var s := Stack(ccs2.prevStack);
      assert Stack(ccs2) == s + [ccs2.cc] && (s + [ccs2.cc])[..|s|] == s;
      if Stack(ccs1) == Stack(ccs2) {
        Canonical(ccs1, ccs2);
      }
    }

    /** A stack other than CCS_MAIN shares its root with those it is the beginning of. */
    lemma {:induction false} PrefixRoot(a: Ccs, n: Ccs)
      requires Valid() && a in nodes && n in nodes && a != main && Stack(a) <= Stack(n)
      ensures a.root == n.root
      decreases n.depth
    {
      StackLength(a);
      StackLength(n);
      if a.depth == n.depth {
        Canonical(a, n);
      } else {
        assert Stack(n) == Stack(n.prevStack) + [n.cc];
        PrefixRoot(a, n.prevStack);
      }
    }

    /** The recursion of enterFunEqualStacks meets a shared ancestor at the latest at the common root. */
    lemma {:induction false} RootIsShared(n: Ccs)
      requires Valid() && n in nodes
      ensures n.root in nodes && Stack(n.root) <= Stack(n)
      decreases n.depth
    {
      if n != main && n.root != n {
        RootIsShared(n.prevStack);
      }
    }

    /** Stacks with different roots have nothing in common but CCS_MAIN. */
    lemma OnlyMain(ccsapp: Ccs, ccsfn: Ccs)
      requires Valid() && ccsapp in nodes && ccsfn in nodes && ccsapp.root != ccsfn.root
      ensures DropCommonPrefix(Stack(ccsapp), Stack(ccsfn)) == Stack(ccsfn)[1..]
      ensures (forall i :: 0 < i < |Stack(ccsfn)| ==> !Stack(ccsfn)[i].is_caf)
              ==> Above(Stack(ccsapp), Stack(ccsfn)) == Stack(ccsfn)[1..]
    {
      StackLength(ccsapp);
      StackLength(ccsfn);
      var a, f := Stack(ccsapp), Stack(ccsfn);
      if |a| > 1 && |f| > 1 && a[1] == f[1] {
        var n := NodeAt(ccsapp, 1);
        var m := NodeAt(ccsfn, 1);
        assert Stack(n) == [main.cc, a[1]] == Stack(m);
        Canonical(n, m);
        StackLength(n);
        PrefixRoot(n, ccsapp);
        PrefixRoot(n, ccsfn);
      }
      if ccsapp != main && a <= f {
        PrefixRoot(ccsapp, ccsfn);
      }
      if forall i :: 0 < i < |f| ==> !f[i].is_caf {
        AboveAll(a, f);
      }
    }

    /** For stacks with different roots, pushing only what appendCCS pushes is ++> if and only if it leaves out nothing,
        or what it leaves out is spare: the elements of the function stack up to its last CAF. */
    lemma DifferentRoots(ccsapp: Ccs, ccsfn: Ccs)
      requires Valid() && ccsapp in nodes && ccsfn in nodes && ccsapp.root != ccsfn.root
      ensures Stack(ccsfn) != []
      ensures LeavesOut(Stack(ccsapp), Stack(ccsfn)) + Above(Stack(ccsapp), Stack(ccsfn)) == Stack(ccsfn)[1..]
      ensures var a, f := Stack(ccsapp), Stack(ccsfn);
        PushAll(a, Above(a, f)) == Enter(a, f) <==> LeavesOut(a, f) == [] || Spare(a, LeavesOut(a, f), Above(a, f))
    {
      OnlyMain(ccsapp, ccsfn);
      assert NoDup(Stack(ccsapp)) && NoDup(Stack(ccsfn));
      hide Valid, Stack, Spare;
      AboveSpareIff(Stack(ccsapp), Stack(ccsfn));
    }

    /** The ancestor of a node at a given depth. */
    lemma {:induction false} NodeAt(n: Ccs, depth: nat) returns (a: Ccs)
      requires Shape() && n in nodes && depth <= n.depth
      ensures depth < |Stack(n)| && a in nodes && Stack(a) == Stack(n)[..depth + 1]
      decreases n.depth
    {
      StackLength(n);
      a := n;
      if depth < n.depth {
        a := NodeAt(n.prevStack, depth);
        assert Stack(n) == Stack(n.prevStack) + [n.cc];
      }
    }

    /** enterFunCCS: the new current stack. */
    method EnterFunCCS(rCCCS: Ccs, ccsfn: Ccs) returns (r: Ccs)
      requires Valid() && rCCCS in nodes && ccsfn in nodes
      modifies this`nodes, nodes`indexTable
      ensures Valid() && r in nodes && old(nodes) <= nodes && fresh(nodes - old(nodes))
      ensures ccsfn.prevStack == main ==> r == rCCCS
      ensures ccsfn.prevStack != main && ccsfn.root != rCCCS.root ==>
                Stack(r) == PushAll(Stack(rCCCS), Above(Stack(rCCCS), Stack(ccsfn)))
      ensures ccsfn.prevStack != main && ccsfn.root == rCCCS.root ==> Stack(r) == Enter(Stack(rCCCS), Stack(ccsfn))
    {
      if ccsfn == rCCCS {
        DropAll(Stack(rCCCS));
        return rCCCS;
      }
      if ccsfn.prevStack == main {
        return rCCCS;
      }
      var ccsapp := rCCCS;
      if ccsfn.root != ccsapp.root {
        r := AppendCCS(ccsapp, ccsfn);
        return;
      }
      if ccsapp.depth > ccsfn.depth {
        var tmp := Ancestor(ccsapp, ccsapp.depth - ccsfn.depth);
        StackLength(tmp);
        StackLength(ccsfn);
        DropTake(Stack(ccsapp), Stack(ccsfn), |Stack(tmp)|);
        r := EnterFunEqualStacks(ccsapp, tmp, ccsfn);
        return;
      }
      if ccsfn.depth > ccsapp.depth {
        r := EnterFunCurShorter(ccsapp, ccsfn, ccsfn.depth - ccsapp.depth);
        return;
      }
      r := EnterFunEqualStacks(ccsapp, ccsapp, ccsfn);
    }

    /** For a function stack directly below CCS_MAIN the current stack is left alone.  That is ++> exactly when the
        centre of the function stack is the current one, or the second of the current stack. */
    lemma BelowMain(ccsapp: Ccs, ccsfn: Ccs)
      requires Valid() && ccsapp in nodes && ccsfn in nodes && ccsfn.prevStack == main
      ensures |Stack(ccsapp)| == ccsapp.depth + 1
      ensures Enter(Stack(ccsapp), Stack(ccsfn)) == Stack(ccsapp)
              <==> ccsfn.cc == ccsapp.cc || (ccsapp.depth > 0 && Stack(ccsapp)[1] == ccsfn.cc)
    {
      StackLength(ccsapp);
      StackLength(main);
      StackLength(ccsfn);
      var a, f := Stack(ccsapp), ccsfn.cc;
      assert Stack(ccsfn) == [main.cc, f];
      assert [main.cc, f][1..] == [f];
      assert DropCommonPrefix(a[1..], [f]) == if |a| > 1 && a[1] == f then [] else [f];
      assert DropCommonPrefix(a, [main.cc, f]) == DropCommonPrefix(a[1..], [f]);
      assert PushAll(a, [f]) == Push(a, f);
      assert PushAll(a, []) == a;
    }
  }
}
