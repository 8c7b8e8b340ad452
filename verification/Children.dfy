/**
 Going through the children of a closure, as push and pop of kernel/rts/RetainerProfile.c do with the position kept in
 an entry of the traverse stack: fixed fields, a payload, and then a static reference table, small or large.
 */
module Children {
  import opened Base

  type Node = nat

  const BITS := 64    // bits in a word

  /** A small table is masked by a half word, a large one by an array of words. */
  datatype Srt = Small(bitmap: nat, table: seq<Node>) | Large(size: nat, words: seq<nat>, table: seq<Node>)

  datatype Layout =
    | NoChild                                  // CONSTR_0_1, ARR_WORDS
    | OneChild(only: Node)                     // MUT_VAR, THUNK_SELECTOR, BLACKHOLE, CONSTR_1_0
    | TwoChildren(first: Node, second: Node)   // CONSTR_2_0
    | ThreeChildren(head: Node, tail: Node, value: Node)   // MVAR, WEAK
    | Ptrs(ptrs: seq<Node>)                    // CONSTR, MUT_ARR_PTRS
    | PtrsSrt(ptrs: seq<Node>, srt: Srt)       // FUN, THUNK
    | PtrSrt(ptr: Node, srt: Srt)              // FUN_1_0, THUNK_1_0
    | SrtOnly(srt: Srt)                        // FUN_STATIC, FUN_0_1, THUNK_STATIC, THUNK_0_1

  datatype StackPos = Step(step: nat) | PtrsPos(pos: nat) | SrtPos(srt: nat, srt_bitmap: nat) | LargeSrtPos(offset: nat)

  function Pow2(n: nat): (p: nat)
    ensures p > 0
  {
    if n == 0 then 1 else 2 * Pow2(n - 1)
  }

  /** The C operator >>. */
  function Shr(x: nat, n: nat): nat {
    if n == 0 then x else Shr(x, n - 1) / 2
  }

  /** Every set bit has an entry, and every entry of a large table a bit. */
  ghost predicate SrtOk(s: Srt) {
    match s
    case Small(bitmap, table) => bitmap < Pow2(|table|)
    case Large(size, words, table) => size <= |table| && size <= BITS * |words|
  }

  ghost predicate Ok(l: Layout) {
    (l.PtrsSrt? || l.PtrSrt? || l.SrtOnly?) ==> SrtOk(l.srt)
  }

  // ----- the children in order -----

  function SmallMembers(bitmap: nat, table: seq<Node>): seq<Node>
    decreases |table|
  {
    if table == [] then [] else (if bitmap % 2 == 1 then [table[0]] else []) + SmallMembers(bitmap / 2, table[1..])
  }

  function Bit(words: seq<nat>, i: nat): bool
    requires i / BITS < |words|
  {
    Shr(words[i / BITS], i % BITS) % 2 == 1
  }

  ghost function LargeMembers(s: Srt, i: nat): seq<Node>
    requires s.Large? && SrtOk(s)
    decreases if i < s.size then s.size - i else 0
  {
    if i >= s.size then [] else
      assert i / BITS < |s.words|;
      (if Bit(s.words, i) then [s.table[i]] else []) + LargeMembers(s, i + 1)
  }

  ghost function SrtMembers(s: Srt): seq<Node>
    requires SrtOk(s)
  {
    match s
    case Small(bitmap, table) => SmallMembers(bitmap, table)
    case Large(_, _, _) => LargeMembers(s, 0)
  }

  ghost function Children(l: Layout): seq<Node>
    requires Ok(l)
  {
    match l
    case NoChild => []
    case OneChild(c) => [c]
    case TwoChildren(a, b) => [a, b]
    case ThreeChildren(a, b, c) => [a, b, c]
    case Ptrs(ps) => ps
    case PtrsSrt(ps, srt) => ps + SrtMembers(srt)
    case PtrSrt(p, srt) => [p] + SrtMembers(srt)
    case SrtOnly(srt) => SrtMembers(srt)
  }

  /** The positions that an entry for a closure can hold. */
  ghost predicate PosOk(l: Layout, p: StackPos) {
    match p
    case Step(n) => (l.TwoChildren? && n == 2) || (l.ThreeChildren? && 2 <= n <= 3)
    case PtrsPos(i) => (l.Ptrs? || l.PtrsSrt?) && i <= |l.ptrs|
    case SrtPos(i, bitmap) =>
      (l.PtrsSrt? || l.PtrSrt? || l.SrtOnly?) && l.srt.Small? && i <= |l.srt.table| && bitmap < Pow2(|l.srt.table| - i)
    case LargeSrtPos(i) => (l.PtrsSrt? || l.PtrSrt? || l.SrtOnly?) && l.srt.Large? && i <= l.srt.size
  }

  /** What is still to come. */
  ghost function Remaining(l: Layout, p: StackPos): seq<Node>
    requires Ok(l) && PosOk(l, p)
  {
    match p
    case Step(n) => if l.TwoChildren? then [l.second] else if n == 2 then [l.tail, l.value] else [l.value]
    case PtrsPos(i) => l.ptrs[i..] + (if l.PtrsSrt? then SrtMembers(l.srt) else [])
    case SrtPos(i, bitmap) => SmallMembers(bitmap, l.srt.table[i..])
    case LargeSrtPos(i) => LargeMembers(l.srt, i)
  }

  // ----- which closures these are -----

  function Entries(s: Srt): nat {
    match s case Small(_, table) => |table| case Large(size, _, _) => size
  }

  /** The bit of the i-th entry of the table is set. */
  predicate BitSet(s: Srt, i: nat)
    requires SrtOk(s) && i < Entries(s)
  {
    match s case Small(bitmap, _) => Shr(bitmap, i) % 2 == 1 case Large(_, words, _) => Bit(words, i)
  }

  /** From entry i on, the entries whose bits are set are those at these places, each once and in order. */
  ghost predicate Lists(s: Srt, i: nat, places: seq<nat>, members: seq<Node>)
    requires SrtOk(s)
  {
    && |members| == |places|
    && (forall j :: 0 <= j < |places| ==>
          i <= places[j] < Entries(s) && BitSet(s, places[j]) && members[j] == s.table[places[j]])
    && (forall j, k :: 0 <= j < k < |places| ==> places[j] < places[k])
    && (forall e :: i <= e < Entries(s) && BitSet(s, e) ==> e in places)
  }

  lemma ListsMore(s: Srt, i: nat, places: seq<nat>, members: seq<Node>)
    requires SrtOk(s) && i < Entries(s) && Lists(s, i + 1, places, members)
    ensures if BitSet(s, i) then Lists(s, i, [i] + places, [s.table[i]] + members) else Lists(s, i, places, members)
  {
    hide BitSet;
    if BitSet(s, i) {
      forall e | i <= e < Entries(s) && BitSet(s, e)
        ensures e in [i] + places
      { if e > i { assert e in places; } }
    }
  }

  lemma {:induction false} LargeLists(s: Srt, i: nat) returns (places: seq<nat>)
    requires s.Large? && SrtOk(s)
    ensures Lists(s, i, places, LargeMembers(s, i))
    decreases if i < s.size then s.size - i else 0
  {
    places := [];
    if i < s.size {
      places := LargeLists(s, i + 1);
      ListsMore(s, i, places, LargeMembers(s, i + 1));
      assert [] + LargeMembers(s, i + 1) == LargeMembers(s, i + 1);
      places := if BitSet(s, i) then [i] + places else places;
    }
  }

  lemma {:induction false} SmallLists(s: Srt, i: nat) returns (places: seq<nat>)
    requires s.Small? && SrtOk(s) && i <= |s.table|
    ensures Lists(s, i, places, SmallMembers(Shr(s.bitmap, i), s.table[i..]))
    decreases |s.table| - i
  {
    places := [];
    if i < |s.table| {
      places := SmallLists(s, i + 1);
      var later := SmallMembers(Shr(s.bitmap, i + 1), s.table[i + 1..]);
      ListsMore(s, i, places, later);
      assert s.table[i..][1..] == s.table[i + 1..] && [] + later == later;
      places := if BitSet(s, i) then [i] + places else places;
    }
  }

  /** The closures that the fields of a closure name, or entries of its table whose bits are set. */
  ghost predicate Names(l: Layout, c: Node)
    requires Ok(l)
  {
    || (l.OneChild? && c == l.only)
    || (l.TwoChildren? && (c == l.first || c == l.second))
    || (l.ThreeChildren? && (c == l.head || c == l.tail || c == l.value))
    || ((l.Ptrs? || l.PtrsSrt?) && c in l.ptrs)
    || (l.PtrSrt? && c == l.ptr)
    || ((l.PtrsSrt? || l.PtrSrt? || l.SrtOnly?) &&
        exists i :: 0 <= i < Entries(l.srt) && BitSet(l.srt, i) && l.srt.table[i] == c)
  }

  /** The members of a table are the entries whose bits are set, each once and in order. */
  lemma SrtMembersAre(s: Srt) returns (places: seq<nat>)
    requires SrtOk(s)
    ensures Lists(s, 0, places, SrtMembers(s))
  {
    if s.Small? {
      places := SmallLists(s, 0);
      assert s.table[0..] == s.table;
    } else {
      places := LargeLists(s, 0);
    }
  }

  /** Every closure named is among the children, and no other. */
  lemma ChildrenAre(l: Layout, c: Node)
    requires Ok(l)
    ensures c in Children(l) <==> Names(l, c)
  {
    if l.PtrsSrt? || l.PtrSrt? || l.SrtOnly? {
      var places := SrtMembersAre(l.srt);
      var ms := SrtMembers(l.srt);
      assert c in ms <==> exists i :: 0 <= i < Entries(l.srt) && BitSet(l.srt, i) && l.srt.table[i] == c by {
        if c in ms {
          var j :| 0 <= j < |ms| && ms[j] == c;
          assert BitSet(l.srt, places[j]);
        }
        if i :| 0 <= i < Entries(l.srt) && BitSet(l.srt, i) && l.srt.table[i] == c {
          var j :| 0 <= j < |places| && places[j] == i;
          assert ms[j] == c;
        }
      }
    }
  }

  // ----- find_srt -----

  lemma NoBits(table: seq<Node>)
    ensures SmallMembers(0, table) == []
  {
  }

  /** find_srt, on a small table. */
  method FindSmall(s: Srt, i0: nat, bitmap0: nat) returns (c: Option<Node>, i: nat, bitmap: nat)
    requires s.Small? && i0 <= |s.table| && bitmap0 < Pow2(|s.table| - i0)
    ensures i <= |s.table| && bitmap < Pow2(|s.table| - i)
    ensures SmallMembers(bitmap0, s.table[i0..])
            == if c.None? then [] else [c.value] + SmallMembers(bitmap, s.table[i..])
  {
    i, bitmap := i0, bitmap0;
    while bitmap != 0
      invariant i <= |s.table| && bitmap < Pow2(|s.table| - i)
      invariant SmallMembers(bitmap, s.table[i..]) == SmallMembers(bitmap0, s.table[i0..])
      decreases bitmap
    {
      assert s.table[i..][1..] == s.table[i + 1..];
      if bitmap % 2 == 1 {
        c := Some(s.table[i]);
        bitmap := bitmap / 2;
        i := i + 1;
        return;
      }
      bitmap := bitmap / 2;
      i := i + 1;
    }
    NoBits(s.table[i..]);
    c := None;
  }

  /** A word of the mask, or whatever lies behind its last one, which the search looks at when it ends there. */
  method Mask(words: seq<nat>, k: nat) returns (w: nat)
    ensures k < |words| ==> w == words[k]
  {
    if k < |words| {
      w := words[k];
    } else {
      w := *;
    }
  }

  /** find_srt, on a large one. */
  method FindLarge(s: Srt, offset: nat) returns (c: Option<Node>, i: nat)
    requires s.Large? && SrtOk(s) && offset <= s.size
    ensures i <= s.size
    ensures LargeMembers(s, offset) == if c.None? then [] else [c.value] + LargeMembers(s, i)
  {
    i := offset;
    var bitmap := Mask(s.words, i / BITS);
    bitmap := Shr(bitmap, i % BITS);
    while i < s.size
      invariant offset <= i <= s.size && (i < s.size ==> bitmap == Shr(s.words[i / BITS], i % BITS))
      invariant LargeMembers(s, i) == LargeMembers(s, offset)
    {
      if bitmap % 2 == 1 {
        c := Some(s.table[i]);
        i := i + 1;
        return;
      }
      NextWord(i);
      i := i + 1;
      if i % BITS == 0 {
        bitmap := Mask(s.words, i / BITS);
      } else {
        bitmap := bitmap / 2;
      }
    }
    c := None;
  }

  lemma NextWord(i: nat)
    ensures (i + 1) % BITS != 0 ==> (i + 1) / BITS == i / BITS && (i + 1) % BITS == i % BITS + 1
  {
  }

  // ----- push and pop -----

  /** With a fixed number of children, an entry is dropped together with the last of them. */
  predicate Eager(l: Layout) {
    l.NoChild? || l.OneChild? || l.TwoChildren? || l.ThreeChildren?
  }

  lemma EagerLeft(l: Layout, p: StackPos)
    requires Ok(l) && PosOk(l, p) && Eager(l)
    ensures Remaining(l, p) != []
  {
  }

  /** init_srt_fun and init_srt_thunk. */
  method InitSrt(l: Layout) returns (p: StackPos)
    requires Ok(l) && (l.PtrsSrt? || l.PtrSrt? || l.SrtOnly?)
    ensures PosOk(l, p) && (p.SrtPos? || p.LargeSrtPos?) && Remaining(l, p) == SrtMembers(l.srt)
  {
    if l.srt.Large? {
      p := LargeSrtPos(0);
    } else {
      assert l.srt.table[0..] == l.srt.table;
      p := SrtPos(0, l.srt.bitmap);
    }
  }

  /** find_srt: the next child and the position after it. */
  method FindSrt(l: Layout, p: StackPos) returns (c: Option<Node>, q: StackPos)
    requires Ok(l) && PosOk(l, p) && (p.SrtPos? || p.LargeSrtPos?)
    ensures PosOk(l, q) && (q.SrtPos? || q.LargeSrtPos?)
    ensures Remaining(l, p) == if c.None? then [] else [c.value] + Remaining(l, q)
  {
    hide SmallMembers, LargeMembers;
    if p.SrtPos? {
      var i, bitmap;
      c, i, bitmap := FindSmall(l.srt, p.srt, p.srt_bitmap);
      q := SrtPos(i, bitmap);
    } else {
      var i;
      c, i := FindLarge(l.srt, p.offset);
      q := LargeSrtPos(i);
    }
  }

  ghost function AfterEntry(l: Layout, p: Option<StackPos>): seq<Node>
    requires Ok(l) && (p.Some? ==> PosOk(l, p.value))
  {
    if p.None? then [] else Remaining(l, p.value)
  }

  /** The SRT part of push, when there is no child before it. */
  method PushSrt(l: Layout) returns (first_child: Option<Node>, se: Option<StackPos>)
    requires Ok(l) && (l.PtrsSrt? || l.PtrSrt? || l.SrtOnly?)
    ensures se.Some? ==> PosOk(l, se.value)
    ensures SrtMembers(l.srt) == if first_child.None? then [] else [first_child.value] + AfterEntry(l, se)
    ensures first_child.None? <==> se.None?
  {
    var p := InitSrt(l);
    var c, q := FindSrt(l, p);
    first_child, se := c, if c.None? then None else Some(q);
  }

  /** push: the first child, and the position after it if there may be more. */
  method Push(l: Layout) returns (first_child: Option<Node>, se: Option<StackPos>)
    requires Ok(l)
    ensures se.Some? ==> PosOk(l, se.value)
    ensures Children(l) == if first_child.None? then [] else [first_child.value] + AfterEntry(l, se)
    ensures se.None? <==> first_child.None? || (Eager(l) && |Children(l)| == 1)
  {
    match l
    case NoChild => first_child, se := None, None;
    case OneChild(c) => first_child, se := Some(c), None;
    case TwoChildren(a, _) => first_child, se := Some(a), Some(Step(2));
    case ThreeChildren(a, _, _) => first_child, se := Some(a), Some(Step(2));
    case PtrSrt(c, _) =>
      var p := InitSrt(l);
      first_child, se := Some(c), Some(p);
    case SrtOnly(_) => first_child, se := PushSrt(l);
    case Ptrs(ps) =>
      first_child, se := None, None;
      if ps != [] {
        assert ps == [ps[0]] + (ps[1..] + []);
        first_child, se := Some(ps[0]), Some(PtrsPos(1));
      }
    case PtrsSrt(ps, srt) =>
      if ps != [] {
        assert ps + SrtMembers(srt) == [ps[0]] + (ps[1..] + SrtMembers(srt));
        first_child, se := Some(ps[0]), Some(PtrsPos(1));
      } else {
        assert ps + SrtMembers(srt) == SrtMembers(srt);
        first_child, se := PushSrt(l);
      }
  }

  /** One round of pop on an entry: the next child, and the entry changed, or None when popOff drops it. */
  method Pop(l: Layout, p: StackPos) returns (c: Option<Node>, q: Option<StackPos>)
    requires Ok(l) && PosOk(l, p)
    ensures q.Some? ==> PosOk(l, q.value)
    ensures Remaining(l, p) == if c.None? then [] else [c.value] + AfterEntry(l, q)
    ensures q.None? <==> c.None? || (Eager(l) && |Remaining(l, p)| == 1)
  {
    hide SmallMembers, LargeMembers;
    match p
    case Step(n) =>
      if l.TwoChildren? {
        c, q := Some(l.second), None;
      } else if n == 2 {
        c, q := Some(l.tail), Some(Step(3));
      } else {
        c, q := Some(l.value), None;
      }
    case PtrsPos(i) =>
      ghost var srts := if l.PtrsSrt? then SrtMembers(l.srt) else [];
      if i < |l.ptrs| {
        assert l.ptrs[i..] + srts == [l.ptrs[i]] + (l.ptrs[i + 1..] + srts);
        c, q := Some(l.ptrs[i]), Some(PtrsPos(i + 1));
      } else if l.PtrsSrt? {
        assert l.ptrs[i..] + srts == srts;
        c, q := PushSrt(l);
      } else {
        assert l.ptrs[i..] + srts == [];
        c, q := None, None;
      }
    case _ =>
      var r;
      c, r := FindSrt(l, p);
      q := if c.None? then None else Some(r);
  }

  lemma Moved(all: seq<Node>, c: Node, left: seq<Node>)
    requires left != [] && left[0] == c
    ensures all + left == (all + [c]) + left[1..]
  {
  }

  /** push and then pop until the entry is gone: each child once, in order. */
  method Drain(l: Layout) returns (all: seq<Node>)
    requires Ok(l)
    ensures all == Children(l)
  {
    hide Children, Remaining, PosOk, Ok, Eager;
    var c, se := Push(l);
    all := [];
    ghost var left := Children(l);
    assert [] + left == left;
    while c.Some?
      invariant (se.Some? ==> PosOk(l, se.value)) && (c.None? ==> se.None?)
      invariant Children(l) == all + left && left == if c.None? then [] else [c.value] + AfterEntry(l, se)
      decreases |left|
    {
      Moved(all, c.value, left);
      all, left := all + [c.value], left[1..];
      if se.Some? {
        c, se := Pop(l, se.value);
      } else {
        c := None;
      }
    }
  }
}
