/**
 Arena allocation, after kernel/rts/Arena.c.  Addresses and sizes are counted in words, requests in bytes.
 */
module Arena {
  import opened Base

  /** A block group; blockW words to the block. */
  datatype Group = Group(start: nat, blocks: nat)

  function Words(g: Group, blockW: nat): (n: nat) {
    g.blocks * blockW
  }

  ghost predicate Apart(g: Group, h: Group, blockW: nat) {
    g.start + Words(g, blockW) <= h.start || h.start + Words(h, blockW) <= g.start
  }

  /** ROUNDUP to MIN_ALIGN, which is 8. */
  function RoundUp(size: nat): (r: nat)
    ensures size <= r < size + 8 && r % 8 == 0
  {
    (size + 7) / 8 * 8
  }

  /** B_TO_W of the rounded size. */
  function SizeW(size: nat, word: nat): (n: nat)
    requires word == 4 || word == 8
    ensures if word == 4 then 4 * n == RoundUp(size) else 8 * n == RoundUp(size)
    ensures n % Quantum(word) == 0
  {
    Divides(RoundUp(size));
    RoundUp(size) / word
  }

  lemma Divides(r: nat)
    requires r % 8 == 0
    ensures 4 * (r / 4) == r == 8 * (r / 8) && (r / 4) % 2 == 0
  {
    assert r == 8 * (r / 8);
  }

  /** MIN_ALIGN in words. */
  function Quantum(word: nat): nat
    requires word == 4 || word == 8
  {
    if word == 4 then 2 else 1
  }

  /** BLOCK_ROUND_UP of the rounded size, in blocks. */
  function ReqBlocks(size: nat, word: nat, blockW: nat): nat
    requires (word == 4 || word == 8) && blockW > 0
  {
    var block := blockW * word;
    assert block > 0;
    (RoundUp(size) + block - 1) / block
  }

  /** The blocks asked for are enough, and not one more. */
  lemma Enough(size: nat, word: nat, blockW: nat)
    requires (word == 4 || word == 8) && blockW > 0
    ensures SizeW(size, word) <= ReqBlocks(size, word, blockW) * blockW < SizeW(size, word) + blockW
  {
    var block, n, r := blockW * word, SizeW(size, word), ReqBlocks(size, word, blockW);
    var x := RoundUp(size) + block - 1;
    assert block > 0 && r == x / block;
    assert x == r * block + x % block;
    assert r * block == (r * blockW) * word;
  }

  // ----- what allocGroup returns -----

  /** MBLOCK_GROUP_BLOCKS: per blocks in the first megablock of a group, span in each of the others. */
  function GroupBlocks(mblocks: nat, per: nat, span: nat): nat
    requires mblocks > 0
  {
    per + (mblocks - 1) * span
  }

  /** BLOCKS_TO_MBLOCKS. */
  function ToMblocks(n: nat, per: nat, span: nat): (m: nat)
    requires span > 0 && per <= n
    ensures m > 0
  {
    1 + (n - per + span - 1) / span
  }

  /** The blocks of the group allocGroup returns when n are asked for: whole megablocks from BLOCKS_PER_MBLOCK on. */
  function Received(n: nat, per: nat, span: nat): nat
    requires span > 0
  {
    if n >= per then GroupBlocks(ToMblocks(n, per, span), per, span) else n
  }

  lemma RoundedUp(x: nat, span: nat)
    requires span > 0
    ensures x <= (x + span - 1) / span * span < x + span
    ensures (x + span - 1) / span * span == x <==> x % span == 0
  {
    var q, r := x / span, x % span;
    assert x == q * span + r;
    if r == 0 {
      assert x + span - 1 == q * span + (span - 1);
      Quotient(x + span - 1, span, q, span - 1);
    } else {
      assert x + span - 1 == (q + 1) * span + (r - 1);
      Quotient(x + span - 1, span, q + 1, r - 1);
      assert (q + 1) * span == q * span + span;
    }
  }

  lemma Quotient(a: nat, m: nat, q: nat, r: nat)
    requires m > 0 && r < m && a == q * m + r
    ensures a / m == q
  {
    var q', r' := a / m, a % m;
    assert a == q' * m + r';
    assert (q' - q) * m == q' * m - q * m == r - r';
    Multiple(q' - q, m);
  }

  lemma Multiple(x: int, m: int)
    requires m > 0
    ensures x > 0 ==> x * m >= m
    ensures x < 0 ==> x * m <= -m
  {
    if x > 0 {
      assert (x - 1) * m >= 0;
    } else if x < 0 {
      assert (-x - 1) * m >= 0;
    }
  }

  /** They are enough; and as many as asked for if and only if these do not reach, or exactly fill, whole megablocks. */
  lemma ReceivedExactIff(n: nat, per: nat, span: nat)
    requires 0 < per <= span
    ensures n <= Received(n, per, span) < n + span
    ensures Received(n, per, span) == n <==> n < per || (n - per) % span == 0
  {
    if n >= per {
      RoundedUp(n - per, span);
    }
  }

  /** What allocGroup has been asked for, and what it gave, beyond what was asked for. */
  function Excess(asked: seq<(nat, nat)>): int {
    if asked == [] then 0 else
      var n := |asked| - 1;
      Excess(asked[..n]) + asked[n].1 - asked[n].0
  }

  lemma {:induction false} ExcessSnoc(asked: seq<(nat, nat)>, x: (nat, nat))
    ensures Excess(asked + [x]) == Excess(asked) + x.1 - x.0
  {
    assert (asked + [x])[..|asked|] == asked;
  }

  lemma {:induction false} NoExcessIff(asked: seq<(nat, nat)>)
    requires forall x :: x in asked ==> x.0 <= x.1
    ensures Excess(asked) >= 0
    ensures Excess(asked) == 0 <==> forall x :: x in asked ==> x.0 == x.1
  {
    if asked != [] {
      var n := |asked| - 1;
      NoExcessIff(asked[..n]);
      assert asked == asked[..n] + [asked[n]];
    }
  }

  /** A request for whole blocks asks for exactly these. */
  lemma WholeBlocks(n: nat, blockW: nat)
    requires blockW > 0
    ensures ReqBlocks(n * blockW * 8, 8, blockW) == n
  {
    var size, block := n * blockW * 8, blockW * 8;
    assert size == n * block && RoundUp(size) == size;
    Quotient(size + block - 1, block, n, block - 1);
  }

  // ----- sums -----

  lemma {:induction false} Prefix(s: seq<nat>, k: nat)
    requires k < |s|
    ensures 0 <= Sum(s[..k]) && Sum(s[..k + 1]) == Sum(s[..k]) + s[k]
    ensures Sum(s[..k + 1]) <= Sum(s)
  {
    if k == 0 {
      assert s[..1] == [s[0]] && s[..1][1..] == [];
      NonNegative(s[1..]);
    } else {
      Prefix(s[1..], k - 1);
      assert s[..k][1..] == s[1..][..k - 1] && s[..k + 1][1..] == s[1..][..k];
    }
  }

  lemma {:induction false} NonNegative(s: seq<nat>)
    ensures 0 <= Sum(s)
  {
    if s != [] { NonNegative(s[1..]); }
  }

  /** What is handed out of one group lies end to end. */
  lemma {:induction false} Packed(s: seq<nat>, k: nat, l: nat)
    requires k < l < |s|
    ensures 0 <= Sum(s[..k]) && Sum(s[..k]) + s[k] <= Sum(s[..l]) && Sum(s[..l]) + s[l] <= Sum(s)
    decreases l
  {
    Prefix(s, l);
    Prefix(s, l - 1);
    Prefix(s, k);
    if k < l - 1 { Packed(s, k, l - 1); }
  }

  lemma {:induction false} Aligned(s: seq<nat>, a: nat)
    requires (a == 1 || a == 2) && forall k :: 0 <= k < |s| ==> s[k] % a == 0
    ensures Sum(s) % a == 0
  {
    if s != [] { Aligned(s[1..], a); }
  }

  lemma {:induction false} SumUpdate(s: seq<int>, i: nat, x: int)
    requires i < |s|
    ensures Sum(s[i := x]) == Sum(s) - s[i] + x
  {
    if i > 0 {
      SumUpdate(s[1..], i - 1, x);
      assert s[i := x][1..] == s[1..][i - 1 := x];
    }
  }

  // ----- what an arena holds and wastes -----

  function Blocks(groups: seq<Group>): nat {
    if groups == [] then 0 else groups[0].blocks + Blocks(groups[1..])
  }

  function Handed(given: seq<seq<nat>>): int {
    if given == [] then 0 else Sum(given[0]) + Handed(given[1..])
  }

  /** The words at the ends of the groups that were never handed out. */
  function Wasted(groups: seq<Group>, given: seq<seq<nat>>, blockW: nat): int
    requires |groups| == |given|
  {
    if groups == [] then 0 else Words(groups[0], blockW) - Sum(given[0]) + Wasted(groups[1..], given[1..], blockW)
  }

  /** Each group but the first was closed by a request too large for what was left of the one before it. */
  ghost predicate Closed(groups: seq<Group>, given: seq<seq<nat>>, blockW: nat)
    requires |groups| == |given|
  {
    |groups| > 1 ==>
      && given[0] != [] && 0 <= Words(groups[1], blockW) - Sum(given[1]) <= given[0][0]
      && Closed(groups[1..], given[1..], blockW)
  }

  lemma {:induction false} WasteBound(groups: seq<Group>, given: seq<seq<nat>>, blockW: nat)
    requires |groups| == |given| > 0 && Closed(groups, given, blockW)
    ensures Wasted(groups[1..], given[1..], blockW) <= Handed(given[..|given| - 1])
  {
    if |groups| > 1 {
      WasteBound(groups[1..], given[1..], blockW);
      assert given[..|given| - 1][1..] == given[1..][..|given| - 2];
      NonNegative(given[0][1..]);
    } else {
      assert given[..0] == [];
    }
  }

  /** No more than half of the words held outside the room left in the current group is wasted. */
  lemma {:induction false} AtMostHalf(groups: seq<Group>, given: seq<seq<nat>>, blockW: nat)
    requires |groups| == |given| > 0 && Closed(groups, given, blockW)
    ensures Wasted(groups, given, blockW) + Handed(given) == Blocks(groups) * blockW
    ensures var room := Words(groups[0], blockW) - Sum(given[0]);
      2 * (Wasted(groups, given, blockW) - room) <= Blocks(groups) * blockW - room
  {
    Held(groups, given, blockW);
    WasteBound(groups, given, blockW);
    HandedSnoc(given);
    NonNegative(given[|given| - 1]);
  }

  lemma {:induction false} HandedSnoc(given: seq<seq<nat>>)
    requires given != []
    ensures Handed(given) == Handed(given[..|given| - 1]) + Sum(given[|given| - 1])
  {
    if |given| > 1 {
      HandedSnoc(given[1..]);
      assert given[..|given| - 1][1..] == given[1..][..|given| - 2];
    }
  }

  lemma {:induction false} Held(groups: seq<Group>, given: seq<seq<nat>>, blockW: nat)
    requires |groups| == |given|
    ensures Wasted(groups, given, blockW) + Handed(given) == Blocks(groups) * blockW
  {
    if groups != [] {
      Held(groups[1..], given[1..], blockW);
      assert Blocks(groups) * blockW == groups[0].blocks * blockW + Blocks(groups[1..]) * blockW;
    }
  }

  // ----- one arena, as values -----

  /** The groups, and the sizes handed out of each: everything fits, is aligned and apart. */
  ghost predicate Sound(groups: seq<Group>, given: seq<seq<nat>>, word: nat, blockW: nat)
    requires (word == 4 || word == 8) && |groups| == |given| > 0
  {
    && Sum(given[0]) <= Words(groups[0], blockW)
    && (forall i, k :: 0 <= i < |given| && 0 <= k < |given[i]| ==> given[i][k] % Quantum(word) == 0)
    && (forall g :: g in groups ==> g.start % Quantum(word) == 0)
    && (forall i, j :: 0 <= i < j < |groups| ==> Apart(groups[i], groups[j], blockW))
    && Closed(groups, given, blockW)
  }

  lemma {:induction false} AllFit(groups: seq<Group>, given: seq<seq<nat>>, blockW: nat, i: nat)
    requires |groups| == |given| && Closed(groups, given, blockW) && i < |groups|
    requires Sum(given[0]) <= Words(groups[0], blockW)
    ensures Sum(given[i]) <= Words(groups[i], blockW)
  {
    if i > 0 { AllFit(groups[1..], given[1..], blockW, i - 1); }
  }

  lemma Bumped(groups: seq<Group>, given: seq<seq<nat>>, word: nat, blockW: nat, size_w: nat)
    requires (word == 4 || word == 8) && |groups| == |given| > 0 && Sound(groups, given, word, blockW)
    requires size_w % Quantum(word) == 0 && Sum(given[0]) + size_w <= Words(groups[0], blockW)
    ensures Sum(given[0] + [size_w]) == Sum(given[0]) + size_w
    ensures Sound(groups, [given[0] + [size_w]] + given[1..], word, blockW)
  {
    hide Words, Apart;
    SumAppend(given[0], [size_w]);
    var more := [given[0] + [size_w]] + given[1..];
    assert more[1..] == given[1..];
  }

  lemma Opened(groups: seq<Group>, given: seq<seq<nat>>, word: nat, blockW: nat, x: (Group, nat))
    requires (word == 4 || word == 8) && |groups| == |given| > 0 && Sound(groups, given, word, blockW)
    requires x.1 % Quantum(word) == 0 && Words(groups[0], blockW) - Sum(given[0]) <= x.1 <= Words(x.0, blockW)
    requires x.0.start % Quantum(word) == 0 && forall g :: g in groups ==> Apart(x.0, g, blockW)
    ensures Sum([x.1]) == x.1
    ensures Sound([x.0] + groups, [[x.1]] + given, word, blockW)
  {
    hide Words, Apart;
    assert ([x.0] + groups)[1..] == groups && ([[x.1]] + given)[1..] == given;
  }

  lemma {:induction false} SumRemove(s: seq<int>, a: nat)
    requires a < |s|
    ensures Sum(s[..a] + s[a + 1..]) == Sum(s) - s[a]
  {
    if a == 0 {
      assert s[..0] + s[1..] == s[1..];
    } else {
      SumRemove(s[1..], a - 1);
      assert (s[..a] + s[a + 1..])[1..] == s[1..][..a - 1] + s[1..][a..];
    }
  }

  lemma NoDupRemove<T>(s: seq<T>, a: nat)
    requires a < |s| && NoDup(s)
    ensures NoDup(s[..a] + s[a + 1..])
  { }

  // ----- the allocator -----

  /** arena_blocks, with what it ought to count: live arenas and the blocks each holds; and the requests so far, each
      with the blocks of the group that came. */
  class Counter {
    var arena_blocks: int
    ghost var live: seq<Arena>
    ghost var held: seq<int>
    ghost var asked: seq<(nat, nat)>

    constructor ()
      ensures Balanced() && live == [] && asked == []
    {
      arena_blocks, live, held, asked := 0, [], [], [];
    }

    ghost predicate Balanced()
      reads this, live
    {
      && |held| == |live| && NoDup(live)
      && (forall i :: 0 <= i < |live| ==> held[i] == Blocks(live[i].groups))
      && (forall x :: x in asked ==> x.0 <= x.1)
      && arena_blocks == Sum(held) - Excess(asked)
    }

    /** It counts the blocks held if and only if every request there ever was, of an arena live or freed, asked for less
        than a megablock or for whole megablocks; otherwise it is too low. */
    lemma CountsIff(per: nat, span: nat)
      requires Balanced() && 0 < per <= span && forall x :: x in asked ==> x.1 == Received(x.0, per, span)
      ensures arena_blocks <= Sum(held)
      ensures arena_blocks == Sum(held) <==> forall x :: x in asked ==> x.0 < per || (x.0 - per) % span == 0
    {
      NoExcessIff(asked);
      forall x | x in asked
        ensures x.0 == x.1 <==> x.0 < per || (x.0 - per) % span == 0
      {
        ReceivedExactIff(x.0, per, span);
      }
      hide Received;
    }
  }

  class Arena {
    const word: nat
    const blockW: nat
    var groups: seq<Group>           // the current one first
    var free: nat
    var lim: nat
    ghost var given: seq<seq<nat>>   // the sizes handed out of each group, in order

    ghost predicate Valid()
      reads this
    {
      && (word == 4 || word == 8) && blockW > 0 && |groups| == |given| > 0 && Sound(groups, given, word, blockW)
      && free == groups[0].start + Sum(given[0]) && lim == groups[0].start + Words(groups[0], blockW)
    }

    /** Where the k-th piece handed out of the i-th group is. */
    ghost function At(i: nat, k: nat): int
      requires Valid() && i < |given| && k < |given[i]|
      reads this
    {
      groups[i].start + Sum(given[i][..k])
    }

    /** newArena; first is what allocBlock_lock returns. */
    constructor (counter: Counter, word: nat, blockW: nat, first: Group)
      requires counter.Balanced() && (word == 4 || word == 8) && blockW > 0
      requires first.blocks == 1 && first.start % Quantum(word) == 0
      modifies counter
      ensures Valid() && groups == [first] && given == [[]] && this.blockW == blockW && this.word == word
      ensures counter.Balanced() && counter.live == old(counter.live) + [this] && counter.asked == old(counter.asked)
    {
      this.word, this.blockW, groups, given := word, blockW, [first], [[]];
      free, lim := first.start, first.start + blockW;
      new;
      counter.arena_blocks := counter.arena_blocks + 1;
      ghost var held := counter.held;
      counter.held, counter.live := held + [1], counter.live + [this];
      SumAppend(held, [1]);
      assert Blocks(groups) == 1 + Blocks([]);
    }

    ghost predicate Room(size_w: nat)
      reads this`free, this`lim
    {
      free + size_w < lim
    }

    method Bump(size_w: nat) returns (p: nat)
      requires Valid() && Room(size_w) && size_w % Quantum(word) == 0
      modifies this
      ensures Valid() && groups == old(groups) && given == [old(given)[0] + [size_w]] + old(given)[1..]
      ensures p == old(free) == At(0, |old(given)[0]|)
    {
      hide Sound, Words;
      p := free;
      free := free + size_w;
      Bumped(groups, given, word, blockW, size_w);
      assert (given[0] + [size_w])[..|given[0]|] == given[0];
      given := [given[0] + [size_w]] + given[1..];
    }

    method Open(size_w: nat, bd: Group) returns (p: nat)
      requires Valid() && !Room(size_w) && size_w % Quantum(word) == 0
      requires bd.start % Quantum(word) == 0 && size_w <= Words(bd, blockW)
      requires forall g :: g in groups ==> Apart(bd, g, blockW)
      modifies this
      ensures Valid() && groups == [bd] + old(groups) && given == [[size_w]] + old(given)
      ensures p == bd.start == At(0, 0)
    {
      hide Sound, Words, Apart;
      Opened(groups, given, word, blockW, (bd, size_w)) by {
        assert Sum(given[0]) <= Words(groups[0], blockW) by { Fits(); }
      }
      groups := [bd] + groups;
      given := [[size_w]] + given;
      free := bd.start + size_w;
      lim := bd.start + Words(bd, blockW);
      p := bd.start;
    }

    /**
     arenaAlloc; bd is what allocGroup_lock returns if it is asked, which it must not be for no blocks.
     The piece is the last of the current group if it fits there with a word to spare, else the first of a new one.
     */
    method Alloc(counter: Counter, ghost a: nat, size: nat, bd: Group) returns (p: nat)
      requires Valid() && counter.Balanced() && a < |counter.live| && counter.live[a] == this
      requires !Room(SizeW(size, word)) ==>
        && size > 0 && bd.blocks >= ReqBlocks(size, word, blockW) && bd.start % Quantum(word) == 0
        && forall g :: g in groups ==> Apart(bd, g, blockW)
      modifies this, counter
      ensures Valid() && counter.Balanced() && counter.live == old(counter.live)
      ensures old(Room(SizeW(size, word))) ==>
        && groups == old(groups) && given == [old(given)[0] + [SizeW(size, word)]] + old(given)[1..]
        && p == At(0, |old(given)[0]|) && counter.asked == old(counter.asked)
      ensures !old(Room(SizeW(size, word))) ==>
        && groups == [bd] + old(groups) && given == [[SizeW(size, word)]] + old(given)
        && p == At(0, 0) && counter.asked == old(counter.asked) + [(ReqBlocks(size, word, blockW), bd.blocks)]
    {
      hide Sound, Apart, ReqBlocks, Sum, At, NoDup;
      var size_w := SizeW(size, word);
      if free + size_w < lim {
        p := Bump(size_w);
      } else {
        var req_blocks := ReqBlocks(size, word, blockW);
        assert size_w <= Words(bd, blockW) by {
          Enough(size, word, blockW);
          assert req_blocks * blockW <= bd.blocks * blockW;
        }
        p := Enlarge(counter, a, size_w, (bd, req_blocks));
      }
    }

    method Enlarge(counter: Counter, ghost a: nat, size_w: nat, x: (Group, nat)) returns (p: nat)
      requires Valid() && counter.Balanced() && a < |counter.live| && counter.live[a] == this && x.1 <= x.0.blocks
      requires !Room(size_w) && size_w % Quantum(word) == 0
      requires x.0.start % Quantum(word) == 0 && size_w <= Words(x.0, blockW)
      requires forall g :: g in groups ==> Apart(x.0, g, blockW)
      modifies this, counter
      ensures Valid() && groups == [x.0] + old(groups) && given == [[size_w]] + old(given)
      ensures p == x.0.start == At(0, 0)
      ensures counter.Balanced() && counter.live == old(counter.live)
      ensures counter.asked == old(counter.asked) + [(x.1, x.0.blocks)]
    {
      hide Valid, Room, Words, Apart, Sum, At;
      ghost var n := Blocks(groups);
      p := Open(size_w, x.0);
      assert ([x.0] + old(groups))[1..] == old(groups);
      SumUpdate(counter.held, a, Blocks(groups));
      counter.arena_blocks := counter.arena_blocks + x.1;
      counter.held := counter.held[a := Blocks(groups)];
      ExcessSnoc(counter.asked, (x.1, x.0.blocks));
      counter.asked := counter.asked + [(x.1, x.0.blocks)];
      forall i | 0 <= i < |counter.live| ensures counter.held[i] == Blocks(counter.live[i].groups) {
        assert i != a ==> counter.live[i] != this;
      }
    }

    /** arenaFree: the count goes down by all the blocks of the arena's groups. */
    method Free(counter: Counter, ghost a: nat)
      requires Valid() && counter.Balanced() && a < |counter.live| && counter.live[a] == this
      modifies counter
      ensures counter.Balanced() && counter.live == old(counter.live)[..a] + old(counter.live)[a + 1..]
      ensures counter.asked == old(counter.asked)
      ensures counter.arena_blocks == old(counter.arena_blocks) - Blocks(groups)
    {
      hide Valid, NoDup;
      var i := 0;
      while i < |groups|
        invariant i <= |groups| && counter.live == old(counter.live) && counter.held == old(counter.held)
        invariant counter.asked == old(counter.asked)
        invariant counter.arena_blocks == old(counter.arena_blocks) - Blocks(groups) + Blocks(groups[i..])
      {
        assert groups[i..][1..] == groups[i + 1..];
        counter.arena_blocks := counter.arena_blocks - groups[i].blocks;
        i := i + 1;
      }
      SumRemove(counter.held, a);
      NoDupRemove(counter.live, a);
      counter.held := counter.held[..a] + counter.held[a + 1..];
      counter.live := counter.live[..a] + counter.live[a + 1..];
    }

    lemma Fits()
      requires Valid()
      ensures Sum(given[0]) <= Words(groups[0], blockW)
    { }

    // ----- the pieces handed out -----

    /** A piece is aligned and inside its group. */
    lemma Inside(i: nat, k: nat)
      requires Valid() && i < |given| && k < |given[i]|
      ensures At(i, k) % Quantum(word) == 0
      ensures groups[i].start <= At(i, k) && At(i, k) + given[i][k] <= groups[i].start + Words(groups[i], blockW)
    {
      Aligned(given[i][..k], Quantum(word));
      assert groups[i] in groups;
      Prefix(given[i], k);
      AllFit(groups, given, blockW, i);
    }

    /** Two pieces have no word in common. */
    lemma PiecesApart(i: nat, k: nat, j: nat, l: nat)
      requires Valid() && i < |given| && k < |given[i]| && j < |given| && l < |given[j]| && (i, k) != (j, l)
      ensures At(i, k) + given[i][k] <= At(j, l) || At(j, l) + given[j][l] <= At(i, k)
    {
      if i == j {
        Packed(given[i], if k < l then k else l, if k < l then l else k);
      } else {
        Inside(i, k);
        Inside(j, l);
        assert if i < j then Apart(groups[i], groups[j], blockW) else Apart(groups[j], groups[i], blockW);
      }
    }

    /** Nor have pieces of two arenas whose groups are apart. */
    lemma ArenasApart(that: Arena, i: nat, k: nat, j: nat, l: nat)
      requires Valid() && i < |given| && k < |given[i]|
      requires that.Valid() && j < |that.given| && l < |that.given[j]|
      requires that.blockW == blockW
      requires forall i, j :: 0 <= i < |groups| && 0 <= j < |that.groups| ==> Apart(groups[i], that.groups[j], blockW)
      ensures At(i, k) + given[i][k] <= that.At(j, l) || that.At(j, l) + that.given[j][l] <= At(i, k)
    {
      Inside(i, k);
      that.Inside(j, l);
      assert Apart(groups[i], that.groups[j], blockW);
    }

    /** The words wasted at the ends of all groups but the current one are never more than those handed out. */
    lemma Waste()
      requires Valid()
      ensures Wasted(groups[1..], given[1..], blockW) <= Handed(given[..|given| - 1]) <= Handed(given)
      ensures 2 * Wasted(groups[1..], given[1..], blockW) <= Blocks(groups) * blockW - (lim - free)
    {
      WasteBound(groups, given, blockW);
      AtMostHalf(groups, given, blockW);
      HandedSnoc(given);
      NonNegative(given[|given| - 1]);
    }
  }

  /**
   arena_blocks goes wrong on a request for one block more than a megablock holds: when the arena has been freed, and
   with it everything, the count is below 0, against the assertion in arenaFree.
   */
  method Drift(blockW: nat, per: nat, span: nat) returns (arena_blocks: int)
    requires 0 < per <= span && span > 1 && blockW > 0
    ensures arena_blocks == -(span - 1) < 0
  {
    hide Apart, Received, ReqBlocks, SizeW, RoundUp;
    var counter := new Counter();
    var arena := new Arena(counter, 8, blockW, Group(0, 1));
    var size := (per + 1) * blockW * 8;
    var bd := Group(blockW, Received(per + 1, per, span));
    ReceivedOneMore(per, span);
    Big(arena, size, per, bd);
    var p := arena.Alloc(counter, 0, size, bd);
    arena.Free(counter, 0);
    assert counter.live == [] && counter.held == [];
    assert counter.asked == [] + [(per + 1, per + span)];
    ExcessSnoc([], (per + 1, per + span));
    arena_blocks := counter.arena_blocks;
  }

  lemma Big(arena: Arena, size: nat, per: nat, bd: Group)
    requires arena.Valid() && arena.word == 8 && arena.groups == [Group(0, 1)] && arena.given == [[]] && per > 0
    requires size == (per + 1) * arena.blockW * 8 && bd.start == arena.blockW && bd.blocks >= per + 1
    ensures ReqBlocks(size, 8, arena.blockW) == per + 1 && !arena.Room(SizeW(size, 8)) && size > 0
    ensures bd.start % Quantum(8) == 0 && forall g :: g in arena.groups ==> Apart(bd, g, arena.blockW)
  {
    var blockW := arena.blockW;
    WholeBlocks(per + 1, blockW);
    assert size == 8 * ((per + 1) * blockW);
    assert RoundUp(size) == size;
    assert SizeW(size, 8) == (per + 1) * blockW >= blockW;
  }

  lemma ReceivedOneMore(per: nat, span: nat)
    requires 0 < per <= span && span > 1
    ensures Received(per + 1, per, span) == per + span
  {
    Quotient(1 + span - 1, span, 1, 0);
  }
}
