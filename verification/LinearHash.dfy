/**
 The linear hash table of kernel/rts/Hash.c as a value: what each operation computes, and that
 together they are a bag of (key, data) pairs, or a map when no key is inserted twice.
 raw is the part of table->hash before the masks are applied.
 */
module LinearHash {
  import opened Base

  const HSEGSIZE := 1024
  const HDIRSIZE := 1024
  const HLOAD := 5

  // ----- masks -----

  /** The C operator & on non-negative words. */
  function And(a: nat, b: nat): nat
    decreases a
  {
    if a == 0 || b == 0 then 0 else (a % 2) * (b % 2) + 2 * And(a / 2, b / 2)
  }

  predicate IsPow2(n: nat) {
    n == 1 || (n > 1 && n % 2 == 0 && IsPow2(n / 2))
  }

  lemma {:induction false} MaskIsMod(a: nat, n: nat)
    requires IsPow2(n)
    ensures And(a, n - 1) == a % n
    decreases a
  {
    if n == 1 || a == 0 {
    } else {
      MaskIsMod(a / 2, n / 2);
      assert (n - 1) / 2 == n / 2 - 1 && (n - 1) % 2 == 1;
      HalfMod(a, n / 2);
    }
  }

  lemma HalfMod(a: nat, h: nat)
    requires h > 0
    ensures a % (2 * h) == a % 2 + 2 * ((a / 2) % h)
  {
    var q, r := (a / 2) / h, (a / 2) % h;
    assert a / 2 == q * h + r;
    assert a == 2 * (q * h + r) + a % 2 == q * (2 * h) + (2 * r + a % 2);
    ModUnique(a, 2 * h, q, 2 * r + a % 2);
  }

  lemma SmallMultiple(x: int, m: int)
    requires m > 0
    ensures x > 0 ==> x * m >= m
    ensures x < 0 ==> x * m <= -m
  {
    if x > 0 {
      assert (x - 1) * m >= 0;
    } else if x < 0 {
      assert (-x - 1) * m >= 0;
    }
  }

  lemma ModUnique(a: nat, m: nat, q: nat, r: nat)
    requires m > 0 && r < m && a == q * m + r
    ensures a % m == r
  {
    var q', r' := a / m, a % m;
    assert (q' - q) * m == r - r' by {
      assert a == q' * m + r';
      assert (q' - q) * m == q' * m - q * m;
    }
    SmallMultiple(q' - q, m);
  }

  lemma Twice(j: nat, m: nat)
    ensures (2 * j) * m == j * (2 * m) && (2 * j + 1) * m == j * (2 * m) + m
  {
  }

  lemma ModDouble(a: nat, m: nat)
    requires m > 0
    ensures a % (2 * m) == a % m || a % (2 * m) == a % m + m
  {
    var k := a / m;
    assert a == k * m + a % m;
    Twice(k / 2, m);
    ModUnique(a, 2 * m, k / 2, if k % 2 == 0 then a % m else a % m + m);
  }

  // ----- the table -----

  datatype Table<K, V> = Table(split: nat, max: nat, mask1: nat, mask2: nat, kcount: int, bcount: nat,
                               buckets: seq<seq<(K, V)>>)

  /** hashWord, hashStr and hashLock from the masks on. */
  function Bucket<K, V>(t: Table<K, V>, h: nat): nat {
    var b := And(h, t.mask1);
    if b < t.split then And(h, t.mask2) else b
  }

  /** The bookkeeping of the header. */
  predicate Sized<K, V>(t: Table<K, V>) {
    && IsPow2(t.max) && HSEGSIZE <= t.max <= HSEGSIZE * HDIRSIZE
    && t.mask1 == t.max - 1 && t.mask2 == 2 * t.max - 1
    && t.split < t.max && t.bcount == t.max + t.split == |t.buckets| <= HSEGSIZE * HDIRSIZE
  }

  /** Every pair sits in the bucket its hash selects. */
  ghost predicate Placed<K, V>(t: Table<K, V>, raw: K -> nat) {
    forall b, i :: 0 <= b < |t.buckets| && 0 <= i < |t.buckets[b]| ==> Bucket(t, raw(t.buckets[b][i].0)) == b
  }

  /** Everything stored, with repetitions. */
  ghost function Bag<K, V>(t: Table<K, V>): multiset<(K, V)> {
    BagOf(t.buckets)
  }

  ghost function BagOf<T>(buckets: seq<seq<T>>): multiset<T> {
    if buckets == [] then multiset{} else multiset(buckets[0]) + BagOf(buckets[1..])
  }

  ghost predicate WellFormed<K, V>(t: Table<K, V>, raw: K -> nat) {
    Sized(t) && Placed(t, raw) && t.kcount == |Bag(t)|
  }

  function New<K, V>(): Table<K, V> {
    Table(0, HSEGSIZE, HSEGSIZE - 1, 2 * HSEGSIZE - 1, 0, HSEGSIZE, seq(HSEGSIZE, _ => []))
  }

  /** The pairs whose new bucket is, or is not, n; each chain comes out in reverse. */
  function Split<K, V>(t: Table<K, V>, raw: K -> nat, chain: seq<(K, V)>, n: nat, moved: bool): seq<(K, V)> {
    if chain == [] then []
    else Split(t, raw, chain[1..], n, moved) + (if (Bucket(t, raw(chain[0].0)) == n) == moved then [chain[0]] else [])
  }

  predicate AtLimit<K, V>(t: Table<K, V>) {
    t.split + t.max >= HDIRSIZE * HSEGSIZE
  }

  /** The header after expand. */
  function Grown<K, V>(t: Table<K, V>): Table<K, V> {
    if t.split + 1 == t.max
    then t.(split := 0, max := 2 * t.max, mask1 := t.mask2, mask2 := 2 * t.mask2 + 1, bcount := t.bcount + 1)
    else t.(split := t.split + 1, bcount := t.bcount + 1)
  }

  function Expand<K, V>(t: Table<K, V>, raw: K -> nat): Table<K, V>
    requires Sized(t)
  {
    if AtLimit(t) then t else
      var g := Grown(t);
      var n := t.max + t.split;
      g.(buckets := t.buckets[t.split := Split(g, raw, t.buckets[t.split], n, false)]
                    + [Split(g, raw, t.buckets[t.split], n, true)])
  }

  function Match<K(==), V>(chain: seq<(K, V)>, k: K): Option<V> {
    if chain == [] then None else if chain[0].0 == k then Some(chain[0].1) else Match(chain[1..], k)
  }

  function Lookup<K(==), V>(t: Table<K, V>, raw: K -> nat, k: K): Option<V>
    requires Sized(t)
  {
    BucketInRange(t, raw(k));
    Match(t.buckets[Bucket(t, raw(k))], k)
  }

  /** Count one more key, and split a bucket if that makes the average load too high. */
  function Reserve<K, V>(t: Table<K, V>, raw: K -> nat): (r: Table<K, V>)
    requires Sized(t)
    ensures Sized(r)
  {
    var t0 := t.(kcount := t.kcount + 1);
    ExpandSized(t0, raw);
    if t0.kcount >= HLOAD * t0.bcount then Expand(t0, raw) else t0
  }

  /** A new pair goes to the head of its chain. */
  function Prepend<K, V>(t: Table<K, V>, raw: K -> nat, k: K, v: V): (r: Table<K, V>)
    requires Sized(t)
    ensures Sized(r)
  {
    BucketInRange(t, raw(k));
    var b := Bucket(t, raw(k));
    t.(buckets := t.buckets[b := [(k, v)] + t.buckets[b]])
  }

  function Insert<K, V>(t: Table<K, V>, raw: K -> nat, k: K, v: V): (r: Table<K, V>)
    requires Sized(t)
    ensures Sized(r)
  {
    Prepend(Reserve(t, raw), raw, k, v)
  }

  /** Where the first pair with key k (and data d, if given) is in a chain; |chain| when there is none. */
  function Find<K(==), V(==)>(chain: seq<(K, V)>, k: K, d: Option<V>): (i: nat)
    ensures i <= |chain|
  {
    if chain == [] || (chain[0].0 == k && (d == None || chain[0].1 == d.value)) then 0 else 1 + Find(chain[1..], k, d)
  }

  function Removed<T>(s: seq<T>, i: nat): seq<T>
    requires i < |s|
  {
    s[..i] + s[i + 1..]
  }

  /** removeHashTable: the table afterwards and the data of the removed pair. */
  function Remove<K(==), V(==)>(t: Table<K, V>, raw: K -> nat, k: K, d: Option<V>): (r: (Table<K, V>, Option<V>))
    requires Sized(t)
    ensures Sized(r.0)
  {
    BucketInRange(t, raw(k));
    var b := Bucket(t, raw(k));
    var i := Find(t.buckets[b], k, d);
    if i == |t.buckets[b]| then (t, None)
    else (t.(kcount := t.kcount - 1, buckets := t.buckets[b := Removed(t.buckets[b], i)]),
          Some(t.buckets[b][i].1))
  }

  lemma RemoveIs<K, V>(t: Table<K, V>, raw: K -> nat, k: K, d: Option<V>, b: nat, i: nat)
    requires Sized(t) && b == Bucket(t, raw(k)) && b < |t.buckets| && i == Find(t.buckets[b], k, d)
    ensures i <= |t.buckets[b]|
    ensures Remove(t, raw, k, d)
            == if i == |t.buckets[b]| then (t, None)
               else (t.(kcount := t.kcount - 1, buckets := t.buckets[b := Removed(t.buckets[b], i)]),
                     Some(t.buckets[b][i].1))
  {
  }

  lemma BucketIs<K, V>(t: Table<K, V>, h: nat)
    requires IsPow2(t.max) && t.mask1 == t.max - 1 && t.mask2 == 2 * t.max - 1
    ensures Bucket(t, h) == if h % t.max < t.split then h % (2 * t.max) else h % t.max
  {
    MaskIsMod(h, t.max);
    MaskIsMod(h, 2 * t.max);
  }

  lemma BucketInRange<K, V>(t: Table<K, V>, h: nat)
    requires Sized(t)
    ensures Bucket(t, h) < |t.buckets|
  {
    BucketIs(t, h);
    ModDouble(h, t.max);
  }

  /** The bit patterns of the masks after doubling: mask2 << 1 | 1 is again one less than a power of two. */
  lemma ExpandSized<K, V>(t: Table<K, V>, raw: K -> nat)
    requires Sized(t)
    ensures Sized(Expand(t, raw))
  {
    PowersDouble(t.max);
    hide IsPow2, And, Bucket, Split;
  }

  lemma PowersDouble(n: nat)
    requires IsPow2(n)
    ensures IsPow2(2 * n)
  {
  }

  // ----- bags -----

  lemma {:induction false} BagUpdate<T>(buckets: seq<seq<T>>, b: nat, chain: seq<T>)
    requires b < |buckets|
    ensures multiset(buckets[b]) <= BagOf(buckets)
    ensures BagOf(buckets[b := chain]) == BagOf(buckets) - multiset(buckets[b]) + multiset(chain)
  {
    var rest := buckets[1..];
    if b == 0 {
      assert buckets[b := chain][1..] == rest;
    } else {
      BagUpdate(rest, b - 1, chain);
      assert buckets[b := chain][1..] == rest[b - 1 := chain];
    }
  }

  lemma {:induction false} BagSnoc<T>(buckets: seq<seq<T>>, chain: seq<T>)
    ensures BagOf(buckets + [chain]) == BagOf(buckets) + multiset(chain)
  {
    if buckets == [] {
      assert ([] + [chain])[1..] == [];
    } else {
      BagSnoc(buckets[1..], chain);
      assert (buckets + [chain])[1..] == buckets[1..] + [chain];
    }
  }

  lemma BagFrom<T>(buckets: seq<seq<T>>, b: nat)
    requires b < |buckets|
    ensures BagOf(buckets[b..]) == multiset(buckets[b]) + BagOf(buckets[b + 1..])
  {
    assert buckets[b..][1..] == buckets[b + 1..];
  }

  /** The lengths of the first n chains add up to the size of their bag. */
  ghost function Stored<T>(buckets: seq<seq<T>>, n: nat): nat
    requires n <= |buckets|
  {
    if n == 0 then 0 else Stored(buckets, n - 1) + |buckets[n - 1]|
  }

  lemma {:induction false} BagSize<T>(buckets: seq<seq<T>>, n: nat)
    requires n <= |buckets|
    ensures |BagOf(buckets[..n])| == Stored(buckets, n)
  {
    if n > 0 {
      BagSize(buckets, n - 1);
      BagSnoc(buckets[..n - 1], buckets[n - 1]);
      assert buckets[..n] == buckets[..n - 1] + [buckets[n - 1]];
    }
  }

  lemma {:induction false} InBag<T>(buckets: seq<seq<T>>, x: T)
    ensures x in BagOf(buckets) <==> exists b :: 0 <= b < |buckets| && x in buckets[b]
  {
    if buckets != [] {
      InBag(buckets[1..], x);
      if b :| 0 <= b < |buckets| && x in buckets[b] {
        assert b > 0 ==> x in buckets[1..][b - 1];
      }
      if b :| 0 <= b < |buckets[1..]| && x in buckets[1..][b] {
        assert x in buckets[b + 1];
      }
    }
  }

  lemma {:induction false} SplitBag<K, V>(t: Table<K, V>, raw: K -> nat, chain: seq<(K, V)>, n: nat)
    ensures multiset(Split(t, raw, chain, n, false)) + multiset(Split(t, raw, chain, n, true)) == multiset(chain)
  {
    if chain != [] {
      SplitBag(t, raw, chain[1..], n);
      assert chain == [chain[0]] + chain[1..];
    }
  }

  lemma {:induction false} SplitMembers<K, V>(t: Table<K, V>, raw: K -> nat, chain: seq<(K, V)>, n: nat, moved: bool)
    ensures forall x :: x in Split(t, raw, chain, n, moved) ==> x in chain && (Bucket(t, raw(x.0)) == n) == moved
  {
    if chain != [] {
      SplitMembers(t, raw, chain[1..], n, moved);
    }
  }

  lemma {:induction false} SplitSnoc<K, V>(t: Table<K, V>, raw: K -> nat, chain: seq<(K, V)>, x: (K, V), n: nat,
                                           moved: bool)
    ensures Split(t, raw, chain + [x], n, moved)
            == (if (Bucket(t, raw(x.0)) == n) == moved then [x] else []) + Split(t, raw, chain, n, moved)
  {
    if chain == [] {
      assert ([] + [x])[1..] == [];
    } else {
      assert (chain + [x])[1..] == chain[1..] + [x];
      SplitSnoc(t, raw, chain[1..], x, n, moved);
    }
  }

  /** Half way through a chain: the pairs seen so far are split, the others are left. */
  ghost predicate Splitting<K, V>(t: Table<K, V>, raw: K -> nat, n: nat, chain: seq<(K, V)>, seen: seq<(K, V)>,
                                  left: seq<(K, V)>, stay: seq<(K, V)>, move: seq<(K, V)>) {
    && chain == seen + left
    && stay == Split(t, raw, seen, n, false) && move == Split(t, raw, seen, n, true)
  }

  lemma SplittingStep<K, V>(t: Table<K, V>, raw: K -> nat, n: nat, chain: seq<(K, V)>, seen: seq<(K, V)>,
                            left: seq<(K, V)>, stay: seq<(K, V)>, move: seq<(K, V)>)
    requires Splitting(t, raw, n, chain, seen, left, stay, move) && left != []
    ensures if Bucket(t, raw(left[0].0)) == n
            then Splitting(t, raw, n, chain, seen + [left[0]], left[1..], stay, [left[0]] + move)
            else Splitting(t, raw, n, chain, seen + [left[0]], left[1..], [left[0]] + stay, move)
  {
    SplitSnoc(t, raw, seen, left[0], n, false);
    SplitSnoc(t, raw, seen, left[0], n, true);
    assert [] + stay == stay && [] + move == move;
    assert (seen + [left[0]]) + left[1..] == chain;
  }

  /** hash reads nothing of the table but split and the masks. */
  lemma SameBucket<K, V>(t: Table<K, V>, g: Table<K, V>, h: nat)
    requires g.split == t.split && g.mask1 == t.mask1 && g.mask2 == t.mask2
    ensures Bucket(g, h) == Bucket(t, h)
  {
  }

  // ----- expand -----

  /** Growing by one bucket moves only pairs of the bucket split, and only to the new bucket. */
  lemma GrownBucket<K, V>(t: Table<K, V>, h: nat)
    requires Sized(t) && !AtLimit(t)
    ensures Bucket(t, h) != t.split ==> Bucket(Grown(t), h) == Bucket(t, h)
    ensures Bucket(t, h) == t.split ==> Bucket(Grown(t), h) == t.split || Bucket(Grown(t), h) == t.max + t.split
  {
    BucketIs(t, h);
    ModDouble(h, t.max);
    if t.split + 1 == t.max {
      PowersDouble(t.max);
    }
    BucketIs(Grown(t), h);
  }

  lemma ExpandPlaced<K, V>(t: Table<K, V>, raw: K -> nat)
    requires Sized(t) && Placed(t, raw)
    ensures Placed(Expand(t, raw), raw)
  {
    if !AtLimit(t) {
      var g, n := Grown(t), t.max + t.split;
      var chain := t.buckets[t.split];
      var r := Expand(t, raw);
      SplitMembers(g, raw, chain, n, false);
      SplitMembers(g, raw, chain, n, true);
      forall b, i | 0 <= b < |r.buckets| && 0 <= i < |r.buckets[b]|
        ensures Bucket(r, raw(r.buckets[b][i].0)) == b
      {
        var x := r.buckets[b][i];
        assert Bucket(r, raw(x.0)) == Bucket(g, raw(x.0));
        GrownBucket(t, raw(x.0));
        if b == t.split || b == n {
          assert x in chain;
          var j :| 0 <= j < |chain| && chain[j] == x;
          assert Bucket(t, raw(chain[j].0)) == t.split;
        } else {
          assert x == t.buckets[b][i];
        }
      }
    }
  }

  lemma ExpandBag<K, V>(t: Table<K, V>, raw: K -> nat)
    requires Sized(t)
    ensures Bag(Expand(t, raw)) == Bag(t)
  {
    hide Split, BagOf, Bucket, And, IsPow2;
    if !AtLimit(t) {
      var g, n, chain := Grown(t), t.max + t.split, t.buckets[t.split];
      SplitBag(g, raw, chain, n);
      BagSplit(t.buckets, t.split, Split(g, raw, chain, n, false), Split(g, raw, chain, n, true));
    }
  }

  lemma BagSplit<T>(buckets: seq<seq<T>>, b: nat, stay: seq<T>, move: seq<T>)
    requires b < |buckets| && multiset(stay) + multiset(move) == multiset(buckets[b])
    ensures BagOf(buckets[b := stay] + [move]) == BagOf(buckets)
  {
    hide BagOf;
    BagUpdate(buckets, b, stay);
    BagSnoc(buckets[b := stay], move);
  }

  lemma BagPrepend<T>(buckets: seq<seq<T>>, b: nat, x: T)
    requires b < |buckets|
    ensures BagOf(buckets[b := [x] + buckets[b]]) == BagOf(buckets) + multiset{x}
  {
    hide BagOf;
    BagUpdate(buckets, b, [x] + buckets[b]);
    assert multiset([x] + buckets[b]) == multiset{x} + multiset(buckets[b]);
  }

  lemma BagRemoved<T>(buckets: seq<seq<T>>, b: nat, i: nat)
    requires b < |buckets| && i < |buckets[b]|
    ensures buckets[b][i] in BagOf(buckets)
    ensures BagOf(buckets[b := Removed(buckets[b], i)]) == BagOf(buckets) - multiset{buckets[b][i]}
  {
    hide BagOf;
    var chain := buckets[b];
    BagUpdate(buckets, b, Removed(chain, i));
    assert chain == chain[..i] + ([chain[i]] + chain[i + 1..]);
    assert multiset(Removed(chain, i)) == multiset(chain) - multiset{chain[i]};
    assert multiset{chain[i]} <= multiset(chain) <= BagOf(buckets);
  }

  // ----- the operations on the bag -----

  lemma NewIsEmpty<K, V>(raw: K -> nat)
    ensures WellFormed(New<K, V>(), raw) && Bag(New<K, V>()) == multiset{}
  {
    NewSized<K, V>();
    hide Bucket, And, IsPow2, BagOf, Sized;
    EmptyBag(New<K, V>().buckets);
  }

  lemma NewSized<K, V>()
    ensures Sized(New<K, V>())
  {
    PowersOfTwo();
    hide IsPow2;
  }

  lemma NewHeader<K, V>()
    ensures var t := New<K, V>();
            && Sized(t) && t.split == t.kcount == 0 && t.max == t.bcount == HSEGSIZE
            && t.mask1 == HSEGSIZE - 1 && t.mask2 == 2 * HSEGSIZE - 1
            && |t.buckets| == HSEGSIZE && forall b :: 0 <= b < HSEGSIZE ==> t.buckets[b] == []
  {
    hide Sized;
    NewSized<K, V>();
  }

  lemma PowersOfTwo()
    ensures IsPow2(HSEGSIZE)
  {
    assert IsPow2(4) && IsPow2(16) && IsPow2(64) && IsPow2(256) && IsPow2(1024);
  }

  lemma {:induction false} EmptyBag<T>(buckets: seq<seq<T>>)
    requires forall i :: 0 <= i < |buckets| ==> buckets[i] == []
    ensures BagOf(buckets) == multiset{}
  {
    if buckets != [] {
      EmptyBag(buckets[1..]);
    }
  }

  /** Changing one chain, keeping its pairs where they belong. */
  lemma ChainPlaced<K, V>(t: Table<K, V>, raw: K -> nat, r: Table<K, V>, b: nat)
    requires Placed(t, raw) && b < |t.buckets|
    requires r.split == t.split && r.mask1 == t.mask1 && r.mask2 == t.mask2
    requires |r.buckets| == |t.buckets| && r.buckets == t.buckets[b := r.buckets[b]]
    requires forall i :: 0 <= i < |r.buckets[b]| ==> Bucket(t, raw(r.buckets[b][i].0)) == b
    ensures Placed(r, raw)
  {
    forall c, i | 0 <= c < |r.buckets| && 0 <= i < |r.buckets[c]|
      ensures Bucket(r, raw(r.buckets[c][i].0)) == c
    {
      assert Bucket(r, raw(r.buckets[c][i].0)) == Bucket(t, raw(r.buckets[c][i].0));
      assert c != b ==> r.buckets[c] == t.buckets[c];
    }
  }

  lemma PrependRefines<K, V>(t: Table<K, V>, raw: K -> nat, k: K, v: V)
    requires Sized(t) && Placed(t, raw)
    ensures var r := Prepend(t, raw, k, v);
            Placed(r, raw) && Bag(r) == Bag(t) + multiset{(k, v)} && r.kcount == t.kcount
  {
    BucketInRange(t, raw(k));
    hide And, IsPow2, BagOf, Bucket;
    var b := Bucket(t, raw(k));
    var chain := [(k, v)] + t.buckets[b];
    BagPrepend(t.buckets, b, (k, v));
    forall i | 0 <= i < |chain|
      ensures Bucket(t, raw(chain[i].0)) == b
    {
      assert i > 0 ==> chain[i] == t.buckets[b][i - 1];
    }
    ChainPlaced(t, raw, Prepend(t, raw, k, v), b);
  }

  lemma ReserveRefines<K, V>(t: Table<K, V>, raw: K -> nat)
    requires Sized(t) && Placed(t, raw)
    ensures var r := Reserve(t, raw); Placed(r, raw) && Bag(r) == Bag(t) && r.kcount == t.kcount + 1
  {
    var t0 := t.(kcount := t.kcount + 1);
    assert Placed(t0, raw) by {
      assert forall h :: Bucket(t0, h) == Bucket(t, h);
    }
    ExpandPlaced(t0, raw);
    ExpandBag(t0, raw);
    hide And, IsPow2, BagOf, Bucket, Split, Placed;
  }

  /** insertHashTable adds one pair, splitting a bucket when the load is reached. */
  lemma InsertRefines<K, V>(t: Table<K, V>, raw: K -> nat, k: K, v: V)
    requires WellFormed(t, raw)
    ensures WellFormed(Insert(t, raw, k, v), raw)
    ensures Bag(Insert(t, raw, k, v)) == Bag(t) + multiset{(k, v)}
  {
    hide And, IsPow2, BagOf, Bucket, Placed, Sized, Prepend, Reserve;
    ReserveRefines(t, raw);
    PrependRefines(Reserve(t, raw), raw, k, v);
  }

  /** The average load stays below HLOAD after every insertion, until the directory is full. */
  lemma InsertLoad<K, V>(t: Table<K, V>, raw: K -> nat, k: K, v: V)
    requires Sized(t) && (t.kcount < HLOAD * t.bcount || AtLimit(t))
    ensures var r := Insert(t, raw, k, v); r.kcount < HLOAD * r.bcount || AtLimit(r)
  {
  }

  lemma {:induction false} MatchIsMember<K, V>(chain: seq<(K, V)>, k: K)
    ensures Match(chain, k).Some? ==> (k, Match(chain, k).value) in chain
    ensures Match(chain, k).None? ==> forall v :: (k, v) !in chain
  {
    if chain != [] && chain[0].0 != k {
      MatchIsMember(chain[1..], k);
    }
  }

  /** A pair can only be in the bucket its hash selects. */
  lemma OnlyThere<K, V>(t: Table<K, V>, raw: K -> nat, x: (K, V))
    requires Sized(t) && Placed(t, raw)
    ensures Bucket(t, raw(x.0)) < |t.buckets| && (x in Bag(t) <==> x in t.buckets[Bucket(t, raw(x.0))])
  {
    InBag(t.buckets, x);
    BucketInRange(t, raw(x.0));
  }

  /** lookupHashTable finds data stored under the key exactly when there is some. */
  lemma LookupRefines<K, V>(t: Table<K, V>, raw: K -> nat, k: K)
    requires WellFormed(t, raw)
    ensures Lookup(t, raw, k).Some? ==> (k, Lookup(t, raw, k).value) in Bag(t)
    ensures Lookup(t, raw, k).None? <==> forall v :: (k, v) !in Bag(t)
  {
    BucketInRange(t, raw(k));
    MatchIsMember(t.buckets[Bucket(t, raw(k))], k);
    forall v
      ensures (k, v) in Bag(t) <==> (k, v) in t.buckets[Bucket(t, raw(k))]
    {
      OnlyThere(t, raw, (k, v));
    }
  }

  lemma LookupNone<K, V>(t: Table<K, V>, raw: K -> nat, k: K)
    requires WellFormed(t, raw)
    ensures Lookup(t, raw, k).None? <==> forall x :: x in Bag(t) ==> x.0 != k
  {
    LookupRefines(t, raw, k);
    hide Lookup, Bag, WellFormed;
    if x :| x in Bag(t) && x.0 == k {
      assert x == (k, x.1);
    }
  }

  /** No key is stored twice. */
  ghost predicate Distinct<K, V>(t: Table<K, V>) {
    forall x, y :: x in Bag(t) && y in Bag(t) && x.0 == y.0 ==> x == y
  }

  /** With distinct keys the table is a map. */
  lemma LookupIsMap<K, V>(t: Table<K, V>, raw: K -> nat, k: K, v: V)
    requires WellFormed(t, raw) && Distinct(t)
    ensures Lookup(t, raw, k) == Some(v) <==> (k, v) in Bag(t)
  {
    LookupRefines(t, raw, k);
    if Lookup(t, raw, k).Some? && (k, v) in Bag(t) {
      assert (k, Lookup(t, raw, k).value) == (k, v);
    }
  }

  /** Right after an insertion the new data is what lookup returns, whatever was stored before. */
  lemma LookupAfterInsert<K, V>(t: Table<K, V>, raw: K -> nat, k: K, v: V)
    requires WellFormed(t, raw)
    ensures Sized(Insert(t, raw, k, v)) && Lookup(Insert(t, raw, k, v), raw, k) == Some(v)
  {
    var t1 := Reserve(t, raw);
    BucketInRange(t1, raw(k));
    assert Bucket(Prepend(t1, raw, k, v), raw(k)) == Bucket(t1, raw(k));
  }

  lemma {:induction false} FindIsMatch<K, V>(chain: seq<(K, V)>, k: K, d: Option<V>)
    ensures var i := Find(chain, k, d);
            && (i < |chain| ==> chain[i].0 == k && (d == None || chain[i].1 == d.value))
            && (forall j :: 0 <= j < i ==> !(chain[j].0 == k && (d == None || chain[j].1 == d.value)))
            && (d == None ==> Match(chain, k) == if i < |chain| then Some(chain[i].1) else None)
  {
    if !(chain == [] || (chain[0].0 == k && (d == None || chain[0].1 == d.value))) {
      FindIsMatch(chain[1..], k, d);
      var i := Find(chain, k, d);
      forall j | 0 <= j < i
        ensures !(chain[j].0 == k && (d == None || chain[j].1 == d.value))
      {
        assert j > 0 ==> chain[j] == chain[1..][j - 1];
      }
    }
  }

  /** Taking the i-th pair out of a chain. */
  lemma RemovedRefines<K, V>(t: Table<K, V>, raw: K -> nat, b: nat, i: nat)
    requires WellFormed(t, raw) && b < |t.buckets| && i < |t.buckets[b]|
    ensures var r := t.(kcount := t.kcount - 1, buckets := t.buckets[b := Removed(t.buckets[b], i)]);
            WellFormed(r, raw) && t.buckets[b][i] in Bag(t) && Bag(r) == Bag(t) - multiset{t.buckets[b][i]}
  {
    hide And, IsPow2, BagOf, Bucket;
    var chain := t.buckets[b];
    BagRemoved(t.buckets, b, i);
    var r := t.(kcount := t.kcount - 1, buckets := t.buckets[b := Removed(chain, i)]);
    forall j | 0 <= j < |r.buckets[b]|
      ensures Bucket(t, raw(r.buckets[b][j].0)) == b
    {
      assert r.buckets[b][j] == chain[if j < i then j else j + 1];
    }
    ChainPlaced(t, raw, r, b);
  }

  /** removeHashTable takes out exactly the pair it reports, and reports one exactly when there is one. */
  lemma RemoveRefines<K, V>(t: Table<K, V>, raw: K -> nat, k: K, d: Option<V>)
    requires WellFormed(t, raw)
    ensures var (r, found) := Remove(t, raw, k, d);
            && WellFormed(r, raw)
            && (found.Some? ==> (k, found.value) in Bag(t) && Bag(r) == Bag(t) - multiset{(k, found.value)}
                                && (d.Some? ==> found == d))
            && (found.None? ==> r == t && forall v :: (k, v) in Bag(t) ==> d.Some? && v != d.value)
            && (d == None ==> found == Lookup(t, raw, k))
  {
    BucketInRange(t, raw(k));
    var b := Bucket(t, raw(k));
    var chain := t.buckets[b];
    FindIsMatch(chain, k, d);
    var i := Find(chain, k, d);
    if i == |chain| {
      forall v | (k, v) in Bag(t)
        ensures d.Some? && v != d.value
      {
        OnlyThere(t, raw, (k, v));
        var j :| 0 <= j < |chain| && chain[j] == (k, v);
      }
    } else {
      hide And, IsPow2, BagOf, Bucket;
      RemovedRefines(t, raw, b, i);
      assert chain[i] == (k, chain[i].1);
    }
  }

  // ----- duplicate keys -----

  /** The data of the last pair of a chain with key k. */
  function LastMatch<K(==), V>(chain: seq<(K, V)>, k: K): Option<V> {
    if chain == [] then None
    else
      var rest := LastMatch(chain[1..], k);
      if rest.Some? then rest else if chain[0].0 == k then Some(chain[0].1) else None
  }

  lemma {:induction false} MatchSnoc<K, V>(chain: seq<(K, V)>, x: (K, V), k: K)
    ensures Match(chain + [x], k)
            == if Match(chain, k).Some? then Match(chain, k) else if x.0 == k then Some(x.1) else None
  {
    if chain == [] {
      assert ([] + [x])[1..] == [];
    } else {
      assert (chain + [x])[1..] == chain[1..] + [x];
      MatchSnoc(chain[1..], x, k);
    }
  }

  /** Splitting reverses a chain, so that the last pair with a key becomes the first. */
  lemma {:induction false} SplitMatch<K, V>(t: Table<K, V>, raw: K -> nat, chain: seq<(K, V)>, n: nat, k: K)
    ensures Match(Split(t, raw, chain, n, Bucket(t, raw(k)) == n), k) == LastMatch(chain, k)
  {
    if chain != [] {
      SplitMatch(t, raw, chain[1..], n, k);
      MatchSnoc(Split(t, raw, chain[1..], n, Bucket(t, raw(k)) == n), chain[0], k);
      assert Split(t, raw, chain[1..], n, Bucket(t, raw(k)) == n) + []
             == Split(t, raw, chain[1..], n, Bucket(t, raw(k)) == n);
    }
  }

  /** What lookup returns survives an expansion exactly when the key is not in the bucket being split,
      or its first and last pairs there carry the same data. */
  lemma ExpandKeepsLookup<K, V>(t: Table<K, V>, raw: K -> nat, k: K)
    requires Sized(t)
    ensures Sized(Expand(t, raw)) && Bucket(t, raw(k)) < |t.buckets|
    ensures Lookup(Expand(t, raw), raw, k) == Lookup(t, raw, k)
            <==> AtLimit(t) || Bucket(t, raw(k)) != t.split
                 || Match(t.buckets[t.split], k) == LastMatch(t.buckets[t.split], k)
  {
    ExpandSized(t, raw);
    BucketInRange(t, raw(k));
    BucketInRange(Expand(t, raw), raw(k));
    if !AtLimit(t) {
      if Bucket(t, raw(k)) == t.split {
        ExpandLookup(t, raw, k);
      } else {
        GrownBucket(t, raw(k));
        assert Bucket(Expand(t, raw), raw(k)) == Bucket(Grown(t), raw(k));
      }
    }
  }

  /** After an expansion, lookup in the bucket that was split returns the data of the last pair. */
  lemma ExpandLookup<K, V>(t: Table<K, V>, raw: K -> nat, k: K)
    requires Sized(t) && !AtLimit(t) && Bucket(t, raw(k)) == t.split
    ensures Sized(Expand(t, raw)) && Lookup(Expand(t, raw), raw, k) == LastMatch(t.buckets[t.split], k)
  {
    ExpandSized(t, raw);
    BucketInRange(Expand(t, raw), raw(k));
    GrownBucket(t, raw(k));
    var g := Grown(t);
    assert Bucket(Expand(t, raw), raw(k)) == Bucket(g, raw(k));
    hide And, IsPow2, Split, Match, LastMatch, BagOf, Bucket;
    SplitMatch(g, raw, t.buckets[t.split], t.max + t.split, k);
  }

  // ----- whole runs, with distinct keys -----

  datatype Op<K, V> = Put(k: K, v: V) | Delete(k: K, d: Option<V>)

  function ApplyOp<K(==), V(==)>(t: Table<K, V>, raw: K -> nat, op: Op<K, V>): (r: Table<K, V>)
    requires Sized(t)
    ensures Sized(r)
  {
    match op
    case Put(k, v) => Insert(t, raw, k, v)
    case Delete(k, d) => Remove(t, raw, k, d).0
  }

  function ApplyToMap<K(==), V(==)>(m: map<K, V>, op: Op<K, V>): map<K, V> {
    match op
    case Put(k, v) => m[k := v]
    case Delete(k, d) => if k in m && (d == None || m[k] == d.value) then m - {k} else m
  }

  function RunTable<K(==), V(==)>(t: Table<K, V>, raw: K -> nat, ops: seq<Op<K, V>>): (r: Table<K, V>)
    requires Sized(t)
    ensures Sized(r)
    decreases |ops|
  {
    if ops == [] then t else RunTable(ApplyOp(t, raw, ops[0]), raw, ops[1..])
  }

  function RunMap<K(==), V(==)>(m: map<K, V>, ops: seq<Op<K, V>>): map<K, V>
    decreases |ops|
  {
    if ops == [] then m else RunMap(ApplyToMap(m, ops[0]), ops[1..])
  }

  /** No key is inserted while it is present. */
  predicate FreshPuts<K(==), V(==)>(m: map<K, V>, ops: seq<Op<K, V>>)
    decreases |ops|
  {
    ops == [] || ((ops[0].Put? ==> ops[0].k !in m) && FreshPuts(ApplyToMap(m, ops[0]), ops[1..]))
  }

  /** The table stores each association of m once, and nothing else. */
  ghost predicate Represents<K(!new), V(!new)>(t: Table<K, V>, raw: K -> nat, m: map<K, V>) {
    && WellFormed(t, raw) && (t.kcount < HLOAD * t.bcount || AtLimit(t))
    && forall k, v :: Bag(t)[(k, v)] == if k in m && m[k] == v then 1 else 0
  }

  lemma RepresentsLookup<K(!new), V(!new)>(t: Table<K, V>, raw: K -> nat, m: map<K, V>, k: K)
    requires Represents(t, raw, m)
    ensures Lookup(t, raw, k) == if k in m then Some(m[k]) else None
  {
    LookupRefines(t, raw, k);
    if k in m {
      assert Bag(t)[(k, m[k])] == 1;
      assert (k, m[k]) in Bag(t);
    }
    if Lookup(t, raw, k).Some? {
      assert Bag(t)[(k, Lookup(t, raw, k).value)] != 0;
    }
  }

  lemma StepRepresents<K(!new), V(!new)>(t: Table<K, V>, raw: K -> nat, m: map<K, V>, op: Op<K, V>)
    requires Represents(t, raw, m) && (op.Put? ==> op.k !in m)
    ensures Represents(ApplyOp(t, raw, op), raw, ApplyToMap(m, op))
  {
    hide BagOf, Placed, Sized, Insert, Remove;
    match op
    case Put(k, v) =>
      InsertRefines(t, raw, k, v);
      InsertLoad(t, raw, k, v);
    case Delete(k, d) =>
      RemoveRefines(t, raw, k, d);
      RemoveLoad(t, raw, k, d);
      var (r, found) := Remove(t, raw, k, d);
      if found.Some? {
        assert Bag(t)[(k, found.value)] != 0;
      } else if k in m {
        assert (k, m[k]) in Bag(t);
      }
  }

  lemma RemoveLoad<K, V>(t: Table<K, V>, raw: K -> nat, k: K, d: Option<V>)
    requires Sized(t) && (t.kcount < HLOAD * t.bcount || AtLimit(t))
    ensures var r := Remove(t, raw, k, d).0; r.kcount < HLOAD * r.bcount || AtLimit(r)
  {
  }

  /** Over every run of insertions of absent keys and removals, the table is the map. */
  lemma {:induction false} RunRepresents<K(!new), V(!new)>(t: Table<K, V>, raw: K -> nat, m: map<K, V>,
                                                           ops: seq<Op<K, V>>)
    requires Represents(t, raw, m) && FreshPuts(m, ops)
    ensures Represents(RunTable(t, raw, ops), raw, RunMap(m, ops))
    decreases |ops|
  {
    if ops != [] {
      StepRepresents(t, raw, m, ops[0]);
      hide Represents, ApplyOp, ApplyToMap;
      RunRepresents(ApplyOp(t, raw, ops[0]), raw, ApplyToMap(m, ops[0]), ops[1..]);
    }
  }

  /** From the empty table: after any such run, lookup is map lookup, and the load bound holds. */
  lemma TableIsMap<K(!new), V(!new)>(raw: K -> nat, ops: seq<Op<K, V>>, k: K)
    requires FreshPuts(map[], ops)
    ensures Sized(New<K, V>())
    ensures var t := RunTable(New(), raw, ops);
            var m := RunMap(map[], ops);
            && Lookup(t, raw, k) == (if k in m then Some(m[k]) else None)
            && (t.kcount < HLOAD * t.bcount || AtLimit(t))
  {
    NewIsEmpty<K, V>(raw);
    assert Represents(New<K, V>(), raw, map[]);
    RunRepresents(New(), raw, map[], ops);
    RepresentsLookup(RunTable(New(), raw, ops), raw, RunMap(map[], ops), k);
  }

  // ----- a run with duplicate keys -----

  lemma PrependOther<K, V>(t: Table<K, V>, raw: K -> nat, k: K, v: V, k': K)
    requires Sized(t) && k != k'
    ensures Lookup(Prepend(t, raw, k, v), raw, k') == Lookup(t, raw, k')
  {
    var r := Prepend(t, raw, k, v);
    BucketInRange(t, raw(k));
    BucketInRange(t, raw(k'));
    SameBucket(t, r, raw(k'));
    var chain := t.buckets[Bucket(t, raw(k))];
    assert ([(k, v)] + chain)[1..] == chain;
  }

  /** Where insertion counts the new key and, when this fills the table, splits a bucket. */
  lemma ReserveKeepsLookup<K, V>(t: Table<K, V>, raw: K -> nat, k: K)
    requires Sized(t)
    ensures Bucket(t, raw(k)) < |t.buckets|
    ensures Lookup(Reserve(t, raw), raw, k) == Lookup(t, raw, k)
            <==> t.kcount + 1 < HLOAD * t.bcount || AtLimit(t) || Bucket(t, raw(k)) != t.split
                 || Match(t.buckets[t.split], k) == LastMatch(t.buckets[t.split], k)
  {
    var t0 := t.(kcount := t.kcount + 1);
    SameBucket(t, t0, raw(k));
    BucketInRange(t, raw(k));
    hide And, IsPow2, Match, LastMatch, Expand;
    ExpandKeepsLookup(t0, raw, k);
    hide Bucket;
  }

  /** What lookup returns for another key survives an insertion unless this fills the table, which then splits the
      bucket of that key, where its first and last pairs carry different data. */
  lemma InsertKeepsLookup<K, V>(t: Table<K, V>, raw: K -> nat, k: K, v: V, k': K)
    requires Sized(t) && k != k'
    ensures Bucket(t, raw(k')) < |t.buckets|
    ensures Lookup(Insert(t, raw, k, v), raw, k') == Lookup(t, raw, k')
            <==> t.kcount + 1 < HLOAD * t.bcount || AtLimit(t) || Bucket(t, raw(k')) != t.split
                 || Match(t.buckets[t.split], k') == LastMatch(t.buckets[t.split], k')
  {
    hide Lookup, Bucket, Match, LastMatch, Reserve, Prepend, AtLimit;
    ReserveKeepsLookup(t, raw, k');
    PrependOther(Reserve(t, raw), raw, k, v, k');
  }

  lemma {:induction false} RunAppend<K, V>(t: Table<K, V>, raw: K -> nat, a: seq<Op<K, V>>, b: seq<Op<K, V>>)
    requires Sized(t)
    ensures RunTable(t, raw, a + b) == RunTable(RunTable(t, raw, a), raw, b)
    decreases |a|
  {
    hide Sized, ApplyOp;
    if a == [] {
      assert a + b == b;
    } else {
      assert (a + b)[1..] == a[1..] + b && (a + b)[0] == a[0];
      RunAppend(ApplyOp(t, raw, a[0]), raw, a[1..], b);
    }
  }

  /** hashWord, up to the masks. */
  function Word(key: nat): nat {
    key / 8
  }

  function Fill(n: nat): (ops: seq<Op<nat, nat>>)
    ensures |ops| == n
  {
    if n == 0 then [] else [Put(8, 0)] + Fill(n - 1)
  }

  /** The first HSEGSIZE buckets, with the given pairs in the first of them. */
  ghost predicate Young(t: Table<nat, nat>, first: seq<(nat, nat)>, kcount: nat) {
    && Sized(t) && t.split == 0 && t.max == HSEGSIZE && t.kcount == kcount
    && t.buckets[0] == first
  }

  lemma YoungInsert(t: Table<nat, nat>, first: seq<(nat, nat)>, kcount: nat, k: nat, v: nat)
    requires Young(t, first, kcount) && kcount + 1 < HLOAD * HSEGSIZE && (k == 0 || k == 8)
    ensures Young(Insert(t, Word, k, v), if k == 0 then [(0, v)] + first else first, kcount + 1)
  {
    BucketIs(t, Word(k));
    SameBucket(t, Reserve(t, Word), Word(k));
    hide And, IsPow2;
  }

  lemma {:induction false} Filling(t: Table<nat, nat>, first: seq<(nat, nat)>, kcount: nat, n: nat)
    requires Young(t, first, kcount) && kcount + n < HLOAD * HSEGSIZE
    ensures Young(RunTable(t, Word, Fill(n)), first, kcount + n)
    decreases n
  {
    if n > 0 {
      YoungInsert(t, first, kcount, 8, 0);
      hide Young, Insert;
      assert Fill(n)[1..] == Fill(n - 1);
      Filling(Insert(t, Word, 8, 0), first, kcount + 1, n - 1);
    }
  }

  /** Two insertions of the key 0, and then others up to one below the load at which insertHashTable expands. */
  function Twice0(): seq<Op<nat, nat>> {
    [Put(0, 1), Put(0, 2)] + Fill(HLOAD * HSEGSIZE - 3)
  }

  lemma RunTwo<K, V>(t: Table<K, V>, raw: K -> nat, a: Op<K, V>, b: Op<K, V>)
    requires Sized(t)
    ensures RunTable(t, raw, [a, b]) == ApplyOp(ApplyOp(t, raw, a), raw, b)
  {
    hide Sized, ApplyOp;
    assert [a, b][1..] == [b] && [b][1..] == [];
    assert RunTable(ApplyOp(t, raw, a), raw, [b]) == RunTable(ApplyOp(ApplyOp(t, raw, a), raw, b), raw, []);
  }

  lemma NewYoung()
    ensures Young(New<nat, nat>(), [], 0)
  {
    NewSized<nat, nat>();
    hide Sized;
  }

  lemma Twice0Young()
    ensures Sized(New<nat, nat>())
    ensures Young(RunTable(New(), Word, Twice0()), [(0, 2), (0, 1)], HLOAD * HSEGSIZE - 1)
  {
    var t, n := New<nat, nat>(), HLOAD * HSEGSIZE - 3;
    NewSized<nat, nat>();
    NewYoung();
    hide Young, Insert, Sized, New, Fill;
    YoungInsert(t, [], 0, 0, 1);
    var t1 := Insert(t, Word, 0, 1);
    YoungInsert(t1, [(0, 1)] + [], 1, 0, 2);
    var t2 := Insert(t1, Word, 0, 2);
    assert [(0, 2)] + ([(0, 1)] + []) == [(0, 2), (0, 1)];
    Filling(t2, [(0, 2), (0, 1)], 2, n);
    RunTwo(t, Word, Put(0, 1), Put(0, 2));
    RunAppend(t, Word, [Put(0, 1), Put(0, 2)], Fill(n));
  }

  lemma YoungLookup(t: Table<nat, nat>, first: seq<(nat, nat)>, kcount: nat)
    requires Young(t, first, kcount)
    ensures Lookup(t, Word, 0) == Match(first, 0)
  {
    BucketIs(t, 0);
    hide And, IsPow2;
  }

  /** The insertion that fills the table. */
  lemma YoungFull(t: Table<nat, nat>, first: seq<(nat, nat)>)
    requires Young(t, first, HLOAD * HSEGSIZE - 1)
    ensures Lookup(Insert(t, Word, 8, 0), Word, 0) == LastMatch(first, 0)
  {
    var t0 := t.(kcount := t.kcount + 1);
    BucketIs(t0, 0);
    hide And, IsPow2, Match, LastMatch, Expand, Lookup;
    ExpandLookup(t0, Word, 0);
    PrependOther(Reserve(t, Word), Word, 8, 0, 0);
  }

  /** "The most recent insertion wins" after a run of insertions into a new table, and not after one more, of another
      key. */
  lemma DuplicateNotKept()
    ensures Sized(New<nat, nat>())
    ensures var t := RunTable(New(), Word, Twice0());
            Lookup(t, Word, 0) == Some(2) && Lookup(Insert(t, Word, 8, 0), Word, 0) == Some(1)
  {
    hide Young, Insert, New, RunTable, Lookup, Twice0;
    Twice0Young();
    var t, first := RunTable(New<nat, nat>(), Word, Twice0()), [(0, 2), (0, 1)];
    YoungLookup(t, first, HLOAD * HSEGSIZE - 1);
    YoungFull(t, first);
    assert first[1..] == [(0, 1)] && LastMatch([(0, 1)], 0) == Some(1);
  }
}
