/**
 The records of kernel/rts/Hash.c, updated in place: cells in bucket chains and on a free list,
 chunks the cells come from, and a directory of segments.  Each operation is proved to be the one
 of the same name in LinearHash.
 */
module Hash {
  import opened Base
  import L = LinearHash

  const HCHUNK := 341    // 1024 words divided by the size of a cell

  class Cell<K, V> {
    var key: K
    var data: V
    var next: Cell?<K, V>
    ghost var home: int    // the bucket whose chain holds the cell, or -1 on the free list

    constructor (key: K, data: V)
      ensures this.key == key && this.data == data && next == null && home == -1
    {
      this.key, this.data, this.next, this.home := key, data, null, -1;
    }
  }

  /** The directory: heads[b] is dir[b / HSEGSIZE][b % HSEGSIZE]. */
  class Directory<K, V> {
    const dir: array<array?<Cell?<K, V>>>
    ghost var heads: seq<Cell?<K, V>>
    ghost var Repr: set<object>

    ghost predicate Valid()
      reads this, Repr
      ensures Valid() ==> this in Repr
    {
      && this in Repr && dir in Repr && dir.Length == L.HDIRSIZE && |heads| <= L.HSEGSIZE * L.HDIRSIZE
      && (forall s :: 0 <= s < L.HDIRSIZE && s * L.HSEGSIZE < |heads| ==>
            dir[s] != null && dir[s] in Repr && dir[s].Length == L.HSEGSIZE)
      && (forall s, t :: 0 <= s < t < L.HDIRSIZE && t * L.HSEGSIZE < |heads| ==> dir[s] != dir[t])
      && (forall b :: 0 <= b < |heads| ==> b / L.HSEGSIZE < L.HDIRSIZE && (b / L.HSEGSIZE) * L.HSEGSIZE < |heads|)
      && (forall b :: 0 <= b < |heads| ==> dir[b / L.HSEGSIZE][b % L.HSEGSIZE] == heads[b])
    }

    method Get(b: nat) returns (c: Cell?<K, V>)
      requires Valid() && b < |heads|
      ensures c == heads[b]
    {
      var segment, index := b / L.HSEGSIZE, b % L.HSEGSIZE;
      c := dir[segment][index];
    }

    method Set(b: nat, c: Cell?<K, V>)
      requires Valid() && b < |heads|
      modifies Repr
      ensures Valid() && Repr == old(Repr) && heads == old(heads)[b := c]
    {
      var segment, index := b / L.HSEGSIZE, b % L.HSEGSIZE;
      dir[segment][index] := c;
      heads := heads[b := c];
      forall d | 0 <= d < |heads|
        ensures dir[d / L.HSEGSIZE][d % L.HSEGSIZE] == heads[d]
      {
        assert d == (d / L.HSEGSIZE) * L.HSEGSIZE + d % L.HSEGSIZE;
      }
    }

    /** The first segment, all of its buckets empty. */
    constructor ()
      ensures Valid() && fresh(Repr) && |heads| == L.HSEGSIZE && forall b :: 0 <= b < L.HSEGSIZE ==> heads[b] == null
    {
      dir := new array?<Cell?<K, V>>[L.HDIRSIZE](_ => null);
      new;
      var segment := new Cell?<K, V>[L.HSEGSIZE](_ => null);
      dir[0] := segment;
      heads := seq(L.HSEGSIZE, _ => null);
      Repr := {this, dir, segment};
    }

    /** expand's new bucket: allocSegment when it is the first of a segment, and then its chain.
        The other buckets of a new segment hold whatever was in memory. */
    method Extend(newbucket: nat, c: Cell?<K, V>)
      requires Valid() && newbucket == |heads| < L.HSEGSIZE * L.HDIRSIZE
      modifies Repr
      ensures Valid() && fresh(Repr - old(Repr)) && heads == old(heads) + [c]
    {
      var newsegment, newindex := newbucket / L.HSEGSIZE, newbucket % L.HSEGSIZE;
      if newindex == 0 {
        var segment := new Cell?<K, V>[L.HSEGSIZE];
        dir[newsegment] := segment;
        Repr := Repr + {segment};
      }
      dir[newsegment][newindex] := c;
      heads := heads + [c];
      forall d | 0 <= d < |heads|
        ensures d / L.HSEGSIZE < L.HDIRSIZE && (d / L.HSEGSIZE) * L.HSEGSIZE < |heads|
        ensures dir[d / L.HSEGSIZE][d % L.HSEGSIZE] == heads[d]
      {
        assert d == (d / L.HSEGSIZE) * L.HSEGSIZE + d % L.HSEGSIZE;
      }
    }
  }

  /** head, following next, lists exactly q, every cell of which belongs to home. */
  ghost predicate Chain<K, V>(head: Cell?<K, V>, q: seq<Cell<K, V>>, home: int)
    reads q
  {
    && (q == [] <==> head == null) && (q != [] ==> head == q[0])
    && (forall i :: 0 <= i < |q| ==> q[i].home == home)
    && (forall i :: 0 <= i < |q| - 1 ==> q[i].next == q[i + 1])
    && (q != [] ==> q[|q| - 1].next == null)
    && NoDup(q)
  }

  lemma ChainTail<K, V>(q: seq<Cell<K, V>>, home: int)
    requires q != [] && Chain(q[0], q, home)
    ensures Chain(q[0].next, q[1..], home) && q[0] !in q[1..] && q[0].home == home
  {
    if |q| > 1 {
      assert q[0].next == q[1];
    }
  }

  lemma ChainCons<K, V>(c: Cell<K, V>, q: seq<Cell<K, V>>, home: int)
    requires Chain(c.next, q, home) && c.home == home && c !in q
    ensures Chain(c, [c] + q, home)
  {
  }

  /** The cells of q hold the given pairs. */
  ghost predicate Holds<K, V>(q: seq<Cell<K, V>>, pairs: seq<(K, V)>)
    reads q
  {
    |q| == |pairs| && forall i :: 0 <= i < |q| ==> (q[i].key, q[i].data) == pairs[i]
  }

  /** A list of cells: where it starts, its cells, what they hold and where they belong. */
  datatype List<K, V> = List(head: Cell?<K, V>, q: seq<Cell<K, V>>, pairs: seq<(K, V)>, home: int) {
    ghost predicate Ok()
      reads q
    {
      Chain(head, q, home) && Holds(q, pairs)
    }

    ghost function Tail(): List<K, V>
      requires q != [] && pairs != []
      reads q
    {
      List(q[0].next, q[1..], pairs[1..], home)
    }

    ghost function Cons(c: Cell<K, V>): List<K, V>
      reads c
    {
      List(c, [c] + q, [(c.key, c.data)] + pairs, home)
    }
  }

  lemma ListTail<K, V>(l: List<K, V>)
    requires l.Ok() && l.head != null
    ensures l.q != [] && l.pairs != [] && l.q[0] == l.head && l.pairs[0] == (l.q[0].key, l.q[0].data)
    ensures l.Tail().Ok() && l.q[0] !in l.Tail().q
  {
    ChainTail(l.q, l.home);
  }

  /** All the cells of the chunks. */
  ghost function CellsOf<K, V>(chunks: seq<seq<Cell<K, V>>>): set<Cell<K, V>> {
    if chunks == [] then {} else (set c | c in chunks[0]) + CellsOf(chunks[1..])
  }

  lemma MoreCells<K, V>(chunk: seq<Cell<K, V>>, chunks: seq<seq<Cell<K, V>>>)
    requires NoDup(chunk) && forall c :: c in chunk ==> c !in CellsOf(chunks)
    ensures CellsOf([chunk] + chunks) == (set c | c in chunk) + CellsOf(chunks)
    ensures |CellsOf([chunk] + chunks)| == |chunk| + |CellsOf(chunks)|
  {
    assert ([chunk] + chunks)[1..] == chunks;
    SetOfSeq(chunk);
  }

  /** The members of q are those of three lists, the first of which shares none with the others. */
  ghost predicate Parts<T>(q: seq<T>, todo: seq<T>, a: seq<T>, b: seq<T>) {
    && (forall c :: c in q ==> c in todo || c in a || c in b)
    && (forall c :: c in todo ==> c in q && c !in a && c !in b)
    && (forall c :: c in a ==> c in q) && (forall c :: c in b ==> c in q)
    && NoDup(todo)
  }

  lemma PartsHead<T>(q: seq<T>, todo: seq<T>, a: seq<T>, b: seq<T>)
    requires Parts(q, todo, a, b) && todo != []
    ensures todo[0] in q && todo[0] !in a && todo[0] !in b
  {
  }

  lemma PartsStep<T>(q: seq<T>, todo: seq<T>, a: seq<T>, b: seq<T>, a': seq<T>, b': seq<T>)
    requires Parts(q, todo, a, b) && todo != []
    requires (a' == [todo[0]] + a && b' == b) || (a' == a && b' == [todo[0]] + b)
    ensures Parts(q, todo[1..], a', b')
  {
    assert todo == [todo[0]] + todo[1..];
  }

  class HashTable<K(==, 0), V(==, 0)> {
    const raw: K -> nat            // table->hash before the masks are applied
    var split: nat
    var max: nat
    var mask1: nat
    var mask2: nat
    var kcount: int
    var bcount: nat
    const directory: Directory<K, V>
    var freeList: Cell?<K, V>
    var chunks: seq<seq<Cell<K, V>>>
    ghost var chains: seq<seq<Cell<K, V>>>
    ghost var free: seq<Cell<K, V>>
    ghost var cells: set<Cell<K, V>>
    ghost var table: L.Table<K, V>

    ghost predicate Header()
      reads this`split, this`max, this`mask1, this`mask2, this`kcount, this`bcount, this`table
    {
      && table.split == split && table.max == max && table.mask1 == mask1 && table.mask2 == mask2
      && table.kcount == kcount && table.bcount == bcount
      && L.Sized(table)
    }

    ghost predicate BucketOk(b: nat)
      reads this, directory, cells
    {
      && b < |chains| && |chains| == |directory.heads| == |table.buckets|
      && (forall c :: c in chains[b] ==> c in cells)
      && Chain(directory.heads[b], chains[b], b)
      && Holds(chains[b], table.buckets[b])
    }

    ghost predicate FreeOk()
      reads this, cells
    {
      && (forall c :: c in free ==> c in cells)
      && Chain(freeList, free, -1)
    }

    /** Every cell of the chunks is in a chain or on the free list; by its home, in only one of them. */
    ghost predicate Accounted()
      reads this, cells
    {
      && cells == CellsOf(chunks) && |cells| == HCHUNK * |chunks|
      && forall c :: c in cells ==> (c.home == -1 && c in free) || (0 <= c.home < |chains| && c in chains[c.home])
    }

    ghost predicate Shape()
      reads this, directory, directory.Repr
    {
      && directory.Valid() && this !in directory.Repr
      && |chains| == |directory.heads| == |table.buckets|
      && forall c :: c in cells ==> c !in directory.Repr
    }

    ghost predicate Valid()
      reads this, directory, directory.Repr, cells
    {
      && Header() && Shape() && FreeOk() && Accounted()
      && (forall b :: 0 <= b < |chains| ==> BucketOk(b))
    }

    /** All the objects the table is made of. */
    ghost function Footprint(): set<object>
      reads this, directory
    {
      {this, directory} + directory.Repr + cells
    }

    /** allocHashTable_. */
    constructor (raw: K -> nat)
      ensures Valid() && fresh(directory) && fresh(directory.Repr) && cells == {}
      ensures this.raw == raw && table == L.New()
    {
      hide L.New, L.Sized, L.And, L.IsPow2, Directory.Valid, BucketOk;
      this.raw := raw;
      split, max, mask1, mask2 := 0, L.HSEGSIZE, L.HSEGSIZE - 1, 2 * L.HSEGSIZE - 1;
      kcount, bcount, freeList, chunks := 0, L.HSEGSIZE, null, [];
      directory := new Directory();
      chains, free, cells, table := seq(L.HSEGSIZE, _ => []), [], {}, L.New();
      new;
      L.NewHeader<K, V>();
      EmptyBuckets();
    }

    lemma EmptyBuckets()
      requires |chains| == |directory.heads| == |table.buckets|
      requires forall b :: 0 <= b < |chains| ==> chains[b] == [] && table.buckets[b] == [] && directory.heads[b] == null
      ensures forall b :: 0 <= b < |chains| ==> BucketOk(b)
    {
    }

    /** hashWord, hashStr or hashLock. */
    method Hash(key: K) returns (bucket: nat)
      requires Header()
      ensures bucket == L.Bucket(table, raw(key)) && bucket < |table.buckets|
    {
      var h := raw(key);
      bucket := L.And(h, mask1);
      if bucket < split {
        bucket := L.And(h, mask2);
      }
      L.BucketInRange(table, h);
    }

    /** lookupHashTable. */
    method Lookup(key: K) returns (data: Option<V>)
      requires Valid()
      ensures data == L.Lookup(table, raw, key)
    {
      var bucket := Hash(key);
      assert BucketOk(bucket);
      ghost var chain, pairs := chains[bucket], table.buckets[bucket];
      var hl := directory.Get(bucket);
      ghost var i := 0;
      hide L.And, L.Sized, L.Bucket, Directory.Valid, Accounted, FreeOk;
      while hl != null
        invariant i <= |chain| && (hl == null <==> i == |chain|) && (hl != null ==> hl == chain[i])
        invariant L.Match(pairs, key) == L.Match(pairs[i..], key)
        decreases |chain| - i
      {
        assert pairs[i..][1..] == pairs[i + 1..];
        if hl.key == key {
          return Some(hl.data);
        }
        hl := hl.next;
        i := i + 1;
      }
      return None;
    }

    /** A bucket none of whose cells is written to stays as it was. */
    twostate lemma BucketKept(b: nat)
      requires old(BucketOk(b))
      requires b < |chains| && |chains| == |directory.heads| == |table.buckets|
      requires chains[b] == old(chains[b]) && table.buckets[b] == old(table.buckets[b])
      requires directory.heads[b] == old(directory.heads[b]) && old(cells) <= cells
      requires forall c :: c in old(cells) && old(c.home) == b ==> unchanged(c)
      ensures BucketOk(b)
    {
      var q := chains[b];
      forall i | 0 <= i < |q|
        ensures unchanged(q[i])
      {
        assert q[i] in q;
      }
    }

    /** So does a free list none of whose cells is written to. */
    twostate lemma FreeKept()
      requires old(FreeOk()) && free == old(free) && freeList == old(freeList) && old(cells) <= cells
      requires forall c :: c in old(free) ==> unchanged(c)
      ensures FreeOk()
    {
      forall i | 0 <= i < |free|
        ensures unchanged(free[i])
      {
        assert free[i] in old(free);
      }
    }

    // ----- cells -----

    /** Linking the cells of a new chunk behind its first one. */
    method LinkChunk(chunk: seq<Cell<K, V>>)
      requires |chunk| == HCHUNK && NoDup(chunk) && forall i :: 0 <= i < HCHUNK ==> chunk[i].home == -1
      modifies chunk
      ensures Chain(chunk[1], chunk[1..], -1) && chunk[0].home == -1
      ensures forall i :: 0 <= i < HCHUNK ==> chunk[i].home == -1
    {
      var p := 1;
      while p < HCHUNK - 1
        invariant 1 <= p <= HCHUNK - 1
        invariant forall i :: 1 <= i < p ==> chunk[i].next == chunk[i + 1]
        invariant forall i :: 0 <= i < HCHUNK ==> chunk[i].home == -1
      {
        chunk[p].next := chunk[p + 1];
        p := p + 1;
      }
      chunk[p].next := null;
    }

    method NewChunk() returns (chunk: seq<Cell<K, V>>)
      ensures |chunk| == HCHUNK && NoDup(chunk) && fresh(chunk)
      ensures forall i :: 0 <= i < HCHUNK ==> chunk[i].home == -1
    {
      chunk := [];
      while |chunk| < HCHUNK
        invariant |chunk| <= HCHUNK && NoDup(chunk) && fresh(chunk)
        invariant forall i :: 0 <= i < |chunk| ==> chunk[i].home == -1
      {
        var key: K, data: V := *, *;
        var c := new Cell(key, data);
        assert forall i :: 0 <= i < |chunk| ==> chunk[i] != c;
        chunk := chunk + [c];
      }
    }

    method LinkedChunk() returns (chunk: seq<Cell<K, V>>)
      ensures |chunk| == HCHUNK && NoDup(chunk) && fresh(chunk)
      ensures Chain(chunk[1], chunk[1..], -1) && chunk[0].home == -1
    {
      chunk := NewChunk();
      LinkChunk(chunk);
    }

    /** Accounted, but for hl, which is neither in a chain nor on the free list. */
    ghost predicate Loose(hl: Cell<K, V>)
      reads this, cells
    {
      && FreeOk() && hl in cells && hl.home == -1 && hl !in free
      && cells == CellsOf(chunks) && |cells| == HCHUNK * |chunks|
      && forall c :: c in cells ==>
           c == hl || (c.home == -1 && c in free) || (0 <= c.home < |chains| && c in chains[c.home])
    }

    lemma FirstOrLater(q: seq<Cell<K, V>>)
      requires q != []
      ensures forall c :: c in q <==> c == q[0] || c in q[1..]
    {
      assert q == [q[0]] + q[1..];
    }

    /** Where allocHashList leaves the cells: hl is taken, every other cell is where it was. */
    twostate predicate Taken(new hl: Cell<K, V>)
      reads this, cells
    {
      Loose(hl) && old(cells) <= cells && fresh(cells - old(cells))
    }

    method TakeFree() returns (hl: Cell<K, V>)
      requires FreeOk() && Accounted() && free != [] && freeList == free[0]
      modifies this`freeList, this`free
      ensures Taken(hl) && hl == old(free)[0]
    {
      hide FreeOk, Accounted, Taken;
      hl := freeList;
      freeList := hl.next;
      free := free[1..];
      FreeTaken(hl);
    }

    twostate lemma FreeTaken(hl: Cell<K, V>)
      requires old(FreeOk() && Accounted() && free != []) && hl == old(free[0])
      requires freeList == old(hl.next) && free == old(free)[1..] && unchanged(`cells) && unchanged(`chunks)
      requires unchanged(`chains)
      requires forall c :: c in old(cells) ==> unchanged(c)
      ensures Taken(hl)
    {
      TailFree(hl);
      hide Chain, CellsOf, NoDup;
      forall c | c in cells
        ensures c == hl || (c.home == -1 && c in free) || (0 <= c.home < |chains| && c in chains[c.home])
      {
        assert unchanged(c);
      }
    }

    twostate lemma TailFree(hl: Cell<K, V>)
      requires old(FreeOk() && free != []) && hl == old(free[0]) && forall c :: c in old(cells) ==> unchanged(c)
      ensures Chain(old(hl.next), old(free)[1..], -1) && hl !in old(free)[1..] && hl.home == -1 && hl in old(cells)
      ensures forall c :: c in old(free) <==> c == hl || c in old(free)[1..]
    {
      var q := old(free);
      forall i | 0 <= i < |q|
        ensures unchanged(q[i])
      {
        assert q[i] in q && q[i] in old(cells);
      }
      ChainTail(q, -1);
      FirstOrLater(q);
    }

    ghost predicate InChains(s: set<Cell<K, V>>)
      reads this`chains, s
    {
      forall c :: c in s ==> 0 <= c.home < |chains| && c in chains[c.home]
    }

    /** The chunk goes on the list of chunks, all of its cells but the first on the free list. */
    method AddChunk(chunk: seq<Cell<K, V>>)
      requires InChains(CellsOf(chunks)) && cells == CellsOf(chunks) && |cells| == HCHUNK * |chunks|
      requires |chunk| == HCHUNK && NoDup(chunk) && Chain(chunk[1], chunk[1..], -1) && chunk[0].home == -1
      requires forall c :: c in chunk ==> c !in cells
      modifies this`freeList, this`chunks, this`free, this`cells
      ensures Loose(chunk[0]) && chunks == [chunk] + old(chunks) && cells == (set c | c in chunk) + old(cells)
    {
      hide Loose, CellsOf, Chain, NoDup, InChains;
      ghost var older := chunks;
      chunks := [chunk] + chunks;
      freeList := chunk[1];
      free := chunk[1..];
      cells := (set c | c in chunk) + cells;
      NewIsLoose(chunk, older);
    }

    method TakeNew() returns (hl: Cell<K, V>)
      requires FreeOk() && Accounted() && free == []
      modifies this`freeList, this`chunks, this`free, this`cells
      ensures Taken(hl) && hl !in old(cells) && |chunks| == |old(chunks)| + 1
    {
      assert InChains(cells);
      hide Loose, CellsOf, Chain, NoDup, FreeOk, InChains;
      var chunk := LinkedChunk();
      AddChunk(chunk);
      hl := chunk[0];
    }

    lemma NewIsLoose(chunk: seq<Cell<K, V>>, older: seq<seq<Cell<K, V>>>)
      requires chunks == [chunk] + older && |chunk| == HCHUNK && NoDup(chunk) && chunk[0].home == -1
      requires free == chunk[1..] && freeList == chunk[1] && Chain(chunk[1], free, -1)
      requires cells == (set c | c in chunk) + CellsOf(older) && |CellsOf(older)| == HCHUNK * |older|
      requires (forall c :: c in chunk ==> c !in CellsOf(older)) && InChains(CellsOf(older))
      ensures Loose(chunk[0])
    {
      MoreCells(chunk, older);
      hide CellsOf;
      assert chunk == [chunk[0]] + free;
      assert forall c :: c in free ==> c in chunk && c.home == -1;
    }

    /** allocHashList: the head of the free list, or the first cell of a new chunk. */
    method AllocHashList() returns (hl: Cell<K, V>)
      requires FreeOk() && Accounted()
      modifies this`freeList, this`chunks, this`free, this`cells
      ensures Taken(hl)
      ensures if old(free) == [] then hl !in old(cells) else chunks == old(chunks) && hl == old(free)[0]
    {
      hide Taken, Accounted;
      if freeList != null {
        hl := TakeFree();
      } else {
        hl := TakeNew();
      }
    }

    // ----- insertion -----

    /** c has come in front of the chain of its home, with its pair in front of the pairs; nothing else has changed. */
    twostate predicate InFront(c: Cell<K, V>)
      requires 0 <= c.home < old(|chains|) == |chains| == |table.buckets| == |directory.heads|
      requires old(|directory.heads| == |chains| == |table.buckets|)
      reads this, directory, cells, c
    {
      var home: nat := c.home;
      && c.next == old(directory.heads)[home] && chains[home] == [c] + old(chains)[home]
      && directory.heads[home] == c && table.buckets[home] == [(c.key, c.data)] + old(table.buckets)[home]
      && (forall b :: 0 <= b < |chains| && b != home ==>
            chains[b] == old(chains[b])
            && directory.heads[b] == old(directory.heads[b]) && table.buckets[b] == old(table.buckets[b]))
      && unchanged(`cells) && unchanged(`free) && unchanged(`freeList) && unchanged(`chunks)
      && forall d :: d in cells && d != c ==> unchanged(d)
    }

    /** The rest of insertHashTable: fill the cell in and put it at the head of its chain. */
    method Fill(hl: Cell<K, V>, bucket: nat, key: K, data: V)
      requires Header() && Shape() && hl in cells && bucket == L.Bucket(table, raw(key)) && bucket < |chains|
      modifies this`chains, this`table, hl, directory.Repr
      ensures Header() && Shape() && directory.Repr == old(directory.Repr)
      ensures table == L.Prepend(old(table), raw, key, data)
      ensures hl.home == bucket < old(|chains|) == |chains| && InFront(hl)
    {
      hide L.Sized, Directory.Valid;
      hl.key := key;
      hl.data := data;
      hl.next := directory.Get(bucket);
      hl.home := bucket;
      directory.Set(bucket, hl);
      chains := chains[bucket := [hl] + chains[bucket]];
      table := L.Prepend(table, raw, key, data);
    }

    method Link(hl: Cell<K, V>, bucket: nat, key: K, data: V)
      requires Header() && Shape() && Loose(hl) && hl in cells && hl.home == -1
      requires forall b :: 0 <= b < |chains| ==> BucketOk(b)
      requires bucket == L.Bucket(table, raw(key)) && bucket < |chains|
      modifies this`chains, this`table, hl, directory.Repr
      ensures directory.Repr == old(directory.Repr)
      ensures Valid() && table == L.Prepend(old(table), raw, key, data)
    {
      hide CellsOf, Header, L.Prepend, Directory.Valid, BucketOk, FreeOk, Loose, Accounted, L.Bucket, InFront;
      Fill(hl, bucket, key, data);
      Linked(hl);
    }

    twostate lemma Linked(c: Cell<K, V>)
      requires old(|directory.heads| == |chains| == |table.buckets|)
      requires 0 <= c.home < old(|chains|) == |chains| == |table.buckets| == |directory.heads|
      requires InFront(c) && old(Loose(c)) && forall b :: 0 <= b < |chains| ==> old(BucketOk(b))
      ensures FreeOk() && Accounted() && forall b :: 0 <= b < |chains| ==> BucketOk(b)
    {
      var home: nat := c.home;
      assert old(c.home == -1);
      assert old(BucketOk(home));
      hide CellsOf, BucketOk, Accounted, FreeOk, Loose;
      LinkedCells(c);
      forall b | 0 <= b < |chains|
        ensures BucketOk(b)
      {
        if b != home {
          assert old(BucketOk(b));
          BucketKept(b);
        }
      }
    }

    twostate lemma LinkedCells(c: Cell<K, V>)
      requires old(|directory.heads| == |chains| == |table.buckets|)
      requires 0 <= c.home < old(|chains|) == |chains| == |table.buckets| == |directory.heads|
      requires InFront(c) && (var home: nat := c.home; old(BucketOk(home))) && old(Loose(c))
      ensures FreeOk() && Accounted() && BucketOk(c.home)
    {
      hide CellsOf;
      FreeKept();
      var home: nat := c.home;
      var q := old(chains)[home];
      assert Chain(c.next, q, home);
      ChainCons(c, q, home);
    }

    // ----- expansion -----

    /** A cell goes to the front of a list; two others are left alone. */
    method PushFront(c: Cell<K, V>, head: Cell?<K, V>, home: nat,
                     ghost to: List<K, V>, ghost rest: List<K, V>, ghost third: List<K, V>)
      requires to.Ok() && rest.Ok() && third.Ok() && to.head == head && to.home == home
      requires c !in to.q && c !in rest.q && c !in third.q
      modifies c`next, c`home
      ensures to.Cons(c).Ok() && rest.Ok() && third.Ok()
    {
      c.next := head;
      c.home := home;
      ChainCons(c, to.q, home);
      assert forall i :: 0 <= i < |rest.q| ==> rest.q[i] != c;
      assert forall i :: 0 <= i < |third.q| ==> third.q[i] != c;
    }

    /** One cell of the bucket being split: hl->next = new; new = hl, or the same with old. */
    method MoveCell(hl: Cell<K, V>, newbucket: nat, old': Cell?<K, V>, new': Cell?<K, V>, oldbucket: nat,
                    ghost stay: List<K, V>, ghost move: List<K, V>, ghost rest: List<K, V>)
      returns (old'': Cell?<K, V>, new'': Cell?<K, V>)
      requires Header() && hl !in stay.q && hl !in move.q && hl !in rest.q
      requires stay.Ok() && move.Ok() && rest.Ok() && stay.head == old' && move.head == new'
      requires stay.home == oldbucket && move.home == newbucket
      modifies hl`next, hl`home
      ensures rest.Ok()
      ensures if L.Bucket(table, raw(hl.key)) == newbucket
              then stay.Ok() && move.Cons(hl).Ok() && old'' == old' && new'' == hl
              else stay.Cons(hl).Ok() && move.Ok() && old'' == hl && new'' == new'
    {
      hide List.Ok, L.Bucket, Header;
      var bucket := Hash(hl.key);
      if bucket == newbucket {
        PushFront(hl, new', newbucket, move, stay, rest);
        old'', new'' := old', hl;
      } else {
        PushFront(hl, old', oldbucket, stay, move, rest);
        old'', new'' := hl, new';
      }
    }

    /** The loop of expand: each cell of a chain goes to the front of one of two new ones. */
    method SplitChain(oldbucket: nat, newbucket: nat, head: Cell?<K, V>, ghost l: List<K, V>, ghost g: L.Table<K, V>)
      returns (old': Cell?<K, V>, new': Cell?<K, V>, ghost stay: List<K, V>, ghost move: List<K, V>)
      requires Header() && l.Ok() && l.head == head && l.home == oldbucket
      requires g.split == table.split && g.mask1 == table.mask1 && g.mask2 == table.mask2
      modifies l.q
      ensures stay.Ok() && stay.head == old' && stay.home == oldbucket
      ensures move.Ok() && move.head == new' && move.home == newbucket
      ensures stay.pairs == L.Split(g, raw, l.pairs, newbucket, false)
      ensures move.pairs == L.Split(g, raw, l.pairs, newbucket, true)
      ensures Parts(l.q, [], stay.q, move.q)
    {
      old', new' := null, null;
      stay, move := List(null, [], [], oldbucket), List(null, [], [], newbucket);
      var hl := head;
      ghost var todo, seen := l, [];
      assert l.pairs == [] + todo.pairs;
      while hl != null
        invariant todo.Ok() && todo.head == hl && Parts(l.q, todo.q, stay.q, move.q)
        invariant stay.Ok() && stay.head == old' && stay.home == oldbucket
        invariant move.Ok() && move.head == new' && move.home == newbucket
        invariant L.Splitting(g, raw, newbucket, l.pairs, seen, todo.pairs, stay.pairs, move.pairs)
        decreases |todo.q|
      {
        ListTail(todo);
        hide List.Ok, L.Bucket, L.Splitting, Parts, Header;
        PartsHead(l.q, todo.q, stay.q, move.q);
        ghost var rest, x := todo.Tail(), todo.pairs[0];
        L.SameBucket(g, table, raw(hl.key));
        L.SplittingStep(g, raw, newbucket, l.pairs, seen, todo.pairs, stay.pairs, move.pairs);
        var next := hl.next;
        old', new' := MoveCell(hl, newbucket, old', new', oldbucket, stay, move, rest);
        ghost var stay0, move0 := stay, move;
        if L.Bucket(table, raw(hl.key)) == newbucket {
          move := move.Cons(hl);
        } else {
          stay := stay.Cons(hl);
        }
        PartsStep(l.q, todo.q, stay0.q, move0.q, stay.q, move.q);
        hl, todo, seen := next, rest, seen + [x];
      }
      assert seen == l.pairs;
    }

    /** The header in expand: one more bucket, and the masks shifted when split comes round. */
    method GrowHeader()
      requires Header() && split + max < L.HDIRSIZE * L.HSEGSIZE
      modifies this`split, this`max, this`mask1, this`mask2, this`bcount, this`table
      ensures Header() && table == L.Expand(old(table), raw)
    {
      L.ExpandSized(table, raw);
      hide L.Sized, L.Split, L.And;
      table := L.Expand(table, raw);
      split := split + 1;
      if split == max {
        split := 0;
        max := max * 2;
        mask1 := mask2;
        mask2 := 2 * mask2 + 1;
      }
      bcount := bcount + 1;
    }

    lemma BucketList(b: nat)
      requires BucketOk(b)
      ensures List(directory.heads[b], chains[b], table.buckets[b], b).Ok()
      ensures forall c :: c in chains[b] ==> c in cells && c.home == b
    {
    }

    lemma PartsWithin(q: seq<Cell<K, V>>, stay: seq<Cell<K, V>>, move: seq<Cell<K, V>>)
      requires Parts(q, [], stay, move)
      ensures (forall c :: c in stay ==> c in q) && (forall c :: c in move ==> c in q)
    {
    }

    /** The two new chains are hung into the directory. */
    method Relink(oldbucket: nat, newbucket: nat, old': Cell?<K, V>, new': Cell?<K, V>,
                  ghost stay: seq<Cell<K, V>>, ghost move: seq<Cell<K, V>>)
      requires directory.Valid() && this !in directory.Repr && forall c :: c in cells ==> c !in directory.Repr
      requires oldbucket < newbucket == |directory.heads| == |chains| < L.HSEGSIZE * L.HDIRSIZE
      modifies this`chains, directory.Repr
      ensures directory.Valid() && this !in directory.Repr
      ensures forall c :: c in cells ==> c !in directory.Repr && unchanged(c)
      ensures fresh(directory.Repr - old(directory.Repr))
      ensures |chains| == |directory.heads| == newbucket + 1
      ensures directory.heads[oldbucket] == old' && directory.heads[newbucket] == new'
      ensures chains[oldbucket] == stay && chains[newbucket] == move
      ensures forall b :: 0 <= b < newbucket && b != oldbucket ==>
                directory.heads[b] == old(directory.heads[b]) && chains[b] == old(chains[b])
    {
      hide Directory.Valid;
      directory.Set(oldbucket, old');
      directory.Extend(newbucket, new');
      chains := chains[oldbucket := stay] + [move];
    }

    /** expand up to the point where the chain is in two. */
    method SplitOff(oldbucket: nat, newbucket: nat) returns (old': Cell?<K, V>, new': Cell?<K, V>,
                                                             ghost stay: List<K, V>, ghost move: List<K, V>)
      requires Header() && directory.Valid() && |chains| == |directory.heads| == |table.buckets|
      requires split + max < L.HDIRSIZE * L.HSEGSIZE && oldbucket == split && newbucket == split + max
      requires oldbucket < |chains| == newbucket && BucketOk(oldbucket)
      modifies this`split, this`max, this`mask1, this`mask2, this`bcount, this`table, chains[oldbucket]
      ensures Header() && table == L.Expand(old(table), raw) && |table.buckets| == newbucket + 1
      ensures forall b :: 0 <= b < newbucket && b != oldbucket ==> table.buckets[b] == old(table.buckets[b])
      ensures stay.Ok() && stay.head == old' && stay.home == oldbucket && stay.pairs == table.buckets[oldbucket]
      ensures move.Ok() && move.head == new' && move.home == newbucket && move.pairs == table.buckets[newbucket]
      ensures Parts(chains[oldbucket], [], stay.q, move.q)
    {
      hide Chain, Holds, Parts, CellsOf, L.And, L.Split, L.Sized, L.IsPow2, L.Bucket, Directory.Valid;
      hide BucketOk, List.Ok;
      var hl := directory.Get(oldbucket);
      ghost var l, g := List(hl, chains[oldbucket], table.buckets[oldbucket], oldbucket), L.Grown(table);
      BucketList(oldbucket);
      GrowHeader();
      old', new', stay, move := SplitChain(oldbucket, newbucket, hl, l, g);
    }

    /** The chain of oldbucket has become those of oldbucket and of one more bucket; nothing else has changed. */
    twostate predicate InTwo(oldbucket: nat)
      requires oldbucket < old(|chains|) && |chains| == |directory.heads| == |table.buckets| == old(|chains|) + 1
      reads this, directory, cells, chains[oldbucket], chains[|chains| - 1]
    {
      && ListAt(oldbucket).Ok() && ListAt(old(|chains|)).Ok()
      && Parts(old(chains[oldbucket]), [], chains[oldbucket], chains[old(|chains|)])
      && (forall b :: 0 <= b < old(|chains|) && b != oldbucket ==> chains[b] == old(chains[b]))
      && unchanged(`cells) && unchanged(`free) && unchanged(`freeList) && unchanged(`chunks)
      && (forall c :: c in cells && old(c.home) != oldbucket ==> unchanged(c))
    }

    /** Nothing about the other buckets has changed. */
    twostate predicate OthersSame(oldbucket: nat)
      requires old(|directory.heads| == |table.buckets| == |chains|)
      requires old(|chains|) <= |directory.heads| == |table.buckets| == |chains|
      reads this, directory
    {
      forall b :: 0 <= b < old(|chains|) && b != oldbucket ==>
        directory.heads[b] == old(directory.heads[b]) && table.buckets[b] == old(table.buckets[b])
    }

    method SplitRelink(oldbucket: nat, newbucket: nat)
      requires Header() && Shape() && split + max < L.HDIRSIZE * L.HSEGSIZE
      requires oldbucket == split && newbucket == split + max && oldbucket < |chains| == newbucket
      requires BucketOk(oldbucket)
      modifies this`split, this`max, this`mask1, this`mask2, this`bcount, this`chains, this`table
      modifies directory.Repr, chains[oldbucket]
      ensures Header() && Shape() && table == L.Expand(old(table), raw) && fresh(directory.Repr - old(directory.Repr))
      ensures |chains| == newbucket + 1 && InTwo(oldbucket) && OthersSame(oldbucket)
    {
      hide Chain, Holds, Parts, CellsOf, L.Expand, Directory.Valid, BucketOk, List.Ok, Header;
      BucketList(oldbucket);
      var old', new', stay, move := SplitOff(oldbucket, newbucket);
      PartsWithin(chains[oldbucket], stay.q, move.q);
      Relink(oldbucket, newbucket, old', new', stay.q, move.q);
      assert stay == ListAt(oldbucket) && move == ListAt(newbucket);
    }

    method SplitBucket(oldbucket: nat, newbucket: nat)
      requires Valid() && split + max < L.HDIRSIZE * L.HSEGSIZE && oldbucket == split && newbucket == split + max
      modifies this`split, this`max, this`mask1, this`mask2, this`bcount, this`chains, this`table, directory.Repr, cells
      ensures Valid() && fresh(directory.Repr - old(directory.Repr)) && table == L.Expand(old(table), raw)
    {
      assert oldbucket < |chains| == newbucket && BucketOk(oldbucket);
      BucketList(oldbucket);
      hide Chain, Holds, Parts, CellsOf, L.Expand, Directory.Valid, BucketOk, FreeOk, Accounted, List.Ok, Header, InTwo;
      SplitRelink(oldbucket, newbucket);
      Expanded(oldbucket);
    }

    method Expand()
      requires Valid()
      modifies this`split, this`max, this`mask1, this`mask2, this`bcount, this`chains, this`table, directory.Repr, cells
      ensures Valid() && fresh(directory.Repr - old(directory.Repr)) && table == L.Expand(old(table), raw)
    {
      if split + max >= L.HDIRSIZE * L.HSEGSIZE {
        return;
      }
      SplitBucket(split, max + split);
    }

    ghost function ListAt(b: nat): List<K, V>
      requires b < |chains| == |directory.heads| == |table.buckets|
      reads this, directory
    {
      List(directory.heads[b], chains[b], table.buckets[b], b)
    }

    twostate lemma Expanded(oldbucket: nat)
      requires old(FreeOk() && Accounted()) && oldbucket < old(|chains|)
      requires forall b :: 0 <= b < old(|chains|) ==> old(BucketOk(b))
      requires old(|directory.heads| == |table.buckets| == |chains|)
      requires |directory.heads| == |table.buckets| == |chains| == old(|chains|) + 1
      requires InTwo(oldbucket) && OthersSame(oldbucket)
      ensures FreeOk() && Accounted() && forall b :: 0 <= b < |chains| ==> BucketOk(b)
    {
      hide CellsOf, BucketOk, Accounted, FreeOk, List.Ok;
      ExpandedCells(oldbucket);
      forall b | 0 <= b < |chains|
        ensures BucketOk(b)
      {
        if b != oldbucket && b != old(|chains|) {
          assert old(BucketOk(b));
          BucketKept(b);
        }
      }
    }

    twostate lemma ExpandedCells(oldbucket: nat)
      requires oldbucket < old(|chains|) && old(FreeOk() && Accounted() && BucketOk(oldbucket))
      requires |directory.heads| == |table.buckets| == |chains| == old(|chains|) + 1 && InTwo(oldbucket)
      ensures FreeOk() && Accounted() && BucketOk(oldbucket) && BucketOk(old(|chains|))
    {
      FreeKept();
      hide CellsOf, Holds, FreeOk;
      forall c | c in cells
        ensures (c.home == -1 && c in free) || (0 <= c.home < |chains| && c in chains[c.home])
      {
        if old(c.home) == oldbucket {
          assert c in chains[oldbucket] || c in chains[old(|chains|)];
        }
      }
    }

    /** Count the key; expand when the average load gets too high. */
    method Reserve()
      requires Valid()
      modifies this`split, this`max, this`mask1, this`mask2, this`kcount, this`bcount, this`chains, this`table
      modifies directory.Repr, cells
      ensures Valid() && fresh(directory.Repr - old(directory.Repr)) && table == L.Reserve(old(table), raw)
    {
      hide L.Expand, Directory.Valid, FreeOk, Accounted, L.Sized, BucketOk;
      kcount := kcount + 1;
      table := table.(kcount := kcount);
      CountKept();
      if kcount >= L.HLOAD * bcount {
        Expand();
      }
    }

    twostate lemma CountKept()
      requires old(Header() && FreeOk() && Accounted() && forall b :: 0 <= b < |chains| ==> BucketOk(b))
      requires unchanged(directory) && unchanged(`chains) && unchanged(`cells)
      requires (forall c :: c in cells ==> unchanged(c))
      requires unchanged(`free) && unchanged(`freeList) && unchanged(`chunks)
      requires table == old(table).(kcount := kcount)
      requires unchanged(`split) && unchanged(`max) && unchanged(`mask1) && unchanged(`mask2) && unchanged(`bcount)
      ensures Header() && FreeOk() && Accounted() && forall b :: 0 <= b < |chains| ==> BucketOk(b)
    {
      hide L.IsPow2, CellsOf;
      FreeKept();
      forall b | 0 <= b < |chains|
        ensures BucketOk(b)
      {
        assert old(BucketOk(b));
        BucketKept(b);
      }
    }

    /** The rest of insertHashTable. */
    method Place(key: K, data: V)
      requires Valid()
      modifies this`freeList, this`chunks, this`free, this`cells, this`chains, this`table, directory.Repr, cells
      ensures Valid() && table == L.Prepend(old(table), raw, key, data)
      ensures fresh(cells - old(cells)) && old(cells) <= cells && directory.Repr == old(directory.Repr)
    {
      var bucket := Hash(key);
      hide L.Prepend, L.Bucket, Directory.Valid, BucketOk, FreeOk, Accounted, Header, Shape, Loose;
      var hl := TakeCell();
      Link(hl, bucket, key, data);
    }

    /** A cell to fill in; everything stored stays as it is. */
    method TakeCell() returns (hl: Cell<K, V>)
      requires Valid()
      modifies this`freeList, this`chunks, this`free, this`cells
      ensures Header() && Shape() && Loose(hl) && hl in cells && hl.home == -1
      ensures forall b :: 0 <= b < |chains| ==> BucketOk(b)
      ensures fresh(cells - old(cells)) && old(cells) <= cells
    {
      hide Directory.Valid, BucketOk, FreeOk, Accounted, Header;
      hl := AllocHashList();
      TakenKeeps();
      LooseCell(hl);
    }

    lemma LooseCell(hl: Cell<K, V>)
      requires Loose(hl)
      ensures hl in cells && hl.home == -1
    {
    }

    twostate lemma TakenKeeps()
      requires old(Shape() && forall b :: 0 <= b < |chains| ==> BucketOk(b))
      requires unchanged(directory) && unchanged(directory.Repr) && unchanged(`chains) && unchanged(`table)
      requires old(cells) <= cells && fresh(cells - old(cells)) && (forall c :: c in old(cells) ==> unchanged(c))
      ensures Shape() && forall b :: 0 <= b < |chains| ==> BucketOk(b)
    {
      forall b | 0 <= b < |chains|
        ensures BucketOk(b)
      {
        assert old(BucketOk(b));
        BucketKept(b);
      }
    }

    /** insertHashTable. */
    method Insert(key: K, data: V)
      requires Valid()
      modifies this, directory.Repr, cells
      ensures Valid() && fresh(cells - old(cells)) && fresh(directory.Repr - old(directory.Repr))
      ensures table == L.Insert(old(table), raw, key, data)
      ensures old(L.WellFormed(table, raw)) ==> L.WellFormed(table, raw)
    {
      assert this !in directory.Repr;
      hide Valid, L.Prepend, L.Reserve, L.WellFormed, L.Bag;
      Reserve();
      Place(key, data);
      if old(L.WellFormed(table, raw)) {
        L.InsertRefines(old(table), raw, key, data);
      }
    }

    // ----- removal -----

    /** The cell at.0, which was the at.2-th of its chain and came after at.1, is now the first of the free list;
        nothing else has changed. */
    twostate predicate CutOut(at: (Cell<K, V>, Cell?<K, V>, nat))
      requires old(|directory.heads| == |chains| == |table.buckets|) && 0 <= old(at.0.home) < old(|chains|)
      requires |directory.heads| == |chains| == |table.buckets| == old(|chains|)
      requires at.2 < |old(chains)[old(at.0.home)]| == |old(table.buckets)[old(at.0.home)]|
      reads this, directory, cells, at.0, at.1
    {
      var c, prev, i, home := at.0, at.1, at.2, old(at.0.home);
      && old(chains)[home][i] == c && chains[home] == L.Removed(old(chains)[home], i)
      && table.buckets[home] == L.Removed(old(table.buckets)[home], i)
      && directory.heads[home] == (if prev == null then old(c.next) else old(directory.heads)[home])
      && (if i == 0 then prev == null else prev == old(chains)[home][i - 1])
      && (prev != null ==>
           prev.next == old(c.next) && unchanged(prev`key) && unchanged(prev`data) && unchanged(prev`home))
      && c.home == -1 && c.next == old(freeList) && freeList == c && free == [c] + old(free)
      && (forall b :: 0 <= b < |chains| && b != home ==>
            chains[b] == old(chains[b])
            && directory.heads[b] == old(directory.heads[b]) && table.buckets[b] == old(table.buckets[b]))
      && unchanged(`cells) && unchanged(`chunks)
      && forall d :: d in cells && d != c && d != prev ==> unchanged(d)
    }

    /** freeHashList. */
    method FreeHashList(hl: Cell<K, V>)
      modifies this`freeList, this`free, hl`next, hl`home
      ensures hl.next == old(freeList) && hl.home == -1 && freeList == hl && free == [hl] + old(free)
    {
      hl.next := freeList;
      hl.home := -1;
      freeList := hl;
      free := [hl] + free;
    }

    method Unlink(bucket: nat, prev: Cell?<K, V>, hl: Cell<K, V>, ghost i: nat)
      requires Header() && Shape() && bucket < |chains| && hl in cells && hl.home == bucket && prev != hl
      requires i < |chains[bucket]| == |table.buckets[bucket]| && hl == chains[bucket][i]
      requires (prev != null ==> prev in cells)
      requires (i == 0 <==> prev == null) && (i > 0 ==> prev == chains[bucket][i - 1])
      modifies this`kcount, this`freeList, this`free, this`chains, this`table, directory.Repr
      modifies hl`next, hl`home, if prev == null then {} else {prev}
      ensures Header() && Shape() && directory.Repr == old(directory.Repr)
      ensures table == old(table).(kcount := old(table).kcount - 1,
                                   buckets := old(table).buckets[bucket := L.Removed(old(table).buckets[bucket], i)])
      ensures |chains| == old(|chains|) && old(hl.home) == bucket && CutOut((hl, prev, i)) && hl.data == old(hl.data)
    {
      hide L.IsPow2, Directory.Valid;
      if prev == null {
        directory.Set(bucket, hl.next);
      } else {
        prev.next := hl.next;
      }
      FreeHashList(hl);
      kcount := kcount - 1;
      chains := chains[bucket := L.Removed(chains[bucket], i)];
      table := table.(kcount := kcount, buckets := table.buckets[bucket := L.Removed(table.buckets[bucket], i)]);
    }

    /** Taking the first cell out of a chain. */
    twostate lemma ChainCutHead(q: seq<Cell<K, V>>)
      requires q != [] && old(Chain(q[0], q, q[0].home))
      requires forall j :: 1 <= j < |q| ==> unchanged(q[j])
      ensures Chain(old(q[0].next), q[1..], old(q[0].home))
    {
      assert |q| > 1 ==> old(q[0].next) == q[1];
    }

    /** Taking out the cell after the at.1-th. */
    twostate lemma ChainCutAfter(at: (seq<Cell<K, V>>, nat))
      requires at.1 + 1 < |at.0| && old(Chain(at.0[0], at.0, at.0[0].home))
      requires at.0[at.1].next == old(at.0[at.1 + 1].next) && at.0[at.1].home == old(at.0[at.1].home)
      requires forall j :: 0 <= j < |at.0| && j != at.1 && j != at.1 + 1 ==> unchanged(at.0[j])
      ensures Chain(at.0[0], L.Removed(at.0, at.1 + 1), old(at.0[0].home))
    {
      var q, i := at.0, at.1;
      var r := L.Removed(q, i + 1);
      assert forall j :: 0 <= j <= i ==> r[j] == q[j];
      assert forall j :: i < j < |r| ==> r[j] == q[j + 1];
    }

    twostate lemma CutBucket(at: (Cell<K, V>, Cell?<K, V>, nat))
      requires old(|directory.heads| == |chains| == |table.buckets|) && 0 <= old(at.0.home) < old(|chains|)
      requires |directory.heads| == |chains| == |table.buckets| == old(|chains|)
      requires at.2 < |old(chains)[old(at.0.home)]| == |old(table.buckets)[old(at.0.home)]|
      requires CutOut(at) && old(BucketOk(at.0.home))
      ensures BucketOk(old(at.0.home))
    {
      var i, home := at.2, old(at.0.home);
      var q := old(chains)[home];
      hide Shape, Holds;
      forall j | 0 <= j < |q| && j != i && j + 1 != i
        ensures unchanged(q[j])
      {
        assert q[j] in q && q[j] in cells && q[j] != at.0;
        assert i > 0 ==> q[j] != q[i - 1];
      }
      if i == 0 {
        ChainCutHead(q);
        assert L.Removed(q, 0) == q[1..];
      } else {
        ChainCutAfter((q, i - 1));
      }
      hide Chain;
      CutHolds(at);
    }

    twostate lemma CutHolds(at: (Cell<K, V>, Cell?<K, V>, nat))
      requires old(|directory.heads| == |chains| == |table.buckets|) && 0 <= old(at.0.home) < old(|chains|)
      requires |directory.heads| == |chains| == |table.buckets| == old(|chains|)
      requires at.2 < |old(chains)[old(at.0.home)]| == |old(table.buckets)[old(at.0.home)]|
      requires CutOut(at) && old(BucketOk(at.0.home))
      ensures Holds(chains[old(at.0.home)], table.buckets[old(at.0.home)])
      ensures forall c :: c in chains[old(at.0.home)] ==> c in cells
    {
      var i, home := at.2, old(at.0.home);
      var q, r := old(chains)[home], chains[home];
      forall j | 0 <= j < |r|
        ensures (r[j].key, r[j].data) == table.buckets[home][j] && r[j] in q
      {
        var k := if j < i then j else j + 1;
        assert r[j] == q[k] && q[k] in q && q[k] in cells && q[k] != q[i];
      }
    }

    twostate lemma CutFree(at: (Cell<K, V>, Cell?<K, V>, nat))
      requires old(|directory.heads| == |chains| == |table.buckets|) && 0 <= old(at.0.home) < old(|chains|)
      requires |directory.heads| == |chains| == |table.buckets| == old(|chains|)
      requires at.2 < |old(chains)[old(at.0.home)]| == |old(table.buckets)[old(at.0.home)]|
      requires CutOut(at) && old(FreeOk() && BucketOk(at.0.home))
      ensures FreeOk()
    {
      hide Holds;
      assert forall d :: d in old(free) ==> d != at.0 && d != at.1 && unchanged(d) by {
        assert old(at.0.home) >= 0;
        assert at.1 != null ==> old(at.1.home) >= 0;
        assert forall d :: d in old(free) ==> old(d.home) == -1 && d in cells;
      }
      var f := old(free);
      forall i | 0 <= i < |f|
        ensures unchanged(f[i])
      {
        assert f[i] in f;
      }
      ChainCons(at.0, f, -1);
    }

    twostate lemma CutAccounted(at: (Cell<K, V>, Cell?<K, V>, nat))
      requires old(|directory.heads| == |chains| == |table.buckets|) && 0 <= old(at.0.home) < old(|chains|)
      requires |directory.heads| == |chains| == |table.buckets| == old(|chains|)
      requires at.2 < |old(chains)[old(at.0.home)]| == |old(table.buckets)[old(at.0.home)]|
      requires CutOut(at) && old(Accounted())
      ensures Accounted()
    {
      hide CellsOf;
    }

    twostate lemma CutCells(at: (Cell<K, V>, Cell?<K, V>, nat))
      requires old(|directory.heads| == |chains| == |table.buckets|) && 0 <= old(at.0.home) < old(|chains|)
      requires |directory.heads| == |chains| == |table.buckets| == old(|chains|)
      requires at.2 < |old(chains)[old(at.0.home)]| == |old(table.buckets)[old(at.0.home)]|
      requires CutOut(at) && old(FreeOk() && Accounted()) && forall b :: 0 <= b < |chains| ==> old(BucketOk(b))
      ensures FreeOk() && Accounted() && forall b :: 0 <= b < |chains| ==> BucketOk(b)
    {
      var home: nat := old(at.0.home);
      assert old(BucketOk(home));
      CutBucket(at);
      CutFree(at);
      CutAccounted(at);
      hide BucketOk, FreeOk, Accounted;
      forall b | 0 <= b < |chains|
        ensures BucketOk(b)
      {
        if b != home {
          assert old(BucketOk(b));
          BucketKept(b);
        }
      }
    }

    /** The loop of removeHashTable: the first cell that matches, and the one before it. */
    method FindCell(bucket: nat, key: K, d: Option<V>, ghost l: List<K, V>)
      returns (hl: Cell?<K, V>, prev: Cell?<K, V>, ghost i: nat)
      requires directory.Valid() && bucket < |directory.heads| && l.Ok() && l.head == directory.heads[bucket]
      ensures i == L.Find(l.pairs, key, d) && i <= |l.q| == |l.pairs|
      ensures if i == |l.q| then hl == null else hl == l.q[i]
      ensures if i == 0 then prev == null else prev == l.q[i - 1]
    {
      hl := directory.Get(bucket);
      prev := null;
      i := 0;
      assert l.pairs[0..] == l.pairs;
      hide Directory.Valid;
      while hl != null
        invariant i <= |l.q| && (if i == |l.q| then hl == null else hl == l.q[i])
        invariant if i == 0 then prev == null else prev == l.q[i - 1]
        invariant L.Find(l.pairs, key, d) == i + L.Find(l.pairs[i..], key, d)
        decreases |l.q| - i
      {
        assert l.pairs[i..][1..] == l.pairs[i + 1..];
        if hl.key == key && (d == None || hl.data == d.value) {
          return;
        }
        prev := hl;
        hl := hl.next;
        i := i + 1;
      }
    }

    method Locate(key: K, d: Option<V>) returns (bucket: nat, hl: Cell?<K, V>, prev: Cell?<K, V>, ghost i: nat)
      requires Valid()
      ensures L.Sized(table) && bucket == L.Bucket(table, raw(key)) && bucket < |chains| == |table.buckets|
      ensures |chains[bucket]| == |table.buckets[bucket]|
      ensures i == L.Find(table.buckets[bucket], key, d) <= |chains[bucket]|
      ensures if i == |chains[bucket]| then hl == null
              else hl == chains[bucket][i] && (hl.key, hl.data) == table.buckets[bucket][i]
      ensures if i == 0 then prev == null else prev == chains[bucket][i - 1]
    {
      bucket := Hash(key);
      assert BucketOk(bucket);
      BucketList(bucket);
      hide L.Bucket, Directory.Valid, Accounted, FreeOk, BucketOk, L.Find, Chain;
      ghost var l := ListAt(bucket);
      hl, prev, i := FindCell(bucket, key, d, l);
    }

    /** removeHashTable. */
    method Remove(key: K, d: Option<V>) returns (data: Option<V>)
      requires Valid()
      modifies this, directory.Repr, cells
      ensures Valid() && cells == old(cells) && directory.Repr == old(directory.Repr)
      ensures (table, data) == L.Remove(old(table), raw, key, d)
      ensures old(L.WellFormed(table, raw)) ==> L.WellFormed(table, raw)
    {
      hide Valid, L.Sized, L.Bucket, L.Find, L.Remove, L.Removed, L.WellFormed, L.Bag;
      var bucket, hl, prev, i := Locate(key, d);
      if L.WellFormed(table, raw) {
        L.RemoveRefines(table, raw, key, d);
      }
      L.RemoveIs(table, raw, key, d, bucket, i);
      if hl == null {
        return None;
      }
      RemoveCell(bucket, prev, hl, i);
      return Some(hl.data);
    }

    method RemoveCell(bucket: nat, prev: Cell?<K, V>, hl: Cell<K, V>, ghost i: nat)
      requires Valid() && bucket < |chains| && i < |chains[bucket]| && hl == chains[bucket][i]
      requires |table.buckets[bucket]| == |chains[bucket]|
      requires (i == 0 <==> prev == null) && (i > 0 ==> prev == chains[bucket][i - 1])
      modifies this, directory.Repr, cells
      ensures Valid() && cells == old(cells) && directory.Repr == old(directory.Repr) && hl.data == old(hl.data)
      ensures table == old(table).(kcount := old(table).kcount - 1,
                                   buckets := old(table).buckets[bucket := L.Removed(old(table).buckets[bucket], i)])
    {
      assert BucketOk(bucket);
      BucketList(bucket);
      assert prev != null ==> prev in chains[bucket];
      hide Chain, Holds, CutOut, Accounted, FreeOk, Header, Directory.Valid, BucketOk;
      Unlink(bucket, prev, hl, i);
      CutCells((hl, prev, i));
    }

    // ----- teardown -----

    /** The inner loop of freeHashTable: freeDataFun is called on the data of each cell of a chain, in order. */
    method FreeChain(bucket: nat) returns (freed: seq<V>)
      requires directory.Valid() && bucket < |chains| == |directory.heads| == |table.buckets| && BucketOk(bucket)
      ensures |freed| == |table.buckets[bucket]|
      ensures forall i :: 0 <= i < |freed| ==> freed[i] == table.buckets[bucket][i].1
    {
      BucketList(bucket);
      ghost var l := ListAt(bucket);
      var hl := directory.Get(bucket);
      freed := [];
      hide Directory.Valid;
      while hl != null
        invariant |freed| <= |l.q| && (if |freed| == |l.q| then hl == null else hl == l.q[|freed|])
        invariant forall i :: 0 <= i < |freed| ==> freed[i] == l.pairs[i].1
        decreases |l.q| - |freed|
      {
        var next := hl.next;
        freed := freed + [hl.data];
        hl := next;
      }
    }

    /** Data and ghost pairs grow together. */
    ghost predicate Seconds(freed: seq<V>, pairs: seq<(K, V)>) {
      |freed| == |pairs| && forall i :: 0 <= i < |freed| ==> freed[i] == pairs[i].1
    }

    /** The middle loop: from bucket index of a segment down to its first. */
    method FreeSegment(segment: nat, top: nat, ghost done: seq<(K, V)>)
      returns (freed: seq<V>, ghost pairs: seq<(K, V)>)
      requires Shape() && (forall b :: 0 <= b < |chains| ==> BucketOk(b))
      requires top < L.HSEGSIZE && segment * L.HSEGSIZE + top < |table.buckets|
      requires multiset(done) == L.BagOf(table.buckets[segment * L.HSEGSIZE + top + 1..])
      ensures Seconds(freed, pairs) && multiset(done + pairs) == L.BagOf(table.buckets[segment * L.HSEGSIZE..])
    {
      freed, pairs := [], [];
      var index: int := top;
      hide L.BagOf, Directory.Valid, BucketOk;
      assert done + [] == done;
      while index >= 0
        invariant -1 <= index <= top && Seconds(freed, pairs)
        invariant multiset(done + pairs) == L.BagOf(table.buckets[segment * L.HSEGSIZE + index + 1..])
      {
        var bucket := segment * L.HSEGSIZE + index;
        assert BucketOk(bucket);
        var some := FreeChain(bucket);
        L.BagFrom(table.buckets, bucket);
        assert (done + pairs) + table.buckets[bucket] == done + (pairs + table.buckets[bucket]);
        freed, pairs := freed + some, pairs + table.buckets[bucket];
        index := index - 1;
      }
    }

    /** The list of chunks is freed from its head. */
    method FreeChunks() returns (freed: seq<seq<Cell<K, V>>>)
      ensures freed == chunks
    {
      freed := [];
      while |freed| < |chunks|
        invariant |freed| <= |chunks| && freed == chunks[..|freed|]
      {
        freed := freed + [chunks[|freed|]];
      }
    }

    /** The outer loop: the last bucket is number index of segment top, and the other segments are full. */
    method FreeSegments(top: nat, last: nat) returns (freed: seq<V>, ghost pairs: seq<(K, V)>, segments: seq<int>)
      requires Shape() && (forall b :: 0 <= b < |chains| ==> BucketOk(b))
      requires last < L.HSEGSIZE && top * L.HSEGSIZE + last + 1 == |table.buckets|
      ensures multiset(pairs) == L.BagOf(table.buckets) && Seconds(freed, pairs)
      ensures |segments| == top + 1 && forall i :: 0 <= i < |segments| ==> segments[i] == top - i
    {
      var segment, index: int := top, last;
      freed, pairs, segments := [], [], [];
      assert table.buckets[top * L.HSEGSIZE + last + 1..] == [];
      assert multiset(pairs) == L.BagOf([]);
      assert table.buckets[0..] == table.buckets;
      hide *;
      while segment >= 0
        invariant -1 <= segment <= top && |segments| == top - segment && Seconds(freed, pairs)
        invariant forall i :: 0 <= i < |segments| ==> segments[i] == top - i
        invariant 0 <= index < L.HSEGSIZE && segment * L.HSEGSIZE + index < |table.buckets|
        invariant segment == -1 ==> index == L.HSEGSIZE - 1
        invariant multiset(pairs) == L.BagOf(table.buckets[segment * L.HSEGSIZE + index + 1..])
      {
        var some, theirs := FreeSegment(segment, index, pairs);
        SecondsAppend(freed, pairs, some, theirs);
        freed, pairs := freed + some, pairs + theirs;
        segments := segments + [segment];
        segment := segment - 1;
        index := L.HSEGSIZE - 1;
      }
    }

    lemma SecondsAppend(freed: seq<V>, pairs: seq<(K, V)>, some: seq<V>, theirs: seq<(K, V)>)
      requires Seconds(freed, pairs) && Seconds(some, theirs)
      ensures Seconds(freed + some, pairs + theirs)
    {
    }

    /** freeHashTable: each datum once, each segment once from the last to the first, and each chunk once. */
    method Free()
      returns (freed: seq<V>, ghost pairs: seq<(K, V)>, segments: seq<int>, freedChunks: seq<seq<Cell<K, V>>>)
      requires Valid()
      ensures multiset(pairs) == L.Bag(table) && Seconds(freed, pairs)
      ensures |segments| == (bcount - 1) / L.HSEGSIZE + 1
      ensures forall i :: 0 <= i < |segments| ==> segments[i] == |segments| - 1 - i
      ensures freedChunks == chunks
    {
      hide L.BagOf, Directory.Valid, BucketOk, Accounted, FreeOk, Seconds;
      var last := max + split - 1;
      freed, pairs, segments := FreeSegments(last / L.HSEGSIZE, last % L.HSEGSIZE);
      freedChunks := FreeChunks();
    }

    // ----- conservation -----

    ghost function HomeBelow(n: int): set<Cell<K, V>>
      reads this, cells
    {
      set c | c in cells && -1 <= c.home < n
    }

    lemma FreeHomes()
      requires FreeOk() && Accounted()
      ensures NoDup(free) && (set c | c in free) == HomeBelow(0)
    {
      hide CellsOf;
      assert forall c :: c in free ==> c.home == -1;
    }

    lemma ChainHomes(b: nat)
      requires Accounted() && BucketOk(b)
      ensures NoDup(chains[b]) && HomeBelow(b + 1) == HomeBelow(b) + (set c | c in chains[b])
      ensures HomeBelow(b) !! (set c | c in chains[b])
    {
      hide CellsOf;
      assert forall c :: c in chains[b] ==> c.home == b;
    }

    lemma SameLength(b: nat)
      requires BucketOk(b)
      ensures |chains[b]| == |table.buckets[b]|
    {
    }

    lemma {:induction false} CountHomes(n: nat)
      requires FreeOk() && Accounted() && n <= |chains| == |table.buckets|
      requires forall b :: 0 <= b < |chains| ==> BucketOk(b)
      ensures |HomeBelow(n)| == |free| + L.Stored(table.buckets, n)
    {
      hide BucketOk, FreeOk, Accounted, HomeBelow, Chain, Holds;
      if n == 0 {
        FreeHomes();
        SetOfSeq(free);
      } else {
        CountHomes(n - 1);
        assert BucketOk(n - 1);
        SameLength(n - 1);
        ChainHomes(n - 1);
        SetOfSeq(chains[n - 1]);
      }
    }

    /** The cells of the chunks are those of the chains, one for each key, and those of the free list. */
    lemma Conserved()
      requires Valid() && L.WellFormed(table, raw)
      ensures |cells| == HCHUNK * |chunks| == kcount + |free|
    {
      CountHomes(|chains|);
      L.BagSize(table.buckets, |chains|);
      assert table.buckets[..|chains|] == table.buckets;
      hide CellsOf, BucketOk, FreeOk, Chain, L.BagOf, Directory.Valid;
      assert HomeBelow(|chains|) == cells;
    }
  }
}
