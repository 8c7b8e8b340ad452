/**
 Reader and writer locks on files, after kernel/rts/FileLock.c: one hash table from files to locks and
 one from file descriptors to locks.
 */
module FileLock {
  import opened Base
  import L = LinearHash
  import opened Hash

  type Word = w: nat | w < 0x1_0000_0000_0000_0000

  datatype Key = Key(device: Word, inode: Word)

  class Lock {
    const key: Key
    var readers: int                   // > 0: readers, < 0: a writer

    constructor (key: Key, readers: int)
      ensures this.key == key && this.readers == readers
    {
      this.key, this.readers := key, readers;
    }

    /** One writer, or as many readers as the count says, held through the given descriptors. */
    ghost predicate Counted(held: multiset<int>)
      reads this
    {
      (readers == -1 && |held| == 1) || readers == |held| > 0
    }

    /** One holder less: the count comes to 0 exactly with the last. */
    method Decrement(ghost held: multiset<int>, ghost fd: int)
      requires Counted(held) && fd in held
      modifies this
      ensures readers == 0 <==> held - multiset{fd} == multiset{}
      ensures held - multiset{fd} != multiset{} ==> Counted(held - multiset{fd})
    {
      assert |held - multiset{fd}| == |held| - 1;
      if readers < 0 {
        readers := readers + 1;
      } else {
        readers := readers - 1;
      }
    }
  }

  /** The C operator ^ on non-negative words. */
  function Xor(a: nat, b: nat): nat
    decreases a + b
  {
    if a == 0 then b else if b == 0 then a else (a + b) % 2 + 2 * Xor(a / 2, b / 2)
  }

  /** hashLock, up to the masks. */
  function HashLock(k: Key): nat {
    Xor(Xor(Xor(k.inode, k.inode / 0x1_0000_0000), k.device), k.device / 0x1_0000_0000) / 8
  }

  /** hashWord of a descriptor converted to a word, up to the masks. */
  function HashFd(fd: int): nat {
    (fd % 0x1_0000_0000_0000_0000) / 8
  }

  // ----- the tables as bags -----

  ghost predicate Good<K(0), V(0)>(t: HashTable<K, V>)
    reads t, t.directory, t.directory.Repr, t.cells
  {
    t.Valid() && L.WellFormed(t.table, t.raw)
  }

  ghost function Pairs<K(0), V(0)>(t: HashTable<K, V>): multiset<(K, V)>
    reads t
  {
    L.Bag(t.table)
  }

  method Insert<K(==, 0), V(==, 0)>(t: HashTable<K, V>, k: K, v: V)
    requires Good(t)
    modifies t.Footprint()
    ensures Good(t) && fresh(t.Footprint() - old(t.Footprint())) && Pairs(t) == old(Pairs(t)) + multiset{(k, v)}
  {
    L.InsertRefines(t.table, t.raw, k, v);
    hide L.WellFormed, L.Insert, L.Bag, HashTable.Valid;
    t.Insert(k, v);
  }

  method Lookup<K(==, 0), V(==, 0)>(t: HashTable<K, V>, k: K) returns (r: Option<V>)
    requires Good(t)
    ensures r.Some? ==> (k, r.value) in Pairs(t)
    ensures r.None? ==> forall x :: x in Pairs(t) ==> x.0 != k
    ensures r == L.Lookup(t.table, t.raw, k)
  {
    L.LookupRefines(t.table, t.raw, k);
    L.LookupNone(t.table, t.raw, k);
    hide L.WellFormed, L.Lookup, L.Bag, HashTable.Valid;
    r := t.Lookup(k);
  }

  method Remove<K(==, 0), V(==, 0)>(t: HashTable<K, V>, k: K)
    requires Good(t)
    modifies t.Footprint()
    ensures Good(t) && t.Footprint() == old(t.Footprint())
    ensures match old(L.Lookup(t.table, t.raw, k))
            case None => Pairs(t) == old(Pairs(t))
            case Some(v) => Pairs(t) == old(Pairs(t)) - multiset{(k, v)}
  {
    L.RemoveRefines(t.table, t.raw, k, None);
    hide L.WellFormed, L.Remove, L.Lookup, L.Bag, HashTable.Valid;
    var _ := t.Remove(k, None);
  }

  // ----- the two tables together -----

  /** Each lock is stored once, under its own key. */
  ghost predicate Stored(objs: multiset<(Key, Lock?)>, locks: map<Key, Lock>) {
    && (forall x :: x in objs ==> x.0 in locks && x.1 == locks[x.0] && objs[x] == 1)
    && (forall k :: k in locks ==> (k, locks[k]) in objs && locks[k].key == k)
  }

  /** It is stored under the descriptors it is held through, as often as it is held. */
  ghost predicate Held(fds: multiset<(int, Lock?)>, locks: map<Key, Lock>, holders: map<Key, multiset<int>>) {
    && locks.Keys == holders.Keys
    && (forall x :: x in fds ==> x.1 != null && x.1.key in locks && locks[x.1.key] == x.1)
    && (forall k :: k in locks ==> Through(fds, locks[k], holders[k]))
  }

  /** l is stored under exactly the descriptors in held. */
  ghost predicate Through(fds: multiset<(int, Lock?)>, l: Lock?, held: multiset<int>) {
    forall fd: int :: fds[(fd, l)] == held[fd]
  }

  lemma ThroughMore(fds: multiset<(int, Lock?)>, l: Lock?, held: multiset<int>, l': Lock?, fd: int)
    requires Through(fds, l, held)
    ensures Through(fds + multiset{(fd, l')}, l, if l == l' then held + multiset{fd} else held)
  {
    forall d: int
      ensures (fds + multiset{(fd, l')})[(d, l)] == (if l == l' then held + multiset{fd} else held)[d]
    {
      assert fds[(d, l)] == held[d];
    }
  }

  lemma ThroughLess(fds: multiset<(int, Lock?)>, l: Lock?, held: multiset<int>, l': Lock?, fd: int)
    requires Through(fds, l, held)
    ensures Through(fds - multiset{(fd, l')}, l, if l == l' then held - multiset{fd} else held)
  {
    forall d: int
      ensures (fds - multiset{(fd, l')})[(d, l)] == (if l == l' then held - multiset{fd} else held)[d]
    {
      assert fds[(d, l)] == held[d];
    }
  }

  lemma ThroughAt(fds: multiset<(int, Lock?)>, l: Lock?, held: multiset<int>, fd: int)
    requires Through(fds, l, held)
    ensures fds[(fd, l)] == held[fd]
  {
  }

  lemma ThroughNone(fds: multiset<(int, Lock?)>, l: Lock?, held: multiset<int>)
    requires held == multiset{}
    ensures Through(fds, l, held) <==> forall x :: x in fds ==> x.1 != l
  {
    if Through(fds, l, held) {
      forall x | x in fds
        ensures x.1 != l
      {
        ThroughAt(fds, l, held, x.0);
      }
    } else {
      var fd: int :| fds[(fd, l)] != held[fd];
      assert (fd, l) in fds;
    }
  }

  ghost predicate Counts(locks: map<Key, Lock>, holders: map<Key, multiset<int>>)
    reads locks.Values
  {
    locks.Keys == holders.Keys && forall k :: k in locks ==> locks[k].Counted(holders[k])
  }

  lemma StoredNew(objs: multiset<(Key, Lock?)>, locks: map<Key, Lock>, l: Lock)
    requires Stored(objs, locks) && l.key !in locks
    ensures Stored(objs + multiset{(l.key, l)}, locks[l.key := l])
  {
    assert (l.key, l) !in objs;
  }

  lemma StoredGone(objs: multiset<(Key, Lock?)>, locks: map<Key, Lock>, key: Key)
    requires Stored(objs, locks) && key in locks
    ensures Stored(objs - multiset{(key, locks[key])}, locks - {key})
  {
    assert (key, locks[key]) in objs && objs[(key, locks[key])] == 1;
  }

  /** The lock of a file may be new. */
  lemma HeldMore(fds: multiset<(int, Lock?)>, locks: map<Key, Lock>, holders: map<Key, multiset<int>>, l: Lock, fd: int)
    requires Held(fds, locks, holders) && (forall k :: k in locks ==> locks[k].key == k)
    requires l.key in locks ==> locks[l.key] == l
    ensures var held := if l.key in holders then holders[l.key] else multiset{};
            Held(fds + multiset{(fd, l)}, locks[l.key := l], holders[l.key := held + multiset{fd}])
  {
    if l.key !in locks {
      ThroughNone(fds, l, multiset{});
    }
    hide Through;
    var held := if l.key in holders then holders[l.key] else multiset{};
    var locks', holders' := locks[l.key := l], holders[l.key := held + multiset{fd}];
    var fds' := fds + multiset{(fd, l)};
    forall k | k in locks'
      ensures Through(fds', locks'[k], holders'[k])
    {
      ThroughMore(fds, locks'[k], if k in holders then holders[k] else multiset{}, l, fd);
    }
  }

  lemma HeldLess(fds: multiset<(int, Lock?)>, locks: map<Key, Lock>, holders: map<Key, multiset<int>>, l: Lock, fd: int)
    requires Held(fds, locks, holders) && (forall k :: k in locks ==> locks[k].key == k)
    requires l.key in locks && locks[l.key] == l && (fd, l) in fds
    ensures fd in holders[l.key]
    ensures var held := holders[l.key] - multiset{fd};
            if held == multiset{} then Held(fds - multiset{(fd, l)}, locks - {l.key}, holders - {l.key})
            else Held(fds - multiset{(fd, l)}, locks, holders[l.key := held])
  {
    assert Through(fds, l, holders[l.key]);
    assert fds[(fd, l)] == holders[l.key][fd];
    hide Through;
    var held := holders[l.key] - multiset{fd};
    var fds' := fds - multiset{(fd, l)};
    forall k | k in locks
      ensures Through(fds', locks[k], if k == l.key then held else holders[k])
    {
      ThroughLess(fds, locks[k], holders[k], l, fd);
    }
    if held == multiset{} {
      ThroughNone(fds', l, held);
    }
  }

  /** A descriptor that is nowhere in the table holds nothing; one that is holds the lock found. */
  lemma HeldThrough(fds: multiset<(int, Lock?)>, locks: map<Key, Lock>, holders: map<Key, multiset<int>>, fd: int,
                    lock: Lock?)
    requires Held(fds, locks, holders)
    requires lock == null ==> forall x :: x in fds ==> x.0 != fd
    requires lock != null ==> (fd, lock) in fds
    ensures lock == null <==> forall k :: k in holders ==> fd !in holders[k]
    ensures lock != null ==> lock.key in locks && locks[lock.key] == lock && fd in holders[lock.key]
  {
    if lock == null {
      forall k | k in holders
        ensures fd !in holders[k]
      {
        assert Through(fds, locks[k], holders[k]);
        assert (fd, locks[k]) !in fds;
        assert fds[(fd, locks[k])] == holders[k][fd];
      }
    } else {
      assert Through(fds, locks[lock.key], holders[lock.key]);
      assert fds[(fd, lock)] == holders[lock.key][fd];
    }
  }

  class FileLocks {
    const obj_hash: HashTable<Key, Lock?>
    const fd_hash: HashTable<int, Lock?>
    ghost var locks: map<Key, Lock>              // the locks that exist
    ghost var holders: map<Key, multiset<int>>   // the descriptors each is held through
    ghost var tables: set<object>                // what the hash tables are made of
    ghost var objs: multiset<(Key, Lock?)>
    ghost var fds: multiset<(int, Lock?)>

    ghost predicate Tables()
      reads this`tables, this`objs, this`fds, tables
    {
      && {obj_hash, obj_hash.directory, fd_hash, fd_hash.directory} <= tables
      && tables == obj_hash.Footprint() + fd_hash.Footprint()
      && obj_hash.Footprint() !! fd_hash.Footprint()
      && Good(obj_hash) && Good(fd_hash) && Pairs(obj_hash) == objs && Pairs(fd_hash) == fds
    }

    ghost predicate Valid()
      reads this, locks.Values, tables
    {
      && Tables() && this !in tables && locks.Values !! tables
      && Stored(objs, locks) && Held(fds, locks, holders) && Counts(locks, holders)
    }

    /** initFileLocking. */
    constructor ()
      ensures Valid() && locks == map[] && fresh(tables)
    {
      hide L.WellFormed, L.Bag, HashTable.Valid, Pairs;
      var obj := NewTable(HashLock);
      var fd := NewTable(HashFd);
      obj_hash, fd_hash, locks, holders := obj, fd, map[], map[];
      tables, objs, fds := obj.Footprint() + fd.Footprint(), multiset{}, multiset{};
    }

    method Enter(key: Key, lock: Lock, fd: int)
      requires Tables() && this !in tables
      modifies this`tables, this`objs, this`fds, tables
      ensures Tables() && this !in tables && fresh(tables - old(tables))
      ensures objs == old(objs) + multiset{(key, lock)} && fds == old(fds) + multiset{(fd, lock)}
    {
      hide Good, Pairs;
      Insert(obj_hash, key, lock);
      Insert(fd_hash, fd, lock);
      objs, fds := Pairs(obj_hash), Pairs(fd_hash);
      tables := obj_hash.Footprint() + fd_hash.Footprint();
    }

    /** Nobody holds the file, or only readers do and one more is wanted. */
    ghost predicate Free(key: Key, for_writing: bool)
      reads this, locks.Values
    {
      key !in locks || (!for_writing && locks[key].readers > 0)
    }

    twostate predicate Untouched()
      reads this, tables, locks.Values
    {
      unchanged(this) && unchanged(tables) && unchanged(locks.Values)
    }

    /** Nothing has changed but the lock of one file. */
    twostate predicate Only(key: Key)
      reads this, locks.Values
    {
      && locks.Keys == holders.Keys && locks - {key} == old(locks) - {key} && holders - {key} == old(holders) - {key}
      && forall k :: k in locks && k != key ==> k in old(locks) && locks[k] == old(locks)[k] && unchanged(locks[k])
    }

    /** a: the file, the descriptor, and whether for writing.  The file is now held through one more descriptor. */
    twostate predicate Granted(a: (Key, int, bool))
      reads this, locks.Values
    {
      var (key, fd, for_writing) := a;
      && Only(key) && key in locks && (key in old(locks) ==> locks[key] == old(locks)[key])
      && holders[key] == (if key in old(holders) then old(holders)[key] else multiset{}) + multiset{fd}
      && (for_writing <==> locks[key].readers < 0)
    }

    twostate lemma CountsKept(key: Key)
      requires old(Counts(locks, holders)) && Only(key)
      requires key in locks ==> locks[key].Counted(holders[key])
      ensures Counts(locks, holders)
    {
      forall k | k in locks
        ensures locks[k].Counted(holders[k])
      {
        if k != key {
          assert old(locks[k].Counted(holders[k]));
          assert k in (holders - {key}) && (holders - {key})[k] == (old(holders) - {key})[k];
        }
      }
    }

    method EnterNew(fd: int, key: Key, for_writing: bool) returns (lock: Lock)
      requires Tables() && this !in tables
      modifies this, tables
      ensures Tables() && this !in tables && fresh(tables - old(tables))
      ensures fresh(lock) && lock !in tables && lock.key == key && lock.readers == if for_writing then -1 else 1
      ensures objs == old(objs) + multiset{(key, lock)} && fds == old(fds) + multiset{(fd, lock)}
      ensures locks == old(locks)[key := lock] && holders == old(holders)[key := multiset{} + multiset{fd}]
    {
      hide Tables;
      lock := new Lock(key, if for_writing then -1 else 1);
      Enter(key, lock, fd);
      locks, holders := locks[key := lock], holders[key := multiset{} + multiset{fd}];
    }

    /** lockFile when there is no lock on the file yet. */
    method NewLock(fd: int, key: Key, for_writing: bool)
      requires Valid() && key !in locks
      modifies this, tables
      ensures Valid() && fresh(tables - old(tables)) && Granted((key, fd, for_writing))
    {
      hide Stored, Held, Tables, Counts;
      StoredKeys(objs, locks);
      HeldKeys(fds, locks, holders);
      InValues(locks);
      var lock := EnterNew(fd, key, for_writing);
      StoredNew(old(objs), old(locks), lock);
      HeldMore(old(fds), old(locks), old(holders), lock, fd);
      CountsKept(key);
    }

    method EnterFd(lock: Lock, fd: int)
      requires Tables() && this !in tables
      modifies this`tables, this`fds, tables
      ensures Tables() && this !in tables && fresh(tables - old(tables)) && fds == old(fds) + multiset{(fd, lock)}
    {
      hide Good, Pairs;
      Insert(fd_hash, fd, lock);
      fds := Pairs(fd_hash);
      tables := obj_hash.Footprint() + fd_hash.Footprint();
    }

    method LookupObj(key: Key) returns (lock: Lock?)
      requires Tables() && Stored(objs, locks)
      ensures if key in locks then lock == locks[key] else lock == null
    {
      hide Good, Pairs;
      var found := Lookup(obj_hash, key);
      lock := if found.Some? then found.value else null;
      assert key in locks ==> (key, locks[key]) in objs;
      assert found.Some? ==> (key, found.value) in objs;
    }

    method EnterReader(lock: Lock, fd: int)
      requires Tables() && this !in tables && lock !in tables && lock.key in holders
      modifies this`tables, this`fds, this`holders, tables, lock
      ensures Tables() && this !in tables && lock !in tables && fresh(tables - old(tables))
      ensures lock.readers == old(lock.readers) + 1 && fds == old(fds) + multiset{(fd, lock)}
      ensures holders == old(holders)[lock.key := old(holders)[lock.key] + multiset{fd}]
    {
      hide Tables;
      EnterFd(lock, fd);
      lock.readers := lock.readers + 1;
      holders := holders[lock.key := holders[lock.key] + multiset{fd}];
    }

    /** One more reader. */
    method AddReader(fd: int, lock: Lock)
      requires Valid() && lock.key in locks && lock == locks[lock.key] && lock.readers > 0
      requires lock.key in holders && lock.Counted(holders[lock.key])
      modifies this, tables, lock
      ensures Valid() && fresh(tables - old(tables)) && Granted((lock.key, fd, false))
    {
      hide Tables, Stored, Held, Counts;
      InValues(locks);
      StoredKeys(objs, locks);
      HeldKeys(fds, locks, holders);
      HeldMore(fds, locks, holders, lock, fd);
      assert locks[lock.key := lock] == locks;
      EnterReader(lock, fd);
      CountsKept(lock.key);
    }

    method Examine(key: Key) returns (lock: Lock?)
      requires Valid()
      ensures lock == null <==> key !in locks
      ensures lock != null ==> lock.key == key && locks[key] == lock && lock in locks.Values
      ensures lock != null ==> key in holders && lock.Counted(holders[key])
      ensures forall w :: Free(key, w) <==> lock == null || !(w || lock.readers < 0)
    {
      StoredKeys(objs, locks);
      HeldKeys(fds, locks, holders);
      InValues(locks);
      hide Tables, Stored, Held;
      lock := LookupObj(key);
    }

    /** lockFile: 0 when the lock is given, -1 when it is refused. */
    method LockFile(fd: int, dev: Word, ino: Word, for_writing: bool) returns (r: int)
      requires Valid()
      modifies this, tables, locks.Values
      ensures Valid() && fresh(tables - old(tables))
      ensures r == if old(Free(Key(dev, ino), for_writing)) then 0 else -1
      ensures r == -1 ==> Untouched()
      ensures r == 0 ==> Granted((Key(dev, ino), fd, for_writing))
    {
      hide Valid, Free;
      var key := Key(dev, ino);
      var lock := Examine(key);
      assert Free(key, for_writing) <==> lock == null || !(for_writing || lock.readers < 0);
      if lock == null {
        NewLock(fd, key, for_writing);
        return 0;
      }
      if for_writing || lock.readers < 0 {
        return -1;
      }
      AddReader(fd, lock);
      return 0;
    }

    /** The lock that lookup finds for a descriptor; it is what remove will take out. */
    ghost function Found(fd: int): Option<Lock?>
      requires L.Sized(fd_hash.table)
      reads fd_hash
    {
      L.Lookup(fd_hash.table, fd_hash.raw, fd)
    }

    method LookupFd(fd: int) returns (lock: Lock?)
      requires Tables() && Held(fds, locks, holders)
      ensures L.Sized(fd_hash.table)
      ensures lock == null ==> forall x :: x in fds ==> x.0 != fd
      ensures lock != null ==> (fd, lock) in fds && Found(fd) == Some(lock)
    {
      hide Pairs, L.Lookup;
      var found := Lookup(fd_hash, fd);
      lock := if found.Some? then found.value else null;
      assert found.Some? ==> (fd, found.value) in fds;
    }

    lemma FoundObj(key: Key)
      requires Tables() && Stored(objs, locks) && key in locks
      ensures L.Sized(obj_hash.table) && L.Lookup(obj_hash.table, obj_hash.raw, key) == Some(locks[key])
    {
      var (t, raw) := (obj_hash.table, obj_hash.raw);
      L.LookupRefines(t, raw, key);
      hide L.Lookup, L.Sized, L.Placed, HashTable.Valid;
      assert (key, locks[key]) in objs;
      assert L.Lookup(t, raw, key).Some? ==> (key, L.Lookup(t, raw, key).value) in objs;
    }

    method RemoveObj(key: Key, lock: Lock)
      requires Tables() && this !in tables && L.Sized(obj_hash.table)
      requires L.Lookup(obj_hash.table, obj_hash.raw, key) == Some(lock)
      modifies this`objs, tables
      ensures Tables() && objs == old(objs) - multiset{(key, lock)} && fd_hash.table == old(fd_hash.table)
    {
      hide Good, Pairs, L.Lookup, L.Sized;
      Remove(obj_hash, key);
      objs := Pairs(obj_hash);
    }

    method RemoveFd(fd: int, lock: Lock)
      requires Tables() && this !in tables && L.Sized(fd_hash.table) && Found(fd) == Some(lock)
      modifies this`fds, tables
      ensures Tables() && fds == old(fds) - multiset{(fd, lock)}
    {
      hide Good, Pairs, L.Lookup;
      Remove(fd_hash, fd);
      fds := Pairs(fd_hash);
    }

    /** A lock that nobody holds any more. */
    method DropLock(lock: Lock)
      requires Tables() && this !in tables && Stored(objs, locks) && lock.key in locks && locks[lock.key] == lock
      modifies this`objs, this`locks, tables
      ensures Tables() && Stored(objs, locks) && locks == old(locks) - {lock.key} && fd_hash.table == old(fd_hash.table)
    {
      hide Tables, Stored, L.Lookup, L.Sized;
      FoundObj(lock.key);
      StoredGone(objs, locks, lock.key);
      RemoveObj(lock.key, lock);
      locks := locks - {lock.key};
    }

    /** a: a lock and a descriptor.  The lock is held once less through it, and is gone if that was the last time;
        nothing has changed for other locks. */
    twostate predicate Released(a: (Lock, int))
      reads this, locks.Values
    {
      var (lock, fd) := a;
      && Only(lock.key) && lock.key in old(locks) && old(locks)[lock.key] == lock
      && lock.key in old(holders) && fd in old(holders)[lock.key]
      && var left := old(holders)[lock.key] - multiset{fd};
      && (if left == multiset{} then lock.key !in locks
          else lock.key in locks && locks[lock.key] == lock && holders[lock.key] == left)
    }

    /** The statements of unlockFile once the lock is found. */
    method Leave(fd: int, lock: Lock)
      requires Tables() && this !in tables && Stored(objs, locks) && lock.key in locks && locks[lock.key] == lock
      requires lock !in tables && lock.key in holders && fd in holders[lock.key] && lock.Counted(holders[lock.key])
      requires L.Sized(fd_hash.table) && Found(fd) == Some(lock)
      modifies this`objs, this`fds, this`locks, this`holders, tables, lock
      ensures Tables() && Stored(objs, locks) && fds == old(fds) - multiset{(fd, lock)}
      ensures var left := old(holders)[lock.key] - multiset{fd};
              if left == multiset{} then locks == old(locks) - {lock.key} && holders == old(holders) - {lock.key}
              else locks == old(locks) && holders == old(holders)[lock.key := left] && lock.Counted(left)
    {
      hide Tables, Stored, L.Lookup, L.Sized, Lock.Counted;
      ghost var left := holders[lock.key] - multiset{fd};
      lock.Decrement(holders[lock.key], fd);
      if lock.readers == 0 {
        DropLock(lock);
        holders := holders - {lock.key};
      } else {
        holders := holders[lock.key := left];
      }
      RemoveFd(fd, lock);
    }

    lemma Leaving(fd: int, lock: Lock)
      requires Stored(objs, locks) && Held(fds, locks, holders) && Counts(locks, holders)
      requires lock.key in locks && locks[lock.key] == lock && (fd, lock) in fds
      ensures locks.Keys == holders.Keys && fd in holders[lock.key] && lock.Counted(holders[lock.key])
      ensures lock in locks.Values
      ensures forall k :: k in locks && k != lock.key ==> locks[k] != lock && locks[k] in locks.Values
      ensures var left := holders[lock.key] - multiset{fd};
              if left == multiset{} then Held(fds - multiset{(fd, lock)}, locks - {lock.key}, holders - {lock.key})
              else Held(fds - multiset{(fd, lock)}, locks, holders[lock.key := left])
    {
      InValues(locks);
      StoredKeys(objs, locks);
      HeldKeys(fds, locks, holders);
      HeldLess(fds, locks, holders, lock, fd);
    }

    twostate lemma OnlyLeft(key: Key)
      requires old(locks.Keys == holders.Keys) && key in old(locks)
      requires (locks == old(locks) - {key} && holders == old(holders) - {key})
            || (locks == old(locks) && key in holders && holders == old(holders)[key := holders[key]])
      requires forall k :: k in old(locks) && k != key ==> unchanged(old(locks)[k])
      ensures Only(key)
    {
    }

    twostate lemma ReleasedBy(a: (Lock, int))
      requires old(locks.Keys == holders.Keys) && a.0.key in old(locks) && old(locks)[a.0.key] == a.0
      requires a.1 in old(holders)[a.0.key]
      requires var left := old(holders)[a.0.key] - multiset{a.1};
               if left == multiset{} then locks == old(locks) - {a.0.key} && holders == old(holders) - {a.0.key}
               else locks == old(locks) && holders == old(holders)[a.0.key := left]
      requires forall k :: k in old(locks) && k != a.0.key ==> unchanged(old(locks)[k])
      ensures Only(a.0.key) && Released(a)
    {
      OnlyLeft(a.0.key);
      hide Only;
    }

    method ReleaseLock(fd: int, lock: Lock)
      requires Valid() && lock.key in locks && locks[lock.key] == lock
      requires (fd, lock) in fds && L.Sized(fd_hash.table) && Found(fd) == Some(lock)
      modifies this, tables, lock
      ensures Valid() && tables == old(tables) && Released((lock, fd))
    {
      hide Stored, Held, Tables, L.Sized, L.Lookup, Lock.Counted, Counts, Only, Released;
      Leaving(fd, lock);
      Leave(fd, lock);
      ReleasedBy((lock, fd));
      CountsKept(lock.key);
    }

    method ExamineFd(fd: int) returns (lock: Lock?)
      requires Valid()
      ensures lock == null <==> forall k :: k in holders ==> fd !in holders[k]
      ensures lock != null ==> lock.key in locks && locks[lock.key] == lock && lock in locks.Values
      ensures lock != null ==> (fd, lock) in fds && L.Sized(fd_hash.table) && Found(fd) == Some(lock)
    {
      InValues(locks);
      hide Tables, Held, Stored, L.Sized, L.Lookup;
      lock := LookupFd(fd);
      HeldThrough(fds, locks, holders, fd, lock);
    }

    /** unlockFile: 1 when the descriptor holds no lock. */
    method UnlockFile(fd: int) returns (r: int, ghost which: Lock?)
      requires Valid()
      modifies this, tables, locks.Values
      ensures Valid() && tables == old(tables) && (r == 0 || r == 1)
      ensures r == 1 <==> forall k :: k in old(holders) ==> fd !in old(holders)[k]
      ensures r == 1 ==> Untouched()
      ensures r == 0 ==> which != null && which in old(locks.Values) && Released((which, fd))
    {
      hide Valid, L.Sized, L.Lookup;
      var lock := ExamineFd(fd);
      which := lock;
      if lock == null {
        return 1, which;
      }
      ReleaseLock(fd, lock);
      return 0, which;
    }
  }

  lemma InValues(locks: map<Key, Lock>)
    ensures forall k :: k in locks ==> locks[k] in locks.Values
  {
  }

  lemma StoredKeys(objs: multiset<(Key, Lock?)>, locks: map<Key, Lock>)
    requires Stored(objs, locks)
    ensures forall k :: k in locks ==> locks[k].key == k
  {
  }

  lemma HeldKeys(fds: multiset<(int, Lock?)>, locks: map<Key, Lock>, holders: map<Key, multiset<int>>)
    requires Held(fds, locks, holders)
    ensures locks.Keys == holders.Keys
  {
  }

  method NewTable<K(==, 0), V(==, 0)>(raw: K -> nat) returns (t: HashTable<K, V>)
    ensures Good(t) && Pairs(t) == multiset{} && fresh(t.Footprint())
  {
    hide L.WellFormed, L.Bag, L.New, HashTable.Valid;
    t := new HashTable(raw);
    L.NewIsEmpty<K, V>(raw);
  }
}
