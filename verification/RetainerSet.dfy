/**
 Retainer sets, after kernel/rts/RetainerSet.c and RetainerSet.h: sorted, hash-consed sets with a bound on their size.
 */
module RetainerSets {

  const HASH_TABLE_SIZE := 255
  const BINARY_SEARCH_THRESHOLD := 8
  const WORD := 0x1_0000_0000_0000_0000

  /** The address of a cost-centre stack. */
  type Retainer = r: nat | r < WORD

  ghost predicate Increasing(s: seq<Retainer>) {
    forall i, j :: 0 <= i < j < |s| ==> s[i] < s[j]
  }

  /** hashKeySingleton and hashKeyAddElement: addition of words. */
  function HashKey(s: seq<Retainer>): nat {
    if s == [] then 0 else (HashKey(s[..|s| - 1]) + s[|s| - 1]) % WORD
  }

  function Insert(s: seq<Retainer>, i: nat, r: Retainer): seq<Retainer>
    requires i <= |s|
  {
    s[..i] + [r] + s[i..]
  }

  lemma ModAdd(a: nat, b: nat, c: nat)
    ensures ((a + b) % WORD + c) % WORD == ((a + c) % WORD + b) % WORD
  {
  }

  /** The key of a set does not depend on where an element is put in. */
  lemma {:induction false} HashKeyInsert(s: seq<Retainer>, i: nat, r: Retainer)
    requires i <= |s|
    ensures HashKey(Insert(s, i, r)) == (HashKey(s) + r) % WORD
    decreases |s|
  {
    var t := Insert(s, i, r);
    if i == |s| {
      assert t[..|t| - 1] == s;
    } else {
      var s' := s[..|s| - 1];
      assert t[..|t| - 1] == Insert(s', i, r);
      HashKeyInsert(s', i, r);
      ModAdd(HashKey(s'), s[|s| - 1], r);
    }
  }

  lemma FirstIn(s: seq<Retainer>, t: seq<Retainer>)
    requires forall r :: r in s ==> r in t
    ensures s != [] ==> s[0] in t
  {
  }

  /** An increasing sequence is determined by its members. */
  lemma {:induction false} SameMembers(s: seq<Retainer>, t: seq<Retainer>)
    requires Increasing(s) && Increasing(t) && forall r :: r in s <==> r in t
    ensures s == t
    decreases |s|
  {
    FirstIn(s, t);
    FirstIn(t, s);
    if s != [] {
      var s', t' := s[1..], t[1..];
      assert s == [s[0]] + s' && t == [t[0]] + t';
      assert s[0] == t[0];
      assert forall r :: r in s' <==> r in s && r != s[0];
      assert forall r :: r in t' <==> r in t && r != t[0];
      SameMembers(s', t');
    }
  }

  class RetainerSet {
    const num: nat
    const hashKey: nat
    const link: RetainerSet?
    const id: int
    const element: seq<Retainer>

    constructor (element: seq<Retainer>, hashKey: nat, link: RetainerSet?, id: int)
      ensures this.element == element && num == |element| && this.hashKey == hashKey && this.link == link
      ensures this.id == id
    {
      this.element, num, this.hashKey, this.link, this.id := element, |element|, hashKey, link, id;
    }
  }

  /** head, following link, lists exactly q. */
  ghost predicate Chain(head: RetainerSet?, q: seq<RetainerSet>) {
    && (q == [] <==> head == null) && (q != [] ==> head == q[0] && q[|q| - 1].link == null)
    && (forall i :: 0 <= i < |q| - 1 ==> q[i].link == q[i + 1])
  }

  lemma ChainTail(q: seq<RetainerSet>)
    requires q != [] && Chain(q[0], q)
    ensures Chain(q[0].link, q[1..])
  {
    assert |q| > 1 ==> q[0].link == q[1];
  }

  ghost predicate SetOk(rs: RetainerSet, max: nat) {
    && Increasing(rs.element) && rs.hashKey == HashKey(rs.element)
    && 0 < rs.num == |rs.element| <= max
  }

  class Pool {
    const hashTable: array<RetainerSet?>
    const rs_MANY: RetainerSet
    const maxRetainerSetSize: nat
    var nextId: int
    ghost var chains: seq<seq<RetainerSet>>
    ghost var sets: set<RetainerSet>          // all that are stored

    ghost predicate Valid()
      reads this, hashTable
    {
      && hashTable.Length == HASH_TABLE_SIZE == |chains| && maxRetainerSetSize > 0 && rs_MANY.num == 0
      && (forall b :: 0 <= b < HASH_TABLE_SIZE ==> Chain(hashTable[b], chains[b]))
      && (forall b, rs :: 0 <= b < HASH_TABLE_SIZE && rs in chains[b] ==> rs in sets)
      && (forall rs :: rs in sets ==>
            SetOk(rs, maxRetainerSetSize) && rs in chains[rs.hashKey % HASH_TABLE_SIZE] && rs != rs_MANY)
      && Consed()
    }

    /** There is only one copy of any set. */
    ghost predicate Consed()
      reads this
    {
      forall x, y :: x in sets && y in sets && x.element == y.element ==> x == y
    }

    /** initializeAllRetainerSet. */
    constructor (maxRetainerSetSize: nat)
      requires maxRetainerSetSize > 0
      ensures Valid() && fresh(hashTable) && this.maxRetainerSetSize == maxRetainerSetSize
      ensures sets == {}
    {
      hashTable := new RetainerSet?[HASH_TABLE_SIZE](_ => null);
      rs_MANY := new RetainerSet([], 0, null, 1);
      nextId := 2;
      this.maxRetainerSetSize := maxRetainerSetSize;
      chains, sets := seq(HASH_TABLE_SIZE, _ => []), {};
    }

    /** Pointer equality is set equality. */
    lemma EqualSets(x: RetainerSet, y: RetainerSet)
      requires Valid() && x in sets && y in sets
      ensures x == y <==> forall r :: r in x.element <==> r in y.element
    {
      if forall r :: r in x.element <==> r in y.element {
        SameMembers(x.element, y.element);
      }
    }

    /** isMember: a linear search, or a binary one in large sets. */
    method IsMember(r: Retainer, rs: RetainerSet) returns (b: bool)
      requires Valid() && (rs == rs_MANY || rs in sets)
      ensures b <==> rs == rs_MANY || r in rs.element
    {
      if rs == rs_MANY {
        return true;
      }
      var e := rs.element;
      assert Increasing(e);
      if rs.num < BINARY_SEARCH_THRESHOLD {
        var i := 0;
        while i < rs.num
          invariant i <= rs.num && forall j :: 0 <= j < i ==> e[j] < r
        {
          var ri := e[i];
          if r == ri {
            return true;
          } else if r < ri {
            assert forall j :: i <= j < |e| ==> r < e[j];
            return false;
          }
          i := i + 1;
        }
      } else {
        var left: int, right: int := 0, rs.num - 1;
        while left <= right
          invariant 0 <= left <= |e| && -1 <= right < |e|
          invariant (forall j :: 0 <= j < left ==> e[j] < r) && (forall j :: right < j < |e| ==> r < e[j])
        {
          var i := (left + right) / 2;
          var ri := e[i];
          if r == ri {
            return true;
          } else if r < ri {
            right := i - 1;
          } else {
            left := i + 1;
          }
        }
      }
      return false;
    }

    /** Where a set would be stored. */
    lemma OnlyThere(e: seq<Retainer>)
      requires Valid()
      ensures forall rs :: rs in sets && rs.element == e ==> rs in chains[HashKey(e) % HASH_TABLE_SIZE]
    {
    }

    /** The new set goes to the head of its chain. */
    method Add(e: seq<Retainer>, hk: nat) returns (rs: RetainerSet)
      requires Valid() && Increasing(e) && hk == HashKey(e) && 0 < |e| <= maxRetainerSetSize
      requires forall rs :: rs in chains[hk % HASH_TABLE_SIZE] ==> rs.element != e
      modifies this, hashTable
      ensures Valid() && fresh(rs) && rs.element == e && sets == old(sets) + {rs}
    {
      var b := hk % HASH_TABLE_SIZE;
      rs := new RetainerSet(e, hk, hashTable[b], nextId);
      nextId := nextId + 1;
      hashTable[b] := rs;
      chains := chains[b := [rs] + chains[b]];
      sets := sets + {rs};
      hide HashKey, Increasing;
      forall d | 0 <= d < HASH_TABLE_SIZE ensures Chain(hashTable[d], chains[d]) {
        assert old(Chain(hashTable[d], chains[d]));
      }
      assert Consed() by {
        assert old(Consed());
        assert forall x :: x in old(sets) && x.element == e ==> x in old(chains)[b];
      }
    }

    lemma Bucket(b: nat)
      requires Valid() && b < HASH_TABLE_SIZE
      ensures Chain(hashTable[b], chains[b]) && forall rs :: rs in chains[b] ==> rs in sets && rs.num == |rs.element|
    {
    }

    /** singleton. */
    method Singleton(r: Retainer) returns (rs: RetainerSet)
      requires Valid()
      modifies this, hashTable
      ensures Valid() && rs in sets && rs.element == [r] && sets - {rs} <= old(sets) <= sets
    {
      var hk := r;
      assert HashKey([r]) == r;
      Bucket(hk % HASH_TABLE_SIZE);
      var found := FindSingleton(r, hashTable[hk % HASH_TABLE_SIZE], chains[hk % HASH_TABLE_SIZE]);
      if found != null {
        return found;
      }
      rs := Add([r], hk);
    }

    /** addElement: the set with r added, or rs_MANY when that would be too large. */
    method AddElement(r: Retainer, rs: RetainerSet) returns (nrs: RetainerSet)
      requires Valid() && (rs == rs_MANY || (rs in sets && r !in rs.element))
      modifies this, hashTable
      ensures Valid() && old(sets) <= sets && sets - {nrs} <= old(sets)
      ensures nrs == rs_MANY <==> rs == rs_MANY || rs.num == maxRetainerSetSize
      ensures nrs != rs_MANY ==>
          nrs in sets && nrs.num == rs.num + 1 && forall x :: x in nrs.element <==> x == r || x in rs.element
    {
      if rs == rs_MANY || rs.num == maxRetainerSetSize {
        return rs_MANY;
      }
      Bucket(0);
      var nl := Place(r, rs.element);
      var hk := (r + rs.hashKey) % WORD;
      ghost var e := Insert(rs.element, nl, r);
      HashKeyInsert(rs.element, nl, r);
      Bucket(hk % HASH_TABLE_SIZE);
      hide HashKey;
      var found := FindInserted(r, rs.element, nl, hashTable[hk % HASH_TABLE_SIZE], chains[hk % HASH_TABLE_SIZE]);
      InsertMembers(rs.element, nl, r);
      if found != null {
        return found;
      }
      var element := Inserted(rs.element, nl, r);
      nrs := Add(element, hk);
    }
  }

  /** The loop of singleton. */
  method FindSingleton(r: Retainer, head: RetainerSet?, ghost q: seq<RetainerSet>) returns (rs: RetainerSet?)
    requires Chain(head, q) && forall x :: x in q ==> x.num == |x.element|
    ensures if rs == null then forall x :: x in q ==> x.element != [r] else rs in q && rs.element == [r]
  {
    rs := head;
    ghost var i := 0;
    assert q[0..] == q;
    while rs != null
      invariant i <= |q| && Chain(rs, q[i..]) && forall j :: 0 <= j < i ==> q[j].element != [r]
      decreases |q| - i
    {
      assert rs == q[i] && q[i] in q;
      if rs.num == 1 && rs.element[0] == r {
        assert rs.element == [r];
        return;
      }
      ChainTail(q[i..]);
      assert q[i..][1..] == q[i + 1..];
      rs := rs.link;
      i := i + 1;
    }
  }

  /** The number of retainers less than r. */
  method Place(r: Retainer, e: seq<Retainer>) returns (nl: nat)
    requires Increasing(e) && r !in e
    ensures nl <= |e| && (forall j :: 0 <= j < nl ==> e[j] < r) && (forall j :: nl <= j < |e| ==> r < e[j])
  {
    nl := 0;
    while nl < |e|
      invariant nl <= |e| && forall j :: 0 <= j < nl ==> e[j] < r
    {
      if r < e[nl] {
        break;
      }
      assert e[nl] in e;
      nl := nl + 1;
    }
  }

  lemma InsertMembers(e: seq<Retainer>, nl: nat, r: Retainer)
    requires Increasing(e) && nl <= |e| && (forall j :: 0 <= j < nl ==> e[j] < r)
    requires (forall j :: nl <= j < |e| ==> r < e[j])
    ensures Increasing(Insert(e, nl, r)) && forall x :: x in Insert(e, nl, r) <==> x == r || x in e
  {
    assert e == e[..nl] + e[nl..];
  }

  /** The comparison in addElement: the first nl retainers, then r itself, then the others. */
  method EqualsInserted(r: Retainer, e: seq<Retainer>, nl: nat, nrs: RetainerSet) returns (same: bool)
    requires nl <= |e| && nrs.num == |nrs.element|
    ensures same <==> nrs.element == Insert(e, nl, r)
  {
    ghost var t := Insert(e, nl, r);
    if |e| + 1 != nrs.num {
      return false;
    }
    var i := 0;
    while i < nl
      invariant i <= nl && forall j :: 0 <= j < i ==> nrs.element[j] == t[j]
    {
      if e[i] != nrs.element[i] {
        assert t[i] != nrs.element[i];
        return false;
      }
      i := i + 1;
    }
    if r != nrs.element[i] {
      assert t[i] != nrs.element[i];
      return false;
    }
    while i < |e|
      invariant nl <= i <= |e| && forall j :: 0 <= j <= i ==> nrs.element[j] == t[j]
    {
      if e[i] != nrs.element[i + 1] {
        assert t[i + 1] != nrs.element[i + 1];
        return false;
      }
      i := i + 1;
    }
    return true;
  }

  /** The loop of addElement. */
  method FindInserted(r: Retainer, e: seq<Retainer>, nl: nat, head: RetainerSet?, ghost q: seq<RetainerSet>)
    returns (nrs: RetainerSet?)
    requires nl <= |e| && Chain(head, q) && forall x :: x in q ==> x.num == |x.element|
    ensures if nrs == null then forall x :: x in q ==> x.element != Insert(e, nl, r)
            else nrs in q && nrs.element == Insert(e, nl, r)
  {
    nrs := head;
    ghost var i := 0;
    assert q[0..] == q;
    hide Insert;
    while nrs != null
      invariant i <= |q| && Chain(nrs, q[i..]) && forall j :: 0 <= j < i ==> q[j].element != Insert(e, nl, r)
      decreases |q| - i
    {
      assert nrs == q[i] && q[i] in q;
      var same := EqualsInserted(r, e, nl, nrs);
      if same {
        return;
      }
      ChainTail(q[i..]);
      assert q[i..][1..] == q[i + 1..];
      nrs := nrs.link;
      i := i + 1;
    }
  }

  /** Filling in the new set. */
  method Inserted(e: seq<Retainer>, nl: nat, r: Retainer) returns (element: seq<Retainer>)
    requires nl <= |e|
    ensures element == Insert(e, nl, r)
  {
    var a := new Retainer[|e| + 1](_ => 0);
    var i := 0;
    while i < nl
      invariant i <= nl && forall j :: 0 <= j < i ==> a[j] == e[j]
    {
      a[i] := e[i];
      i := i + 1;
    }
    a[i] := r;
    while i < |e|
      invariant nl <= i <= |e| && a[nl] == r
      invariant (forall j :: 0 <= j < nl ==> a[j] == e[j]) && forall j :: nl < j <= i ==> a[j] == e[j - 1]
    {
      a[i + 1] := e[i];
      i := i + 1;
    }
    element := a[..];
    assert forall j :: 0 <= j <= |e| ==> element[j] == Insert(e, nl, r)[j];
  }
}
