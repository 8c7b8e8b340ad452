/**
 The retainer sets of the pool as the traversal sees them: what retainClosure does with pointers to them is what
 Retainers.Updated says of their values.
 */
module RetainerView {
  import opened Base
  import opened RetainerSets
  import R = Retainers

  /** NULL is a closure not visited yet. */
  function View(p: Pool, rs: RetainerSet?): R.RSet {
    if rs == null then R.Unset else if rs == p.rs_MANY then R.Many else R.Elems(set x | x in rs.element)
  }

  ghost predicate Known(p: Pool, rs: RetainerSet?)
    reads p
  {
    rs == null || rs == p.rs_MANY || rs in p.sets
  }

  /** num is the number of members, and 0 for rs_MANY. */
  lemma NumIs(p: Pool, rs: RetainerSet)
    requires p.Valid() && Known(p, rs)
    ensures rs.num == R.Num(View(p, rs)) && R.Sized(View(p, rs), p.maxRetainerSetSize)
  {
    if rs != p.rs_MANY {
      assert SetOk(rs, p.maxRetainerSetSize);
      Apart(rs.element);
      SetOfSeq(rs.element);
    }
  }

  lemma Apart(s: seq<Retainer>)
    requires Increasing(s)
    ensures NoDup(s)
  {
  }

  method Singleton(p: Pool, r: Retainer) returns (rs: RetainerSet)
    requires p.Valid()
    modifies p, p.hashTable
    ensures p.Valid() && Known(p, rs) && View(p, rs) == R.Elems({r}) && old(p.sets) <= p.sets
  {
    rs := p.Singleton(r);
    assert (set x | x in rs.element) == {r};
  }

  method AddElement(p: Pool, r: Retainer, rs: RetainerSet) returns (nrs: RetainerSet)
    requires p.Valid() && Known(p, rs) && !R.Member(r, View(p, rs))
    modifies p, p.hashTable
    ensures p.Valid() && Known(p, nrs) && old(p.sets) <= p.sets
    ensures View(p, nrs) == R.AddElement(r, View(p, rs), p.maxRetainerSetSize)
  {
    NumIs(p, rs);
    ghost var was := View(p, rs);
    nrs := p.AddElement(r, rs);
    if nrs != p.rs_MANY {
      assert (set x | x in nrs.element) == (set x | x in rs.element) + {r};
    }
  }

  /** The part of retainClosure that gives a closure with set rs, visited with r from a parent with set s (NULL when the
      parent is a retainer), its new set. */
  method Associate(p: Pool, s: RetainerSet?, rs: RetainerSet?, r: Retainer) returns (u: RetainerSet?, member: bool)
    requires p.Valid() && Known(p, s) && Known(p, rs)
    modifies p, p.hashTable
    ensures p.Valid() && u != null && Known(p, u) && old(p.sets) <= p.sets
    ensures View(p, u) == R.Updated(View(p, s), View(p, rs), r, p.maxRetainerSetSize)
    ensures member <==> rs != null && R.Member(r, View(p, rs))
  {
    if s != null { NumIs(p, s); }
    member := false;
    if rs == null {
      if s == null {
        u := Singleton(p, r);
      } else {
        u := s;
      }
      return;
    }
    NumIs(p, rs);
    member := p.IsMember(r, rs);
    if member {
      u := rs;
      return;
    }
    if s == null {
      u := AddElement(p, r, rs);
    } else if s.num == rs.num + 1 {
      u := s;
    } else {
      u := AddElement(p, r, rs);
    }
  }
}
