/** The lists agree with the history of calls after every run, and what follows for the
    order of evictions. */
module LruHistory {
  import opened Basics
  import opened LruModel

  lemma AddKeeps<P>(h: seq<Event<P>>, s: Pools<P>, p: P)
    requires Agrees(h, s) && p !in s.active && p !in s.inactive
    ensures Agrees(h + [Add(p)], AddPage(s, p))
  {
    assert p !in Elems(s.inactive) + Elems(s.active);
    forall q | q in {p} + Residents(h) {
      OthersUnaffected(h, Add(p), q);
    }
    forall q | q in s.active
      ensures q in Elems(s.active)
    {
    }
    assert Elems(AddPage(s, p).inactive) == Elems(s.inactive) + {p};
  }

  lemma TouchKeeps<P>(h: seq<Event<P>>, s: Pools<P>, p: P)
    requires Agrees(h, s) && (p in s.active || p in s.inactive)
    ensures Agrees(h + [Touch(p)], TouchPage(s, p))
  {
    assert p in Elems(s.inactive) + Elems(s.active);
    forall q | q in Residents(h) {
      OthersUnaffected(h, Touch(p), q);
    }
    forall q | q in s.inactive
      ensures q in Elems(s.inactive)
    {
    }
    if p in s.active {
      assert p in Elems(s.active);
      TouchReorders(h, s.active, p);
    } else if p in s.referenced {
      assert p in Elems(s.inactive) && p !in Elems(s.active);
      TouchKeepsAddOrder(h, s.inactive, p);
      TouchReorders(h, s.active, p);
    } else {
      assert p in Elems(s.inactive) && p !in Elems(s.active);
    }
  }

  /** Splits off the last element of a list without duplicates. */
  lemma DropLast<P>(q: seq<P>)
    requires |q| > 0 && Distinct(q)
    ensures Elems(q[..|q| - 1]) == Elems(q) - {Last(q)}
  {
    assert q == q[..|q| - 1] + [Last(q)];
  }

  lemma EvictKeeps<P>(h: seq<Event<P>>, s: Pools<P>)
    requires Agrees(h, s)
    ensures Agrees(h + [Evict(EvictPage(s).1)], EvictPage(s).0)
  {
    var (s', v) := EvictPage(s);
    forall q | q in Residents(h) {
      OthersUnaffected(h, Evict(v), q);
    }
    if s.inactive != [] {
      DropLast(s.inactive);
      assert v.value in Elems(s.inactive);
    } else if s.active != [] {
      DropLast(s.active);
      assert v.value in Elems(s.active);
    }
  }

  /** The lists agree with the history after every legal run. */
  lemma {:induction false} RunAgrees<P>(h: seq<Event<P>>)
    requires Legal(h)
    ensures Agrees(h, Run(h))
  {
    if h != [] {
      var g := h[..|h| - 1];
      RunAgrees(g);
      assert h == g + [Last(h)];
      match Last(h)
      case Add(p) => AddKeeps(g, Run(g), p);
      case Touch(p) => TouchKeeps(g, Run(g), p);
      case Evict(_) => EvictKeeps(g, Run(g));
    }
  }

  /** After every legal run the next eviction takes the page the history calls for, and
      returns nothing exactly when nothing is resident. */
  lemma EvictionOrder<P>(h: seq<Event<P>>)
    requires Legal(h)
    ensures var v := EvictPage(Run(h)).1;
            && (v == None <==> Residents(h) == {})
            && (v != None ==> IsVictim(h, v.value))
  {
    RunAgrees(h);
    VictimFromLists(h, Run(h));
  }

  lemma VictimFromLists<P>(h: seq<Event<P>>, s: Pools<P>)
    requires Agrees(h, s)
    ensures var v := EvictPage(s).1;
            && (v == None <==> Residents(h) == {})
            && (v != None ==> IsVictim(h, v.value))
  {
    assert Residents(h) == Elems(s.inactive) + Elems(s.active);
    if s.inactive != [] {
      assert Last(s.inactive) in Elems(s.inactive);
    } else if s.active != [] {
      assert Last(s.active) in Elems(s.active);
      assert Elems(s.inactive) == {};
    }
  }

  /** The victim of a history is unique, so `IsVictim` pins the eviction order down. */
  lemma VictimUnique<P>(h: seq<Event<P>>, v: P, w: P)
    requires Legal(h) && IsVictim(h, v) && IsVictim(h, w)
    ensures v == w
  {
    RunAgrees(h);
    var s := Run(h);
    assert v in Elems(s.inactive) + Elems(s.active);
    assert w in Elems(s.inactive) + Elems(s.active);
  }
}
