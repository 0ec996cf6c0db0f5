/** The two page pools as sequences, and what a history of calls says about them.

    `Pools` is the value the linked lists of the driver stand for (head first).  A
    history records the calls made and the page each eviction returned.  The functions
    from `Residents` to `TouchedAt` read a history without looking at any list, so
    `IsVictim` is a reference for the eviction order that knows nothing of the lists. */
module LruModel {
  import opened Basics

  datatype Pools<P(==)> = Pools(active: seq<P>, inactive: seq<P>, referenced: set<P>)

  datatype Event<P(==)> = Add(page: P) | Touch(page: P) | Evict(victim: Option<P>)

  /** Removes the first occurrence of `p`. */
  ghost function Without<P>(q: seq<P>, p: P): (r: seq<P>)
    ensures p in q ==> |r| == |q| - 1
    ensures p !in q ==> r == q
  {
    if q == [] then []
    else if q[0] == p then q[1..]
    else [q[0]] + Without(q[1..], p)
  }

  ghost function Elems<P>(q: seq<P>): set<P> {
    set p | p in q
  }

  ghost function AddPage<P>(s: Pools<P>, p: P): Pools<P> {
    Pools(s.active, [p] + s.inactive, s.referenced - {p})
  }

  /** The second touch of an inactive page promotes it; touching an active page moves
      it to the head. */
  ghost function TouchPage<P>(s: Pools<P>, p: P): Pools<P> {
    if p in s.active then
      s.(active := [p] + Without(s.active, p))
    else if p in s.referenced then
      Pools([p] + s.active, Without(s.inactive, p), s.referenced - {p})
    else
      s.(referenced := s.referenced + {p})
  }

  /** With nothing inactive, the tail of the active list is moved over. */
  ghost function Demote<P>(s: Pools<P>): Pools<P> {
    if s.active == [] then s
    else
      var p := s.active[|s.active| - 1];
      Pools(s.active[..|s.active| - 1], [p] + s.inactive, s.referenced - {p})
  }

  /** Takes the tail of the inactive list, demoting first when that list is empty. */
  ghost function EvictPage<P>(s: Pools<P>): (Pools<P>, Option<P>) {
    var d := if s.inactive == [] then Demote(s) else s;
    if d.inactive == [] then (d, None)
    else
      var n := |d.inactive| - 1;
      (Pools(d.active, d.inactive[..n], d.referenced - {d.inactive[n]}), Some(d.inactive[n]))
  }

  // ---------------------------------------------------------------- histories

  ghost function Last<T>(h: seq<T>): T
    requires h != []
  {
    h[|h| - 1]
  }

  /** Pages added and not evicted since. */
  ghost function Residents<P>(h: seq<Event<P>>): set<P> {
    if h == [] then {}
    else
      var r := Residents(h[..|h| - 1]);
      match Last(h)
      case Add(p) => r + {p}
      case Touch(_) => r
      case Evict(None) => r
      case Evict(Some(v)) => r - {v}
  }

  /** How often `p` was touched since it was last added. */
  ghost function Touches<P>(h: seq<Event<P>>, p: P): nat {
    if h == [] then 0
    else
      var t := Touches(h[..|h| - 1], p);
      match Last(h)
      case Add(q) => if q == p then 0 else t
      case Touch(q) => if q == p then t + 1 else t
      case Evict(_) => t
  }

  /** When `p` was last added. */
  ghost function AddedAt<P>(h: seq<Event<P>>, p: P): (t: int)
    ensures t < |h|
  {
    if h == [] then -1
    else if Last(h) == Add(p) then |h| - 1
    else AddedAt(h[..|h| - 1], p)
  }

  /** When `p` was last touched. */
  ghost function TouchedAt<P>(h: seq<Event<P>>, p: P): (t: int)
    ensures t < |h|
  {
    if h == [] then -1
    else if Last(h) == Touch(p) then |h| - 1
    else TouchedAt(h[..|h| - 1], p)
  }

  /** A page is promoted by its second touch and stays so while resident. */
  ghost predicate Promoted<P>(h: seq<Event<P>>, p: P) {
    Touches(h, p) >= 2
  }

  /** The page the driver owes its caller: the earliest-added never-promoted page, or,
      when every resident page was promoted, the least recently touched one. */
  ghost predicate IsVictim<P>(h: seq<Event<P>>, v: P) {
    && v in Residents(h)
    && if exists p :: p in Residents(h) && !Promoted(h, p) then
         && !Promoted(h, v)
         && forall p :: p in Residents(h) && !Promoted(h, p) ==> AddedAt(h, v) <= AddedAt(h, p)
       else
         forall p :: p in Residents(h) ==> TouchedAt(h, v) <= TouchedAt(h, p)
  }

  /** The pools a history leads to. */
  ghost function Run<P>(h: seq<Event<P>>): Pools<P> {
    if h == [] then Pools([], [], {})
    else
      var s := Run(h[..|h| - 1]);
      match Last(h)
      case Add(p) => AddPage(s, p)
      case Touch(p) => TouchPage(s, p)
      case Evict(_) => EvictPage(s).0
  }

  /** Callers add only absent pages and touch only resident ones, and every eviction
      records the page the driver returned. */
  ghost predicate Legal<P>(h: seq<Event<P>>) {
    h == [] ||
    (Legal(h[..|h| - 1]) &&
     var s := Run(h[..|h| - 1]);
     match Last(h)
     case Add(p) => p !in s.active && p !in s.inactive
     case Touch(p) => p in s.active || p in s.inactive
     case Evict(v) => v == EvictPage(s).1)
  }

  // ---------------------------------------------------------------- the invariant

  ghost predicate LatestAddedFirst<P>(h: seq<Event<P>>, q: seq<P>)
    ensures LatestAddedFirst(h, q) ==> Distinct(q)
  {
    forall i, j :: 0 <= i < j < |q| ==> AddedAt(h, q[i]) > AddedAt(h, q[j])
  }

  ghost predicate LatestTouchedFirst<P>(h: seq<Event<P>>, q: seq<P>)
    ensures LatestTouchedFirst(h, q) ==> Distinct(q)
  {
    forall i, j :: 0 <= i < j < |q| ==> TouchedAt(h, q[i]) > TouchedAt(h, q[j])
  }

  /** What the lists say is what the history says. */
  ghost predicate Agrees<P>(h: seq<Event<P>>, s: Pools<P>) {
    && Elems(s.inactive) == (set p | p in Residents(h) && !Promoted(h, p))
    && Elems(s.active) == (set p | p in Residents(h) && Promoted(h, p))
    && (forall p :: p in Residents(h) ==> (p in s.referenced <==> Touches(h, p) == 1))
    && LatestAddedFirst(h, s.inactive)
    && LatestTouchedFirst(h, s.active)
  }

  /** `r` is `q` without its element at `k`. */
  ghost predicate Skips<P>(q: seq<P>, k: nat, r: seq<P>)
    requires k < |q|
  {
    |r| == |q| - 1 && forall i :: 0 <= i < |r| ==> r[i] == q[if i < k then i else i + 1]
  }

  lemma {:induction false} WithoutAt<P>(q: seq<P>, k: nat)
    requires Distinct(q) && k < |q|
    ensures Skips(q, k, Without(q, q[k]))
  {
    if k > 0 {
      WithoutAt(q[1..], k - 1);
    }
  }

  lemma SkipsElems<P>(q: seq<P>, k: nat, r: seq<P>)
    requires Distinct(q) && k < |q| && Skips(q, k, r)
    ensures Elems(r) == Elems(q) - {q[k]}
  {
    forall x | x in Elems(q) - {q[k]}
      ensures x in r
    {
      var i :| 0 <= i < |q| && q[i] == x;
      assert r[if i < k then i else i - 1] == x;
    }
  }

  /** Membership and order of the rest after a removal. */
  lemma WithoutKeepsOrder<P>(q: seq<P>, p: P) returns (k: nat)
    requires Distinct(q) && p in q
    ensures k < |q| && q[k] == p
    ensures Skips(q, k, Without(q, p))
    ensures Elems(Without(q, p)) == Elems(q) - {p}
  {
    k :| k < |q| && q[k] == p;
    WithoutAt(q, k);
    SkipsElems(q, k, Without(q, p));
  }

  /** An event about `p` says nothing new about any other page. */
  lemma OthersUnaffected<P>(h: seq<Event<P>>, e: Event<P>, q: P)
    ensures Last(h + [e]) == e && (h + [e])[..|h|] == h
    ensures e != Add(q) && e != Touch(q) ==> Touches(h + [e], q) == Touches(h, q)
    ensures e != Add(q) ==> AddedAt(h + [e], q) == AddedAt(h, q)
    ensures e != Touch(q) ==> TouchedAt(h + [e], q) == TouchedAt(h, q)
  {
    assert (h + [e])[..|h|] == h;
  }

  lemma RemovalKeepsTouchOrder<P>(h: seq<Event<P>>, q: seq<P>, p: P)
    requires LatestTouchedFirst(h, q)
    ensures LatestTouchedFirst(h, Without(q, p))
    ensures Elems(Without(q, p)) == Elems(q) - {p}
  {
    if p in q {
      var k := WithoutKeepsOrder(q, p);
      var r := Without(q, p);
      forall i, j | 0 <= i < j < |r|
        ensures TouchedAt(h, r[i]) > TouchedAt(h, r[j])
      {
      }
    } else {
      assert Without(q, p) == q;
    }
  }

  lemma TouchedElems<P>(h: seq<Event<P>>, q: seq<P>, p: P)
    requires LatestTouchedFirst(h, q)
    ensures Elems([p] + Without(q, p)) == Elems(q) + {p}
  {
    RemovalKeepsTouchOrder(h, q, p);
    hide Without, LatestTouchedFirst;
    assert Elems([p] + Without(q, p)) == Elems(Without(q, p)) + {p};
  }

  /** A page touched now comes before pages touched before. */
  lemma LatestInFront<P>(h: seq<Event<P>>, r: seq<P>, p: P)
    requires LatestTouchedFirst(h, r) && p !in r
    ensures LatestTouchedFirst(h + [Touch(p)], [p] + r)
  {
  }

  lemma TouchReorders<P>(h: seq<Event<P>>, q: seq<P>, p: P)
    requires LatestTouchedFirst(h, q)
    ensures LatestTouchedFirst(h + [Touch(p)], [p] + Without(q, p))
    ensures Elems([p] + Without(q, p)) == Elems(q) + {p}
  {
    hide Without, LatestTouchedFirst;
    RemovalKeepsTouchOrder(h, q, p);
    assert p !in Elems(Without(q, p));
    LatestInFront(h, Without(q, p), p);
    TouchedElems(h, q, p);
  }

  lemma TouchKeepsAddOrder<P>(h: seq<Event<P>>, q: seq<P>, p: P)
    requires LatestAddedFirst(h, q) && p in q
    ensures LatestAddedFirst(h + [Touch(p)], Without(q, p))
    ensures Elems(Without(q, p)) == Elems(q) - {p}
  {
    var k := WithoutKeepsOrder(q, p);
    SkippedKeepsAddOrder(h, q, k, Without(q, p), Touch(p));
  }

  lemma SkippedKeepsAddOrder<P>(h: seq<Event<P>>, q: seq<P>, k: nat, r: seq<P>, e: Event<P>)
    requires LatestAddedFirst(h, q) && k < |q| && Skips(q, k, r) && !e.Add?
    ensures LatestAddedFirst(h + [e], r)
  {
    forall x | x in r {
      OthersUnaffected(h, e, x);
    }
    hide AddedAt;
  }

  lemma WithoutLast<P>(q: seq<P>)
    requires |q| > 0 && Distinct(q)
    ensures Without(q, Last(q)) == q[..|q| - 1]
  {
    WithoutAt(q, |q| - 1);
  }
}
