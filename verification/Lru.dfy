/** The linked lists of drivers/lru/multilru.c.

    `PageList` is one doubly linked list, `Lru` the pair of global lists.  Each list
    keeps the sequence of its pages as a ghost field, and `Lru` keeps the history of
    calls; `Valid` says that following the pointers gives exactly those sequences and
    that they are what `LruModel.Run` computes from the history. */
module Lru {
  import opened Basics
  import opened LruModel
  import opened LruHistory

  const PAGE_INACTIVE := 0
  const PAGE_ACTIVE := 1

  class Page {
    var frameNumber: int
    var status: int
    var referenced: int
    var next: Page?
    var prev: Page?
    constructor (frame: int)
      ensures frameNumber == frame && next == null && prev == null
    {
      frameNumber, status, referenced, next, prev := frame, 0, 0, null, null;
    }
  }

  ghost function NextOf(q: seq<Page>, i: nat): Page? {
    if i + 1 < |q| then q[i + 1] else null
  }

  ghost function PrevOf(q: seq<Page>, i: nat): Page?
    requires i < |q|
  {
    if i == 0 then null else q[i - 1]
  }

  /** An added page that was absent makes a longer legal history. */
  lemma AddExtends<P>(h: seq<Event<P>>, p: P)
    requires Legal(h) && p !in Run(h).active && p !in Run(h).inactive
    ensures Legal(h + [Add(p)]) && Run(h + [Add(p)]) == LruModel.AddPage(Run(h), p)
  {
    hide LruModel.AddPage;
    assert (h + [Add(p)])[..|h|] == h;
  }

  /** An eviction that records the page returned makes a longer legal history. */
  lemma EvictExtends<P>(h: seq<Event<P>>, v: Option<P>)
    requires Legal(h) && v == LruModel.EvictPage(Run(h)).1
    ensures Legal(h + [Evict(v)]) && Run(h + [Evict(v)]) == LruModel.EvictPage(Run(h)).0
  {
    hide LruModel.EvictPage;
    assert (h + [Evict(v)])[..|h|] == h;
  }

  lemma StillDistinct(q: seq<Page>, k: nat, r: seq<Page>)
    requires Distinct(q) && k < |q| && Skips(q, k, r)
    ensures Distinct(r)
  {
  }

  class PageList {
    var head: Page?
    var tail: Page?
    var count: int
    ghost var pages: seq<Page>

    ghost predicate Linked()
      reads this, pages
    {
      Distinct(pages) && count == |pages| && Chain(pages)
    }

    /** Head, tail and all links describe `q`. */
    ghost predicate Chain(q: seq<Page>)
      reads `head, `tail, q
    {
      && head == (if q == [] then null else q[0])
      && tail == (if q == [] then null else Last(q))
      && (forall i {:trigger q[i].next} :: 0 <= i < |q| ==> q[i].next == NextOf(q, i))
      && (forall i {:trigger q[i].prev} :: 0 <= i < |q| ==> q[i].prev == PrevOf(q, i))
    }

    /** Head, tail and links lead past `q[k]`. */
    ghost predicate Bypasses(q: seq<Page>, k: nat)
      requires k < |q|
      reads `head, `tail, q
    {
      && head == (if k == 0 then NextOf(q, 0) else q[0])
      && tail == (if k + 1 == |q| then PrevOf(q, k) else Last(q))
      && (forall i {:trigger q[i].next} :: 0 <= i < |q| && i != k ==>
            q[i].next == NextOf(q, if i + 1 == k then k else i))
      && (forall i {:trigger q[i].prev} :: 0 <= i < |q| && i != k ==>
            q[i].prev == PrevOf(q, if i == k + 1 then k else i))
    }

    lemma BypassedLink(q: seq<Page>, k: nat, r: seq<Page>, i: nat)
      requires k < |q| && Bypasses(q, k) && i < |r|
      requires Skips(q, k, r)
      ensures r[i].next == NextOf(r, i) && r[i].prev == PrevOf(r, i)
    {
    }

    lemma BypassedChain(q: seq<Page>, k: nat, r: seq<Page>)
      requires k < |q| && Bypasses(q, k)
      requires Skips(q, k, r)
      ensures Chain(r)
    {
      forall i {:trigger r[i].next} | 0 <= i < |r|
        ensures r[i].next == NextOf(r, i)
      {
        BypassedLink(q, k, r, i);
      }
      forall i {:trigger r[i].prev} | 0 <= i < |r|
        ensures r[i].prev == PrevOf(r, i)
      {
        BypassedLink(q, k, r, i);
      }
    }

    constructor ()
      ensures Linked() && pages == []
    {
      head, tail, count, pages := null, null, 0, [];
    }

    method AddHead(page: Page)
      requires Linked() && page !in pages
      modifies this, page`next, page`prev, pages`prev
      ensures Linked() && pages == [page] + old(pages)
    {
      page.next := head;
      page.prev := null;
      if head != null {
        head.prev := page;
      }
      head := page;
      if tail == null {
        tail := page;
      }
      count := count + 1;
      pages := [page] + pages;
    }

    method Bypass(page: Page, ghost k: nat)
      requires Chain(pages) && Distinct(pages) && k < |pages| && page == pages[k]
      modifies `head, `tail, pages`next, pages`prev
      ensures Bypasses(pages, k)
      ensures page.next == null && page.prev == null
    {
      if page.prev != null {
        page.prev.next := page.next;
      } else {
        head := page.next;
      }
      if page.next != null {
        page.next.prev := page.prev;
      } else {
        tail := page.prev;
      }
      page.next := null;
      page.prev := null;
    }

    method Remove(page: Page)
      requires Linked() && page in pages
      modifies this, pages`next, pages`prev
      ensures Linked() && pages == Without(old(pages), page)
      ensures page.next == null && page.prev == null
    {
      ghost var k :| 0 <= k < |pages| && pages[k] == page;
      WithoutAt(pages, k);
      ghost var r := Without(pages, page);
      Bypass(page, k);
      count := count - 1;
      BypassedChain(pages, k, r);
      StillDistinct(pages, k, r);
      pages := r;
    }
  }

  class Lru {
    const active: PageList
    const inactive: PageList
    ghost var history: seq<Event<Page>>

    ghost function Residents(): set<Page>
      reads active, inactive
    {
      Elems(active.pages) + Elems(inactive.pages)
    }

    /** The pools the pointers stand for. */
    ghost function Contents(): Pools<Page>
      reads active, inactive, active.pages, inactive.pages
    {
      Pools(active.pages, inactive.pages, set p | p in Residents() && p.referenced != 0)
    }

    /** Both lists are well formed and disjoint, and `status` is list membership. */
    ghost predicate Separated()
      reads active, inactive, active.pages, inactive.pages
    {
      && active != inactive
      && active.Linked() && inactive.Linked()
      && (forall p :: p in active.pages ==> p !in inactive.pages && p.status == PAGE_ACTIVE)
      && (forall p :: p in inactive.pages ==> p.status == PAGE_INACTIVE)
    }

    ghost predicate Valid()
      reads this, active, inactive, active.pages, inactive.pages
    {
      Separated() && Legal(history) && Contents() == Run(history)
    }

    constructor ()
      ensures Valid() && history == []
      ensures fresh(active) && fresh(inactive)
    {
      active := new PageList();
      inactive := new PageList();
      history := [];
    }

    ghost predicate Pair(one: PageList, other: PageList) {
      (one == active && other == inactive) || (one == inactive && other == active)
    }

    /** Links an absent page, whose status already names `to`, at the head of `to`. */
    method Attach(page: Page, to: PageList, ghost other: PageList)
      requires Separated() && page !in active.pages && page !in inactive.pages
      requires Pair(to, other) && page.status == (if to == active then PAGE_ACTIVE else PAGE_INACTIVE)
      modifies to, to.pages`prev, page`next, page`prev
      ensures Separated() && to.pages == [page] + old(to.pages)
    {
      to.AddHead(page);
      assert forall p :: p in other.pages ==> p.prev == old(p.prev) && p.next == old(p.next);
      assert other.Linked();
    }

    /** Unlinks a page from the list that holds it. */
    method Detach(page: Page, from: PageList, ghost other: PageList)
      requires Separated() && page in from.pages && Pair(from, other)
      modifies from, from.pages`next, from.pages`prev
      ensures Separated() && from.pages == Without(old(from.pages), page)
      ensures Elems(from.pages) == Elems(old(from.pages)) - {page}
      ensures page.next == null && page.prev == null
      ensures page !in from.pages
      ensures forall p :: p in from.pages ==> p in old(from.pages)
    {
      from.Remove(page);
      assert forall p :: p in other.pages ==> p.prev == old(p.prev) && p.next == old(p.next);
      assert other.Linked();
      ghost var k := WithoutKeepsOrder(old(from.pages), page);
      assert Elems(from.pages) == Elems(old(from.pages)) - {page};
      assert forall p :: p in from.pages ==> p in Elems(from.pages);
    }

    method AddPage(page: Page)
      requires Valid() && page !in active.pages && page !in inactive.pages
      modifies this, inactive, inactive.pages, page
      ensures Valid() && history == old(history) + [Add(page)]
    {
      hide PageList.Linked, Legal, Run;
      ghost var h := history;
      page.status := PAGE_INACTIVE;
      page.referenced := 0;
      Attach(page, inactive, active);
      assert Elems(inactive.pages) == Elems(old(inactive.pages)) + {page};
      assert Contents() == LruModel.AddPage(old(Contents()), page);
      AddExtends(h, page);
      history := h + [Add(page)];
    }

    /** Moves a page to the head of the other list, unreferenced. */
    method Transfer(page: Page, from: PageList, to: PageList, status: int)
      requires Separated() && page in from.pages && Pair(from, to)
      requires status == if to == active then PAGE_ACTIVE else PAGE_INACTIVE
      modifies active, active.pages, inactive, inactive.pages
      ensures Separated()
      ensures from.pages == Without(old(from.pages), page) && to.pages == [page] + old(to.pages)
      ensures Contents().referenced == old(Contents()).referenced - {page}
    {
      hide PageList.Linked, Without;
      Detach(page, from, to);
      page.status := status;
      page.referenced := 0;
      Attach(page, to, from);
      assert Elems(to.pages) == Elems(old(to.pages)) + {page};
      assert Residents() == old(Residents());
      hide Elems;
      assert forall p :: p in Residents() && p != page ==> p.referenced == old(p.referenced);
    }

    method MoveToHead(page: Page)
      requires Separated() && page in active.pages
      modifies active, active.pages
      ensures Separated() && Contents() == LruModel.TouchPage(old(Contents()), page)
    {
      hide PageList.Linked;
      Detach(page, active, inactive);
      ghost var rest := active.pages;
      assert forall i :: 0 <= i < |rest| ==> rest[i] in old(active.pages);
      Attach(page, active, inactive);
      assert Elems(active.pages) == Elems(rest) + {page};
    }

    method MarkReferenced(page: Page)
      requires Separated() && page in inactive.pages && page.referenced == 0
      modifies page`referenced
      ensures Separated() && Contents() == LruModel.TouchPage(old(Contents()), page)
    {
      page.referenced := 1;
      assert active.Linked() && inactive.Linked();
    }

    method Relink(page: Page)
      requires Separated() && (page in active.pages || page in inactive.pages)
      modifies active, active.pages, inactive, inactive.pages
      ensures Separated() && Contents() == LruModel.TouchPage(old(Contents()), page)
    {
      if page.status == PAGE_INACTIVE {
        if page.referenced != 0 {
          Transfer(page, inactive, active, PAGE_ACTIVE);
        } else {
          MarkReferenced(page);
        }
      } else {
        MoveToHead(page);
      }
    }

    method TouchPage(page: Page)
      requires Valid() && (page in active.pages || page in inactive.pages)
      modifies this, active, active.pages, inactive, inactive.pages
      ensures Valid() && history == old(history) + [Touch(page)]
    {
      Relink(page);
      history := history + [Touch(page)];
      assert history[..|history| - 1] == old(history);
    }

    method DemoteActivePages()
      requires Separated()
      modifies active, active.pages, inactive, inactive.pages
      ensures Separated() && Contents() == Demote(old(Contents()))
    {
      if active.tail != null {
        WithoutLast(active.pages);
        Transfer(active.tail, active, inactive, PAGE_INACTIVE);
      }
    }

    /** Unlinks the tail of the inactive list. */
    method TakeTail(page: Page)
      requires Separated() && inactive.pages != [] && page == Last(inactive.pages)
      modifies inactive, inactive.pages
      ensures Separated() && (Contents(), Some(page)) == LruModel.EvictPage(old(Contents()))
      ensures page.next == null && page.prev == null
      ensures page !in active.pages && page !in inactive.pages
    {
      WithoutLast(inactive.pages);
      hide PageList.Linked, Without, Distinct;
      Detach(page, inactive, active);
      assert Contents().referenced == old(Contents()).referenced - {page};
    }

    method Shrink() returns (victim: Option<Page>)
      requires Separated()
      modifies active, active.pages, inactive, inactive.pages
      ensures Separated() && (Contents(), victim) == LruModel.EvictPage(old(Contents()))
      ensures victim.Some? ==>
        && victim.value.next == null && victim.value.prev == null
        && victim.value !in active.pages && victim.value !in inactive.pages
    {
      if inactive.count == 0 {
        DemoteActivePages();
      }
      if inactive.tail == null {
        return None;
      }
      var page := inactive.tail;
      TakeTail(page);
      victim := Some(page);
    }

    /** Returns the page the history calls for, and nothing exactly when nothing is resident. */
    method EvictPage() returns (victim: Option<Page>)
      requires Valid()
      modifies this, active, active.pages, inactive, inactive.pages
      ensures Valid() && history == old(history) + [Evict(victim)]
      ensures victim == None <==> LruModel.Residents(old(history)) == {}
      ensures victim.Some? ==>
        && IsVictim(old(history), victim.value)
        && victim.value.next == null && victim.value.prev == null
        && victim.value !in active.pages && victim.value !in inactive.pages
    {
      hide PageList.Linked, Without, IsVictim, LruModel.Residents, Legal, Run, LruModel.EvictPage;
      EvictionOrder(history);
      ghost var h := history;
      victim := Shrink();
      EvictExtends(h, victim);
      history := h + [Evict(victim)];
    }
  }
}
