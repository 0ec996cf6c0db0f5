/** What the frame allocators promise about the shared bitmaps, and what follows for
    every run of them.

    `Frames` is the value the two bitmaps and `next_free` stand for.  `Step` relates the
    state before a call, the call with its result, and the state after it; the methods
    of `PhysicalMemory` are proved to make only such steps. */
module Frames {
  import opened Basics

  const BITMAP_BITS := 65536   // 8192 bytes per bitmap

  const EINVAL := 22
  const ENOMEM := 12
  const EACCES := 13
  const PROT_NONE := 0

  datatype Frames = Frames(used: set<nat>, protected: set<nat>, total: nat, next: nat, base: nat)
  {
    ghost predicate WellFormed() {
      next <= total <= BITMAP_BITS
    }
  }

  predicate Available(m: Frames, i: nat) {
    i < m.total && i !in m.used && i !in m.protected
  }

  function Pages(start: nat, n: nat): (r: set<nat>)
    ensures forall i :: i in r <==> start <= i < start + n
  {
    if n == 0 then {} else Pages(start, n - 1) + {start + n - 1}
  }

  lemma {:induction false} PagesSize(start: nat, n: nat)
    ensures |Pages(start, n)| == n
  {
    if n > 0 {
      PagesSize(start, n - 1);
    }
  }

  /** `n` consecutive available pages at or above `next_free`. */
  ghost predicate IsRun(m: Frames, start: nat, n: nat) {
    m.next <= start && start + n <= m.total && forall i :: start <= i < start + n ==> Available(m, i)
  }

  lemma RunOfOne(m: Frames, start: nat)
    ensures IsRun(m, start, 1) <==> m.next <= start && Available(m, start)
  {
  }

  ghost predicate IsLowestRun(m: Frames, start: nat, n: nat) {
    IsRun(m, start, n) && forall s :: IsRun(m, s, n) ==> start <= s
  }

  function PagesNeeded(size: nat): nat {
    (size + PAGE_SIZE - 1) / PAGE_SIZE
  }

  /** A block of `PagesNeeded(size)` pages: the lowest run, or nothing when there is none. */
  ghost predicate KmallocStep(m: Frames, size: nat, r: Option<nat>, m': Frames) {
    var n := PagesNeeded(size);
    match r
    case Some(s) => size != 0 && IsLowestRun(m, s, n) && m' == m.(used := m.used + Pages(s, n), next := s + n)
    case None => m' == m && (size == 0 || forall s :: !IsRun(m, s, n))
  }

  /** The first available page at or above `next_free`, or else the first one below it. */
  ghost predicate FirstFit(m: Frames, i: nat) {
    && Available(m, i)
    && if i >= m.next then forall j :: m.next <= j < i ==> !Available(m, j)
       else forall j :: m.next <= j || 0 <= j < i ==> !Available(m, j)
  }

  lemma OneFirstFit(m: Frames, i: nat)
    requires FirstFit(m, i)
    ensures forall j :: FirstFit(m, j) ==> j == i
  {
  }

  /** One available page; nothing only when no page is available. */
  ghost predicate AllocFrameStep(m: Frames, r: Option<nat>, m': Frames) {
    match r
    case Some(i) => FirstFit(m, i) && m' == m.(used := m.used + {i}, next := i + 1)
    case None => m' == m && forall i :: !Available(m, i)
  }

  predicate Unlocked(m: Frames, i: nat) {
    i < m.total && i !in m.protected
  }

  /** The first page a call to mm_mprotect_set_flags does not pass. */
  function MprotectStop(m: Frames, i: nat, end: nat): (stop: nat)
    requires i <= end
    ensures i <= stop <= end
    ensures forall j :: i <= j < stop ==> Unlocked(m, j)
    ensures stop < end ==> !Unlocked(m, stop)
    decreases end - i
  {
    if i == end || !Unlocked(m, i) then i
    else MprotectStop(m, i + 1, end)
  }

  function Minus32(x: int, y: int): nat {
    (x - y) % TWO32
  }

  function StartFrame(m: Frames, address: nat): nat {
    Minus32(address, m.base) / PAGE_SIZE
  }

  /** 32-bit arithmetic, wrap-around included. */
  function EndFrame(m: Frames, address: nat, length: nat): nat {
    Minus32(address + length + PAGE_SIZE - 1, m.base) / PAGE_SIZE
  }

  /** Pages are blocked up to the first one that is locked or does not exist; lifting a
      block never has an effect, because locked pages are refused. */
  ghost predicate MprotectStep(m: Frames, address: nat, length: nat, flags: int, code: int, m': Frames) {
    if address < m.base || length == 0 then m' == m && code == -EINVAL
    else
      var start, end := StartFrame(m, address), EndFrame(m, address, length);
      if end <= start then m' == m && code == 0
      else
        var stop := MprotectStop(m, start, end);
        && m' == (if flags == PROT_NONE then m.(protected := m.protected + Pages(start, stop - start)) else m)
        && code == (if stop == end then 0 else if stop >= m.total then -ENOMEM else -EACCES)
  }

  /** A region below RAM is moved up to its start with its size unchanged. */
  ghost predicate ProtectStep(m: Frames, base: nat, size: nat, m': Frames) {
    if size == 0 then m' == m
    else
      var b := if base < m.base then m.base else base;
      var first, end := (b - m.base) / PAGE_SIZE, (b - m.base + size + PAGE_SIZE - 1) / PAGE_SIZE;
      m' == m.(used := m.used + Pages(first, end - first), protected := m.protected + Pages(first, end - first))
  }

  ghost predicate FreeStep(m: Frames, address: nat, m': Frames) {
    if address < m.base then m' == m
    else
      var i := (address - m.base) / PAGE_SIZE;
      m' == m.(used := m.used - {i}, next := if i < m.next then i else m.next)
  }

  ghost predicate SwapOutStep(m: Frames, i: nat, code: int, m': Frames) {
    if i in m.protected then m' == m && code == -1
    else m' == m.(used := m.used - {i}) && code == 0
  }

  // ---------------------------------------------------------------- runs

  datatype Event =
    | Kmalloc(size: nat, block: Option<nat>)
    | AllocFrame(frame: Option<nat>)
    | Protect(from: nat, length: nat)
    | Mprotect(address: nat, length: nat, flags: int, code: int)
    | Free(address: nat)
    | SwapOut(index: nat, code: int)
    | SwapIn(block: Option<nat>)

  ghost predicate Step(m: Frames, e: Event, m': Frames) {
    match e
    case Kmalloc(size, r) => KmallocStep(m, size, r, m')
    case AllocFrame(r) => AllocFrameStep(m, r, m')
    case Protect(base, size) => ProtectStep(m, base, size, m')
    case Mprotect(address, length, flags, code) => MprotectStep(m, address, length, flags, code, m')
    case Free(address) => FreeStep(m, address, m')
    case SwapOut(i, code) => SwapOutStep(m, i, code, m')
    case SwapIn(r) => KmallocStep(m, PAGE_SIZE, r, m')
  }

  ghost predicate IsRunOf(ms: seq<Frames>, es: seq<Event>) {
    |ms| == |es| + 1 && forall i :: 0 <= i < |es| ==> Step(ms[i], es[i], ms[i + 1])
  }

  /** The pages a call hands to its caller, in order. */
  function Handed(e: Event): seq<nat> {
    match e
    case Kmalloc(size, Some(s)) => seq(PagesNeeded(size), i requires 0 <= i => s + i)
    case SwapIn(Some(s)) => [s]
    case AllocFrame(Some(i)) => [i]
    case _ => []
  }

  /** The page a call takes back, given where RAM starts. */
  function Released(e: Event, base: nat): set<nat> {
    match e
    case Free(address) => if address < base then {} else {(address - base) / PAGE_SIZE}
    case SwapOut(i, code) => if code == 0 then {i} else {}
    case _ => {}
  }

  /** Every page handed out and not released since, once per time it was handed out. */
  function Live(es: seq<Event>, base: nat): seq<nat> {
    if es == [] then []
    else
      var e := es[|es| - 1];
      Drop(Live(es[..|es| - 1], base), Released(e, base)) + Handed(e)
  }

  /** What a step keeps: the shape of the state, and the protection of every page. */
  lemma StepKeeps(m: Frames, e: Event, m': Frames)
    requires m.WellFormed() && Step(m, e, m')
    ensures m'.WellFormed() && m'.base == m.base && m'.total == m.total
    ensures m.protected <= m'.protected
  {
  }

  /** A step hands out only pages that were available, each once, and only it marks them. */
  lemma StepHands(m: Frames, e: Event, m': Frames)
    requires Step(m, e, m')
    ensures Distinct(Handed(e))
    ensures forall i :: i in Handed(e) ==> Available(m, i) && i in m'.used
    ensures m.used - Released(e, m.base) <= m'.used
  {
    match e
    case Kmalloc(size, Some(s)) =>
      forall i | i in Handed(e)
        ensures Available(m, i) && i in m'.used
      {
        assert s <= i < s + PagesNeeded(size);
      }
    case SwapIn(Some(s)) =>
      assert PagesNeeded(PAGE_SIZE) == 1;
      assert Available(m, s);
    case _ =>
  }

  lemma DistinctConcat(a: seq<nat>, b: seq<nat>)
    requires Distinct(a) && Distinct(b) && forall x :: x in a ==> x !in b
    ensures Distinct(a + b)
  {
    forall i, j | 0 <= i < j < |a + b|
      ensures (a + b)[i] != (a + b)[j]
    {
      if i < |a| <= j {
        assert a[i] in a && b[j - |a|] in b;
      }
    }
  }

  /** Pages handed out and not released are pairwise different, and are marked used. */
  lemma {:induction false} LivePagesDisjoint(ms: seq<Frames>, es: seq<Event>)
    requires IsRunOf(ms, es) && ms[0].WellFormed()
    ensures ms[|es|].WellFormed() && ms[|es|].base == ms[0].base
    ensures Distinct(Live(es, ms[0].base))
    ensures forall i :: i in Live(es, ms[0].base) ==> i in ms[|es|].used
  {
    if es != [] {
      var n := |es| - 1;
      var base := ms[0].base;
      LivePagesDisjoint(ms[..n + 1], es[..n]);
      StepKeeps(ms[n], es[n], ms[n + 1]);
      StepHands(ms[n], es[n], ms[n + 1]);
      DistinctConcat(Drop(Live(es[..n], base), Released(es[n], base)), Handed(es[n]));
    }
  }

  /** Protection only grows over a run. */
  lemma {:induction false} ProtectionGrows(ms: seq<Frames>, es: seq<Event>, i: nat, j: nat)
    requires IsRunOf(ms, es) && ms[0].WellFormed() && i <= j <= |es|
    ensures ms[j].WellFormed()
    ensures ms[i].protected <= ms[j].protected
    decreases j
  {
    if j > 0 {
      ProtectionGrows(ms, es, if i < j then i else j - 1, j - 1);
      StepKeeps(ms[j - 1], es[j - 1], ms[j]);
    }
  }

  /** A page once protected is never handed out again, whatever is freed in between. */
  lemma ProtectedNeverHandedOut(ms: seq<Frames>, es: seq<Event>, i: nat, j: nat, page: nat)
    requires IsRunOf(ms, es) && ms[0].WellFormed() && i <= j < |es|
    requires page in ms[i].protected
    ensures page !in Handed(es[j])
  {
    ProtectionGrows(ms, es, i, j);
    StepHands(ms[j], es[j], ms[j + 1]);
  }

  // ---------------------------------------------------------------- runs of allocations

  predicate IsAllocation(e: Event) {
    e.Kmalloc? || e.AllocFrame? || e.SwapIn?
  }

  /** Pages are only taken, and only available ones. */
  ghost predicate Grows(m: Frames, m': Frames) {
    && m'.base == m.base && m'.total == m.total && m'.protected == m.protected
    && m.used <= m'.used
    && forall i :: i in m'.used && i !in m.used ==> Available(m, i)
  }

  ghost predicate AllocationRun(m: Frames, ms: seq<Frames>, es: seq<Event>, m': Frames) {
    IsRunOf(ms, es) && ms[0] == m && ms[|es|] == m' && forall e :: e in es ==> IsAllocation(e)
  }

  /** Some allocations lead from one state to the other. */
  ghost predicate Allocates(m: Frames, m': Frames) {
    exists ms, es :: AllocationRun(m, ms, es, m')
  }

  lemma NoAllocation(m: Frames)
    ensures Allocates(m, m)
  {
    assert AllocationRun(m, [m], [], m);
  }

  lemma StepExtends(ms: seq<Frames>, es: seq<Event>, e: Event, m: Frames)
    requires IsRunOf(ms, es) && Step(ms[|es|], e, m)
    ensures IsRunOf(ms + [m], es + [e])
  {
    hide Step;
    var ns, fs := ms + [m], es + [e];
    forall i | 0 <= i < |fs|
      ensures Step(ns[i], fs[i], ns[i + 1])
    {
      if i < |es| {
        assert Step(ms[i], es[i], ms[i + 1]);
      }
    }
  }

  lemma OneMoreAllocation(m: Frames, m1: Frames, e: Event, m2: Frames)
    requires Allocates(m, m1) && Step(m1, e, m2) && IsAllocation(e)
    ensures Allocates(m, m2)
  {
    hide Step;
    var ms, es :| AllocationRun(m, ms, es, m1);
    StepExtends(ms, es, e, m2);
    assert AllocationRun(m, ms + [m2], es + [e], m2);
  }

  lemma AllocationGrows(m: Frames, e: Event, m': Frames)
    requires Step(m, e, m') && IsAllocation(e)
    ensures Grows(m, m')
  {
  }

  lemma {:induction false} AllocationsGrow(m: Frames, ms: seq<Frames>, es: seq<Event>, m': Frames)
    requires AllocationRun(m, ms, es, m')
    ensures Grows(m, m')
    decreases |es|
  {
    hide Step;
    if es != [] {
      var n := |es| - 1;
      assert Step(ms[n], es[n], ms[n + 1]) && es[n] in es;
      AllocationsGrow(m, ms[..n + 1], es[..n], ms[n]);
      AllocationGrows(ms[n], es[n], m');
    }
  }

  lemma AllocatesGrows(m: Frames, m': Frames)
    requires Allocates(m, m')
    ensures Grows(m, m')
  {
    var ms, es :| AllocationRun(m, ms, es, m');
    AllocationsGrow(m, ms, es, m');
  }

  /** Any run goes on with the allocations another component makes, and every page in use
      before is in use after them. */
  lemma {:induction false} RunGoesOn(ms: seq<Frames>, es: seq<Event>, m': Frames)
    returns (ns: seq<Frames>, fs: seq<Event>)
    requires IsRunOf(ms, es) && Allocates(ms[|es|], m')
    ensures IsRunOf(ns, fs) && ms <= ns && es <= fs && ns[|fs|] == m'
    ensures Live(es, ms[0].base) <= Live(fs, ms[0].base)
  {
    var more, gs :| AllocationRun(ms[|es|], more, gs, m');
    ns, fs := GoOn(ms, es, more, gs);
  }

  lemma {:induction false} GoOn(ms: seq<Frames>, es: seq<Event>, more: seq<Frames>, gs: seq<Event>)
    returns (ns: seq<Frames>, fs: seq<Event>)
    requires IsRunOf(ms, es) && |more| == |gs| + 1 && AllocationRun(ms[|es|], more, gs, more[|gs|])
    ensures IsRunOf(ns, fs) && ms <= ns && es <= fs && ns[|fs|] == more[|gs|]
    ensures Live(es, ms[0].base) <= Live(fs, ms[0].base)
    decreases |gs|
  {
    hide Step;
    ns, fs := ms, es;
    if gs != [] {
      var n := |gs| - 1;
      assert Step(more[n], gs[n], more[n + 1]) && gs[n] in gs;
      ns, fs := GoOn(ms, es, more[..n + 1], gs[..n]);
      StepExtends(ns, fs, gs[n], more[n + 1]);
      NothingReleased(fs, gs[n], ms[0].base);
      ns, fs := ns + [more[n + 1]], fs + [gs[n]];
    }
  }

  lemma NothingReleased(es: seq<Event>, e: Event, base: nat)
    requires IsAllocation(e)
    ensures Live(es, base) <= Live(es + [e], base)
  {
    assert (es + [e])[..|es|] == es;
    DropNothing(Live(es, base));
  }

  lemma {:induction false} DropNothing(live: seq<nat>)
    ensures Drop(live, {}) == live
  {
    if live != [] {
      DropNothing(live[1..]);
    }
  }

  /** Only pages a step releases become available by it. */
  lemma StepAvailable(m: Frames, e: Event, m': Frames, i: nat)
    requires Step(m, e, m') && Available(m', i)
    ensures m'.base == m.base && (Available(m, i) || i in Released(e, m.base))
  {
  }

  // ---------------------------------------------------------------- free memory

  /** mm_get_free_memory counts clear bits, protected or not. */
  function FreePages(m: Frames): set<nat> {
    set i | 0 <= i < m.total && i !in m.used
  }

  lemma TookPages(m: Frames, m': Frames, taken: set<nat>)
    requires m'.total == m.total && m'.used == m.used + taken
    requires forall i :: i in taken ==> Available(m, i)
    ensures |FreePages(m')| == |FreePages(m)| - |taken|
  {
    assert FreePages(m') == FreePages(m) - taken;
    assert taken <= FreePages(m);
  }

  lemma BlockCost(m: Frames, size: nat, r: Option<nat>, m': Frames)
    requires KmallocStep(m, size, r, m')
    ensures |FreePages(m')| == |FreePages(m)| - (if r.Some? then PagesNeeded(size) else 0)
  {
    match r
    case Some(s) =>
      PagesSize(s, PagesNeeded(size));
      TookPages(m, m', Pages(s, PagesNeeded(size)));
    case None =>
  }

  /** An allocation lowers the number of free pages by exactly the pages it took. */
  lemma AllocationCost(m: Frames, e: Event, m': Frames)
    requires Step(m, e, m') && IsAllocation(e)
    ensures |FreePages(m')| == |FreePages(m)| - |Handed(e)|
  {
    match e
    case Kmalloc(size, r) => BlockCost(m, size, r, m');
    case SwapIn(r) => BlockCost(m, PAGE_SIZE, r, m');
    case AllocFrame(Some(i)) => TookPages(m, m', {i});
    case _ =>
  }
}
