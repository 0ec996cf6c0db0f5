/** The reader-writer semaphore of kernel/locking/rwsem.c as interleaved atomic steps: a
    load of the counter, a compare-and-swap, or an atomic subtraction at a time. */
module ReaderWriterLock {
  import opened Basics

  /** Where a thread is in the lock's code. */
  datatype Pc =
    | Idle
    | WantRead                 // about to load activity_count in rwsem_down_read
    | ReadSeen(current: int)   // has loaded a count >= 0, about to compare and swap
    | Reading
    | WantWrite                // about to compare and swap in rwsem_down_write
    | Writing

  /** The counter, and the threads that exist. */
  datatype State = State(count: int, pc: map<nat, Pc>)

  function At(s: State, p: Pc): set<nat> {
    set t | t in s.pc && s.pc[t] == p
  }

  /** How many threads are at a place. */
  function Count(s: State, p: Pc): nat {
    |At(s, p)|
  }

  function Moved(s: State, t: nat, p: Pc, count: int): State {
    State(count, s.pc[t := p])
  }

  /** One atomic step of thread `t`.  Threads release only what they hold. */
  predicate Step(s: State, t: nat, s': State) {
    t in s.pc &&
    match s.pc[t]
    case Idle => s' == Moved(s, t, WantRead, s.count) || s' == Moved(s, t, WantWrite, s.count)
    case WantRead => s' == Moved(s, t, if s.count >= 0 then ReadSeen(s.count) else WantRead, s.count)
    case ReadSeen(current) =>
      s' == if s.count == current then Moved(s, t, Reading, current + 1) else Moved(s, t, WantRead, s.count)
    case Reading => s' == Moved(s, t, Idle, s.count - 1)
    case WantWrite => s' == if s.count == 0 then Moved(s, t, Writing, -1) else Moved(s, t, WantWrite, s.count)
    case Writing => s' == Moved(s, t, Idle, if s.count == -1 then 0 else s.count)
  }

  /** Any interleaving: at each step some thread moves. */
  ghost predicate IsRunOf(ss: seq<State>, ts: seq<nat>) {
    |ss| == |ts| + 1 && forall i :: 0 <= i < |ts| ==> Step(ss[i], ts[i], ss[i + 1])
  }

  ghost predicate Start(s: State) {
    s.count == 0 && forall t :: t in s.pc ==> s.pc[t] == Idle
  }

  /** The counter is -1 with one writer and no reader inside, and otherwise the number of
      readers with no writer inside; loaded counts were not negative. */
  ghost predicate Inv(s: State) {
    && (if s.count == -1 then Count(s, Writing) == 1 && Count(s, Reading) == 0
        else s.count == Count(s, Reading) && Count(s, Writing) == 0)
    && (forall t :: t in s.pc && s.pc[t].ReadSeen? ==> s.pc[t].current >= 0)
  }

  /** A move takes one thread from one place to another. */
  lemma MovedCount(s: State, t: nat, p: Pc, count: int, q: Pc)
    requires t in s.pc
    ensures Count(Moved(s, t, p, count), q) ==
              Count(s, q) + (if p == q then 1 else 0) - (if s.pc[t] == q then 1 else 0)
  {
    assert At(Moved(s, t, p, count), q) == if p == q then At(s, q) + {t} else At(s, q) - {t};
  }

  lemma StepKeeps(s: State, t: nat, s': State)
    requires Inv(s) && Step(s, t, s')
    ensures Inv(s') && s'.pc.Keys == s.pc.Keys
  {
    hide Count;
    MovedCount(s, t, s'.pc[t], s'.count, Reading);
    MovedCount(s, t, s'.pc[t], s'.count, Writing);
  }

  lemma OnlyOne(a: set<nat>, t: nat)
    requires |a| == 1 && t in a
    ensures a - {t} == {}
  {
    assert |a - {t}| == 0;
  }

  lemma {:induction false} RunKeeps(ss: seq<State>, ts: seq<nat>, n: nat)
    requires IsRunOf(ss, ts) && Start(ss[0]) && n <= |ts|
    ensures Inv(ss[n]) && ss[n].pc.Keys == ss[0].pc.Keys
  {
    if n == 0 {
      assert At(ss[0], Reading) == {} && At(ss[0], Writing) == {};
    } else {
      hide Step, Inv;
      RunKeeps(ss, ts, n - 1);
      StepKeeps(ss[n - 1], ts[n - 1], ss[n]);
    }
  }

  /** In every interleaving of any number of threads: a writer is alone, the counter is -1
      exactly while a writer is inside, otherwise it is the number of readers, and it never
      exceeds the number of threads. */
  lemma WritersAreAlone(ss: seq<State>, ts: seq<nat>, n: nat)
    requires IsRunOf(ss, ts) && Start(ss[0]) && n <= |ts|
    ensures var s := ss[n];
      && (s.count == -1 <==> At(s, Writing) != {})
      && (s.count != -1 ==> s.count == |At(s, Reading)|)
      && (forall t, u :: t in At(s, Writing) && u in At(s, Reading) + At(s, Writing) ==> u == t)
      && -1 <= s.count <= |ss[0].pc.Keys|
  {
    RunKeeps(ss, ts, n);
    hide Step;
    var s := ss[n];
    SubsetSize(At(s, Reading), s.pc.Keys);
    if t :| t in At(s, Writing) {
      OnlyOne(At(s, Writing), t);
    }
  }

  // ---------------------------------------------------------------- progress

  lemma NobodyAt(s: State, p: Pc)
    ensures Count(s, p) == 0 <==> forall t :: t in s.pc ==> s.pc[t] != p
  {
    if Count(s, p) == 0 {
      forall t | t in s.pc
        ensures s.pc[t] != p
      {
        assert t !in At(s, p);
      }
    } else {
      var t :| t in At(s, p);
    }
  }

  /** Undisturbed, a thread that wants to read is inside after two steps when no writer is,
      and waits when one is. */
  lemma ReaderGetsIn(s: State, t: nat, s1: State, s2: State)
    requires Inv(s) && t in s.pc && s.pc[t] == WantRead && Step(s, t, s1) && Step(s1, t, s2)
    ensures t in s1.pc && t in s2.pc
    ensures (forall u :: u in s.pc ==> s.pc[u] != Writing) ==> s2.pc[t] == Reading
    ensures (exists u :: u in s.pc && s.pc[u] == Writing) ==> s1 == s
  {
    NobodyAt(s, Writing);
    if s.count == -1 {
      assert s1.pc == s.pc;
    }
  }

  /** A thread that wants to write gets in exactly when nobody is inside. */
  lemma WriterGetsIn(s: State, t: nat, s1: State)
    requires Inv(s) && t in s.pc && s.pc[t] == WantWrite && Step(s, t, s1)
    ensures t in s1.pc
    ensures s1.pc[t] == Writing <==> forall u :: u in s.pc ==> s.pc[u] != Reading && s.pc[u] != Writing
    ensures s1.pc[t] != Writing ==> s1 == s
  {
    NobodyAt(s, Reading);
    NobodyAt(s, Writing);
    if s.count != 0 {
      assert s1.pc == s.pc;
    }
  }

  /** A thread inside leaves in one step, and no step moves another thread. */
  lemma StepsLeaveOthers(s: State, t: nat, s': State, u: nat)
    requires Step(s, t, s') && u in s.pc
    ensures t in s'.pc && (s.pc[t] == Reading || s.pc[t] == Writing ==> s'.pc[t] == Idle)
    ensures u in s'.pc && (u != t ==> s'.pc[u] == s.pc[u])
  {
  }
}
