/** The counting semaphore of kernel/locking/semaphore.c as interleaved atomic steps. */
module Semaphore {

  datatype Pc =
    | Idle
    | Want                 // about to load the count in sem_down
    | Seen(current: int)   // has loaded a count > 0, about to compare and swap
    | Refused              // has loaded a count <= 0, about to register as a waiter
    | Waiting
    | Holding

  datatype State = State(count: int, waiters: int, pc: map<nat, Pc>)

  function At(s: State, p: Pc): set<nat> {
    set t | t in s.pc && s.pc[t] == p
  }

  /** How many threads are at a place. */
  function Count(s: State, p: Pc): nat {
    |At(s, p)|
  }

  function Moved(s: State, t: nat, p: Pc): State {
    s.(pc := s.pc[t := p])
  }

  /** One atomic step of thread `t`.  Only a holder calls sem_up. */
  predicate Step(s: State, t: nat, s': State) {
    t in s.pc &&
    match s.pc[t]
    case Idle => s' == Moved(s, t, Want)
    case Want => s' == Moved(s, t, if s.count > 0 then Seen(s.count) else Refused)
    case Seen(current) =>
      s' == if s.count == current then Moved(s, t, Holding).(count := current - 1) else Moved(s, t, Want)
    case Refused => s' == Moved(s, t, Waiting).(waiters := s.waiters + 1)
    case Waiting => s' == Moved(s, t, Want).(waiters := s.waiters - 1)
    case Holding => s' == Moved(s, t, Idle).(count := s.count + 1)
  }

  ghost predicate IsRunOf(ss: seq<State>, ts: seq<nat>) {
    |ss| == |ts| + 1 && forall i :: 0 <= i < |ts| ==> Step(ss[i], ts[i], ss[i + 1])
  }

  /** sem_init. */
  ghost predicate Start(s: State) {
    s.waiters == 0 && forall t :: t in s.pc ==> s.pc[t] == Idle
  }

  ghost predicate Inv(s: State, initial: int) {
    && s.count + Count(s, Holding) == initial
    && s.waiters == Count(s, Waiting)
    && (Count(s, Holding) > 0 ==> s.count >= 0)
    && (forall t :: t in s.pc && s.pc[t].Seen? ==> s.pc[t].current > 0)
  }

  /** A move takes one thread from one place to another. */
  lemma MovedCount(s: State, t: nat, p: Pc, s': State, q: Pc)
    requires t in s.pc && s'.pc == s.pc[t := p]
    ensures Count(s', q) == Count(s, q) + (if p == q then 1 else 0) - (if s.pc[t] == q then 1 else 0)
  {
    assert At(s', q) == if p == q then At(s, q) + {t} else At(s, q) - {t};
  }

  lemma StepKeeps(s: State, t: nat, s': State, initial: int)
    requires Inv(s, initial) && Step(s, t, s')
    ensures Inv(s', initial)
  {
    hide Count;
    MovedCount(s, t, s'.pc[t], s', Holding);
    MovedCount(s, t, s'.pc[t], s', Waiting);
  }

  lemma {:induction false} RunKeeps(ss: seq<State>, ts: seq<nat>, n: nat)
    requires IsRunOf(ss, ts) && Start(ss[0]) && n <= |ts|
    ensures Inv(ss[n], ss[0].count)
  {
    if n == 0 {
      assert At(ss[0], Holding) == {} && At(ss[0], Waiting) == {};
    } else {
      hide Step, Inv;
      RunKeeps(ss, ts, n - 1);
      StepKeeps(ss[n - 1], ts[n - 1], ss[n], ss[0].count);
    }
  }

  /** In every interleaving the count and the holders add up to the initial count, so there
      are never more holders than tokens and the count never goes below zero; a semaphore
      that starts without tokens is never held; and total_waiters is the number of threads
      waiting. */
  lemma TokensConserved(ss: seq<State>, ts: seq<nat>, n: nat)
    requires IsRunOf(ss, ts) && Start(ss[0]) && n <= |ts|
    ensures ss[n].count + |At(ss[n], Holding)| == ss[0].count
    ensures ss[n].waiters == |At(ss[n], Waiting)|
    ensures ss[0].count >= 0 ==> 0 <= ss[n].count <= ss[0].count
    ensures ss[0].count <= 0 ==> At(ss[n], Holding) == {} && ss[n].count == ss[0].count
  {
    RunKeeps(ss, ts, n);
  }

  // ---------------------------------------------------------------- progress

  /** Undisturbed, a thread that wants a token has it after two steps when there are fewer
      holders than tokens, and goes to wait when there are not. */
  lemma TokenIsTaken(s: State, initial: int, t: nat, s1: State, s2: State)
    requires Inv(s, initial) && t in s.pc && s.pc[t] == Want && Step(s, t, s1) && Step(s1, t, s2)
    ensures t in s2.pc
    ensures |At(s, Holding)| < initial ==> s2.pc[t] == Holding
    ensures |At(s, Holding)| >= initial ==> s2.pc[t] == Waiting
  {
  }

  /** A holder gives its token back in one step, a waiter tries again, and no step moves
      another thread. */
  lemma StepsLeaveOthers(s: State, t: nat, s': State, u: nat)
    requires Step(s, t, s') && u in s.pc
    ensures t in s'.pc && (s.pc[t] == Holding ==> s'.pc[t] == Idle) && (s.pc[t] == Waiting ==> s'.pc[t] == Want)
    ensures u in s'.pc && (u != t ==> s'.pc[u] == s.pc[u])
  {
  }
}
