/**
 The ticket spinlock as interleaved steps of any number of threads over one lock word, whose low
 half is `owner` and whose high half is `next`, both wrapping at 16 bits. The abstract lock is
 the queue of threads that hold a ticket, first the one being served.
 */
module Spinlock {

  const TICKETS := 0x1_0000

  // ---------------------------------------------------------------- the lock word

  const WORD := 0x1_0000_0000

  /** An unsigned 32-bit word, and its halves. */
  type Word = w: nat | w < WORD

  function Owner(w: Word): nat { w % TICKETS }
  function Next(w: Word): nat { w / TICKETS }

  /** `slock ror 16` exchanges the halves. */
  function Ror16(w: Word): Word { Owner(w) * TICKETS + Next(w) }

  /** `add newval, lockval, 1 << TICKET_SHIFT`, which wraps at 32 bits. */
  function AddTicket(w: Word): Word { (w + TICKETS) % WORD }

  /** Taking a ticket leaves the owner alone, even on wrap-around. */
  lemma TakeTicketWord(w: Word)
    ensures Owner(AddTicket(w)) == Owner(w)
    ensures Next(AddTicket(w)) == (Next(w) + 1) % TICKETS
  {
  }

  /** `subs contended, slock, slock ror 16` gives zero exactly when the halves are equal. */
  lemma ContendedWord(w: Word)
    ensures (w - Ror16(w)) % WORD == 0 <==> Owner(w) == Next(w)
  {
    assert w == Next(w) * TICKETS + Owner(w);
    var d := Next(w) - Owner(w);
    assert w - Ror16(w) == d * (TICKETS - 1);
    assert -WORD < w - Ror16(w) < WORD;
  }

  // ---------------------------------------------------------------- threads and steps

  type Thread = nat

  /** Where a thread is. A waiting thread has its ticket and the owner it read last; an unlocking
      one has loaded the owner it is about to increment. */
  datatype Pc = Idle | Waiting(ticket: nat, seen: nat) | Holding | Unlocking(loaded: nat)

  datatype State = State(owner: nat, next: nat, pc: map<Thread, Pc>)

  datatype Action = Take | Reread | Enter | TryTake | TryFail | LoadOwner | StoreOwner

  /** The instructions of spinlock_acquire, spin_trylock and spin_unlock that touch the lock, and
      the exit of the waiting loop. */
  ghost predicate Enabled(s: State, t: Thread, a: Action) {
    t in s.pc &&
    match a
    case Take => s.pc[t].Idle?
    case Reread => s.pc[t].Waiting? && s.pc[t].ticket != s.pc[t].seen
    case Enter => s.pc[t].Waiting? && s.pc[t].ticket == s.pc[t].seen
    case TryTake => s.pc[t].Idle? && s.next == s.owner
    case TryFail => s.pc[t].Idle? && s.next != s.owner
    case LoadOwner => s.pc[t].Holding?
    case StoreOwner => s.pc[t].Unlocking?
  }

  ghost function Step(s: State, t: Thread, a: Action): State
    requires Enabled(s, t, a)
  {
    match a
    case Take => State(s.owner, (s.next + 1) % TICKETS, s.pc[t := Waiting(s.next, s.owner)])
    case Reread => s.(pc := s.pc[t := Waiting(s.pc[t].ticket, s.owner)])
    case Enter => s.(pc := s.pc[t := Holding])
    case TryTake => State(s.owner, (s.next + 1) % TICKETS, s.pc[t := Holding])
    case TryFail => s
    case LoadOwner => s.(pc := s.pc[t := Unlocking(s.owner)])
    case StoreOwner => State((s.pc[t].loaded + 1) % TICKETS, s.next, s.pc[t := Idle])
  }

  // ---------------------------------------------------------------- the steps on the word

  /** The word holds the two counters. */
  ghost predicate Shows(w: Word, s: State) { Owner(w) == s.owner && Next(w) == s.next }

  /** `owner++` on a value that was loaded: the halfword store of spin_unlock. */
  function StoreNext(w: Word, loaded: nat): Word { Next(w) * TICKETS + (loaded + 1) % TICKETS }

  /** What each step stores in the word. */
  ghost function WordAfter(w: Word, s: State, t: Thread, a: Action): Word
    requires Enabled(s, t, a)
  {
    match a
    case Take => AddTicket(w)
    case TryTake => AddTicket(w)
    case StoreOwner => StoreNext(w, s.pc[t].loaded)
    case _ => w
  }

  /** The instructions on the word do what the steps do to the counters, and the difference that
      spin_trylock tests is the one the steps branch on. */
  lemma WordSteps(w: Word, s: State, t: Thread, a: Action)
    requires Shows(w, s) && Enabled(s, t, a)
    ensures Shows(WordAfter(w, s, t, a), Step(s, t, a))
    ensures a == TryTake ==> (w - Ror16(w)) % WORD == 0
    ensures a == TryFail ==> (w - Ror16(w)) % WORD != 0
  {
    TakeTicketWord(w);
    ContendedWord(w);
  }

  /** The abstract lock: taking a ticket joins the queue, unlocking leaves its front. */
  ghost function Queue'(q: seq<Thread>, t: Thread, a: Action): seq<Thread> {
    match a
    case Take => q + [t]
    case TryTake => q + [t]
    case StoreOwner => if q == [] then q else q[1..]
    case _ => q
  }

  // ---------------------------------------------------------------- the invariant

  ghost predicate Distinct(q: seq<Thread>) {
    forall i, j :: 0 <= i < j < |q| ==> q[i] != q[j]
  }

  /** What holds of the thread at place `i` of the queue. */
  ghost predicate Placed(s: State, t: Thread, i: nat) {
    t in s.pc &&
    match s.pc[t]
    case Idle => false
    case Waiting(ticket, seen) => ticket == (s.owner + i) % TICKETS && (seen == ticket ==> i == 0)
    case Holding => i == 0
    case Unlocking(loaded) => i == 0 && loaded == s.owner
  }

  /** The lock word counts the queue, and the queue is exactly the threads that are not idle. */
  ghost predicate Inv(s: State, q: seq<Thread>) {
    && s.owner < TICKETS && s.next == (s.owner + |q|) % TICKETS
    && |q| < TICKETS && Distinct(q)
    && (forall i :: 0 <= i < |q| ==> Placed(s, q[i], i))
    && (forall t :: t in s.pc && !s.pc[t].Idle? ==> t in q)
  }

  /** With fewer than 65536 tickets outstanding, equal halves mean an empty queue. */
  lemma HalvesEqual(s: State, q: seq<Thread>)
    requires s.owner < TICKETS && s.next == (s.owner + |q|) % TICKETS
    ensures s.next == s.owner <==> |q| % TICKETS == 0
  {
  }

  /** Every step keeps the invariant and is a step of the queue. */
  lemma StepKeeps(s: State, q: seq<Thread>, t: Thread, a: Action)
    requires Inv(s, q) && Enabled(s, t, a) && |Queue'(q, t, a)| < TICKETS
    ensures Inv(Step(s, t, a), Queue'(q, t, a))
  {
    match a {
      case Take => JoinKeeps(s, q, t, a);
      case TryTake => JoinKeeps(s, q, t, a);
      case StoreOwner => LeaveKeeps(s, q, t);
      case _ => StayKeeps(s, q, t, a);
    }
  }

  lemma JoinKeeps(s: State, q: seq<Thread>, t: Thread, a: Action)
    requires Inv(s, q) && Enabled(s, t, a) && |q| + 1 < TICKETS && (a == Take || a == TryTake)
    ensures Inv(Step(s, t, a), Queue'(q, t, a))
  {
    var s', q' := Step(s, t, a), q + [t];
    forall i | 0 <= i < |q| ensures q[i] != t { assert Placed(s, q[i], i); }
    HalvesEqual(s, q);
    NextTicket(s.owner, |q|);
    forall i | 0 <= i < |q'| ensures Placed(s', q'[i], i) {
      if i < |q| { assert q'[i] == q[i] && Placed(s, q[i], i); }
    }
  }

  lemma NextTicket(o: nat, m: nat)
    ensures ((o + m) % TICKETS + 1) % TICKETS == (o + (m + 1)) % TICKETS
    ensures ((o + 1) % TICKETS + m) % TICKETS == (o + (m + 1)) % TICKETS
  {
  }

  lemma LeaveKeeps(s: State, q: seq<Thread>, t: Thread)
    requires Inv(s, q) && Enabled(s, t, StoreOwner)
    ensures Inv(Step(s, t, StoreOwner), Queue'(q, t, StoreOwner))
  {
    var s', q' := Step(s, t, StoreOwner), q[1..];
    OwnerIsFront(s, q, t);
    assert Placed(s, q[0], 0);
    NextTicket(s.owner, |q'|);
    forall i | 0 <= i < |q'| ensures Placed(s', q'[i], i) {
      assert q'[i] == q[i + 1] && Placed(s, q[i + 1], i + 1);
      NextTicket(s.owner, i);
    }
    forall u | u in s'.pc && !s'.pc[u].Idle? ensures u in q' {
      var j :| 0 <= j < |q| && q[j] == u;
      assert q'[j - 1] == u;
    }
  }

  lemma StayKeeps(s: State, q: seq<Thread>, t: Thread, a: Action)
    requires Inv(s, q) && Enabled(s, t, a)
    requires a == Reread || a == Enter || a == TryFail || a == LoadOwner
    ensures Inv(Step(s, t, a), q)
  {
    var s' := Step(s, t, a);
    forall i | 0 <= i < |q| ensures Placed(s', q[i], i) {
      assert Placed(s, q[i], i);
    }
  }

  // ---------------------------------------------------------------- runs

  datatype Event = Event(t: Thread, a: Action)

  /** `s'` is reached from `s` by the given events, in some interleaving. */
  ghost predicate Runs(s: State, es: seq<Event>, s': State)
    decreases es
  {
    if es == [] then s' == s
    else Enabled(s, es[0].t, es[0].a) && Runs(Step(s, es[0].t, es[0].a), es[1..], s')
  }

  ghost function QueueAfter(q: seq<Thread>, es: seq<Event>): seq<Thread>
    decreases es
  {
    if es == [] then q else QueueAfter(Queue'(q, es[0].t, es[0].a), es[1..])
  }

  /** At most 65535 tickets are outstanding at any time. */
  ghost predicate Modest(q: seq<Thread>, es: seq<Event>)
    decreases es
  {
    |q| < TICKETS && (es == [] || Modest(Queue'(q, es[0].t, es[0].a), es[1..]))
  }

  lemma {:induction false} RunKeeps(s: State, q: seq<Thread>, es: seq<Event>, s': State)
    requires Inv(s, q) && Runs(s, es, s') && Modest(q, es)
    ensures Inv(s', QueueAfter(q, es))
    decreases es
  {
    if es != [] {
      StepKeeps(s, q, es[0].t, es[0].a);
      RunKeeps(Step(s, es[0].t, es[0].a), Queue'(q, es[0].t, es[0].a), es[1..], s');
    }
  }

  /** SPINLOCK_INIT with all threads idle. */
  ghost predicate Initial(s: State) {
    s.owner == 0 && s.next == 0 && forall t :: t in s.pc ==> s.pc[t].Idle?
  }

  ghost predicate Owns(s: State, t: Thread) {
    t in s.pc && (s.pc[t].Holding? || s.pc[t].Unlocking?)
  }

  lemma OwnerIsFront(s: State, q: seq<Thread>, t: Thread)
    requires Inv(s, q) && Owns(s, t)
    ensures q != [] && q[0] == t
  {
    var i :| 0 <= i < |q| && q[i] == t;
    assert Placed(s, q[i], i);
  }

  /** Mutual exclusion, over every interleaving of any number of threads. */
  lemma MutualExclusion(s0: State, es: seq<Event>, s: State, t: Thread, u: Thread)
    requires Initial(s0) && Runs(s0, es, s) && Modest([], es) && Owns(s, t) && Owns(s, u)
    ensures t == u
  {
    RunKeeps(s0, [], es, s);
    OwnerIsFront(s, QueueAfter([], es), t);
    OwnerIsFront(s, QueueAfter([], es), u);
  }

  /** First come, first served: the thread that enters is the one whose ticket is oldest. */
  lemma EntersInOrder(s0: State, es: seq<Event>, s: State, t: Thread)
    requires Initial(s0) && Runs(s0, es, s) && Modest([], es) && Enabled(s, t, Enter)
    ensures QueueAfter([], es) != [] && QueueAfter([], es)[0] == t
    ensures forall u :: !Owns(s, u)
  {
    RunKeeps(s0, [], es, s);
    var q := QueueAfter([], es);
    var i :| 0 <= i < |q| && q[i] == t;
    assert Placed(s, q[i], i);
    forall u ensures !Owns(s, u) {
      if Owns(s, u) { OwnerIsFront(s, q, u); }
    }
  }

  /** spin_trylock succeeds exactly when no thread holds a ticket. */
  lemma TryExact(s0: State, es: seq<Event>, s: State, t: Thread)
    requires Initial(s0) && Runs(s0, es, s) && Modest([], es) && t in s.pc && s.pc[t].Idle?
    ensures Enabled(s, t, TryTake) <==> forall u :: u in s.pc ==> s.pc[u].Idle?
  {
    RunKeeps(s0, [], es, s);
    var q := QueueAfter([], es);
    HalvesEqual(s, q);
    if q != [] { assert Placed(s, q[0], 0); }
  }

  /** The thread at the front is never stuck: after at most one more read it may enter. */
  lemma FrontProceeds(s: State, q: seq<Thread>)
    requires Inv(s, q) && q != [] && s.pc[q[0]].Waiting?
    ensures Enabled(s, q[0], Enter) ||
      (Enabled(s, q[0], Reread) && Enabled(Step(s, q[0], Reread), q[0], Enter))
  {
    assert Placed(s, q[0], 0);
  }

  // ---------------------------------------------------------------- entering and leaving

  /** What a thread holds after each way of asking for the lock. */
  lemma AskEffects(s: State, t: Thread)
    requires t in s.pc
    ensures Enabled(s, t, Take) ==> Step(s, t, Take).pc[t] == Waiting(s.next, s.owner)
    ensures Enabled(s, t, Enter) ==> Step(s, t, Enter).pc[t] == Holding
    ensures Enabled(s, t, TryTake) ==> Step(s, t, TryTake).pc[t] == Holding
    ensures Enabled(s, t, TryFail) ==> Step(s, t, TryFail) == s
    ensures Enabled(s, t, Reread) ==> Step(s, t, Reread).pc[t] == Waiting(s.pc[t].ticket, s.owner)
  {
  }

  /** The state after spin_unlock by the holder. */
  ghost function Unlocked(s: State, t: Thread): State {
    State((s.owner + 1) % TICKETS, s.next, s.pc[t := Idle])
  }

  /** spin_unlock by the holder: both steps are enabled in turn, the owner advances by one, the
      thread is idle, the queue loses its front, and the next thread, if it waits, may enter after
      at most one more read. */
  lemma UnlockReleases(s: State, q: seq<Thread>, t: Thread)
    requires Inv(s, q) && t in s.pc && s.pc[t].Holding?
    ensures q != [] && q[0] == t
    ensures Enabled(s, t, LoadOwner) && Enabled(Step(s, t, LoadOwner), t, StoreOwner)
    ensures Step(Step(s, t, LoadOwner), t, StoreOwner) == Unlocked(s, t) && Inv(Unlocked(s, t), q[1..])
    ensures |q| > 1 ==> var u, s' := q[1], Unlocked(s, t);
      && u in s'.pc && s'.pc[u].Waiting?
      && (Enabled(s', u, Enter) || (Enabled(s', u, Reread) && Enabled(Step(s', u, Reread), u, Enter)))
  {
    OwnerIsFront(s, q, t);
    var s1 := Step(s, t, LoadOwner);
    StayKeeps(s, q, t, LoadOwner);
    LeaveKeeps(s1, q, t);
    assert s1.pc[t := Idle] == s.pc[t := Idle];
    if |q| > 1 {
      assert q[1..][0] == q[1];
      assert Placed(s, q[1], 1);
      FrontProceeds(Unlocked(s, t), q[1..]);
    }
  }

  lemma RunsFirst(s: State, e: Event, es: seq<Event>, s': State)
    requires Enabled(s, e.t, e.a) && Runs(Step(s, e.t, e.a), es, s')
    ensures Runs(s, [e] + es, s')
  {
    assert ([e] + es)[1..] == es;
  }

  /** The front of the queue comes to hold the lock. */
  lemma FrontEnters(s: State, q: seq<Thread>) returns (es: seq<Event>, s': State)
    requires Inv(s, q) && q != [] && s.pc[q[0]].Waiting?
    ensures Runs(s, es, s') && Inv(s', q) && s'.pc[q[0]].Holding? && s'.owner == s.owner
  {
    var t := q[0];
    FrontProceeds(s, q);
    var enter := Event(t, Enter);
    if Enabled(s, t, Enter) {
      es, s' := [enter] + [], Step(s, t, Enter);
      RunsFirst(s, enter, [], s');
      StayKeeps(s, q, t, Enter);
    } else {
      var s1 := Step(s, t, Reread);
      StayKeeps(s, q, t, Reread);
      s' := Step(s1, t, Enter);
      StayKeeps(s1, q, t, Enter);
      RunsFirst(s1, enter, [], s');
      es := [Event(t, Reread)] + ([enter] + []);
      RunsFirst(s, Event(t, Reread), [enter] + [], s');
    }
  }

  lemma {:induction false} RunsJoin(s: State, es: seq<Event>, s1: State, fs: seq<Event>, s2: State)
    requires Runs(s, es, s1) && Runs(s1, fs, s2)
    ensures Runs(s, es + fs, s2)
    decreases es
  {
    if es == [] {
      assert es + fs == fs;
    } else {
      assert (es + fs)[1..] == es[1..] + fs;
      RunsJoin(Step(s, es[0].t, es[0].a), es[1..], s1, fs, s2);
    }
  }

  /** The front of the queue, wherever it is in the protocol, comes to leave. */
  lemma FrontLeaves(s: State, q: seq<Thread>) returns (es: seq<Event>, s': State)
    requires Inv(s, q) && q != []
    ensures Runs(s, es, s') && Inv(s', q[1..]) && s'.owner == (s.owner + 1) % TICKETS
  {
    hide Runs;
    var t := q[0];
    assert Placed(s, q[0], 0);
    var as_, s1 := [], s;
    NoEvents(s);
    if s.pc[t].Waiting? { as_, s1 := FrontEnters(s, q); }
    assert Placed(s1, q[0], 0);
    var bs, s2 := [], s1;
    NoEvents(s1);
    if s1.pc[t].Holding? {
      UnlockReleases(s1, q, t);
      s2 := Step(s1, t, LoadOwner);
      StayKeeps(s1, q, t, LoadOwner);
      NoEvents(s2);
      RunsFirst(s1, Event(t, LoadOwner), [], s2);
      bs := [Event(t, LoadOwner)] + [];
    }
    s' := Step(s2, t, StoreOwner);
    assert Placed(s2, q[0], 0);
    LeaveKeeps(s2, q, t);
    NoEvents(s');
    RunsFirst(s2, Event(t, StoreOwner), [], s');
    RunsJoin(s, as_, s1, bs, s2);
    RunsJoin(s, as_ + bs, s2, [Event(t, StoreOwner)] + [], s');
    es := as_ + bs + ([Event(t, StoreOwner)] + []);
  }

  lemma NoEvents(s: State)
    ensures Runs(s, [], s)
  {
  }

  /** No ticket is forgotten: from every state of the protocol, every thread that has one can be
      served by letting those before it finish. */
  lemma {:induction false} ServedInTurn(s: State, q: seq<Thread>, i: nat) returns (es: seq<Event>, s': State)
    requires Inv(s, q) && i < |q|
    ensures Runs(s, es, s') && Owns(s', q[i])
    decreases i
  {
    hide Runs;
    if i > 0 {
      var as_, s1 := FrontLeaves(s, q);
      var bs;
      bs, s' := ServedInTurn(s1, q[1..], i - 1);
      RunsJoin(s, as_, s1, bs, s');
      es := as_ + bs;
    } else {
      assert Placed(s, q[0], 0);
      if s.pc[q[0]].Waiting? {
        es, s' := FrontEnters(s, q);
      } else {
        es, s' := [], s;
        NoEvents(s);
      }
    }
  }

  // ---------------------------------------------------------------- one ticket too many

  /** 65537 threads, of which the first `k` have taken a ticket. */
  ghost function Crowd(k: nat): State {
    State(0, k % TICKETS, map t: nat | t <= TICKETS :: if t < k then Waiting(t, 0) else Idle)
  }

  ghost function Takes(k: nat): seq<Event> { seq(k, i requires 0 <= i < k => Event(i, Take)) }

  lemma {:induction false} RunsOn(s: State, es: seq<Event>, s1: State, e: Event)
    requires Runs(s, es, s1) && Enabled(s1, e.t, e.a)
    ensures Runs(s, es + [e], Step(s1, e.t, e.a))
    decreases es
  {
    if es == [] {
      assert es + [e] == [e];
    } else {
      assert (es + [e])[1..] == es[1..] + [e];
      RunsOn(Step(s, es[0].t, es[0].a), es[1..], s1, e);
    }
  }

  lemma {:induction false} QueueOn(q: seq<Thread>, es: seq<Event>, e: Event)
    ensures QueueAfter(q, es + [e]) == Queue'(QueueAfter(q, es), e.t, e.a)
    decreases es
  {
    if es == [] {
      assert es + [e] == [e];
    } else {
      assert (es + [e])[1..] == es[1..] + [e];
      QueueOn(Queue'(q, es[0].t, es[0].a), es[1..], e);
    }
  }

  lemma {:induction false} CrowdRuns(k: nat)
    requires k <= TICKETS
    ensures Runs(Crowd(0), Takes(k), Crowd(k)) && |QueueAfter([], Takes(k))| == k
  {
    if k > 0 {
      CrowdRuns(k - 1);
      var e := Event(k - 1, Take);
      assert Takes(k) == Takes(k - 1) + [e];
      RunsOn(Crowd(0), Takes(k - 1), Crowd(k - 1), e);
      QueueOn([], Takes(k - 1), e);
      CrowdStep(k - 1);
    }
  }

  lemma CrowdStep(k: nat)
    requires k < TICKETS
    ensures Enabled(Crowd(k), k, Take) && Step(Crowd(k), k, Take) == Crowd(k + 1)
  {
    assert Crowd(k).pc[k := Waiting(k, 0)] == Crowd(k + 1).pc;
  }

  /**
   The bound is exact: after 65536 takes the halves are equal again, and once the first thread
   has entered, a further one gets the lock by spin_trylock.
   */
  lemma TooManyTickets() returns (es: seq<Event>, s: State)
    ensures Initial(Crowd(0)) && Runs(Crowd(0), es, s)
    ensures |es| >= 2 && |QueueAfter([], es[..|es| - 2])| == TICKETS
    ensures Owns(s, 0) && Owns(s, TICKETS)
  {
    hide Runs, QueueAfter;
    var takes := Takes(TICKETS);
    CrowdRuns(TICKETS);
    var s0 := Crowd(TICKETS);
    assert Enabled(s0, 0, Enter);
    RunsOn(Crowd(0), takes, s0, Event(0, Enter));
    var s1 := Step(s0, 0, Enter);
    assert Enabled(s1, TICKETS, TryTake);
    RunsOn(Crowd(0), takes + [Event(0, Enter)], s1, Event(TICKETS, TryTake));
    es, s := takes + [Event(0, Enter)] + [Event(TICKETS, TryTake)], Step(s1, TICKETS, TryTake);
    assert es[..|es| - 2] == takes;
  }
}
