/** CleanerRef: the intrusive list of open handles, and the race between a user's close and the reaper's. */
module CleanerList {

  class CleanerRef {
    const nativePtr: int
    var next: CleanerRef?
    var prev: CleanerRef?

    constructor (nativePtr: int)
      ensures this.nativePtr == nativePtr && next == null && prev == null
    {
      this.nativePtr := nativePtr;
      next, prev := null, null;
    }
  }

  /** The element at a position, or null outside. */
  ghost function At(s: seq<CleanerRef>, i: int): CleanerRef? { if 0 <= i < |s| then s[i] else null }

  ghost predicate NoRepeats<T>(s: seq<T>) { forall i, j :: 0 <= i < |s| && 0 <= j < |s| && s[i] == s[j] ==> i == j }

  ghost predicate DoublyLinked(s: seq<CleanerRef>)
    reads s
  {
    && NoRepeats(s)
    && (forall i {:trigger s[i].next} :: 0 <= i < |s| ==> s[i].next == At(s, i + 1))
    && (forall i {:trigger s[i].prev} :: 0 <= i < |s| ==> s[i].prev == At(s, i - 1))
  }

  /** `s'` is `s` without its element at position `i`. */
  ghost predicate Spliced<T>(s: seq<T>, i: nat, s': seq<T>)
    requires i < |s|
  {
    && |s'| == |s| - 1
    && (forall k :: 0 <= k < i ==> s'[k] == s[k])
    && (forall k :: i <= k < |s'| ==> s'[k] == s[k + 1])
  }

  lemma WithoutAt<T>(s: seq<T>, i: nat) returns (s': seq<T>)
    requires i < |s| && NoRepeats(s)
    ensures Spliced(s, i, s') && NoRepeats(s') && s[i] !in s'
    ensures forall q :: q in s && q != s[i] ==> q in s'
  {
    s' := s[..i] + s[i + 1..];
    forall q | q in s && q != s[i] ensures q in s' {
      var k :| 0 <= k < |s| && s[k] == q;
      assert s'[if k < i then k else k - 1] == q;
    }
  }

  /** The link surgery of remove; the reference then points at itself. */
  method Unlink(first: CleanerRef?, r: CleanerRef, ghost s: seq<CleanerRef>, ghost i: nat, ghost s': seq<CleanerRef>)
    returns (first': CleanerRef?)
    requires DoublyLinked(s) && i < |s| && s[i] == r && first == At(s, 0)
    requires Spliced(s, i, s') && NoRepeats(s') && r !in s'
    modifies s
    ensures first' == At(s', 0) && DoublyLinked(s') && r.next == r && r.prev == r
  {
    ghost var n, p := At(s, i + 1), At(s, i - 1);
    assert r.next == n && r.prev == p && n != r && p != r && (n != null ==> n != p);
    first' := first;
    if first == r {
      if r.next != null {
        first' := r.next;
      } else {
        first' := r.prev;
      }
    }
    if r.next != null {
      r.next.prev := r.prev;
    }
    if r.prev != null {
      r.prev.next := r.next;
    }
    r.next := r;
    r.prev := r;
  }

  /**
    The static part of CleanerRef; its methods are synchronized, so each is one step.  The disposal by the caller that
    got true from `remove` is another step, at any later time; `owed` are those still to come.
  */
  class Cleaners {
    var first: CleanerRef?

    ghost var live: seq<CleanerRef>
    ghost var closed: set<CleanerRef>
    ghost var owed: multiset<CleanerRef>
    ghost var disposed: multiset<CleanerRef>

    /** The list from `first` holds the live references; a closed one points at itself. */
    ghost predicate Linked()
      reads this, live, closed
    {
      && first == At(live, 0) && DoublyLinked(live)
      && (forall r :: r in closed ==> r !in live && r.next == r && r.prev == r)
    }

    /** And each closed one was disposed of or is owed, once. */
    ghost predicate Valid()
      reads this, live, closed
    {
      Linked() && owed + disposed == multiset(closed)
    }

    constructor ()
      ensures Valid() && live == [] && closed == {} && owed == multiset{} && disposed == multiset{}
    {
      first := null;
      live, closed, owed, disposed := [], {}, multiset{}, multiset{};
    }

    /** create and add: a new reference in front. */
    method Create(nativePtr: int) returns (r: CleanerRef)
      requires Valid()
      modifies this`first, this`live, live
      ensures Valid() && fresh(r) && r.nativePtr == nativePtr && live == [r] + old(live)
    {
      r := new CleanerRef(nativePtr);
      if first != null {
        r.next := first;
        first.prev := r;
      }
      first := r;
      live := [r] + live;
    }

    /** remove: true for the one call that finds the reference in the list. */
    method Remove(r: CleanerRef) returns (removed: bool, ghost i: nat)
      requires Valid() && (r in live || r in closed)
      modifies this`first, this`live, this`closed, this`owed, live, r
      ensures Valid() && (removed <==> r in old(live)) && closed == old(closed) + {r}
      ensures owed == if removed then old(owed) + multiset{r} else old(owed)
      ensures if removed then i < |old(live)| && old(live)[i] == r && Spliced(old(live), i, live) else live == old(live)
    {
      removed, i := Detach(r);
      if removed {
        OneMore(closed, r);
        closed, owed := closed + {r}, owed + multiset{r};
      }
    }

    method Detach(r: CleanerRef) returns (removed: bool, ghost i: nat)
      requires Linked() && (r in live || r in closed)
      modifies this`first, this`live, live, r
      ensures Linked() && (removed <==> r in old(live)) && (removed ==> r.next == r && r.prev == r && r !in live)
      ensures if removed then i < |old(live)| && old(live)[i] == r && Spliced(old(live), i, live) else live == old(live)
    {
      i := 0;
      assert forall k :: 0 <= k < |live| ==> live[k].next != live[k];
      if r.next == r {
        return false, 0;
      }
      i :| 0 <= i < |live| && live[i] == r;
      ghost var s := WithoutAt(live, i);
      first := Unlink(first, r, live, i, s);
      live := s;
      removed := true;
    }

    /** nativeDispose, which only the caller whose `remove` was true gets to. */
    ghost method Dispose(r: CleanerRef)
      requires Valid() && r in owed
      modifies this`owed, this`disposed
      ensures Valid() && owed == old(owed) - multiset{r} && disposed == old(disposed) + multiset{r}
    {
      owed, disposed := owed - multiset{r}, disposed + multiset{r};
    }

    /**
      close: the list loses just this reference, and its handle was disposed of once, unless the disposal is owed by
      another thread.
    */
    method Close(r: CleanerRef) returns (ghost i: nat)
      requires Valid() && (r in live || r in closed)
      modifies this, live, r
      ensures Valid() && owed == old(owed) && closed == old(closed) + {r} && owed[r] + disposed[r] == 1
      ensures if r in old(live) then i < |old(live)| && old(live)[i] == r && Spliced(old(live), i, live)
        else live == old(live)
      ensures disposed == if r in old(live) then old(disposed) + multiset{r} else old(disposed)
    {
      var removed;
      removed, i := Remove(r);
      if removed {
        Dispose(r);
      }
      assert (owed + disposed)[r] == owed[r] + disposed[r] && multiset(closed)[r] == 1;
    }
  }

  lemma OneMore<T>(s: set<T>, x: T)
    requires x !in s
    ensures multiset(s + {x}) == multiset(s) + multiset{x}
  {
  }

  // ---------------------------------------------------------------- interleavings

  /**
    What the threads do, one step after the other: a reference is created, some thread calls `remove` on the n-th
    reference, and the n-th of the threads that are between a `remove` that was true and its disposal goes on.
  */
  datatype Action = Created(nativePtr: int) | Removed(n: nat) | Disposed(n: nat)

  /** All references ever made, and the ones waiting to be disposed of by the thread that removed them. */
  ghost predicate Tracks(cl: Cleaners, all: seq<CleanerRef>, waiting: seq<CleanerRef>)
    reads cl
  {
    && (forall r :: r in all ==> r in cl.live || r in cl.closed)
    && (forall k :: 0 <= k < |cl.live| ==> cl.live[k] in all) && (forall r :: r in cl.closed ==> r in all)
    && cl.owed == multiset(waiting)
  }

  /**
    Each reference was disposed of at most once, and those that were are the closed ones that no thread is about to
    dispose of.
  */
  ghost predicate DisposedOnce(cl: Cleaners, waiting: seq<CleanerRef>)
    reads cl
  {
    && (forall r :: r in cl.disposed ==> cl.disposed[r] == 1 && r in cl.closed && r !in waiting)
    && (forall r :: r in cl.closed && r !in waiting ==> r in cl.disposed)
  }

  lemma {:induction false} ValidIsDisposedOnce(cl: Cleaners, waiting: seq<CleanerRef>)
    requires cl.Valid() && cl.owed == multiset(waiting)
    ensures DisposedOnce(cl, waiting)
  {
    forall r: CleanerRef
      ensures cl.disposed[r] <= 1
      ensures r in cl.disposed ==> r in cl.closed && r !in waiting
      ensures r in cl.closed && r !in waiting ==> r in cl.disposed
    {
      assert (cl.owed + cl.disposed)[r] == cl.owed[r] + cl.disposed[r];
      assert multiset(cl.closed)[r] == if r in cl.closed then 1 else 0;
    }
  }

  lemma {:induction false} SplicedKeeps<T>(s: seq<T>, i: nat, s': seq<T>)
    requires i < |s| && Spliced(s, i, s')
    ensures forall q :: q in s && q != s[i] ==> q in s'
    ensures forall k :: 0 <= k < |s'| ==> s'[k] in s
  {
    forall q | q in s && q != s[i] ensures q in s' {
      var k :| 0 <= k < |s| && s[k] == q;
      assert s'[if k < i then k else k - 1] == q;
    }
  }

  /** Some thread calls `remove` on a reference; if it gets true, it has a handle to dispose of. */
  method ActRemove(cl: Cleaners, r: CleanerRef, ghost all: seq<CleanerRef>, waiting: seq<CleanerRef>)
    returns (waiting': seq<CleanerRef>)
    requires cl.Valid() && Tracks(cl, all, waiting) && r in all
    modifies cl, cl.live, r
    ensures cl.Valid() && Tracks(cl, all, waiting') && cl.closed == old(cl.closed) + {r}
    ensures waiting' == if r in old(cl.closed) then waiting else waiting + [r]
  {
    waiting' := waiting;
    ghost var live := cl.live;
    var removed, i := cl.Remove(r);
    if removed {
      SplicedKeeps(live, i, cl.live);
      waiting' := waiting + [r];
    }
  }

  method ActDispose(cl: Cleaners, n: nat, ghost all: seq<CleanerRef>, waiting: seq<CleanerRef>)
    returns (waiting': seq<CleanerRef>)
    requires cl.Valid() && Tracks(cl, all, waiting) && n < |waiting|
    modifies cl`owed, cl`disposed
    ensures cl.Valid() && Tracks(cl, all, waiting') && waiting' == waiting[..n] + waiting[n + 1..]
  {
    cl.Dispose(waiting[n]);
    TakenOut(waiting, n);
    waiting' := waiting[..n] + waiting[n + 1..];
  }

  lemma TakenOut<T>(s: seq<T>, n: nat)
    requires n < |s|
    ensures multiset(s[..n] + s[n + 1..]) == multiset(s) - multiset{s[n]}
  {
    assert s == s[..n] + ([s[n]] + s[n + 1..]);
    assert multiset(s) == multiset(s[..n]) + (multiset{s[n]} + multiset(s[n + 1..]));
  }

  method ActCreate(cl: Cleaners, nativePtr: int, all: seq<CleanerRef>, ghost waiting: seq<CleanerRef>)
    returns (all': seq<CleanerRef>)
    requires cl.Valid() && Tracks(cl, all, waiting)
    modifies cl, cl.live
    ensures cl.Valid() && Tracks(cl, all', waiting) && cl.closed == old(cl.closed)
    ensures |all'| == |all| + 1 && all'[..|all|] == all && fresh(all'[|all|]) && all'[|all|].nativePtr == nativePtr
  {
    var r := cl.Create(nativePtr);
    all' := all + [r];
  }

  /** Who waits after a step: the thread that closes a reference joins, the one that disposes of its handle leaves. */
  ghost function Next(a: Action, all: seq<CleanerRef>, closed: set<CleanerRef>,
                      waiting: seq<CleanerRef>): seq<CleanerRef>
  {
    match a
    case Created(_) => waiting
    case Removed(n) => if n < |all| && all[n] !in closed then waiting + [all[n]] else waiting
    case Disposed(n) => if n < |waiting| then waiting[..n] + waiting[n + 1..] else waiting
  }

  /** One step on the real list; a step of a reference or a thread that does not exist is none. */
  method Act(cl: Cleaners, a: Action, all: seq<CleanerRef>, waiting: seq<CleanerRef>)
    returns (all': seq<CleanerRef>, waiting': seq<CleanerRef>)
    requires cl.Valid() && Tracks(cl, all, waiting)
    modifies cl, all
    ensures cl.Valid() && Tracks(cl, all', waiting')
    ensures |all'| == |all| + (if a.Created? then 1 else 0) && all'[..|all|] == all &&
      forall k :: |all| <= k < |all'| ==> fresh(all'[k])
    ensures a.Created? ==> all'[|all|].nativePtr == a.nativePtr
    ensures cl.closed == old(cl.closed) + if a.Removed? && a.n < |all| then {all[a.n]} else {}
    ensures waiting' == Next(a, all, old(cl.closed), waiting)
  {
    all', waiting' := all, waiting;
    match a
    case Created(nativePtr) => all' := ActCreate(cl, nativePtr, all, waiting);
    case Removed(n) =>
      if n < |all| { waiting' := ActRemove(cl, all[n], all, waiting); }
    case Disposed(n) =>
      if n < |waiting| { waiting' := ActDispose(cl, n, all, waiting); }
  }

  /** How many references a schedule creates, and which of them some thread closes. */
  function Made(schedule: seq<Action>): nat
  {
    if schedule == [] then 0
    else Made(schedule[..|schedule| - 1]) + if schedule[|schedule| - 1].Created? then 1 else 0
  }

  function ClosedBy(schedule: seq<Action>): set<nat>
  {
    if schedule == [] then {}
    else
      var before, a := schedule[..|schedule| - 1], schedule[|schedule| - 1];
      ClosedBy(before) + if a.Removed? && a.n < Made(before) then {a.n} else {}
  }

  /** The handles of the references in order of creation. */
  function Handles(schedule: seq<Action>): seq<int>
  {
    if schedule == [] then []
    else
      var a := schedule[|schedule| - 1];
      Handles(schedule[..|schedule| - 1]) + if a.Created? then [a.nativePtr] else []
  }

  /** The numbers of the references that some thread has closed and not yet disposed of. */
  function Owed(schedule: seq<Action>): seq<nat>
  {
    if schedule == [] then []
    else
      var before := schedule[..|schedule| - 1];
      OwedNext(schedule[|schedule| - 1], Made(before), ClosedBy(before), Owed(before))
  }

  function OwedNext(a: Action, made: nat, closed: set<nat>, w: seq<nat>): seq<nat>
  {
    match a
    case Created(_) => w
    case Removed(n) => if n < made && n !in closed then w + [n] else w
    case Disposed(n) => if n < |w| then w[..n] + w[n + 1..] else w
  }

  /** The references wait to be disposed of that have these numbers. */
  ghost predicate Numbered(all: seq<CleanerRef>, waiting: seq<CleanerRef>, w: seq<nat>)
  {
    |waiting| == |w| && forall k :: 0 <= k < |w| ==> w[k] < |all| && waiting[k] == all[w[k]]
  }

  ghost predicate Holding(all: seq<CleanerRef>, handles: seq<int>)
  {
    |all| == |handles| && forall k :: 0 <= k < |all| ==> all[k].nativePtr == handles[k]
  }

  lemma {:induction false} NumberedStep(a: Action, all: seq<CleanerRef>, closed: set<CleanerRef>, numbers: set<nat>,
                                        waiting: seq<CleanerRef>, w: seq<nat>)
    requires Closes(all, closed, numbers) && Numbered(all, waiting, w)
    ensures Numbered(all, Next(a, all, closed, waiting), OwedNext(a, |all|, numbers, w))
  {
  }

  lemma {:induction false} NumberedMore(all: seq<CleanerRef>, all': seq<CleanerRef>, waiting: seq<CleanerRef>,
                                        w: seq<nat>)
    requires Numbered(all, waiting, w) && |all| <= |all'| && all'[..|all|] == all
    ensures Numbered(all', waiting, w)
  {
    forall k | 0 <= k < |w| ensures w[k] < |all'| && waiting[k] == all'[w[k]] {
      assert all'[..|all|][w[k]] == all'[w[k]];
    }
  }

  lemma {:induction false} OwedStep(schedule: seq<Action>, i: nat, all: seq<CleanerRef>, all': seq<CleanerRef>,
                                    closed: set<CleanerRef>, waiting: seq<CleanerRef>)
    requires i < |schedule| && |all| == Made(schedule[..i]) && Closes(all, closed, ClosedBy(schedule[..i]))
    requires Numbered(all, waiting, Owed(schedule[..i])) && |all| <= |all'| && all'[..|all|] == all
    ensures Numbered(all', Next(schedule[i], all, closed, waiting), Owed(schedule[..i + 1]))
  {
    assert schedule[..i + 1][..i] == schedule[..i];
    NumberedStep(schedule[i], all, closed, ClosedBy(schedule[..i]), waiting, Owed(schedule[..i]));
    NumberedMore(all, all', Next(schedule[i], all, closed, waiting), Owed(schedule[..i + 1]));
  }

  lemma {:induction false} HandlesStep(schedule: seq<Action>, i: nat, all: seq<CleanerRef>, all': seq<CleanerRef>)
    requires i < |schedule| && Holding(all, Handles(schedule[..i]))
    requires |all'| == |all| + (if schedule[i].Created? then 1 else 0) && all'[..|all|] == all
    requires schedule[i].Created? ==> all'[|all|].nativePtr == schedule[i].nativePtr
    ensures Holding(all', Handles(schedule[..i + 1]))
  {
    assert schedule[..i + 1][..i] == schedule[..i];
    assert forall k :: 0 <= k < |all| ==> all'[k] == all'[..|all|][k] == all[k];
  }

  lemma ScheduleStep(schedule: seq<Action>, i: nat)
    requires i < |schedule|
    ensures var before, a := schedule[..i], schedule[i];
      && Made(schedule[..i + 1]) == Made(before) + (if a.Created? then 1 else 0)
      && ClosedBy(schedule[..i + 1]) == ClosedBy(before) + if a.Removed? && a.n < Made(before) then {a.n} else {}
  {
    assert schedule[..i + 1][..i] == schedule[..i];
  }

  /** The closed references are those with these numbers. */
  ghost predicate Closes(all: seq<CleanerRef>, closed: set<CleanerRef>, numbers: set<nat>)
  {
    && NoRepeats(all) && (forall n :: n in numbers ==> n < |all| && all[n] in closed)
    && forall n :: 0 <= n < |all| && all[n] in closed ==> n in numbers
  }

  lemma {:induction false} ClosesStep(all: seq<CleanerRef>, all': seq<CleanerRef>, closed: set<CleanerRef>,
                                      numbers: set<nat>, a: Action)
    requires Closes(all, closed, numbers) && |all| <= |all'| <= |all| + 1 && all'[..|all|] == all
    requires forall k :: |all| <= k < |all'| ==> all'[k] !in all && all'[k] !in closed
    ensures var here := a.Removed? && a.n < |all|;
      Closes(all', closed + (if here then {all[a.n]} else {}), numbers + if here then {a.n} else {})
  {
    assert forall k :: 0 <= k < |all| ==> all'[k] == all'[..|all|][k] == all[k];
  }

  /** The state after some steps of a schedule. */
  ghost predicate Reached(cl: Cleaners, all: seq<CleanerRef>, waiting: seq<CleanerRef>, schedule: seq<Action>)
    reads cl, cl.live, cl.closed
  {
    && cl.Valid() && Tracks(cl, all, waiting) && |all| == Made(schedule) && Closes(all, cl.closed, ClosedBy(schedule))
    && Numbered(all, waiting, Owed(schedule)) && Holding(all, Handles(schedule))
  }

  method Step(cl: Cleaners, schedule: seq<Action>, i: nat, all: seq<CleanerRef>, waiting: seq<CleanerRef>)
    returns (all': seq<CleanerRef>, waiting': seq<CleanerRef>)
    requires i < |schedule| && Reached(cl, all, waiting, schedule[..i])
    modifies cl, all
    ensures Reached(cl, all', waiting', schedule[..i + 1])
    ensures |all| <= |all'| && all'[..|all|] == all && forall k :: |all| <= k < |all'| ==> fresh(all'[k])
  {
    ScheduleStep(schedule, i);
    ghost var closed := cl.closed;
    all', waiting' := Act(cl, schedule[i], all, waiting);
    assert forall k :: |all| <= k < |all'| ==> all'[k] !in all && all'[k] !in closed;
    ClosesStep(all, all', closed, ClosedBy(schedule[..i]), schedule[i]);
    OwedStep(schedule, i, all, all', closed, waiting);
    HandlesStep(schedule, i, all, all');
  }

  /**
    Any interleaving of creations, removals and disposals by any number of threads: the list from `first` is the doubly
    linked list of exactly the references made and not closed, each with its handle, and every handle is disposed of at
    most once, namely when the thread that closed it has got to it; the threads that have not are those of the schedule.
  */
  method Execute(schedule: seq<Action>) returns (cl: Cleaners, all: seq<CleanerRef>, waiting: seq<CleanerRef>)
    ensures cl.Valid() && cl.first == At(cl.live, 0) && DoublyLinked(cl.live)
    ensures |all| == Made(schedule) && NoRepeats(all) && forall r :: r in cl.live ==> r in all
    ensures Holding(all, Handles(schedule)) && Numbered(all, waiting, Owed(schedule))
    ensures forall n :: 0 <= n < |all| ==> (all[n] in cl.live <==> n !in ClosedBy(schedule))
    ensures forall n :: 0 <= n < |all| && all[n] !in waiting ==>
      cl.disposed[all[n]] == if n in ClosedBy(schedule) then 1 else 0
    ensures DisposedOnce(cl, waiting)
  {
    cl, all, waiting := ExecuteAll(schedule);
    ValidIsDisposedOnce(cl, waiting);
  }

  method Begin() returns (cl: Cleaners)
    ensures fresh(cl) && Reached(cl, [], [], [])
  {
    cl := new Cleaners();
  }

  method ExecuteAll(schedule: seq<Action>) returns (cl: Cleaners, all: seq<CleanerRef>, waiting: seq<CleanerRef>)
    ensures Reached(cl, all, waiting, schedule)
  {
    cl := Begin();
    all, waiting := [], [];
    assert schedule[..0] == [];
    for i := 0 to |schedule|
      invariant fresh(cl) && (forall k :: 0 <= k < |all| ==> fresh(all[k])) && Reached(cl, all, waiting, schedule[..i])
    {
      ghost var before := all;
      all, waiting := Step(cl, schedule, i, all, waiting);
      assert forall k :: 0 <= k < |before| ==> all[k] == all[..|before|][k] == before[k];
    }
    assert schedule[..|schedule|] == schedule;
  }
}
