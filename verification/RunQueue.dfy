/**
  The priority run queue: two arrays of twenty lanes, `active` and `expired`.  New
  processes go to `expired`; every removal first swaps the arrays, if `active` is empty,
  or moves one process over.  The module shows what this adds up to: one global priority
  queue, whichever end of a lane a removal takes from, and with removals from the front a
  first-come first-served one.  The code removes from the rear: that serves the same
  processes in the same order as long as nobody is inserted behind somebody, a removal
  takes the first of its lane exactly if it is alone there, and filling and draining
  gives the order of arrival exactly if no two processes share a lane.
*/
module RunQueues {
  import opened Options

  const MAX_PRIO := 20

  datatype Process = Process(pid: int, priority: nat)

  function Lane(x: Process): (p: nat)
    ensures p < MAX_PRIO
  {
    if MAX_PRIO <= x.priority then MAX_PRIO - 1 else x.priority
  }

  type Lanes = s: seq<seq<Process>> | |s| == MAX_PRIO witness seq(MAX_PRIO, _ => [])

  /** `linkedlist_pop` takes from the rear; `linkedlist_remove_first`, only declared, would take from the front. */
  datatype End = Front | Rear

  function Taken(end: End, s: seq<Process>): Process
    requires s != []
  {
    if end == Front then s[0] else s[|s| - 1]
  }

  function Left(end: End, s: seq<Process>): seq<Process>
    requires s != []
  {
    if end == Front then s[1..] else s[..|s| - 1]
  }

  // ----- the queue as a value

  datatype PrioArray = PrioArray(count: int, queue: Lanes)

  datatype Queue = Queue(active: PrioArray, expired: PrioArray)

  function Empty(): PrioArray
  {
    PrioArray(0, seq(MAX_PRIO, _ => []))
  }

  /** All processes of an array, lane by lane from lane `p`. */
  function Flatten(ls: Lanes, p: nat): seq<Process>
    requires p <= MAX_PRIO
    decreases MAX_PRIO - p
  {
    if p == MAX_PRIO then [] else ls[p] + Flatten(ls, p + 1)
  }

  function Everyone(a: PrioArray): seq<Process>
  {
    Flatten(a.queue, 0)
  }

  /** The counter is the number of processes, and each is in its own lane. */
  ghost predicate ProperArray(a: PrioArray)
  {
    && a.count == |Everyone(a)|
    && forall p, x :: 0 <= p < MAX_PRIO && x in a.queue[p] ==> Lane(x) == p
  }

  ghost predicate Proper(q: Queue)
  {
    ProperArray(q.active) && ProperArray(q.expired)
  }

  /** The first lane that is not empty, or `MAX_PRIO`. */
  function FirstLane(ls: Lanes, p: nat): (r: nat)
    requires p <= MAX_PRIO
    ensures p <= r <= MAX_PRIO && (r < MAX_PRIO ==> ls[r] != [])
    ensures forall i :: p <= i < r ==> ls[i] == []
    decreases MAX_PRIO - p
  {
    if p == MAX_PRIO || ls[p] != [] then p else FirstLane(ls, p + 1)
  }

  function Put(a: PrioArray, p: nat, x: Process): PrioArray
    requires p < MAX_PRIO
  {
    PrioArray(a.count + 1, a.queue[p := a.queue[p] + [x]])
  }

  function Drop(end: End, a: PrioArray, p: nat): PrioArray
    requires p < MAX_PRIO && a.queue[p] != []
  {
    PrioArray(a.count - 1, a.queue[p := Left(end, a.queue[p])])
  }

  function In(q: Queue, x: Process): Queue
  {
    q.(expired := Put(q.expired, Lane(x), x))
  }

  function Update(end: End, q: Queue): Queue
    requires Proper(q)
  {
    if q.expired.count == 0 then q
    else if q.active.count == 0 then Queue(q.expired, q.active)
    else
      var p := FirstLane(q.expired.queue, 0);
      SomeLane(q.expired);
      Queue(Put(q.active, p, Taken(end, q.expired.queue[p])), Drop(end, q.expired, p))
  }

  function Out(end: End, q: Queue): Option<(Process, Queue)>
    requires Proper(q)
  {
    UpdateProper(end, q);
    var u := Update(end, q);
    if u.active.count == 0 then None
    else
      var p := FirstLane(u.active.queue, 0);
      SomeLane(u.active);
      Some((Taken(end, u.active.queue[p]), u.(active := Drop(end, u.active, p))))
  }

  /** Looking takes the first of the lane, and updates as well. */
  function Peek(end: End, q: Queue): (Option<Process>, Queue)
    requires Proper(q)
  {
    UpdateProper(end, q);
    var u := Update(end, q);
    if u.active.count == 0 then (None, u)
    else
      var p := FirstLane(u.active.queue, 0);
      SomeLane(u.active);
      (Some(u.active.queue[p][0]), u)
  }

  // ----- bookkeeping of lanes

  lemma {:induction false} FlattenEmpty(ls: Lanes, p: nat)
    requires p <= MAX_PRIO && forall i :: p <= i < MAX_PRIO ==> ls[i] == []
    ensures Flatten(ls, p) == []
    decreases MAX_PRIO - p
  {
    if p < MAX_PRIO {
      FlattenEmpty(ls, p + 1);
    }
  }

  lemma SomeLane(a: PrioArray)
    requires ProperArray(a) && a.count != 0
    ensures FirstLane(a.queue, 0) < MAX_PRIO
  {
    if FirstLane(a.queue, 0) == MAX_PRIO {
      FlattenEmpty(a.queue, 0);
    }
  }

  lemma {:induction false} FlattenHas(ls: Lanes, p: nat, x: Process)
    requires p <= MAX_PRIO
    ensures x in Flatten(ls, p) <==> exists i :: p <= i < MAX_PRIO && x in ls[i]
    decreases MAX_PRIO - p
  {
    if p < MAX_PRIO {
      FlattenHas(ls, p + 1, x);
    }
  }

  /** Replacing a lane replaces its processes and no others. */
  lemma {:induction false} FlattenReplace(ls: Lanes, p: nat, i: nat, s: seq<Process>)
    requires p <= MAX_PRIO && i < MAX_PRIO
    ensures i < p ==> Flatten(ls[i := s], p) == Flatten(ls, p)
    ensures i >= p ==> multiset(Flatten(ls[i := s], p)) + multiset(ls[i]) == multiset(Flatten(ls, p)) + multiset(s)
    ensures i >= p ==> |Flatten(ls[i := s], p)| + |ls[i]| == |Flatten(ls, p)| + |s|
    decreases MAX_PRIO - p
  {
    if p < MAX_PRIO {
      FlattenReplace(ls, p + 1, i, s);
      var ms: Lanes := ls[i := s];
      var mine, theirs := Flatten(ms, p + 1), Flatten(ls, p + 1);
      assert multiset(ms[p] + mine) == multiset(ms[p]) + multiset(mine);
      assert multiset(ls[p] + theirs) == multiset(ls[p]) + multiset(theirs);
      if i == p {
        assert mine == theirs;
      } else if i > p {
        AddBoth(multiset(ls[p]), multiset(mine), multiset(ls[i]), multiset(theirs), multiset(s));
      }
    }
  }

  lemma AddBoth<T>(l: multiset<T>, m: multiset<T>, a: multiset<T>, t: multiset<T>, s: multiset<T>)
    requires m + a == t + s
    ensures (l + m) + a == (l + t) + s
  {
    forall x: T ensures ((l + m) + a)[x] == ((l + t) + s)[x] {
      assert (m + a)[x] == (t + s)[x];
    }
  }

  lemma Cancel<T>(x: multiset<T>, common: multiset<T>, y: multiset<T>, more: multiset<T>)
    requires x + common == y + (common + more)
    ensures x == y + more
  {
    forall t: T ensures x[t] == (y + more)[t] {
      assert (x + common)[t] == (y + (common + more))[t];
    }
  }

  lemma PutProper(a: PrioArray, x: Process)
    requires ProperArray(a)
    ensures ProperArray(Put(a, Lane(x), x))
    ensures multiset(Everyone(Put(a, Lane(x), x))) == multiset(Everyone(a)) + multiset{x}
  {
    hide Flatten, Lane;
    var p := Lane(x);
    FlattenReplace(a.queue, 0, p, a.queue[p] + [x]);
    assert multiset(a.queue[p] + [x]) == multiset(a.queue[p]) + multiset{x};
    Cancel(multiset(Everyone(Put(a, p, x))), multiset(a.queue[p]), multiset(Everyone(a)), multiset{x});
  }

  lemma TakenAndLeft(end: End, s: seq<Process>)
    requires s != []
    ensures multiset(s) == multiset(Left(end, s)) + multiset{Taken(end, s)} && |s| == |Left(end, s)| + 1
    ensures Taken(end, s) in s && forall x :: x in Left(end, s) ==> x in s
  {
    assert s == (if end == Front then [Taken(end, s)] + Left(end, s) else Left(end, s) + [Taken(end, s)]);
  }

  lemma DropProper(end: End, a: PrioArray, p: nat)
    requires ProperArray(a) && p < MAX_PRIO && a.queue[p] != []
    ensures ProperArray(Drop(end, a, p)) && Lane(Taken(end, a.queue[p])) == p
    ensures multiset(Everyone(a)) == multiset(Everyone(Drop(end, a, p))) + multiset{Taken(end, a.queue[p])}
  {
    hide Flatten, Lane, Taken, Left;
    TakenAndLeft(end, a.queue[p]);
    var rest := Left(end, a.queue[p]);
    FlattenReplace(a.queue, 0, p, rest);
    var b := multiset(Everyone(Drop(end, a, p)));
    assert b + (multiset(rest) + multiset{Taken(end, a.queue[p])}) == multiset(Everyone(a)) + multiset(rest);
    Cancel(multiset(Everyone(a)), multiset(rest), b, multiset{Taken(end, a.queue[p])});
  }

  // ----- everybody is somewhere

  ghost function All(q: Queue): multiset<Process>
  {
    multiset(Everyone(q.active)) + multiset(Everyone(q.expired))
  }

  lemma InProper(q: Queue, x: Process)
    requires Proper(q)
    ensures Proper(In(q, x)) && All(In(q, x)) == All(q) + multiset{x}
  {
    PutProper(q.expired, x);
  }

  lemma NobodyLeft(a: PrioArray)
    requires ProperArray(a) && a.count == 0
    ensures multiset(Everyone(a)) == multiset{}
  {
  }

  lemma UpdateProper(end: End, q: Queue)
    requires Proper(q)
    ensures Proper(Update(end, q)) && All(Update(end, q)) == All(q)
    ensures Update(end, q).active.count == 0 ==> All(q) == multiset{}
  {
    hide ProperArray, Everyone, Put, Drop, Taken;
    if q.expired.count == 0 {
      NobodyLeft(q.expired);
      if q.active.count == 0 {
        NobodyLeft(q.active);
      }
    } else if q.active.count != 0 {
      MoveOne(end, q);
    }
  }

  lemma MoveOne(end: End, q: Queue)
    requires Proper(q) && q.active.count != 0 && q.expired.count != 0
    ensures Proper(Update(end, q)) && All(Update(end, q)) == All(q) && Update(end, q).active.count != 0
  {
    hide Everyone, Taken, Left, Lane;
    var p := FirstLane(q.expired.queue, 0);
    SomeLane(q.expired);
    DropProper(end, q.expired, p);
    PutProper(q.active, Taken(end, q.expired.queue[p]));
  }

  // ----- one global priority queue

  /** In terms of the priorities themselves, of which those from 19 on are one. */
  ghost predicate NotAfter(x: Process, y: Process)
  {
    x.priority <= y.priority || y.priority >= 19
  }

  lemma LanesFollowPriorities(x: Process, y: Process)
    ensures Lane(x) <= Lane(y) <==> NotAfter(x, y)
  {
  }

  /** No process that is waiting in either array has a smaller lane. */
  ghost predicate Least(q: Queue, p: nat)
  {
    forall x :: x in All(q) ==> p <= Lane(x)
  }

  lemma FirstLaneIsLeast(a: PrioArray)
    requires ProperArray(a)
    ensures forall x :: x in Everyone(a) ==> FirstLane(a.queue, 0) <= Lane(x)
  {
    forall x | x in Everyone(a) ensures FirstLane(a.queue, 0) <= Lane(x) {
      FlattenHas(a.queue, 0, x);
      var i :| 0 <= i < MAX_PRIO && x in a.queue[i];
    }
  }

  lemma InEveryone(q: Queue, x: Process)
    ensures x in All(q) <==> x in Everyone(q.active) || x in Everyone(q.expired)
  {
  }

  /** After the update the first lane of `active` is the least of both arrays. */
  lemma UpdateBringsLeast(end: End, q: Queue)
    requires Proper(q) && Update(end, q).active.count != 0
    ensures Least(q, FirstLane(Update(end, q).active.queue, 0))
  {
    hide ProperArray, Everyone, Drop, Put, Taken, Left;
    var u := Update(end, q);
    UpdateProper(end, q);
    forall x | x in All(q) ensures FirstLane(u.active.queue, 0) <= Lane(x) {
      InEveryone(q, x);
      FirstLaneIsLeast(u.active);
      FirstLaneIsLeast(q.active);
      FirstLaneIsLeast(q.expired);
      if q.expired.count == 0 {
        NobodyLeft(q.expired);
        assert x !in multiset(Everyone(q.expired));
      } else if q.active.count == 0 {
        NobodyLeft(q.active);
        assert x !in multiset(Everyone(q.active));
      } else {
        MovedLane(end, q);
      }
    }
  }

  lemma MovedLane(end: End, q: Queue)
    requires Proper(q) && q.active.count != 0 && q.expired.count != 0
    ensures FirstLane(Update(end, q).active.queue, 0) <= FirstLane(q.expired.queue, 0)
    ensures FirstLane(Update(end, q).active.queue, 0) <= FirstLane(q.active.queue, 0)
  {
    hide ProperArray, Everyone, Drop, Taken, Left, FirstLane;
    SomeLane(q.expired);
    SomeLane(q.active);
    var a := Update(end, q).active.queue;
    assert a[FirstLane(q.expired.queue, 0)] != [];
    assert a[FirstLane(q.active.queue, 0)] != [];
  }

  /**
    A removal returns a process of minimal priority over both arrays, whichever end it takes
    from, and takes out that process and nobody else; it returns none exactly if nobody waits.
  */
  lemma OutIsGlobalMinimum(end: End, q: Queue)
    requires Proper(q)
    ensures match Out(end, q)
      case None => All(q) == multiset{}
      case Some(r) => Least(q, Lane(r.0)) && Proper(r.1) && All(q) == All(r.1) + multiset{r.0}
  {
    hide ProperArray, Everyone, Drop, Taken, Left;
    UpdateProper(end, q);
    var u := Update(end, q);
    if u.active.count != 0 {
      var p := FirstLane(u.active.queue, 0);
      SomeLane(u.active);
      UpdateBringsLeast(end, q);
      DropProper(end, u.active, p);
    }
  }

  /** A removal returns a process that is not after any other in either array. */
  lemma OutHasLeastPriority(end: End, q: Queue)
    requires Proper(q) && Out(end, q).Some?
    ensures forall y :: y in All(q) ==> NotAfter(Out(end, q).value.0, y)
  {
    hide Proper, Out, All, Lane;
    OutIsGlobalMinimum(end, q);
    forall y | y in All(q) ensures NotAfter(Out(end, q).value.0, y) {
      LanesFollowPriorities(Out(end, q).value.0, y);
    }
  }

  // ----- draining

  /** Removing until nobody is left. */
  ghost function Drain(end: End, q: Queue): seq<Process>
    requires Proper(q)
    decreases |All(q)|
  {
    OutIsGlobalMinimum(end, q);
    match Out(end, q)
    case None => []
    case Some(r) => [r.0] + Drain(end, r.1)
  }

  ghost predicate Ascending(s: seq<Process>)
  {
    forall i, j :: 0 <= i < j < |s| ==> Lane(s[i]) <= Lane(s[j])
  }

  /** Draining the queue gives everybody who was in it, in ascending order of priority. */
  lemma {:induction false} DrainSorts(end: End, q: Queue)
    requires Proper(q)
    ensures multiset(Drain(end, q)) == All(q) && Ascending(Drain(end, q))
    decreases |All(q)|
  {
    hide Out, Proper, All;
    OutIsGlobalMinimum(end, q);
    match Out(end, q) {
      case None =>
      case Some(r) =>
        DrainSorts(end, r.1);
        LeastFirst(q, r.0, r.1, Drain(end, r.1));
    }
  }

  /** The drained processes in terms of their priorities. */
  lemma DrainHasPrioritiesInOrder(end: End, q: Queue, i: nat, j: nat)
    requires Proper(q) && i < j < |Drain(end, q)|
    ensures NotAfter(Drain(end, q)[i], Drain(end, q)[j])
  {
    hide Proper, Drain, Lane;
    DrainSorts(end, q);
    LanesFollowPriorities(Drain(end, q)[i], Drain(end, q)[j]);
  }

  lemma LeastFirst(q: Queue, x: Process, q': Queue, s: seq<Process>)
    requires Least(q, Lane(x)) && All(q) == All(q') + multiset{x}
    requires multiset(s) == All(q') && Ascending(s)
    ensures multiset([x] + s) == All(q) && Ascending([x] + s)
  {
    hide All, Lane;
    forall i, j | 0 <= i < j < |[x] + s| ensures Lane(([x] + s)[i]) <= Lane(([x] + s)[j]) {
      assert ([x] + s)[j] == s[j - 1] && s[j - 1] in multiset(s);
    }
  }

  // ----- first come, first served: where removals take from the front

  /** Who waits in each lane, over both arrays, in order. */
  ghost function Waiting(q: Queue): Lanes
  {
    var w := seq(MAX_PRIO, p requires 0 <= p < MAX_PRIO => q.active.queue[p] + q.expired.queue[p]);
    assert |w| == MAX_PRIO;
    w
  }

  datatype Op = Insert(x: Process) | Remove | Look

  /** The stable priority queue: arrivals at the back of their lane, removals from the front of the first lane. */
  function StableStep(w: Lanes, op: Op): (Lanes, Option<Process>)
  {
    match op
    case Insert(x) => (w[Lane(x) := w[Lane(x)] + [x]], None)
    case Remove =>
      var p := FirstLane(w, 0);
      if p == MAX_PRIO then (w, None) else (w[p := w[p][1..]], Some(w[p][0]))
    case Look =>
      var p := FirstLane(w, 0);
      if p == MAX_PRIO then (w, None) else (w, Some(w[p][0]))
  }

  /** One call on the two arrays, and what it returns. */
  function QueueStep(end: End, q: Queue, op: Op): (Queue, Option<Process>)
    requires Proper(q)
  {
    match op
    case Insert(x) => (In(q, x), None)
    case Remove =>
      (match Out(end, q)
       case None => (Update(end, q), None)
       case Some(r) => (r.1, Some(r.0)))
    case Look => (Peek(end, q).1, Peek(end, q).0)
  }

  lemma QueueStepProper(end: End, q: Queue, op: Op)
    requires Proper(q)
    ensures Proper(QueueStep(end, q, op).0)
  {
    hide ProperArray, Everyone, Drop, Taken, Left, Put;
    match op
    case Insert(x) => InProper(q, x);
    case Remove =>
      OutIsGlobalMinimum(end, q);
      UpdateProper(end, q);
    case Look => UpdateProper(end, q);
  }

  ghost function QueueResults(end: End, q: Queue, ops: seq<Op>): seq<Option<Process>>
    requires Proper(q)
    decreases |ops|
  {
    if ops == [] then [] else
      QueueStepProper(end, q, ops[0]);
      [QueueStep(end, q, ops[0]).1] + QueueResults(end, QueueStep(end, q, ops[0]).0, ops[1..])
  }

  ghost function StableResults(w: Lanes, ops: seq<Op>): seq<Option<Process>>
    decreases |ops|
  {
    if ops == [] then [] else [StableStep(w, ops[0]).1] + StableResults(StableStep(w, ops[0]).0, ops[1..])
  }

  lemma EmptyLanes(a: PrioArray)
    requires ProperArray(a) && a.count == 0
    ensures forall p :: 0 <= p < MAX_PRIO ==> a.queue[p] == []
  {
    forall p | 0 <= p < MAX_PRIO ensures a.queue[p] == [] {
      if a.queue[p] != [] {
        FlattenHas(a.queue, 0, a.queue[p][0]);
      }
    }
  }

  lemma UpdateKeepsWaiting(q: Queue)
    requires Proper(q)
    ensures Waiting(Update(Front, q)) == Waiting(q)
  {
    hide ProperArray, Everyone;
    var u := Update(Front, q);
    forall p | 0 <= p < MAX_PRIO ensures Waiting(u)[p] == Waiting(q)[p] {
      if q.expired.count != 0 {
        if q.active.count == 0 {
          EmptyLanes(q.active);
        } else {
          SomeLane(q.expired);
        }
      }
    }
  }

  /** After an update the first waiting process is the first of `active`. */
  lemma FirstWaiting(q: Queue)
    requires Proper(q)
    ensures var u, w := Update(Front, q), Waiting(q);
      if u.active.count == 0 then FirstLane(w, 0) == MAX_PRIO
      else
        && FirstLane(u.active.queue, 0) == FirstLane(w, 0) < MAX_PRIO
        && u.active.queue[FirstLane(w, 0)][0] == w[FirstLane(w, 0)][0]
  {
    hide ProperArray, Everyone, Put, Drop, Update, Lane;
    UpdateKeepsWaiting(q);
    UpdateProper(Front, q);
    FirstOfUpdated(Front, q);
  }

  lemma FirstOfUpdated(end: End, q: Queue)
    requires Proper(q) && Proper(Update(end, q))
    ensures var u := Update(end, q); var w := Waiting(u);
      if u.active.count == 0 then FirstLane(w, 0) == MAX_PRIO
      else FirstLane(u.active.queue, 0) == FirstLane(w, 0) < MAX_PRIO && u.active.queue[FirstLane(w, 0)] != []
  {
    hide Everyone, Drop, Taken, Left, Lane;
    var u := Update(end, q);
    if u.active.count == 0 {
      EmptyLanes(u.active);
      EmptyLanes(u.expired);
    } else {
      SomeLane(u.active);
      ActiveLaneFirst(end, q);
      var r, w := FirstLane(u.active.queue, 0), Waiting(u);
      assert w[r] == u.active.queue[r] + u.expired.queue[r];
      assert forall p :: 0 <= p < r ==> w[p] == u.active.queue[p] + u.expired.queue[p] == [];
    }
  }

  /** No lane before the first of the updated `active` has anybody in `expired`. */
  lemma ActiveLaneFirst(end: End, q: Queue)
    requires Proper(q) && Proper(Update(end, q)) && Update(end, q).active.count != 0
    ensures var u := Update(end, q);
      forall p :: 0 <= p < FirstLane(u.active.queue, 0) ==> u.expired.queue[p] == []
  {
    var u := Update(end, q);
    var r := FirstLane(u.active.queue, 0);
    UpdateBringsLeast(end, q);
    UpdateProper(end, q);
    forall p | 0 <= p < r ensures u.expired.queue[p] == [] {
      if u.expired.queue[p] != [] {
        WaitingInExpired(u, p);
      }
    }
  }

  lemma WaitingInExpired(q: Queue, p: nat)
    requires Proper(q) && p < MAX_PRIO && q.expired.queue[p] != []
    ensures exists x :: x in All(q) && Lane(x) == p
  {
    var x := q.expired.queue[p][0];
    FlattenHas(q.expired.queue, 0, x);
    InEveryone(q, x);
    assert x in All(q) && Lane(x) == p;
  }

  lemma InsertIsStable(q: Queue, x: Process)
    ensures Waiting(In(q, x)) == StableStep(Waiting(q), Insert(x)).0
  {
    hide Lane;
    var p := Lane(x);
    assert q.active.queue[p] + (q.expired.queue[p] + [x]) == q.active.queue[p] + q.expired.queue[p] + [x];
  }

  lemma RemoveIsStable(q: Queue)
    requires Proper(q)
    ensures Waiting(QueueStep(Front, q, Remove).0) == StableStep(Waiting(q), Remove).0
    ensures QueueStep(Front, q, Remove).1 == StableStep(Waiting(q), Remove).1
  {
    hide ProperArray, Everyone, Update, FirstLane, Lane;
    FirstWaiting(q);
    UpdateKeepsWaiting(q);
    UpdateProper(Front, q);
    var u := Update(Front, q);
    if u.active.count != 0 {
      var p := FirstLane(u.active.queue, 0);
      assert (u.active.queue[p] + u.expired.queue[p])[1..] == u.active.queue[p][1..] + u.expired.queue[p];
    }
  }

  lemma StepIsStable(q: Queue, op: Op)
    requires Proper(q)
    ensures Waiting(QueueStep(Front, q, op).0) == StableStep(Waiting(q), op).0
    ensures QueueStep(Front, q, op).1 == StableStep(Waiting(q), op).1
  {
    hide ProperArray, Everyone, Update, FirstLane, Lane, Waiting;
    match op
    case Insert(x) => InsertIsStable(q, x);
    case Remove => RemoveIsStable(q);
    case Look =>
      FirstWaiting(q);
      UpdateKeepsWaiting(q);
      UpdateProper(Front, q);
  }

  /**
    With removals from the front, any sequence of insertions, removals and looks returns
    what a stable priority queue returns: within a priority, first come, first served.
  */
  lemma {:induction false} FrontIsFirstComeFirstServed(q: Queue, ops: seq<Op>)
    requires Proper(q)
    ensures QueueResults(Front, q, ops) == StableResults(Waiting(q), ops)
    decreases |ops|
  {
    hide ProperArray, Waiting, QueueStep, StableStep;
    if ops != [] {
      QueueStepProper(Front, q, ops[0]);
      StepIsStable(q, ops[0]);
      FrontIsFirstComeFirstServed(QueueStep(Front, q, ops[0]).0, ops[1..]);
    }
  }

  // ----- removals from the rear, in any run

  /** Nobody waits behind anybody. */
  ghost predicate SingleFile(w: Lanes)
  {
    forall p :: 0 <= p < MAX_PRIO ==> |w[p]| <= 1
  }

  /** No insertion of the calls goes into a lane where somebody waits. */
  ghost predicate NobodyBehind(w: Lanes, ops: seq<Op>)
    decreases |ops|
  {
    ops != [] ==>
      (ops[0].Insert? ==> w[Lane(ops[0].x)] == []) && NobodyBehind(StableStep(w, ops[0]).0, ops[1..])
  }

  lemma ShortInBoth(q: Queue, p: nat)
    requires p < MAX_PRIO && |Waiting(q)[p]| <= 1
    ensures |q.active.queue[p]| <= 1 && |q.expired.queue[p]| <= 1
  {
  }

  lemma EndsAgree(s: seq<Process>)
    requires |s| == 1
    ensures Taken(Front, s) == Taken(Rear, s) && Left(Front, s) == Left(Rear, s)
  {
  }

  lemma UpdatesAgree(q: Queue)
    requires Proper(q) && SingleFile(Waiting(q))
    ensures Update(Rear, q) == Update(Front, q)
  {
    hide ProperArray, Everyone, Waiting, Taken, Left, Put;
    if q.expired.count != 0 && q.active.count != 0 {
      SomeLane(q.expired);
      var p := FirstLane(q.expired.queue, 0);
      ShortInBoth(q, p);
      EndsAgree(q.expired.queue[p]);
    }
  }

  lemma RemovalsAgree(q: Queue)
    requires Proper(q) && SingleFile(Waiting(q))
    ensures Out(Rear, q) == Out(Front, q)
  {
    hide ProperArray, Everyone, Waiting, Taken, Left, Update;
    UpdatesAgree(q);
    UpdateProper(Front, q);
    UpdateKeepsWaiting(q);
    var u := Update(Front, q);
    if u.active.count != 0 {
      SomeLane(u.active);
      var p := FirstLane(u.active.queue, 0);
      ShortInBoth(u, p);
      EndsAgree(u.active.queue[p]);
    }
  }

  lemma StepsAgree(q: Queue, op: Op)
    requires Proper(q) && SingleFile(Waiting(q))
    ensures QueueStep(Rear, q, op) == QueueStep(Front, q, op)
  {
    hide Proper, Update, Out, SingleFile;
    UpdatesAgree(q);
    RemovalsAgree(q);
  }

  lemma StaysSingleFile(w: Lanes, op: Op)
    requires SingleFile(w) && (op.Insert? ==> w[Lane(op.x)] == [])
    ensures SingleFile(StableStep(w, op).0)
  {
    hide Lane;
  }

  /**
    With removals from the rear, any sequence of calls in which nobody is inserted behind
    somebody who waits returns what a stable priority queue returns.
  */
  lemma {:induction false} RearIsFirstComeFirstServed(q: Queue, ops: seq<Op>)
    requires Proper(q) && SingleFile(Waiting(q)) && NobodyBehind(Waiting(q), ops)
    ensures QueueResults(Rear, q, ops) == StableResults(Waiting(q), ops)
    decreases |ops|
  {
    hide ProperArray, Waiting, QueueStep, StableStep, SingleFile;
    if ops != [] {
      QueueStepProper(Front, q, ops[0]);
      StepIsStable(q, ops[0]);
      StepsAgree(q, ops[0]);
      StaysSingleFile(Waiting(q), ops[0]);
      RearIsFirstComeFirstServed(QueueStep(Front, q, ops[0]).0, ops[1..]);
    }
  }

  lemma UpdateKeepsLengths(end: End, q: Queue)
    requires Proper(q)
    ensures forall p :: 0 <= p < MAX_PRIO ==> |Waiting(Update(end, q))[p]| == |Waiting(q)[p]|
  {
    hide ProperArray, Everyone;
    if q.expired.count != 0 && q.active.count != 0 {
      SomeLane(q.expired);
    }
  }

  lemma FirstLaneDepends(ls: Lanes, ms: Lanes)
    requires forall p :: 0 <= p < MAX_PRIO ==> |ls[p]| == |ms[p]|
    ensures FirstLane(ls, 0) == FirstLane(ms, 0)
  {
    var p, r := FirstLane(ls, 0), FirstLane(ms, 0);
    assert p < MAX_PRIO ==> ms[p] != [];
    assert r < MAX_PRIO ==> ls[r] != [];
  }

  /** In any state a removal from the rear takes the last one of the first lane in which somebody waits. */
  lemma RearTakesLast(q: Queue)
    requires Proper(q)
    ensures var w := Waiting(q); var p := FirstLane(w, 0);
      match Out(Rear, q)
      case None => p == MAX_PRIO
      case Some(r) => p < MAX_PRIO && r.0 == w[p][|w[p]| - 1]
  {
    hide ProperArray, Everyone, Update, Drop, Put, FirstLane, Waiting;
    var u := Update(Rear, q);
    UpdateProper(Rear, q);
    FirstOfUpdated(Rear, q);
    UpdateKeepsLengths(Rear, q);
    FirstLaneDepends(Waiting(q), Waiting(u));
    if u.active.count != 0 {
      LastOfFirst(q, FirstLane(u.active.queue, 0));
    }
  }

  lemma LastOfFirst(q: Queue, p: nat)
    requires Proper(q) && Proper(Update(Rear, q)) && Update(Rear, q).active.count != 0
    requires p == FirstLane(Update(Rear, q).active.queue, 0) < MAX_PRIO && Waiting(q)[p] != []
    ensures var a, w := Update(Rear, q).active.queue[p], Waiting(q)[p];
      a != [] && a[|a| - 1] == w[|w| - 1]
  {
    hide ProperArray, Everyone, Drop;
    if q.expired.count == 0 {
      EmptyLanes(q.expired);
    } else if q.active.count == 0 {
      EmptyLanes(q.active);
    } else {
      SomeLane(q.expired);
      MovedLane(Rear, q);
    }
  }

  /** What was put into a lane last is what the rear gives back. */
  lemma DropUndoesPut(a: PrioArray, p: nat, x: Process)
    requires p < MAX_PRIO
    ensures var b := Put(a, p, x);
      b.queue[p] != [] && Drop(Rear, b, p) == a && Taken(Rear, b.queue[p]) == x
  {
    assert a.queue[p := a.queue[p] + [x]][p := a.queue[p]] == a.queue;
  }

  lemma PutsCommute(a: PrioArray, p: nat, x: Process, r: nat, y: Process)
    requires p < MAX_PRIO && r < MAX_PRIO && p != r
    ensures Put(Put(a, p, x), r, y) == Put(Put(a, r, y), p, x)
  {
    var s, t := a.queue[p] + [x], a.queue[r] + [y];
    assert a.queue[p := s][r := t] == a.queue[r := t][p := s];
  }

  lemma FirstIs(ls: Lanes, p: nat)
    requires p < MAX_PRIO && ls[p] != [] && forall i :: 0 <= i < p ==> ls[i] == []
    ensures FirstLane(ls, 0) == p
  {
    var r := FirstLane(ls, 0);
    assert r < MAX_PRIO ==> ls[r] != [];
  }

  lemma FirstOfOne(p: nat, x: Process)
    requires p < MAX_PRIO
    ensures FirstLane(Put(Empty(), p, x).queue, 0) == p
  {
    FirstIs(Put(Empty(), p, x).queue, p);
  }

  lemma FirstAfterPut(a: PrioArray, p: nat, x: Process)
    requires p < MAX_PRIO && FirstLane(a.queue, 0) <= p
    ensures FirstLane(Put(a, p, x).queue, 0) == FirstLane(a.queue, 0)
  {
    FirstIs(Put(a, p, x).queue, FirstLane(a.queue, 0));
  }

  /** One process is active and two wait behind each other in another lane. */
  ghost function OneAndTwo(x: Process, a: Process, b: Process): Queue
  {
    Queue(Put(Empty(), Lane(x), x), Put(Put(Empty(), Lane(a), a), Lane(b), b))
  }

  lemma PairsAreProper(x: Process, a: Process, b: Process)
    ensures Proper(OneAndTwo(x, a, b)) && Proper(Queue(Put(Empty(), Lane(x), x), Put(Empty(), Lane(a), a)))
    ensures Proper(Queue(Put(Empty(), Lane(x), x), Empty()))
  {
    hide Lane, Put, Everyone, Empty;
    EmptyIsProper();
    PutProper(Empty(), x);
    PutProper(Empty(), a);
    PutProper(Put(Empty(), Lane(a), a), b);
  }

  lemma FirstTurn(x: Process, a: Process, b: Process)
    requires Lane(x) < Lane(a) == Lane(b)
    ensures Proper(OneAndTwo(x, a, b))
    ensures QueueStep(Rear, OneAndTwo(x, a, b), Remove)
      == (Queue(Put(Empty(), Lane(b), b), Put(Empty(), Lane(a), a)), Some(x))
  {
    hide Lane, ProperArray, Drop, Taken, FirstLane;
    PairsAreProper(x, a, b);
    FirstOfOne(Lane(a), a);
    FirstAfterPut(Put(Empty(), Lane(a), a), Lane(b), b);
    DropUndoesPut(Put(Empty(), Lane(a), a), Lane(b), b);
    FirstOfOne(Lane(x), x);
    FirstAfterPut(Put(Empty(), Lane(x), x), Lane(b), b);
    PutsCommute(Empty(), Lane(x), x, Lane(b), b);
    DropUndoesPut(Put(Empty(), Lane(b), b), Lane(x), x);
  }

  lemma SecondTurn(a: Process, b: Process)
    requires Lane(a) == Lane(b)
    ensures var q := Queue(Put(Empty(), Lane(b), b), Put(Empty(), Lane(a), a));
      Proper(q) && QueueStep(Rear, q, Remove) == (Queue(Put(Empty(), Lane(b), b), Empty()), Some(a))
  {
    hide Lane, ProperArray, Drop, Taken, FirstLane;
    PairsAreProper(b, a, a);
    FirstOfOne(Lane(a), a);
    DropUndoesPut(Empty(), Lane(a), a);
    FirstOfOne(Lane(b), b);
    FirstAfterPut(Put(Empty(), Lane(b), b), Lane(a), a);
    DropUndoesPut(Put(Empty(), Lane(b), b), Lane(a), a);
  }

  lemma ThirdTurn(b: Process)
    ensures var q := Queue(Put(Empty(), Lane(b), b), Empty());
      Proper(q) && QueueStep(Rear, q, Remove).1 == Some(b)
  {
    hide Lane, ProperArray, Drop, Taken, FirstLane;
    PairsAreProper(b, b, b);
    FirstOfOne(Lane(b), b);
    DropUndoesPut(Empty(), Lane(b), b);
  }

  lemma StableTurns(x: Process, a: Process, b: Process)
    requires Lane(x) < Lane(a) == Lane(b)
    ensures var w := Waiting(OneAndTwo(x, a, b));
      w[Lane(a)] == [a, b] && StableResults(w, [Remove, Remove, Remove]) == [Some(x), Some(a), Some(b)]
  {
    hide Lane, FirstLane;
    var w := Waiting(OneAndTwo(x, a, b));
    var w1 := StableStep(w, Remove).0;
    FirstIs(w, Lane(x));
    FirstIs(w1, Lane(a));
    FirstIs(StableStep(w1, Remove).0, Lane(a));
  }

  /**
    Waiting behind somebody is not always noticed: while one of smaller priority is served,
    the migration turns two who wait in another lane around, and they come out in order.
  */
  lemma TurnedAroundTwice(x: Process, a: Process, b: Process)
    requires Lane(x) < Lane(a) == Lane(b)
    ensures var q := OneAndTwo(x, a, b);
      && Proper(q) && !SingleFile(Waiting(q))
      && QueueResults(Rear, q, [Remove, Remove, Remove]) == StableResults(Waiting(q), [Remove, Remove, Remove])
  {
    hide Lane, Waiting, OneAndTwo, QueueStep, Put, Empty, StableStep, Proper;
    var three, two, one := [Remove, Remove, Remove], [Remove, Remove], [Remove];
    assert three[1..] == two && two[1..] == one && one[1..] == [];
    FirstTurn(x, a, b);
    SecondTurn(a, b);
    ThirdTurn(b);
    StableTurns(x, a, b);
  }

  // ----- one removal

  /** No process is in the queue twice. */
  ghost predicate NobodyTwice(q: Queue)
  {
    forall x :: All(q)[x] <= 1
  }

  lemma LaneInFlatten(ls: Lanes, p: nat, x: Process)
    requires p < MAX_PRIO
    ensures multiset(ls[p])[x] <= multiset(Flatten(ls, 0))[x]
  {
    hide Flatten;
    var ms: Lanes := ls[p := []];
    FlattenReplace(ls, 0, p, []);
    assert (multiset(Flatten(ms, 0)) + multiset(ls[p]))[x] == multiset(Flatten(ls, 0))[x];
  }

  lemma LaneInAll(q: Queue, p: nat, x: Process)
    requires p < MAX_PRIO
    ensures multiset(Waiting(q)[p])[x] <= All(q)[x]
  {
    hide Flatten;
    LaneInFlatten(q.active.queue, p, x);
    LaneInFlatten(q.expired.queue, p, x);
    assert multiset(q.active.queue[p] + q.expired.queue[p])
        == multiset(q.active.queue[p]) + multiset(q.expired.queue[p]);
  }

  lemma TwoOfOne(s: seq<Process>)
    requires |s| > 1 && s[0] == s[|s| - 1]
    ensures multiset(s)[s[0]] > 1
  {
    assert s == [s[0]] + s[1..|s| - 1] + [s[|s| - 1]];
  }

  lemma LastIsFirstExactly(q: Queue, p: nat)
    requires p < MAX_PRIO && Waiting(q)[p] != [] && NobodyTwice(q)
    ensures var s := Waiting(q)[p]; s[|s| - 1] == s[0] <==> |s| == 1
  {
    hide All, Waiting;
    var s := Waiting(q)[p];
    if |s| > 1 && s[0] == s[|s| - 1] {
      TwoOfOne(s);
      LaneInAll(q, p, s[0]);
    }
  }

  /** In any state, a removal from the rear takes the first one of its lane if and only if it is alone there. */
  lemma RearTakesFirstExactly(q: Queue)
    requires Proper(q) && NobodyTwice(q) && All(q) != multiset{}
    ensures var w := Waiting(q); var p := FirstLane(w, 0);
      p < MAX_PRIO && Out(Rear, q).Some? && (Out(Rear, q).value.0 == w[p][0] <==> |w[p]| == 1)
  {
    hide Proper, NobodyTwice, Waiting, All;
    RearTakesLast(q);
    OutIsGlobalMinimum(Rear, q);
    LastIsFirstExactly(q, FirstLane(Waiting(q), 0));
  }

  /** Inserted where nobody of smaller priority waits, a process is the next one out, before all others of its lane. */
  lemma NewestIsNext(q: Queue, x: Process)
    requires Proper(q) && forall y :: y in All(q) ==> Lane(x) <= Lane(y)
    ensures Proper(In(q, x)) && Out(Rear, In(q, x)).Some? && Out(Rear, In(q, x)).value.0 == x
  {
    hide ProperArray, All, Lane, Out, Waiting, In, FirstLane;
    InProper(q, x);
    InsertIsStable(q, x);
    var w := Waiting(In(q, x));
    assert w[Lane(x)] == Waiting(q)[Lane(x)] + [x];
    forall i: nat | i < Lane(x) ensures w[i] == [] {
      NobodyInLane(q, Lane(x), i);
    }
    RearTakesLast(In(q, x));
  }

  lemma FirstOfLane(q: Queue, i: nat)
    requires Proper(q) && i < MAX_PRIO && Waiting(q)[i] != []
    ensures Waiting(q)[i][0] in All(q) && Lane(Waiting(q)[i][0]) == i
  {
    hide Flatten, Lane;
    var y := Waiting(q)[i][0];
    LaneInAll(q, i, y);
    assert y in multiset(Waiting(q)[i]);
    assert y in q.active.queue[i] || y in q.expired.queue[i];
  }

  lemma NobodyInLane(q: Queue, p: nat, i: nat)
    requires Proper(q) && i < p < MAX_PRIO && forall y :: y in All(q) ==> p <= Lane(y)
    ensures Waiting(q)[i] == []
  {
    hide Proper, Lane, All, Waiting;
    if Waiting(q)[i] != [] {
      FirstOfLane(q, i);
    }
  }

  lemma SomebodyThere(q: Queue)
    requires Proper(q) && q.active.count != 0
    ensures All(q) != multiset{}
  {
    assert Everyone(q.active)[0] in All(q);
  }

  /**
    Looking shows the first of a lane and removing takes the last: the next removal takes
    the process that was shown if and only if it is alone in its lane.
  */
  lemma RemovesWhatWasShownExactly(q: Queue)
    requires Proper(q) && NobodyTwice(q) && Peek(Rear, q).0.Some?
    ensures var u := Peek(Rear, q).1; var w := Waiting(u); var p := FirstLane(w, 0);
      && Proper(u) && p < MAX_PRIO && Out(Rear, u).Some?
      && (Out(Rear, u).value.0 == Peek(Rear, q).0.value <==> |w[p]| == 1)
  {
    hide ProperArray, All, Update;
    UpdateProper(Rear, q);
    FirstOfUpdated(Rear, q);
    SomebodyThere(Update(Rear, q));
    RearTakesFirstExactly(Update(Rear, q));
  }

  // ----- what removals from the rear do to the order of arrival

  /** A queue that has received these processes, one after the other, and released none. */
  function Fill(xs: seq<Process>): Queue
  {
    if xs == [] then Queue(Empty(), Empty()) else In(Fill(xs[..|xs| - 1]), xs[|xs| - 1])
  }

  /** The arrivals of lane `p`, in order. */
  function Arrivals(xs: seq<Process>, p: nat): seq<Process>
  {
    if xs == [] then [] else
      Arrivals(xs[..|xs| - 1], p) + if Lane(xs[|xs| - 1]) == p then [xs[|xs| - 1]] else []
  }

  function Reversed(s: seq<Process>): (r: seq<Process>)
    ensures |r| == |s|
  {
    if s == [] then [] else [s[|s| - 1]] + Reversed(s[..|s| - 1])
  }

  /** One lane emptied from an end. */
  function Emptied(end: End, s: seq<Process>): (r: seq<Process>)
    ensures |r| == |s|
  {
    if end == Front then s else Reversed(s)
  }

  function AllEmptied(end: End, ls: Lanes, p: nat): (r: seq<Process>)
    requires p <= MAX_PRIO
    decreases MAX_PRIO - p
  {
    if p == MAX_PRIO then [] else Emptied(end, ls[p]) + AllEmptied(end, ls, p + 1)
  }

  lemma {:induction false} FillProper(xs: seq<Process>)
    ensures Proper(Fill(xs)) && Fill(xs).active == Empty()
    ensures forall p :: 0 <= p < MAX_PRIO ==> Fill(xs).expired.queue[p] == Arrivals(xs, p)
    decreases |xs|
  {
    hide ProperArray, Lane, Everyone;
    if xs == [] {
      EmptyIsProper();
    } else {
      FillProper(xs[..|xs| - 1]);
      InProper(Fill(xs[..|xs| - 1]), xs[|xs| - 1]);
    }
  }

  lemma EmptyIsProper()
    ensures ProperArray(Empty())
  {
    FlattenEmpty(Empty().queue, 0);
  }

  lemma EmptiedSplit(end: End, s: seq<Process>)
    requires s != []
    ensures Emptied(end, s) == [Taken(end, s)] + Emptied(end, Left(end, s))
  {
  }

  lemma {:induction false} EmptiedOneMore(end: End, ls: Lanes, p: nat, i: nat)
    requires p <= i < MAX_PRIO && ls[i] != [] && forall j :: p <= j < i ==> ls[j] == []
    ensures AllEmptied(end, ls, p) == [Taken(end, ls[i])] + AllEmptied(end, ls[i := Left(end, ls[i])], p)
    decreases i - p
  {
    hide AllEmptied, Emptied, Left, Taken;
    var ms: Lanes := ls[i := Left(end, ls[i])];
    EmptiedFrom(end, ls, p);
    EmptiedFrom(end, ms, p);
    if p < i {
      EmptiedOneMore(end, ls, p + 1, i);
      NothingFrom(end);
    } else {
      SameAbove(end, ls, ms, p + 1);
      EmptiedSplit(end, ls[i]);
    }
  }

  lemma EmptiedFrom(end: End, ls: Lanes, p: nat)
    requires p < MAX_PRIO
    ensures AllEmptied(end, ls, p) == Emptied(end, ls[p]) + AllEmptied(end, ls, p + 1)
  {
  }

  lemma NothingFrom(end: End)
    ensures Emptied(end, []) == []
  {
  }

  lemma {:induction false} SameAbove(end: End, ls: Lanes, ms: Lanes, p: nat)
    requires p <= MAX_PRIO && forall j :: p <= j < MAX_PRIO ==> ls[j] == ms[j]
    ensures AllEmptied(end, ls, p) == AllEmptied(end, ms, p)
    decreases MAX_PRIO - p
  {
    if p < MAX_PRIO {
      SameAbove(end, ls, ms, p + 1);
    }
  }

  lemma {:induction false} NothingEmptied(end: End, ls: Lanes, p: nat)
    requires p <= MAX_PRIO && forall j :: p <= j < MAX_PRIO ==> ls[j] == []
    ensures AllEmptied(end, ls, p) == []
    decreases MAX_PRIO - p
  {
    if p < MAX_PRIO {
      NothingEmptied(end, ls, p + 1);
    }
  }

  /** With nobody expired, draining empties the lanes of `active` one after the other. */
  lemma {:induction false} DrainActive(end: End, q: Queue)
    requires Proper(q) && q.expired.count == 0
    ensures Drain(end, q) == AllEmptied(end, q.active.queue, 0)
    decreases |All(q)|
  {
    hide ProperArray, Everyone, AllEmptied, Taken, Left, Lane;
    OutIsGlobalMinimum(end, q);
    if q.active.count == 0 {
      EmptyLanes(q.active);
      NothingEmptied(end, q.active.queue, 0);
    } else {
      var p := FirstLane(q.active.queue, 0);
      SomeLane(q.active);
      EmptiedOneMore(end, q.active.queue, 0, p);
      DrainActive(end, Out(end, q).value.1);
    }
  }

  /** The first removal swaps a freshly filled queue, and then the lanes are emptied. */
  lemma DrainFilled(end: End, xs: seq<Process>)
    ensures Proper(Fill(xs)) && Drain(end, Fill(xs)) == AllEmptied(end, Fill(xs).expired.queue, 0)
  {
    hide ProperArray, Everyone, AllEmptied, Taken, Left, Lane, Fill;
    FillProper(xs);
    var q := Fill(xs);
    EmptyIsProper();
    var swapped := Queue(q.expired, q.active);
    DrainActive(end, swapped);
    OutIsGlobalMinimum(end, q);
    OutIsGlobalMinimum(end, swapped);
    if q.expired.count == 0 {
      EmptyLanes(q.expired);
      NothingEmptied(end, q.expired.queue, 0);
    } else {
      assert Update(end, q) == swapped == Update(end, swapped);
      assert Out(end, q) == Out(end, swapped);
    }
  }

  predicate NoTwoAlike(xs: seq<Process>)
  {
    forall i, j :: 0 <= i < j < |xs| ==> xs[i] != xs[j]
  }

  /** No two processes share a lane. */
  predicate LanesDiffer(xs: seq<Process>)
  {
    forall i, j :: 0 <= i < j < |xs| ==> Lane(xs[i]) != Lane(xs[j])
  }

  lemma {:induction false} ArrivalsFrom(xs: seq<Process>, p: nat)
    requires NoTwoAlike(xs)
    ensures NoTwoAlike(Arrivals(xs, p))
    ensures forall x :: x in Arrivals(xs, p) <==> x in xs && Lane(x) == p
    decreases |xs|
  {
    if xs != [] {
      var front, last := xs[..|xs| - 1], xs[|xs| - 1];
      ArrivalsFrom(front, p);
      assert xs == front + [last] && last !in front;
    }
  }

  lemma ReversedIsSame(s: seq<Process>)
    requires NoTwoAlike(s)
    ensures Reversed(s) == s <==> |s| <= 1
  {
    if |s| > 1 {
      assert Reversed(s)[0] == s[|s| - 1] != s[0];
    }
  }

  lemma SameSplit<T>(a: seq<T>, b: seq<T>, c: seq<T>, d: seq<T>)
    requires |a| == |c|
    ensures a + b == c + d <==> a == c && b == d
  {
    if a + b == c + d {
      assert a == (a + b)[..|a|] == (c + d)[..|a|] == c;
      assert b == (a + b)[|a|..] == (c + d)[|a|..] == d;
    }
  }

  lemma {:induction false} SameEmptied(ls: Lanes, p: nat)
    requires p <= MAX_PRIO
    ensures AllEmptied(Rear, ls, p) == AllEmptied(Front, ls, p) <==> SameBackwards(ls, p)
    decreases MAX_PRIO - p
  {
    hide AllEmptied, Reversed, SameBackwards;
    if p < MAX_PRIO {
      SameEmptied(ls, p + 1);
      EmptiedFrom(Rear, ls, p);
      EmptiedFrom(Front, ls, p);
      SameSplit(Reversed(ls[p]), AllEmptied(Rear, ls, p + 1), ls[p], AllEmptied(Front, ls, p + 1));
      BackwardsFrom(ls, p);
    } else {
      NothingAbove(ls);
    }
  }

  /** From lane `p` on, every lane reads the same from both ends. */
  ghost predicate SameBackwards(ls: Lanes, p: nat)
  {
    forall i :: p <= i < MAX_PRIO ==> Reversed(ls[i]) == ls[i]
  }

  lemma BackwardsFrom(ls: Lanes, p: nat)
    requires p < MAX_PRIO
    ensures SameBackwards(ls, p) <==> Reversed(ls[p]) == ls[p] && SameBackwards(ls, p + 1)
  {
    hide Reversed;
  }

  lemma NothingAbove(ls: Lanes)
    ensures AllEmptied(Rear, ls, MAX_PRIO) == AllEmptied(Front, ls, MAX_PRIO) && SameBackwards(ls, MAX_PRIO)
  {
  }

  /** Nobody has to wait behind anybody. */
  predicate ShortLanes(xs: seq<Process>)
  {
    forall p: nat | p < MAX_PRIO :: |Arrivals(xs, p)| <= 1
  }

  lemma TwoArrivalsCollide(xs: seq<Process>, p: nat)
    requires NoTwoAlike(xs) && |Arrivals(xs, p)| > 1
    ensures !LanesDiffer(xs)
  {
    ArrivalsFrom(xs, p);
    var s := Arrivals(xs, p);
    assert s[0] in s && s[1] in s && s[0] != s[1];
    var i :| 0 <= i < |xs| && xs[i] == s[0];
    var j :| 0 <= j < |xs| && xs[j] == s[1];
    var a, b := if i < j then i else j, if i < j then j else i;
    assert Lane(xs[a]) == Lane(xs[b]) && a < b;
  }

  lemma DifferIsShort(xs: seq<Process>)
    requires NoTwoAlike(xs) && LanesDiffer(xs)
    ensures ShortLanes(xs)
  {
    hide LanesDiffer, NoTwoAlike;
    forall p: nat | p < MAX_PRIO ensures |Arrivals(xs, p)| <= 1 {
      if |Arrivals(xs, p)| > 1 {
        TwoArrivalsCollide(xs, p);
      }
    }
  }

  lemma ShortIsDiffer(xs: seq<Process>)
    requires NoTwoAlike(xs) && ShortLanes(xs)
    ensures LanesDiffer(xs)
  {
    forall i, j | 0 <= i < j < |xs| ensures Lane(xs[i]) != Lane(xs[j]) {
      var s := Arrivals(xs, Lane(xs[i]));
      ArrivalsFrom(xs, Lane(xs[i]));
      assert xs[i] in s && |s| <= 1;
      assert xs[j] !in s;
    }
  }

  /**
    Filling and draining: processes that are inserted into an empty queue and then drained
    from the rear come out in the order that front removals would give if and only if no two
    of them share a lane.
  */
  lemma RearIsFirstComeFirstServedExactly(xs: seq<Process>)
    requires NoTwoAlike(xs)
    ensures Proper(Fill(xs))
    ensures Drain(Rear, Fill(xs)) == Drain(Front, Fill(xs)) <==> LanesDiffer(xs)
  {
    hide Proper, Drain, AllEmptied, Fill, LanesDiffer, NoTwoAlike, ShortLanes;
    FillProper(xs);
    DrainFilled(Rear, xs);
    DrainFilled(Front, xs);
    SameEmptied(Fill(xs).expired.queue, 0);
    ShortIsSame(xs);
    if ShortLanes(xs) {
      ShortIsDiffer(xs);
    }
    if LanesDiffer(xs) {
      DifferIsShort(xs);
    }
  }

  lemma ShortIsSame(xs: seq<Process>)
    requires NoTwoAlike(xs)
    ensures ShortLanes(xs) <==> SameBackwards(Fill(xs).expired.queue, 0)
  {
    FillProper(xs);
    forall p: nat | p < MAX_PRIO ensures Reversed(Arrivals(xs, p)) == Arrivals(xs, p) <==> |Arrivals(xs, p)| <= 1 {
      ArrivalsFrom(xs, p);
      ReversedIsSame(Arrivals(xs, p));
    }
    if !ShortLanes(xs) {
      var p: nat :| p < MAX_PRIO && |Arrivals(xs, p)| > 1;
      assert Reversed(Fill(xs).expired.queue[p]) != Fill(xs).expired.queue[p];
    }
  }

  /** Two processes of one priority come out last come, first served. */
  lemma TwoOfOnePriority(x: Process, y: Process)
    requires x != y && x.priority == y.priority
    ensures Proper(Fill([x, y])) && Drain(Rear, Fill([x, y])) != Drain(Front, Fill([x, y]))
  {
    var xs := [x, y];
    assert Lane(xs[0]) == Lane(xs[1]) && !LanesDiffer(xs);
    RearIsFirstComeFirstServedExactly(xs);
  }

  // ----- the objects

  /** An array of lanes with its counter. */
  class PrioArrayObject {
    var nrActive: int
    const queue: array<seq<Process>>

    ghost predicate Valid()
    {
      queue.Length == MAX_PRIO
    }

    ghost function Value(): PrioArray
      requires Valid()
      reads this, queue
    {
      PrioArray(nrActive, queue[..])
    }

    constructor ()
      ensures Valid() && fresh(queue) && Value() == Empty()
    {
      nrActive := 0;
      queue := new seq<Process>[MAX_PRIO](_ => []);
    }

    /** The index of the first lane with somebody in it, or -1. */
    method FirstNotEmpty() returns (index: int)
      requires Valid()
      ensures var p := FirstLane(queue[..], 0); index == if p == MAX_PRIO then -1 else p
    {
      var i := 0;
      while i < MAX_PRIO
        invariant 0 <= i <= MAX_PRIO
        invariant forall j :: 0 <= j < i ==> queue[j] == []
      {
        if |queue[i]| != 0 {
          return i;
        }
        i := i + 1;
      }
      index := -1;
    }

    /** `linkedlist_push` on a lane. */
    method Push(p: nat, x: Process)
      requires Valid() && p < MAX_PRIO
      modifies this, queue
      ensures Value() == Put(old(Value()), p, x)
    {
      queue[p] := queue[p] + [x];
      nrActive := nrActive + 1;
    }

    /** `linkedlist_pop` on a lane: the last one. */
    method Pop(p: nat) returns (x: Process)
      requires Valid() && p < MAX_PRIO && queue[p] != []
      modifies this, queue
      ensures x == Taken(Rear, old(queue[p])) && Value() == Drop(Rear, old(Value()), p)
    {
      var lane := queue[p];
      x := lane[|lane| - 1];
      queue[p] := lane[..|lane| - 1];
      nrActive := nrActive - 1;
    }
  }

  class RunQueue {
    var active: PrioArrayObject
    var expired: PrioArrayObject

    ghost predicate Valid()
      reads this
    {
      active.Valid() && expired.Valid() && active != expired && active.queue != expired.queue
    }

    ghost function Value(): Queue
      requires Valid()
      reads this, active, expired, active.queue, expired.queue
    {
      Queue(active.Value(), expired.Value())
    }

    constructor ()
      ensures Valid() && Value() == Queue(Empty(), Empty()) && Proper(Value())
      ensures fresh(active) && fresh(expired) && fresh(active.queue) && fresh(expired.queue)
    {
      active := new PrioArrayObject();
      expired := new PrioArrayObject();
      new;
      EmptyIsProper();
    }

    method Insert(x: Process)
      requires Valid()
      modifies expired, expired.queue
      ensures Valid() && Value() == In(old(Value()), x)
    {
      var p := x.priority;
      if MAX_PRIO <= p {
        p := MAX_PRIO - 1;
      }
      expired.Push(p, x);
    }

    /** Swaps the two arrays, or moves one process over. */
    method UpdateSched()
      requires Valid() && Proper(Value())
      modifies this, active, expired, active.queue, expired.queue
      ensures Valid() && Value() == Update(Rear, old(Value()))
      ensures {active, expired} == {old(active), old(expired)}
    {
      if expired.nrActive == 0 {
        return;
      }
      if active.nrActive == 0 {
        active, expired := expired, active;
      } else {
        SomeLane(expired.Value());
        var p := expired.FirstNotEmpty();
        var x := expired.Pop(p);
        active.Push(p, x);
      }
    }

    method Remove() returns (x: Option<Process>)
      requires Valid() && Proper(Value())
      modifies this, active, expired, active.queue, expired.queue
      ensures Valid() && {active, expired} == {old(active), old(expired)}
      ensures match Out(Rear, old(Value()))
        case None => x == None && Value() == Update(Rear, old(Value()))
        case Some(r) => x == Some(r.0) && Value() == r.1
    {
      hide ProperArray, Update, FirstLane, Everyone;
      UpdateProper(Rear, Value());
      UpdateSched();
      if active.nrActive == 0 {
        return None;
      }
      SomeLane(active.Value());
      var p := active.FirstNotEmpty();
      var y := active.Pop(p);
      x := Some(y);
    }

    method Look() returns (x: Option<Process>)
      requires Valid() && Proper(Value())
      modifies this, active, expired, active.queue, expired.queue
      ensures Valid() && {active, expired} == {old(active), old(expired)}
      ensures x == Peek(Rear, old(Value())).0 && Value() == Peek(Rear, old(Value())).1
    {
      hide ProperArray, Update, FirstLane, Everyone;
      UpdateProper(Rear, Value());
      UpdateSched();
      if active.nrActive == 0 {
        return None;
      }
      SomeLane(active.Value());
      var p := active.FirstNotEmpty();
      x := Some(active.queue[p][0]);
    }
  }
}
