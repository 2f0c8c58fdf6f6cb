/** Invariants, fairness, event agreement, departure and quota of the name table, over all runs. */
module RegistryProofs {
  import opened Wrappers
  import opened Bytes
  import opened Registry

  // ---- Facts about queues ----

  lemma {:induction false} RetainRemoves(q: Queue, who: text)
    ensures !Has(Retain(q, who), who)
  {
    if q != [] {
      RetainRemoves(q[1..], who);
      HasCons(q[0], Retain(q[1..], who), who);
    }
  }

  lemma HasCons(first: QueueEntry, rest: Queue, who: text)
    ensures Has([first] + rest, who) <==> first.owner == who || Has(rest, who)
  {
    var q := [first] + rest;
    if first.owner == who {
      assert q[0].owner == who;
    }
    if Has(rest, who) {
      var i :| 0 <= i < |rest| && rest[i].owner == who;
      assert q[i + 1].owner == who;
    }
    if Has(q, who) && first.owner != who {
      var i :| 0 <= i < |q| && q[i].owner == who;
      assert rest[i - 1].owner == who;
    }
  }

  lemma HasSingle(e: QueueEntry, who: text)
    ensures Has([e], who) <==> e.owner == who
  {
    assert [e] == [e] + [];
    HasCons(e, [], who);
  }

  lemma HasConcat(a: Queue, b: Queue, who: text)
    ensures Has(a + b, who) <==> Has(a, who) || Has(b, who)
  {
    var q := a + b;
    if Has(a, who) {
      var i :| 0 <= i < |a| && a[i].owner == who;
      assert q[i].owner == who;
    }
    if Has(b, who) {
      var i :| 0 <= i < |b| && b[i].owner == who;
      assert q[|a| + i].owner == who;
    }
    if Has(q, who) {
      var i :| 0 <= i < |q| && q[i].owner == who;
      if i < |a| {
        assert a[i].owner == who;
      } else {
        assert b[i - |a|].owner == who;
      }
    }
  }

  lemma HasUncons(q: Queue, who: text)
    requires q != []
    ensures Has(q, who) <==> q[0].owner == who || Has(q[1..], who)
  {
    assert q == [q[0]] + q[1..];
    HasCons(q[0], q[1..], who);
  }

  lemma {:induction false} RetainKeepsOthers(q: Queue, who: text, other: text)
    requires other != who
    ensures Has(Retain(q, who), other) <==> Has(q, other)
  {
    if q != [] {
      RetainKeepsOthers(q[1..], who, other);
      HasUncons(q, other);
      if q[0].owner != who {
        HasCons(q[0], Retain(q[1..], who), other);
      }
    }
  }

  lemma {:induction false} RetainElements(q: Queue, who: text)
    ensures forall e | e in Retain(q, who) :: e in q && e.owner != who
  {
    if q != [] {
      RetainElements(q[1..], who);
      assert forall e | e in q[1..] :: e in q;
      assert q[0] in q;
    }
  }

  // ---- The queue invariant ----

  predicate Distinct(q: Queue) {
    q == [] || (!Has(q[1..], q[0].owner) && Distinct(q[1..]))
  }

  predicate Waiting(q: Queue) {
    forall e | e in q :: !e.doNotQueue
  }

  /** No duplicates, and only the owner may have asked not to be queued. */
  predicate QueueOk(q: Queue) {
    Distinct(q) && (q != [] ==> Waiting(q[1..]))
  }

  predicate TableOk(names: Names) {
    forall name | name in names :: names[name] != [] && QueueOk(names[name])
  }

  lemma {:induction false} RetainDistinct(q: Queue, who: text)
    requires Distinct(q)
    ensures Distinct(Retain(q, who))
  {
    if q != [] {
      RetainDistinct(q[1..], who);
      if q[0].owner != who {
        var rest := Retain(q[1..], who);
        RetainKeepsOthers(q[1..], who, q[0].owner);
        assert ([q[0]] + rest)[1..] == rest;
      }
    }
  }

  lemma {:induction false} DistinctAppend(q: Queue, last: QueueEntry)
    requires Distinct(q) && !Has(q, last.owner)
    ensures Distinct(q + [last])
  {
    if q == [] {
      assert q + [last] == [last] && [last][1..] == [];
    } else {
      HasUncons(q, last.owner);
      DistinctAppend(q[1..], last);
      assert (q + [last])[1..] == q[1..] + [last];
      HasConcat(q[1..], [last], q[0].owner);
      HasSingle(last, q[0].owner);
    }
  }

  lemma ReplaceKeepsQueueOk(q: Queue, who: text, flags: u32)
    requires q != [] && QueueOk(q) && q[0].owner != who && CanReplace(q, flags)
    ensures QueueOk(AfterRequest(q, who, flags))
  {
    var rest := Retain(q[1..], who);
    var displaced := if q[0].doNotQueue then [] else [q[0]];
    var tail := rest + displaced;
    RetainDistinct(q[1..], who);
    RetainElements(q[1..], who);
    RetainRemoves(q[1..], who);
    RetainKeepsOthers(q[1..], who, q[0].owner);
    if displaced == [] {
      assert tail == rest;
    } else {
      DistinctAppend(rest, q[0]);
    }
    HasConcat(rest, displaced, who);
    assert AfterRequest(q, who, flags) == [Entry(who, flags)] + tail;
    assert AfterRequest(q, who, flags)[1..] == tail;
    assert forall e | e in tail :: e in rest || e in displaced;
  }

  lemma RequestKeepsQueueOk(q: Queue, who: text, flags: u32)
    requires QueueOk(q)
    ensures QueueOk(AfterRequest(q, who, flags)) && AfterRequest(q, who, flags) != []
  {
    var r := AfterRequest(q, who, flags);
    if q == [] {
      assert r[1..] == [];
    } else if q[0].owner == who {
    } else if CanReplace(q, flags) {
      ReplaceKeepsQueueOk(q, who, flags);
    } else if !FlagSet(flags, FLAG_DO_NOT_QUEUE) && !Has(q, who) {
      var last := Entry(who, flags).(doNotQueue := false);
      DistinctAppend(q, last);
      assert r[1..] == q[1..] + [last];
    }
  }

  lemma ReleaseKeepsQueueOk(q: Queue, who: text)
    requires QueueOk(q)
    ensures QueueOk(Retain(q, who))
  {
    RetainDistinct(q, who);
    if q != [] {
      RetainElements(q[1..], who);
      var r := Retain(q, who);
      if q[0].owner == who {
        assert r == Retain(q[1..], who);
        if r != [] {
          assert forall e | e in r[1..] :: e in r;
        }
      } else {
        assert r[1..] == Retain(q[1..], who);
      }
    }
  }

  lemma StepKeepsTableOk(names: Names, step: Step)
    requires TableOk(names)
    ensures TableOk(Apply(names, step))
  {
    hide QueueOk, AfterRequest, Retain;
    var q := QueueOf(names, step.name);
    assert QueueOk(q) by {
      if step.name !in names { EmptyOk(); }
    }
    match step
    case Request(who, name, flags) => RequestKeepsQueueOk(q, who, flags);
    case Release(who, name) => ReleaseKeepsQueueOk(q, who);
  }

  lemma EmptyOk()
    ensures QueueOk([])
  {
  }

  /** In every reachable table every queue is non-empty, free of duplicates, and nobody behind the
      owner asked not to be queued. */
  lemma {:induction false} ReachableTablesAreOk(names: Names, steps: seq<Step>)
    requires TableOk(names)
    ensures TableOk(Run(names, steps))
    decreases |steps|
  {
    if steps != [] {
      StepKeepsTableOk(names, steps[0]);
      ReachableTablesAreOk(Apply(names, steps[0]), steps[1..]);
    }
  }

  // ---- No overtaking ----

  /** How many entries stand before a connection; the length of the queue if it is not in it. */
  function Position(q: Queue, who: text): (i: nat)
    ensures i <= |q| && (i < |q| <==> Has(q, who)) && (i < |q| ==> q[i].owner == who)
  {
    if q == [] then 0
    else
      HasUncons(q, who);
      if q[0].owner == who then 0 else 1 + Position(q[1..], who)
  }

  predicate Waits(q: Queue, who: text) {
    Has(q, who) && Position(q, who) > 0
  }

  lemma {:induction false} PositionConcat(a: Queue, b: Queue, who: text)
    ensures Position(a + b, who) == if Has(a, who) then Position(a, who) else |a| + Position(b, who)
  {
    if a == [] {
      assert a + b == b;
    } else {
      HasUncons(a, who);
      assert (a + b)[0] == a[0] && (a + b)[1..] == a[1..] + b;
      PositionConcat(a[1..], b, who);
    }
  }

  lemma {:induction false} RetainMovesUp(q: Queue, leaver: text, who: text)
    requires leaver != who && Has(q, who)
    ensures Has(Retain(q, leaver), who) && Position(Retain(q, leaver), who) <= Position(q, who)
  {
    HasUncons(q, who);
    if q[0].owner != who {
      RetainMovesUp(q[1..], leaver, who);
      if q[0].owner != leaver {
        var rest := Retain(q[1..], leaver);
        assert ([q[0]] + rest)[1..] == rest;
      }
    } else {
      assert Retain(q, leaver)[0] == q[0];
    }
    RetainKeepsOthers(q, leaver, who);
  }

  lemma {:induction false} RetainKeepsOrder(q: Queue, leaver: text, a: text, b: text)
    requires a != leaver && b != leaver && Has(q, a) && Has(q, b) && Position(q, a) < Position(q, b)
    ensures Position(Retain(q, leaver), a) < Position(Retain(q, leaver), b)
  {
    HasUncons(q, a);
    HasUncons(q, b);
    if q[0].owner == a {
      assert Retain(q, leaver)[0] == q[0];
      assert Retain(q, leaver)[0].owner != b;
    } else {
      RetainKeepsOrder(q[1..], leaver, a, b);
      if q[0].owner != leaver {
        var rest := Retain(q[1..], leaver);
        assert ([q[0]] + rest)[1..] == rest;
      }
    }
  }

  /** No step by another connection removes a waiter or moves it back. */
  lemma WaitersNeverMoveBack(names: Names, step: Step, name: text, who: text)
    requires TableOk(names) && step.who != who && Waits(QueueOf(names, name), who)
    ensures var after := QueueOf(Apply(names, step), name);
            Has(after, who) && Position(after, who) <= Position(QueueOf(names, name), who)
  {
    if step.name == name {
      var q := QueueOf(names, name);
      match step
      case Release(w, _) => RetainMovesUp(q, w, who);
      case Request(w, _, flags) =>
        if q[0].owner != w && CanReplace(q, flags) {
          HasUncons(q, who);
          RetainMovesUp(q[1..], w, who);
          var rest := Retain(q[1..], w);
          var displaced := if q[0].doNotQueue then [] else [q[0]];
          var after := AfterRequest(q, w, flags);
          assert after == [Entry(w, flags)] + (rest + displaced);
          assert after[1..] == rest + displaced;
          HasConcat(rest, displaced, who);
          HasUncons(after, who);
          PositionConcat(rest, displaced, who);
        } else if q[0].owner != w && !FlagSet(flags, FLAG_DO_NOT_QUEUE) && !Has(q, w) {
          var last := Entry(w, flags).(doNotQueue := false);
          HasConcat(q, [last], who);
          PositionConcat(q, [last], who);
        }
    }
  }

  /** Two connections that wait keep their order as long as both stay, whoever takes a step, also when one of them
      becomes the owner; only by its own request can the later one overtake, by becoming the owner. */
  lemma WaitersKeepTheirOrder(names: Names, step: Step, name: text, a: text, b: text)
    requires TableOk(names)
    requires var q := QueueOf(names, name); Waits(q, a) && Waits(q, b) && Position(q, a) < Position(q, b)
    requires var after := QueueOf(Apply(names, step), name);
             Has(after, a) && Has(after, b) && (step.Request? && step.who == b ==> Waits(after, b))
    ensures var after := QueueOf(Apply(names, step), name); Position(after, a) < Position(after, b)
  {
    if step.name == name {
      var q := QueueOf(names, name);
      match step
      case Release(w, _) =>
        RetainRemoves(q, w);
        RetainKeepsOrder(q, w, a, b);
      case Request(w, _, flags) =>
        if q[0].owner != w && CanReplace(q, flags) {
          ReplaceKeepsOrder(q, w, flags, a, b);
        } else if q[0].owner != w && !FlagSet(flags, FLAG_DO_NOT_QUEUE) && !Has(q, w) {
          var last := Entry(w, flags).(doNotQueue := false);
          PositionConcat(q, [last], a);
          PositionConcat(q, [last], b);
        }
    }
  }

  lemma ReplaceKeepsOrder(q: Queue, w: text, flags: u32, a: text, b: text)
    requires q != [] && q[0].owner != w && CanReplace(q, flags)
    requires Waits(q, a) && Waits(q, b) && Position(q, a) < Position(q, b)
    requires Has(AfterRequest(q, w, flags), a) && Has(AfterRequest(q, w, flags), b)
    requires w == b ==> Waits(AfterRequest(q, w, flags), b)
    ensures Position(AfterRequest(q, w, flags), a) < Position(AfterRequest(q, w, flags), b)
  {
    var rest := Retain(q[1..], w);
    var displaced := if q[0].doNotQueue then [] else [q[0]];
    var after := AfterRequest(q, w, flags);
    assert after == [Entry(w, flags)] + (rest + displaced);
    assert after[1..] == rest + displaced;
    HasUncons(q, a);
    HasUncons(q, b);
    if w != a {
      RetainKeepsOrder(q[1..], w, a, b);
      RetainKeepsOthers(q[1..], w, a);
      RetainKeepsOthers(q[1..], w, b);
      PositionConcat(rest, displaced, a);
      PositionConcat(rest, displaced, b);
    }
  }

  // ---- Events and ownership ----

  /** Who owns what, as a client would record it. */
  type Owners = map<text, text>

  function OwnersOf(names: Names): (owners: Owners) {
    map name | name in names && names[name] != [] :: names[name][0].owner
  }

  function Observe(owners: Owners, change: NameOwnerChange): (r: Owners) {
    if change.newOwner.Some? then owners[change.name := change.newOwner.value] else owners - {change.name}
  }

  function Replay(owners: Owners, events: seq<NameOwnerChange>): (r: Owners)
    decreases |events|
  {
    if events == [] then owners else Replay(Observe(owners, events[0]), events[1..])
  }

  function Lookup(owners: Owners, name: text): (owner: Option<text>) {
    if name in owners then Some(owners[name]) else None
  }

  /** A change is true to the table it happens in: it names the previous owner, and a different one
      follows. */
  predicate Truthful(owners: Owners, change: NameOwnerChange) {
    change.oldOwner == Lookup(owners, change.name) && change.newOwner != change.oldOwner
  }

  predicate AllTruthful(owners: Owners, events: seq<NameOwnerChange>)
    decreases |events|
  {
    events == [] || (Truthful(owners, events[0]) && AllTruthful(Observe(owners, events[0]), events[1..]))
  }

  /** One step: its event, if any, is truthful and accounts for the only change of ownership. */
  lemma StepEvents(names: Names, step: Step)
    requires TableOk(names)
    ensures var before, after := OwnersOf(names), OwnersOf(Apply(names, step));
            match ChangeOf(names, step)
            case None => after == before
            case Some(change) =>
              change.name == step.name && Truthful(before, change) && after == Observe(before, change)
  {
    var before, after := OwnersOf(names), OwnersOf(Apply(names, step));
    var q, q' := QueueOf(names, step.name), NewQueue(names, step);
    StepKeepsTableOk(names, step);
    match step
    case Request(who, name, flags) =>
    case Release(who, name) =>
      if q != [] {
        if q[0].owner == who {
          RetainRemoves(q, who);
          if q' != [] {
            assert q'[0].owner != who;
          }
        } else {
          RetainHead(q, who);
        }
      }
  }

  lemma {:induction false} ReplayConcat(owners: Owners, a: seq<NameOwnerChange>, b: seq<NameOwnerChange>)
    ensures Replay(owners, a + b) == Replay(Replay(owners, a), b)
    ensures AllTruthful(owners, a) && AllTruthful(Replay(owners, a), b) ==> AllTruthful(owners, a + b)
    decreases |a|
  {
    if a == [] {
      assert a + b == b;
    } else {
      assert (a + b)[0] == a[0] && (a + b)[1..] == a[1..] + b;
      ReplayConcat(Observe(owners, a[0]), a[1..], b);
    }
  }

  /** Over every run, replaying the reported changes gives exactly the table's owners, and every
      change names the owner just before it. */
  lemma {:induction false} EventsDetermineOwnership(names: Names, steps: seq<Step>)
    requires TableOk(names)
    ensures Replay(OwnersOf(names), EventsOf(names, steps)) == OwnersOf(Run(names, steps))
    ensures AllTruthful(OwnersOf(names), EventsOf(names, steps))
    decreases |steps|
  {
    hide TableOk, Apply, OwnersOf, ChangeOf, Observe, Truthful;
    if steps != [] {
      var next := Apply(names, steps[0]);
      StepEvents(names, steps[0]);
      StepKeepsTableOk(names, steps[0]);
      EventsDetermineOwnership(next, steps[1..]);
      var here := Changes(names, steps[0]);
      SingleReplay(OwnersOf(names), here);
      ReplayConcat(OwnersOf(names), here, EventsOf(next, steps[1..]));
    }
  }

  lemma SingleReplay(owners: Owners, events: seq<NameOwnerChange>)
    requires |events| <= 1
    ensures Replay(owners, events) == if events == [] then owners else Observe(owners, events[0])
    ensures AllTruthful(owners, events) <==> events == [] || Truthful(owners, events[0])
  {
    if events != [] {
      assert events[1..] == [];
    }
  }

  // ---- Departure ----

  predicate ByOthers(trace: seq<Action>, who: text) {
    forall a | a in trace :: a.Other? ==> a.step.who != who
  }

  /** A step by another connection brings nobody else into a queue. */
  lemma OthersBringNobodyIn(names: Names, step: Step, name: text, who: text)
    requires step.who != who && Has(QueueOf(Apply(names, step), name), who)
    ensures Has(QueueOf(names, name), who)
  {
    if step.name == name {
      var q := QueueOf(names, name);
      match step
      case Release(w, _) => RetainKeepsOthers(q, w, who);
      case Request(w, _, flags) =>
        if q == [] {
          HasSingle(Entry(w, flags), who);
        } else if q[0].owner == w {
        } else if CanReplace(q, flags) {
          var rest := Retain(q[1..], w);
          var displaced := if q[0].doNotQueue then [] else [q[0]];
          assert AfterRequest(q, w, flags) == [Entry(w, flags)] + (rest + displaced);
          HasCons(Entry(w, flags), rest + displaced, who);
          HasConcat(rest, displaced, who);
          RetainKeepsOthers(q[1..], w, who);
          HasUncons(q, who);
          assert Has(displaced, who) ==> displaced == [q[0]] && q[0].owner == who;
        } else if !FlagSet(flags, FLAG_DO_NOT_QUEUE) && !Has(q, w) {
          var last := Entry(w, flags).(doNotQueue := false);
          HasConcat(q, [last], who);
          HasSingle(last, who);
        }
    }
  }

  predicate OnlyIn(names: Names, who: text, pending: seq<text>) {
    forall name | name in names && Has(names[name], who) :: name in pending
  }

  /** A release step touches only its own connection's entries: everybody else's stay, in order, and
      if the owner left and someone waits, the successor is reported. */
  lemma OwnReleaseStep(names: Names, who: text, name: text)
    ensures var q, after := QueueOf(names, name), QueueOf(Apply(names, Release(who, name)), name);
            && after == Retain(q, who) && !Has(after, who)
            && (OwnerOf(q) == Some(who) ==>
                  ChangeOf(names, Release(who, name)) == Some(NameOwnerChange(name, Some(who), OwnerOf(after))))
            && forall other :: other != name ==>
                 QueueOf(Apply(names, Release(who, name)), other) == QueueOf(names, other)
  {
    RetainRemoves(QueueOf(names, name), who);
  }

  lemma ActionKeepsOnlyIn(names: Names, who: text, pending: seq<text>, action: Action)
    requires OnlyIn(names, who, pending) && (action.Other? ==> action.step.who != who)
    ensures OnlyIn(ApplyAction(names, who, pending, action), who, Left(pending, action))
  {
    hide Apply, Has, Retain;
    var after := ApplyAction(names, who, pending, action);
    forall name | name in after && Has(after[name], who)
      ensures name in Left(pending, action)
    {
      if action.Other? {
        OthersBringNobodyIn(names, action.step, name, who);
        NobodyInNothing(who);
      } else if pending != [] {
        OwnReleaseStep(names, who, pending[0]);
        NobodyInNothing(who);
        assert name != pending[0];
        assert QueueOf(after, name) == QueueOf(names, name);
        assert name in pending;
        assert pending == [pending[0]] + pending[1..];
      }
    }
  }

  lemma NobodyInNothing(who: text)
    ensures !Has([], who)
  {
  }

  /** Departure is complete: once every name of a snapshot of the table has been released, whatever
      other connections do in between, the departed connection is in no queue. */
  lemma {:induction false} DepartureIsComplete(names: Names, who: text, pending: seq<text>, trace: seq<Action>)
    requires OnlyIn(names, who, pending) && ByOthers(trace, who)
    requires Depart(names, who, pending, trace).1 == []
    ensures var after := Depart(names, who, pending, trace).0;
            forall name | name in after :: !Has(after[name], who)
    decreases |trace|
  {
    hide Has, ApplyAction, Left;
    if trace != [] {
      ActionKeepsOnlyIn(names, who, pending, trace[0]);
      assert forall a | a in trace[1..] :: a in trace;
      DepartureIsComplete(ApplyAction(names, who, pending, trace[0]), who, Left(pending, trace[0]), trace[1..]);
    }
  }

  /** A snapshot of all names covers every queue the connection is in. */
  lemma SnapshotCovers(names: Names, who: text, snapshot: seq<text>)
    requires forall name :: name in names ==> name in snapshot
    ensures OnlyIn(names, who, snapshot)
  {
  }

  lemma {:induction false} TraceByOthers(between: seq<seq<Step>>, n: nat, who: text)
    requires forall i | 0 <= i < |between| :: forall s | s in between[i] :: s.who != who
    ensures ByOthers(TraceOf(between, n), who)
  {
    if n > 0 {
      TraceByOthers(between, n - 1, who);
      var others := StepsBefore(between, n - 1);
      assert forall s | s in others :: s.who != who;
      assert forall a | a in AsOthers(others) :: a.Other? ==> a.step in others;
    }
  }

  /** Removing a connection leaves it in no queue, whatever others do between the acquisitions of the lock. */
  lemma RemovalIsComplete(names: Names, who: text, order: seq<text>, between: seq<seq<Step>>)
    requires forall name :: name in names ==> name in order
    requires forall i | 0 <= i < |between| :: forall s | s in between[i] :: s.who != who
    requires Depart(names, who, order, TraceOf(between, |order|)).1 == []
    ensures var after := Depart(names, who, order, TraceOf(between, |order|)).0;
            forall name | name in after :: !Has(after[name], who)
  {
    hide Depart, Has, ByOthers;
    SnapshotCovers(names, who, order);
    TraceByOthers(between, |order|, who);
    DepartureIsComplete(names, who, order, TraceOf(between, |order|));
  }

  /** The steps of a departure, in the order they were taken. */
  function StepsOf(who: text, pending: seq<text>, trace: seq<Action>): (steps: seq<Step>)
    decreases |trace|
  {
    if trace == [] then []
    else
      var rest := StepsOf(who, Left(pending, trace[0]), trace[1..]);
      match trace[0]
      case Other(step) => [step] + rest
      case Own => if pending == [] then rest else [Release(who, pending[0])] + rest
  }

  /** An interleaved departure is a run like any other: its owners, its queues and its changes obey the theorems
      about runs. */
  lemma {:induction false} DepartIsRun(names: Names, who: text, pending: seq<text>, trace: seq<Action>)
    ensures Depart(names, who, pending, trace).0 == Run(names, StepsOf(who, pending, trace))
    decreases |trace|
  {
    hide Apply;
    if trace != [] {
      DepartIsRun(ApplyAction(names, who, pending, trace[0]), who, Left(pending, trace[0]), trace[1..]);
    }
  }

  // ---- Quota ----

  /** Requests take two steps: the limit check, and the request itself under its own lock. */
  datatype QuotaState = QuotaState(names: Names, granted: map<text, (text, u32)>)

  datatype QuotaAction =
    | Check(who: text, name: text, flags: u32)
    | Commit(who: text)
    | Drop(who: text, name: text)

  function QuotaStep(st: QuotaState, action: QuotaAction, max: nat): (r: QuotaState) {
    match action
    case Check(who, name, flags) =>
      if who in st.granted || |Held(st.names, who)| >= max then st
      else st.(granted := st.granted[who := (name, flags)])
    case Commit(who) =>
      if who !in st.granted then st
      else
        var (name, flags) := st.granted[who];
        QuotaState(Apply(st.names, Request(who, name, flags)), st.granted - {who})
    case Drop(who, name) => st.(names := Apply(st.names, Release(who, name)))
  }

  function QuotaRun(st: QuotaState, actions: seq<QuotaAction>, max: nat): (r: QuotaState)
    decreases |actions|
  {
    if actions == [] then st else QuotaRun(QuotaStep(st, actions[0], max), actions[1..], max)
  }

  predicate WithinQuota(st: QuotaState, who: text, max: nat) {
    && |Held(st.names, who)| <= max
    && (who in st.granted ==> |Held(st.names, who)| < max)
  }

  lemma SubsetSize(a: set<text>, b: set<text>)
    requires a <= b
    ensures |a| <= |b|
  {
    assert b == a + (b - a);
  }

  /** Only a connection's own request can add a name to what it holds, and only that name. */
  lemma HeldAfter(names: Names, step: Step, who: text)
    ensures var before, after := Held(names, who), Held(Apply(names, step), who);
            after <= if step.Request? && step.who == who then before + {step.name} else before
  {
    hide Has, Retain, AfterRequest;
    var after := Apply(names, step);
    NobodyInNothing(who);
    forall name | name in after && Has(after[name], who)
      ensures name in Held(names, who) || (step.Request? && step.who == who && name == step.name)
    {
      if step.who != who {
        OthersBringNobodyIn(names, step, name, who);
      } else if name == step.name && step.Release? {
        RetainRemoves(QueueOf(names, name), who);
      }
    }
  }

  lemma QuotaStepKeepsQuota(st: QuotaState, action: QuotaAction, max: nat, who: text)
    requires WithinQuota(st, who, max)
    ensures WithinQuota(QuotaStep(st, action, max), who, max)
  {
    hide Held, Apply;
    match action
    case Check(w, name, flags) =>
    case Commit(w) =>
      if w in st.granted {
        var (name, flags) := st.granted[w];
        var before := Held(st.names, who);
        HeldAfter(st.names, Request(w, name, flags), who);
        if w == who {
          SubsetSize(Held(Apply(st.names, Request(w, name, flags)), who), before + {name});
        } else {
          SubsetSize(Held(Apply(st.names, Request(w, name, flags)), who), before);
        }
      }
    case Drop(w, name) =>
      HeldAfter(st.names, Release(w, name), who);
      SubsetSize(Held(Apply(st.names, Release(w, name)), who), Held(st.names, who));
  }

  /** In every run where requests go through the limit check, in any interleaving of checks and
      requests, no connection ever owns or waits for more than the limit. */
  lemma {:induction false} QuotaHolds(st: QuotaState, actions: seq<QuotaAction>, max: nat, who: text)
    requires WithinQuota(st, who, max)
    ensures WithinQuota(QuotaRun(st, actions, max), who, max)
    decreases |actions|
  {
    hide WithinQuota, QuotaStep;
    if actions != [] {
      QuotaStepKeepsQuota(st, actions[0], max, who);
      QuotaHolds(QuotaStep(st, actions[0], max), actions[1..], max, who);
    }
  }

  lemma EmptyTableIsWithinQuota(who: text, max: nat)
    ensures WithinQuota(QuotaState(map[], map[]), who, max)
  {
    assert Held(map[], who) == {};
  }
}
