/** The table of well-known names: one queue of connections per name, the owner in front. */
module Registry {
  import opened Wrappers
  import opened Bytes

  const FLAG_ALLOW_REPLACEMENT: nat := 1
  const FLAG_REPLACE_EXISTING: nat := 2
  const FLAG_DO_NOT_QUEUE: nat := 4

  datatype RequestReply = PrimaryOwner | InQueue | Exists | AlreadyOwner
  datatype ReleaseReply = Released | NonExistent | NotOwner

  datatype QueueEntry = QueueEntry(owner: text, allowReplacement: bool, doNotQueue: bool)

  type Queue = seq<QueueEntry>
  type Names = map<text, Queue>

  datatype NameOwnerChange = NameOwnerChange(name: text, oldOwner: Option<text>, newOwner: Option<text>)

  /** Bit test; the flags are powers of two. */
  predicate FlagSet(flags: u32, flag: nat)
    requires flag > 0
  {
    flags / flag % 2 == 1
  }

  predicate Has(q: Queue, who: text) {
    exists i | 0 <= i < |q| :: q[i].owner == who
  }

  /** The queue without the entries of one connection. */
  function Retain(q: Queue, who: text): (r: Queue)
    ensures |r| <= |q|
  {
    if q == [] then []
    else if q[0].owner == who then Retain(q[1..], who)
    else [q[0]] + Retain(q[1..], who)
  }

  function QueueOf(names: Names, name: text): (q: Queue) {
    if name in names then names[name] else []
  }

  function OwnerOf(q: Queue): (owner: Option<text>) {
    if q == [] then None else Some(q[0].owner)
  }

  function Entry(who: text, flags: u32): (e: QueueEntry) {
    QueueEntry(who, FlagSet(flags, FLAG_ALLOW_REPLACEMENT), FlagSet(flags, FLAG_DO_NOT_QUEUE))
  }

  predicate CanReplace(q: Queue, flags: u32)
    requires q != []
  {
    FlagSet(flags, FLAG_REPLACE_EXISTING) && q[0].allowReplacement
  }

  /** The queue of a name after a request for it. */
  function AfterRequest(q: Queue, who: text, flags: u32): (r: Queue) {
    if q == [] then [Entry(who, flags)]
    else if q[0].owner == who then q
    else if CanReplace(q, flags) then
      [Entry(who, flags)] + Retain(q[1..], who) + (if q[0].doNotQueue then [] else [q[0]])
    else if FlagSet(flags, FLAG_DO_NOT_QUEUE) || Has(q, who) then q
    else q + [Entry(who, flags).(doNotQueue := false)]
  }

  function ReplyToRequest(q: Queue, who: text, flags: u32): (code: RequestReply) {
    if q == [] then PrimaryOwner
    else if q[0].owner == who then AlreadyOwner
    else if CanReplace(q, flags) then PrimaryOwner
    else if FlagSet(flags, FLAG_DO_NOT_QUEUE) then Exists
    else InQueue
  }

  // ---- Atomic steps: one acquisition of the write lock each ----

  datatype Step =
    | Request(who: text, name: text, flags: u32)
    | Release(who: text, name: text)

  /** The queue of the step's name after the step. */
  function NewQueue(names: Names, step: Step): (q: Queue) {
    match step
    case Request(who, name, flags) => AfterRequest(QueueOf(names, name), who, flags)
    case Release(who, name) => Retain(QueueOf(names, name), who)
  }

  function Store(names: Names, name: text, q: Queue): (r: Names) {
    if q == [] then names - {name} else names[name := q]
  }

  function Apply(names: Names, step: Step): (r: Names) {
    Store(names, step.name, NewQueue(names, step))
  }

  /** The change a step reports, if any. */
  function ChangeOf(names: Names, step: Step): (change: Option<NameOwnerChange>) {
    var q := QueueOf(names, step.name);
    match step
    case Request(who, name, flags) =>
      if q == [] then Some(NameOwnerChange(name, None, Some(who)))
      else if q[0].owner != who && CanReplace(q, flags) then
        Some(NameOwnerChange(name, Some(q[0].owner), Some(who)))
      else None
    case Release(who, name) =>
      if q != [] && q[0].owner == who then Some(NameOwnerChange(name, Some(who), OwnerOf(Retain(q, who))))
      else None
  }

  function Changes(names: Names, step: Step): (events: seq<NameOwnerChange>) {
    var c := ChangeOf(names, step);
    if c.Some? then [c.value] else []
  }

  function Run(names: Names, steps: seq<Step>): (r: Names)
    decreases |steps|
  {
    if steps == [] then names else Run(Apply(names, steps[0]), steps[1..])
  }

  function EventsOf(names: Names, steps: seq<Step>): (events: seq<NameOwnerChange>)
    decreases |steps|
  {
    if steps == [] then [] else Changes(names, steps[0]) + EventsOf(Apply(names, steps[0]), steps[1..])
  }

  /** One release per name, in the given order. */
  function Releases(who: text, order: seq<text>): (steps: seq<Step>) {
    if order == [] then [] else [Release(who, order[0])] + Releases(who, order[1..])
  }

  /**
   A release looks at the table three times: the name is looked up, then the caller's place, then the
   place is given up. Other connections act in between.
   */
  function ReleaseInterleaved(names: Names, who: text, name: text, first: seq<Step>, second: seq<Step>)
    : (r: (ReleaseReply, Names, seq<NameOwnerChange>))
  {
    if name !in names then (NonExistent, names, [])
    else
      var seen := Run(names, first);
      if !Has(QueueOf(seen, name), who) then (NotOwner, seen, [])
      else
        var before := Run(seen, second);
        (Released, Apply(before, Release(who, name)), Changes(before, Release(who, name)))
  }

  // ---- A departure releases the names of a snapshot, one acquisition of the lock each ----

  /** A release step of the departing connection itself, or a step of another one in between. */
  datatype Action = Own | Other(step: Step)

  function ApplyAction(names: Names, who: text, pending: seq<text>, action: Action): (r: Names) {
    match action
    case Own => if pending == [] then names else Apply(names, Release(who, pending[0]))
    case Other(step) => Apply(names, step)
  }

  function Left(pending: seq<text>, action: Action): (r: seq<text>) {
    if action.Own? && pending != [] then pending[1..] else pending
  }

  /** The table, and the names of the snapshot that are still to be released. */
  function Depart(names: Names, who: text, pending: seq<text>, trace: seq<Action>): (r: (Names, seq<text>))
    decreases |trace|
  {
    if trace == [] then (names, pending)
    else Depart(ApplyAction(names, who, pending, trace[0]), who, Left(pending, trace[0]), trace[1..])
  }

  /** The changes the departure reports: those of its own release steps. */
  function ReportOf(names: Names, who: text, pending: seq<text>, action: Action): (events: seq<NameOwnerChange>) {
    if action.Own? && pending != [] then Changes(names, Release(who, pending[0])) else []
  }

  function DepartEvents(names: Names, who: text, pending: seq<text>, trace: seq<Action>): (events: seq<NameOwnerChange>)
    decreases |trace|
  {
    if trace == [] then []
    else
      ReportOf(names, who, pending, trace[0])
      + DepartEvents(ApplyAction(names, who, pending, trace[0]), who, Left(pending, trace[0]), trace[1..])
  }

  function AsOthers(steps: seq<Step>): (trace: seq<Action>) {
    seq(|steps|, i requires 0 <= i < |steps| => Other(steps[i]))
  }

  function StepsBefore(between: seq<seq<Step>>, i: nat): (steps: seq<Step>) {
    if i < |between| then between[i] else []
  }

  /** The first n release steps, each after the steps others take before it. */
  function TraceOf(between: seq<seq<Step>>, n: nat): (trace: seq<Action>) {
    if n == 0 then [] else TraceOf(between, n - 1) + AsOthers(StepsBefore(between, n - 1)) + [Own]
  }

  /** The names a connection owns or waits for. */
  function Held(names: Names, who: text): (held: set<text>) {
    set name | name in names && Has(names[name], who)
  }

  predicate IsUnique(name: text) {
    name != [] && name[0] == 58 // :
  }

  lemma {:induction false} RetainHead(q: Queue, who: text)
    requires q != [] && q[0].owner != who
    ensures Retain(q, who)[0] == q[0] && Retain(q, who)[1..] == Retain(q[1..], who)
  {
  }

  lemma {:induction false} RetainAbsent(q: Queue, who: text)
    ensures !Has(q, who) ==> Retain(q, who) == q
  {
    if q != [] && !Has(q, who) {
      assert q[0].owner != who;
      assert forall i | 0 <= i < |q[1..]| :: q[1..][i] == q[i + 1];
      RetainAbsent(q[1..], who);
    }
  }

  class Registry {
    var connections: set<text>
    var names: Names

    /** No queue in the table is empty. */
    ghost predicate Valid()
      reads this
    {
      forall name | name in names :: names[name] != []
    }

    constructor ()
      ensures Valid() && connections == {} && names == map[]
    {
      connections, names := {}, map[];
    }

    method AddConnection(uniqueName: text)
      modifies `connections
      ensures connections == old(connections) + {uniqueName}
    {
      connections := connections + {uniqueName};
    }

    method GetNameOwner(name: text) returns (owner: Option<text>)
      ensures owner == if name != [] && name[0] == ':' as int then (if name in connections then Some(name) else None)
                       else if name in names && names[name] != [] then Some(names[name][0].owner)
                       else None
    {
      if IsUnique(name) {
        return if name in connections then Some(name) else None;
      }
      if name in names && names[name] != [] {
        return Some(names[name][0].owner);
      }
      return None;
    }

    method NamesHeldBy(who: text) returns (count: nat)
      ensures count == |Held(names, who)|
    {
      var pending := names.Keys;
      count := 0;
      ghost var counted: set<text> := {};
      while pending != {}
        invariant pending <= names.Keys && counted !! pending
        invariant counted == set name | name in names && name !in pending && Has(names[name], who)
        invariant count == |counted|
        decreases pending
      {
        var name :| name in pending;
        if Has(names[name], who) {
          count := count + 1;
          counted := counted + {name};
        }
        pending := pending - {name};
      }
      assert counted == Held(names, who);
    }

    method RequestName(who: text, name: text, flags: u32) returns (code: RequestReply, events: seq<NameOwnerChange>)
      requires Valid()
      modifies `names
      ensures Valid()
      ensures names == Apply(old(names), Request(who, name, flags))
      ensures code == ReplyToRequest(QueueOf(old(names), name), who, flags)
      ensures events == Changes(old(names), Request(who, name, flags))
    {
      if name !in names {
        names := names[name := []];
      }
      var queue := names[name];
      if queue != [] {
        var primary := queue[0];
        if primary.owner == who {
          return AlreadyOwner, [];
        }
        if FlagSet(flags, FLAG_REPLACE_EXISTING) && primary.allowReplacement {
          RetainHead(queue, who);
          queue := Retain(queue, who);
          var displaced := queue[0];
          queue := queue[1..];
          queue := [QueueEntry(who, FlagSet(flags, FLAG_ALLOW_REPLACEMENT), FlagSet(flags, FLAG_DO_NOT_QUEUE))] + queue;
          if !primary.doNotQueue {
            queue := queue + [displaced];
          }
          assert queue + [] == queue;
          names := names[name := queue];
          return PrimaryOwner, [NameOwnerChange(name, Some(primary.owner), Some(who))];
        }
        if FlagSet(flags, FLAG_DO_NOT_QUEUE) {
          return Exists, [];
        }
        if !Has(queue, who) {
          queue := queue + [QueueEntry(who, FlagSet(flags, FLAG_ALLOW_REPLACEMENT), false)];
          names := names[name := queue];
        }
        return InQueue, [];
      }
      queue := [QueueEntry(who, FlagSet(flags, FLAG_ALLOW_REPLACEMENT), FlagSet(flags, FLAG_DO_NOT_QUEUE))];
      names := names[name := queue];
      return PrimaryOwner, [NameOwnerChange(name, None, Some(who))];
    }

    method ReleaseNameInternal(who: text, name: text) returns (change: Option<NameOwnerChange>)
      requires Valid()
      modifies `names
      ensures Valid()
      ensures names == Apply(old(names), Release(who, name))
      ensures change == ChangeOf(old(names), Release(who, name))
    {
      if name !in names {
        return None;
      }
      var queue := names[name];
      var wasPrimary := queue[0].owner == who;
      RetainAbsent(queue, who);
      if !Has(queue, who) {
        return None;
      }
      queue := Retain(queue, who);
      if queue == [] {
        names := names - {name};
      } else {
        names := names[name := queue];
      }
      if !wasPrimary {
        return None;
      }
      return Some(NameOwnerChange(name, Some(who), OwnerOf(queue)));
    }

    /** Steps of other connections between two acquisitions of the lock. */
    method Others(steps: seq<Step>)
      requires Valid()
      modifies `names
      ensures Valid() && names == Run(old(names), steps)
    {
      hide Apply;
      for i := 0 to |steps|
        invariant Valid() && Run(old(names), steps) == Run(names, steps[i..])
      {
        assert steps[i..][0] == steps[i] && steps[i..][1..] == steps[i + 1..];
        match steps[i]
        case Request(who, name, flags) => var code, events := RequestName(who, name, flags);
        case Release(who, name) => var change := ReleaseNameInternal(who, name);
      }
    }

    /** The lock is taken three times; first and second are what others do in between. */
    method ReleaseName(who: text, name: text, first: seq<Step>, second: seq<Step>)
      returns (code: ReleaseReply, events: seq<NameOwnerChange>)
      requires Valid()
      modifies `names
      ensures Valid()
      ensures (code, names, events) == ReleaseInterleaved(old(names), who, name, first, second)
    {
      hide Run, Apply;
      var known := name in names;
      if !known {
        return NonExistent, [];
      }
      Others(first);
      var ownsOrQueued := if name in names then Has(names[name], who) else false;
      if !ownsOrQueued {
        return NotOwner, [];
      }
      Others(second);
      var change := ReleaseNameInternal(who, name);
      return Released, if change.Some? then [change.value] else [];
    }

    /** The names of the table, in an arbitrary order. */
    method Snapshot() returns (list: seq<text>)
      ensures forall name :: name in names <==> name in list
    {
      list := [];
      var pending := names.Keys;
      while pending != {}
        invariant forall name :: name in names <==> name in list || name in pending
        decreases pending
      {
        var name :| name in pending;
        list := list + [name];
        pending := pending - {name};
      }
    }

    /**
     Releases every name of a departing connection. Others act before the snapshot is taken, and before each of
     the releases.
     */
    method RemoveConnection(who: text, before: seq<Step>, between: seq<seq<Step>>)
      returns (events: seq<NameOwnerChange>, ghost order: seq<text>)
      requires Valid()
      modifies this
      ensures Valid()
      ensures connections == old(connections) - {who}
      ensures var start, trace := Run(old(names), before), TraceOf(between, |order|);
              && (forall name :: name in start <==> name in order)
              && Depart(start, who, order, trace) == (names, [])
              && events == DepartEvents(start, who, order, trace) + [NameOwnerChange(who, Some(who), None)]
    {
      hide Run, Apply, Depart, DepartEvents;
      connections := connections - {who};
      Others(before);
      ghost var start := names;
      var snapshot := Snapshot();
      order := snapshot;
      events := [];
      NoDeparture(start, who, order);
      assert order[0..] == order;
      for i := 0 to |snapshot|
        invariant connections == old(connections) - {who}
        invariant Valid()
        invariant Depart(start, who, order, TraceOf(between, i)) == (names, order[i..])
        invariant events == DepartEvents(start, who, order, TraceOf(between, i))
      {
        DepartOthers(start, who, order, TraceOf(between, i), StepsBefore(between, i));
        DepartAppend(start, who, order, TraceOf(between, i) + AsOthers(StepsBefore(between, i)), Own);
        Others(StepsBefore(between, i));
        var change := ReleaseNameInternal(who, snapshot[i]);
        assert events + [] == events;
        if change.Some? {
          events := events + [change.value];
        }
        assert order[i..][0] == order[i] && order[i..][1..] == order[i + 1..];
      }
      events := events + [NameOwnerChange(who, Some(who), None)];
    }
  }

  lemma {:induction false} RunAppend(names: Names, steps: seq<Step>, last: Step)
    ensures Run(names, steps + [last]) == Apply(Run(names, steps), last)
    ensures EventsOf(names, steps + [last]) == EventsOf(names, steps) + Changes(Run(names, steps), last)
    decreases |steps|
  {
    hide Apply, Changes;
    if steps == [] {
      assert steps + [last] == [last] && [last][1..] == [];
      assert Changes(names, last) + [] == Changes(names, last);
    } else {
      assert (steps + [last])[0] == steps[0] && (steps + [last])[1..] == steps[1..] + [last];
      RunAppend(Apply(names, steps[0]), steps[1..], last);
    }
  }

  lemma {:induction false} ReleasesAppend(who: text, order: seq<text>, last: text)
    ensures Releases(who, order + [last]) == Releases(who, order) + [Release(who, last)]
  {
    if order == [] {
      assert order + [last] == [last] && [last][1..] == [];
    } else {
      assert (order + [last])[0] == order[0] && (order + [last])[1..] == order[1..] + [last];
      ReleasesAppend(who, order[1..], last);
    }
  }

  lemma NoDeparture(names: Names, who: text, pending: seq<text>)
    ensures Depart(names, who, pending, []) == (names, pending) && DepartEvents(names, who, pending, []) == []
  {
  }

  lemma {:induction false} DepartAppend(names: Names, who: text, pending: seq<text>, trace: seq<Action>, last: Action)
    ensures var (n, p) := Depart(names, who, pending, trace);
            && Depart(names, who, pending, trace + [last]) == (ApplyAction(n, who, p, last), Left(p, last))
            && DepartEvents(names, who, pending, trace + [last]) ==
               DepartEvents(names, who, pending, trace) + ReportOf(n, who, p, last)
    decreases |trace|
  {
    hide ApplyAction, Left, ReportOf;
    if trace == [] {
      assert trace + [last] == [last] && [last][1..] == [];
      assert ReportOf(names, who, pending, last) + [] == [] + ReportOf(names, who, pending, last);
    } else {
      assert (trace + [last])[0] == trace[0] && (trace + [last])[1..] == trace[1..] + [last];
      DepartAppend(ApplyAction(names, who, pending, trace[0]), who, Left(pending, trace[0]), trace[1..], last);
    }
  }

  lemma {:induction false} DepartOthers(names: Names, who: text, pending: seq<text>, trace: seq<Action>,
                                        steps: seq<Step>)
    ensures var (n, p) := Depart(names, who, pending, trace);
            && Depart(names, who, pending, trace + AsOthers(steps)) == (Run(n, steps), p)
            && DepartEvents(names, who, pending, trace + AsOthers(steps)) == DepartEvents(names, who, pending, trace)
    decreases |steps|
  {
    hide Apply, Depart, DepartEvents;
    if steps == [] {
      assert trace + AsOthers(steps) == trace;
    } else {
      var next := trace + [Other(steps[0])];
      DepartAppend(names, who, pending, trace, Other(steps[0]));
      assert trace + AsOthers(steps) == next + AsOthers(steps[1..]);
      DepartOthers(names, who, pending, next, steps[1..]);
      assert DepartEvents(names, who, pending, trace) + [] == DepartEvents(names, who, pending, trace);
    }
  }

  lemma {:induction false} DepartAloneUpTo(names: Names, who: text, order: seq<text>, k: nat)
    requires k <= |order|
    ensures Depart(names, who, order, TraceOf([], k)) == (Run(names, Releases(who, order[..k])), order[k..])
    ensures DepartEvents(names, who, order, TraceOf([], k)) == EventsOf(names, Releases(who, order[..k]))
    decreases k
  {
    hide Apply, Changes, Depart, DepartEvents, Run, EventsOf, Releases;
    if k == 0 {
      NoDeparture(names, who, order);
      NoRun(names, who);
      assert order[..0] == [] && order[0..] == order;
    } else {
      var done := TraceOf([], k - 1);
      DepartAloneUpTo(names, who, order, k - 1);
      assert TraceOf([], k) == done + [Own] by {
        assert done + AsOthers([]) == done;
      }
      DepartAppend(names, who, order, done, Own);
      assert order[k - 1..][0] == order[k - 1] && order[k - 1..][1..] == order[k..];
      assert order[..k] == order[..k - 1] + [order[k - 1]];
      ReleasesAppend(who, order[..k - 1], order[k - 1]);
      RunAppend(names, Releases(who, order[..k - 1]), Release(who, order[k - 1]));
    }
  }

  lemma NoRun(names: Names, who: text)
    ensures Releases(who, []) == [] && Run(names, []) == names && EventsOf(names, []) == []
  {
  }

  /** Left alone, a departure is one release per name, and reports the changes of these. */
  lemma DepartAlone(names: Names, who: text, order: seq<text>)
    ensures Depart(names, who, order, TraceOf([], |order|)) == (Run(names, Releases(who, order)), [])
    ensures DepartEvents(names, who, order, TraceOf([], |order|)) == EventsOf(names, Releases(who, order))
  {
    DepartAloneUpTo(names, who, order, |order|);
    assert order[..|order|] == order && order[|order|..] == [];
  }
}
