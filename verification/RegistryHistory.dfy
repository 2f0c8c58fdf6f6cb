/** The flags that count: those of the request that put a connection into a queue, or made it the owner. */
module RegistryHistory {
  import opened Wrappers
  import opened Bytes
  import opened Registry
  import opened RegistryProofs
  import opened RegistryReplies

  function QueueAfter(steps: seq<Step>, name: text): (q: Queue) {
    QueueOf(Run(map[], steps), name)
  }

  /** The flags a connection stands in a queue with, by what an observer of queues and owners sees: those of the
      request by which it came into the queue or became the owner, as long as it stays. Requests that change neither
      are forgotten. */
  function Standing(steps: seq<Step>, name: text, who: text): (flags: Option<u32>)
    decreases |steps|
  {
    if steps == [] || !Has(QueueAfter(steps, name), who) then None
    else
      var before, last := steps[..|steps| - 1], steps[|steps| - 1];
      var q := QueueAfter(before, name);
      if && last.Request? && last.who == who && last.name == name
         && (!Has(q, who) || OwnerOf(q) != OwnerOf(QueueAfter(steps, name)))
      then Some(last.flags)
      else Standing(before, name, who)
  }

  /** An entry says what the bits of the flags say: 1 for replacement, 4 for not being queued. */
  predicate Records(e: QueueEntry, flags: Option<u32>) {
    && flags.Some?
    && (e.allowReplacement <==> flags.value % 2 == 1)
    && (e.doNotQueue <==> flags.value / 4 % 2 == 1)
  }

  predicate AllRecorded(steps: seq<Step>, name: text) {
    forall e | e in QueueAfter(steps, name) :: Records(e, Standing(steps, name, e.owner))
  }

  lemma HasEntry(q: Queue, e: QueueEntry)
    requires e in q
    ensures Has(q, e.owner)
  {
    var i :| 0 <= i < |q| && q[i] == e;
    assert q[i].owner == e.owner;
  }

  lemma LastStep(steps: seq<Step>, name: text)
    requires steps != []
    ensures var before, last := steps[..|steps| - 1], steps[|steps| - 1];
            && Run(map[], steps) == Apply(Run(map[], before), last)
            && QueueAfter(steps, name) ==
               if last.name == name then NewQueue(Run(map[], before), last) else QueueAfter(before, name)
  {
    hide Run, NewQueue;
    var before, last := steps[..|steps| - 1], steps[|steps| - 1];
    assert steps == before + [last];
    RunAppend(map[], before, last);
  }

  /** An entry that was there before, of a connection the last step did not admit, stands as it stood. */
  lemma StandsAsBefore(steps: seq<Step>, name: text, e: QueueEntry)
    requires steps != [] && e in QueueAfter(steps, name)
    requires var before, last := steps[..|steps| - 1], steps[|steps| - 1];
             && AllRecorded(before, name) && e in QueueAfter(before, name)
             && (last.who != e.owner || last.name != name || last.Release? ||
                 QueueAfter(steps, name) == QueueAfter(before, name))
    ensures Records(e, Standing(steps, name, e.owner))
  {
    hide Has, QueueAfter, Records;
    HasEntry(QueueAfter(steps, name), e);
    HasEntry(QueueAfter(steps[..|steps| - 1], name), e);
  }

  lemma StandsByLast(steps: seq<Step>, name: text, e: QueueEntry)
    requires steps != [] && e in QueueAfter(steps, name)
    requires var before, last := steps[..|steps| - 1], steps[|steps| - 1];
             && last.Request? && last.who == e.owner && last.name == name
             && (!Has(QueueAfter(before, name), e.owner) ||
                 OwnerOf(QueueAfter(before, name)) != OwnerOf(QueueAfter(steps, name)))
             && Records(e, Some(last.flags))
    ensures Records(e, Standing(steps, name, e.owner))
  {
    hide Has, QueueAfter, Records;
    HasEntry(QueueAfter(steps, name), e);
  }

  lemma RequestRecords(steps: seq<Step>, name: text, e: QueueEntry)
    requires steps != [] && e in QueueAfter(steps, name)
    requires var before, last := steps[..|steps| - 1], steps[|steps| - 1];
             AllRecorded(before, name) && last.Request? && last.name == name
    ensures Records(e, Standing(steps, name, e.owner))
  {
    hide QueueAfter, Standing, Has, FlagSet, AllRecorded;
    var before, last := steps[..|steps| - 1], steps[|steps| - 1];
    var q, after := QueueAfter(before, name), QueueAfter(steps, name);
    LastStep(steps, name);
    assert q == QueueOf(Run(map[], before), name) by { QueueAfterIs(before, name); }
    var who, flags := last.who, last.flags;
    EntryRecords(who, flags);
    if q == [] {
      NobodyInNothing(who);
      StandsByLast(steps, name, e);
    } else if q[0].owner == who {
      StandsAsBefore(steps, name, e);
    } else if CanReplace(q, flags) {
      RetainElements(q[1..], who);
      if e == after[0] {
        StandsByLast(steps, name, e);
      } else {
        assert e in Retain(q[1..], who) || e == q[0];
        assert e.owner != who && e in q;
        StandsAsBefore(steps, name, e);
      }
    } else if FlagSet(flags, FLAG_DO_NOT_QUEUE) || Has(q, who) {
      StandsAsBefore(steps, name, e);
    } else if e in q {
      HasEntry(q, e);
      StandsAsBefore(steps, name, e);
    } else {
      StandsByLast(steps, name, e);
    }
  }

  lemma QueueAfterIs(steps: seq<Step>, name: text)
    ensures QueueAfter(steps, name) == QueueOf(Run(map[], steps), name)
  {
  }

  lemma EntryRecords(who: text, flags: u32)
    ensures Records(Entry(who, flags), Some(flags))
    ensures !FlagSet(flags, FLAG_DO_NOT_QUEUE) ==> Records(Entry(who, flags).(doNotQueue := false), Some(flags))
  {
  }

  /** Over every run, every entry records the bits of the flags its connection stands in the queue with. */
  lemma {:induction false} EntriesRecordTheirFlags(steps: seq<Step>, name: text)
    ensures AllRecorded(steps, name)
    decreases |steps|
  {
    hide Standing, Records, Run, QueueAfter;
    if steps == [] {
      assert QueueAfter([], name) == [] by { NothingYet(name); }
    } else {
      var before, last := steps[..|steps| - 1], steps[|steps| - 1];
      EntriesRecordTheirFlags(before, name);
      LastStep(steps, name);
      forall e | e in QueueAfter(steps, name)
        ensures Records(e, Standing(steps, name, e.owner))
      {
        if last.name == name && last.Request? {
          RequestRecords(steps, name, e);
        } else if last.name == name {
          QueueAfterIs(before, name);
          RetainElements(QueueAfter(before, name), last.who);
          StandsAsBefore(steps, name, e);
        } else {
          StandsAsBefore(steps, name, e);
        }
      }
    }
  }

  lemma NothingYet(name: text)
    ensures QueueAfter([], name) == []
  {
  }

  /** After every run: a request by another connection replaces the owner exactly if it asks to, by bit 2, and the
      owner allowed it, by bit 1 of the flags it stands with. The replaced owner is queued again exactly if bit 4 of
      those is not set. Without an owner the name is granted at once. */
  lemma ReplacedExactly(steps: seq<Step>, name: text, who: text, flags: u32)
    requires OwnerOf(QueueAfter(steps, name)) != Some(who)
    ensures var owner := OwnerOf(QueueAfter(steps, name));
            var after := QueueAfter(steps + [Request(who, name, flags)], name);
            match owner
            case None => OwnerOf(after) == Some(who)
            case Some(o) =>
              var standing := Standing(steps, name, o);
              && standing.Some?
              && var replaced := flags / 2 % 2 == 1 && standing.value % 2 == 1;
              && OwnerOf(after) == Some(if replaced then who else o)
              && (Has(after, o) <==> !replaced || standing.value / 4 % 2 == 0)
  {
    hide Standing, Run, Has, Retain;
    var q := QueueAfter(steps, name);
    var all := steps + [Request(who, name, flags)];
    assert all[..|all| - 1] == steps;
    LastStep(all, name);
    EntriesRecordTheirFlags(steps, name);
    ReachableTablesAreOk(map[], steps);
    var after := QueueAfter(all, name);
    if q != [] {
      var o := q[0].owner;
      assert q[0] in q;
      HasEntry(q, q[0]);
      assert Records(q[0], Standing(steps, name, o));
      EvictedExactly(Run(map[], steps), Request(who, name, flags), name, o);
      ReplyMeans(q, who, flags);
    }
  }
}
