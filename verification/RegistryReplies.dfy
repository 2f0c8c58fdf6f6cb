/** What the replies of the name table mean, who can lose a place, and what a release undoes. */
module RegistryReplies {
  import opened Wrappers
  import opened Bytes
  import opened Registry
  import opened RegistryProofs

  /** Each reply code says where the requester stands afterwards. */
  lemma ReplyMeans(q: Queue, who: text, flags: u32)
    requires QueueOk(q)
    ensures var after, code := AfterRequest(q, who, flags), ReplyToRequest(q, who, flags);
            && (code == PrimaryOwner <==> OwnerOf(q) != Some(who) && OwnerOf(after) == Some(who))
            && (code == AlreadyOwner <==> OwnerOf(q) == Some(who))
            && (code == Exists <==> OwnerOf(after) != Some(who) && flags / 4 % 2 == 1)
            && (code == InQueue <==> OwnerOf(after) != Some(who) && flags / 4 % 2 == 0)
            && (code == InQueue ==> Waits(after, who) && OwnerOf(after) == OwnerOf(q))
            && (code == AlreadyOwner || code == Exists ==> after == q)
  {
    if q != [] && q[0].owner != who && !CanReplace(q, flags) && !FlagSet(flags, FLAG_DO_NOT_QUEUE) {
      if !Has(q, who) {
        var last := Entry(who, flags).(doNotQueue := false);
        HasConcat(q, [last], who);
        HasSingle(last, who);
        PositionConcat(q, [last], who);
      }
    }
  }

  /** The one way to lose a place to another connection: to own the name, to have asked not to be queued,
      and to be replaced. An owner that may be queued goes to the back instead. */
  lemma EvictedExactly(names: Names, step: Step, name: text, who: text)
    requires TableOk(names) && step.who != who && Has(QueueOf(names, name), who)
    ensures var q, after := QueueOf(names, name), QueueOf(Apply(names, step), name);
            var replaced := step.Request? && step.name == name && q[0].owner == who && CanReplace(q, step.flags);
            && (!Has(after, who) <==> replaced && q[0].doNotQueue)
            && (replaced && !q[0].doNotQueue ==> Position(after, who) == |after| - 1)
            && (replaced ==> OwnerOf(after) == Some(step.who))
  {
    var q, after := QueueOf(names, name), QueueOf(Apply(names, step), name);
    assert q[0].owner != who ==> Waits(q, who);
    if q[0].owner != who {
      WaitersNeverMoveBack(names, step, name, who);
    } else if step.name == name {
      match step
      case Release(w, _) =>
        RetainKeepsOthers(q, w, who);
      case Request(w, _, flags) =>
        if CanReplace(q, flags) {
          var rest := Retain(q[1..], w);
          var displaced := if q[0].doNotQueue then [] else [q[0]];
          assert after == [Entry(w, flags)] + (rest + displaced) && after[1..] == rest + displaced;
          RetainKeepsOthers(q[1..], w, who);
          HasUncons(after, who);
          HasConcat(rest, displaced, who);
          PositionConcat(rest, displaced, who);
          EmptyHasNobody(who);
        } else if !FlagSet(flags, FLAG_DO_NOT_QUEUE) && !Has(q, w) {
          HasConcat(q, [Entry(w, flags).(doNotQueue := false)], who);
        }
    }
  }

  lemma EmptyHasNobody(who: text)
    ensures !Has([], who)
  {
  }

  /** Two connections after the same free name, by the bits of their flags. */
  lemma TwoContenders(name: text, first: text, second: text, f1: u32, f2: u32)
    requires first != second
    ensures var q := QueueOf(Run(map[], [Request(first, name, f1), Request(second, name, f2)]), name);
            var replaced := f1 % 2 == 1 && f2 / 2 % 2 == 1;
            && OwnerOf(q) == Some(if replaced then second else first)
            && (Has(q, first) <==> !replaced || f1 / 4 % 2 == 0)
            && (Has(q, second) <==> replaced || f2 / 4 % 2 == 0)
  {
    hide Run;
    var q1 := [Entry(first, f1)];
    var q2 := AfterRequest(q1, second, f2);
    RunTwo(map[], Request(first, name, f1), Request(second, name, f2));
    HasSingle(q1[0], first);
    HasSingle(q1[0], second);
    assert q1[1..] == [] && Retain([], second) == [];
    if CanReplace(q1, f2) {
      assert q2 == [Entry(second, f2)] + (if q1[0].doNotQueue then [] else q1);
      HasCons(Entry(second, f2), if q1[0].doNotQueue then [] else q1, first);
      EmptyHasNobody(first);
    } else if !FlagSet(f2, FLAG_DO_NOT_QUEUE) {
      HasConcat(q1, [Entry(second, f2).(doNotQueue := false)], first);
      HasConcat(q1, [Entry(second, f2).(doNotQueue := false)], second);
      HasSingle(Entry(second, f2).(doNotQueue := false), second);
    }
  }

  lemma RunTwo(names: Names, a: Step, b: Step)
    ensures Run(names, [a, b]) == Apply(Apply(names, a), b)
  {
    hide Apply;
    assert [a, b][1..] == [b] && [b][1..] == [];
    assert Run(Apply(names, a), [b]) == Run(Apply(Apply(names, a), b), []);
  }

  lemma {:induction false} RetainAppend(q: Queue, last: QueueEntry)
    requires !Has(q, last.owner)
    ensures Retain(q + [last], last.owner) == q
  {
    if q == [] {
      assert q + [last] == [last] && [last][1..] == [];
    } else {
      HasUncons(q, last.owner);
      assert (q + [last])[0] == q[0] && (q + [last])[1..] == q[1..] + [last];
      RetainAppend(q[1..], last);
    }
  }

  /** Releasing undoes a newcomer's request, except that a replaced owner has gone to the back (or away, if
      it asked not to be queued): nobody else's place changes. */
  lemma ReleaseUndoesRequest(q: Queue, who: text, flags: u32)
    requires !Has(q, who)
    ensures Retain(AfterRequest(q, who, flags), who) ==
            if q == [] || !CanReplace(q, flags) then q
            else if q[0].doNotQueue then q[1..]
            else q[1..] + [q[0]]
  {
    if q == [] {
      RetainAppend(q, Entry(who, flags));
      assert q + [Entry(who, flags)] == [Entry(who, flags)];
    } else {
      HasUncons(q, who);
      RetainAbsent(q, who);
      if CanReplace(q, flags) {
        RetainAbsent(q[1..], who);
        var tail := q[1..] + (if q[0].doNotQueue then [] else [q[0]]);
        var after := AfterRequest(q, who, flags);
        assert after[0] == Entry(who, flags) && after[1..] == tail;
        HasConcat(q[1..], [q[0]], who);
        HasSingle(q[0], who);
        RetainAbsent(q[1..] + [q[0]], who);
        assert q[1..] + [] == q[1..];
      } else if !FlagSet(flags, FLAG_DO_NOT_QUEUE) {
        RetainAppend(q, Entry(who, flags).(doNotQueue := false));
      }
    }
  }

  /** Who comes after an owner that releases the name: the first in line, and it is reported. */
  lemma SuccessorIsFirstInLine(names: Names, who: text, name: text)
    requires TableOk(names) && OwnerOf(QueueOf(names, name)) == Some(who)
    ensures var q := QueueOf(names, name);
            var successor := if |q| == 1 then None else Some(q[1].owner);
            && OwnerOf(QueueOf(Apply(names, Release(who, name)), name)) == successor
            && Changes(names, Release(who, name)) == [NameOwnerChange(name, Some(who), successor)]
  {
    var q := QueueOf(names, name);
    RetainAbsent(q[1..], who);
  }

  // ---- A release takes three acquisitions of the lock ----

  predicate AllByOthers(steps: seq<Step>, who: text) {
    forall s | s in steps :: s.who != who
  }

  lemma {:induction false} OthersRunBringsNobodyIn(names: Names, steps: seq<Step>, name: text, who: text)
    requires AllByOthers(steps, who) && !Has(QueueOf(names, name), who)
    ensures !Has(QueueOf(Run(names, steps), name), who)
    decreases |steps|
  {
    hide Apply, Has;
    if steps != [] {
      assert steps[0] in steps && forall s | s in steps[1..] :: s in steps;
      var next := Apply(names, steps[0]);
      if Has(QueueOf(next, name), who) {
        OthersBringNobodyIn(names, steps[0], name, who);
      }
      OthersRunBringsNobodyIn(next, steps[1..], name, who);
    }
  }

  /** Whatever others do in between, and whatever they do later, a connection that called release is in no
      queue for the name. */
  lemma ReleaseIsFinal(names: Names, who: text, name: text, between: seq<Step>, between': seq<Step>, later: seq<Step>)
    requires AllByOthers(between, who) && AllByOthers(between', who) && AllByOthers(later, who)
    ensures var (code, after, _) := ReleaseInterleaved(names, who, name, between, between');
            && !Has(QueueOf(after, name), who)
            && !Has(QueueOf(Run(after, later), name), who)
            && (code == Released <==> name in names && Has(QueueOf(Run(names, between), name), who))
            && (code == NonExistent <==> name !in names)
  {
    hide Run, Has, Apply;
    var (code, after, _) := ReleaseInterleaved(names, who, name, between, between');
    EmptyHasNobody(who);
    OwnReleaseStep(Run(Run(names, between), between'), who, name);
    OthersRunBringsNobodyIn(after, later, name, who);
  }

  /** Left alone, a release is one step of the table. */
  lemma ReleaseAlone(names: Names, who: text, name: text)
    requires TableOk(names)
    ensures var (code, after, events) := ReleaseInterleaved(names, who, name, [], []);
            && after == Apply(names, Release(who, name)) && events == Changes(names, Release(who, name))
            && code == if QueueOf(names, name) == [] then NonExistent
                       else if !Has(QueueOf(names, name), who) then NotOwner
                       else Released
  {
    if name in names {
      RetainAbsent(names[name], who);
    }
  }
}
