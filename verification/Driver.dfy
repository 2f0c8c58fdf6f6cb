/** The bus driver's name requests: arguments, name and policy checks, the limit, then the table. */
module Driver {
  import opened Wrappers
  import opened Bytes
  import Types
  import opened Registry
  import opened RegistryProofs

  datatype DriverError = InvalidArgs | AccessDenied | LimitsExceeded

  type Arguments = seq<Types.Value>

  function UnwrapVariant(v: Types.Value): (r: Types.Value)
    ensures !r.Variant?
  {
    if v.Variant? then UnwrapVariant(v.inner) else v
  }

  /** A text argument: strings, object paths and signatures, in any number of variants. */
  function ArgStr(args: Arguments, i: nat): (r: Result<text, DriverError>) {
    if i >= |args| then Err(InvalidArgs)
    else
      match UnwrapVariant(args[i])
      case String(s) => Ok(s)
      case ObjectPath(s) => Ok(s)
      case Signature(s) => Ok(s)
      case _ => Err(InvalidArgs)
  }

  function ArgU32(args: Arguments, i: nat): (r: Result<u32, DriverError>) {
    if i >= |args| then Err(InvalidArgs)
    else
      match UnwrapVariant(args[i])
      case UInt32(n) => Ok(n)
      case _ => Err(InvalidArgs)
  }

  /** What the driver consults: the grammar of bus names, and the policy for this caller. */
  datatype Rules = Rules(isBusName: text -> bool, mayOwn: text -> bool, maxNames: nat)

  /** The request an argument list stands for, if its arguments and name are good and policy allows it. */
  function Requested(rules: Rules, args: Arguments): (r: Result<(text, u32), DriverError>)
    ensures r.Ok? ==> !IsUnique(r.value.0) && rules.isBusName(r.value.0) && rules.mayOwn(r.value.0)
  {
    var name :- ArgStr(args, 0);
    if IsUnique(name) || !rules.isBusName(name) then Err(InvalidArgs)
    else
      var flags :- ArgU32(args, 1);
      if !rules.mayOwn(name) then Err(AccessDenied) else Ok((name, flags))
  }

  // ---- Arguments, by what they are ----

  /** A value inside any number of variants. */
  predicate InVariants(v: Types.Value, content: Types.Value) {
    v == content || (v.Variant? && InVariants(v.inner, content))
  }

  predicate IsTextArg(args: Arguments, i: nat, s: text) {
    i < |args| && (|| InVariants(args[i], Types.Value.String(s))
                   || InVariants(args[i], Types.Value.ObjectPath(s))
                   || InVariants(args[i], Types.Value.Signature(s)))
  }

  predicate IsNumberArg(args: Arguments, i: nat, n: u32) {
    i < |args| && InVariants(args[i], Types.Value.UInt32(n))
  }

  /** The arguments ask for a name, with some flags, and it is no unique name but a valid bus name. */
  predicate AsksFor(rules: Rules, args: Arguments, name: text, flags: u32) {
    && IsTextArg(args, 0, name) && IsNumberArg(args, 1, flags)
    && (name == [] || name[0] != ':' as int) && rules.isBusName(name)
  }

  lemma {:induction false} UnwrapExactly(v: Types.Value, content: Types.Value)
    requires !content.Variant?
    ensures UnwrapVariant(v) == content <==> InVariants(v, content)
  {
    if v.Variant? {
      UnwrapExactly(v.inner, content);
    }
  }

  lemma ArgsExactly(args: Arguments, i: nat)
    ensures forall s: text :: ArgStr(args, i) == Ok(s) <==> IsTextArg(args, i, s)
    ensures forall n: u32 :: ArgU32(args, i) == Ok(n) <==> IsNumberArg(args, i, n)
    ensures ArgStr(args, i).Err? ==> ArgStr(args, i) == Err(InvalidArgs)
    ensures ArgU32(args, i).Err? ==> ArgU32(args, i) == Err(InvalidArgs)
  {
    hide UnwrapVariant, InVariants;
    if i < |args| {
      assert !UnwrapVariant(args[i]).Variant?;
      forall content: Types.Value | !content.Variant?
        ensures UnwrapVariant(args[i]) == content <==> InVariants(args[i], content)
      {
        UnwrapExactly(args[i], content);
      }
    }
  }

  /** The request that is made is the one the arguments ask for, if the caller may own the name. Any other list of
      arguments is invalid. */
  lemma RequestedExactly(rules: Rules, args: Arguments)
    ensures forall name: text, flags: u32 ::
              Requested(rules, args) == Ok((name, flags)) <==> AsksFor(rules, args, name, flags) && rules.mayOwn(name)
    ensures Requested(rules, args) == Err(AccessDenied) <==>
              exists name: text, flags: u32 :: AsksFor(rules, args, name, flags) && !rules.mayOwn(name)
    ensures Requested(rules, args) == Err(InvalidArgs) <==>
              forall name: text, flags: u32 :: !AsksFor(rules, args, name, flags)
  {
    hide IsTextArg, IsNumberArg, ArgStr, ArgU32;
    ArgsExactly(args, 0);
    ArgsExactly(args, 1);
    var name, flags := ArgStr(args, 0), ArgU32(args, 1);
    if name.Ok? && flags.Ok? {
      assert IsTextArg(args, 0, name.value) && IsNumberArg(args, 1, flags.value);
      forall n: text, f: u32 | IsTextArg(args, 0, n) && IsNumberArg(args, 1, f)
        ensures n == name.value && f == flags.value
      {
        assert ArgStr(args, 0) == Ok(n) && ArgU32(args, 1) == Ok(f);
      }
      if !IsUnique(name.value) && rules.isBusName(name.value) {
        assert AsksFor(rules, args, name.value, flags.value);
      }
    }
  }

  /** What each answer says about the owner before and after, and about bit 4 of the flags. */
  predicate AnswerMeans(code: u32, before: Option<text>, after: Option<text>, who: text, flags: u32) {
    && 1 <= code <= 4
    && (code == 1 <==> before != Some(who) && after == Some(who))
    && (code == 4 <==> before == Some(who))
    && (code == 3 <==> after != Some(who) && flags / 4 % 2 == 1)
    && (code == 2 <==> after != Some(who) && flags / 4 % 2 == 0)
  }

  /** The outcome of a request with the given name and flags, in a table as other handlers left it. */
  predicate Answers(out: Outcome, before: Names, after: Names, who: text, name: text, flags: u32) {
    && out.result.Ok? && |out.result.value| == 1 && out.result.value[0].UInt32?
    && AnswerMeans(out.result.value[0].u32, OwnerOf(QueueOf(before, name)), OwnerOf(QueueOf(after, name)), who, flags)
    && after == Apply(before, Request(who, name, flags))
    && out.changes == Changes(before, Request(who, name, flags))
  }

  lemma GrantedAnswers(names: Names, who: text, name: text, flags: u32)
    ensures var step := Request(who, name, flags);
            Answers(Granted(names, who, name, flags), names, Apply(names, step), who, name, flags)
  {
  }

  function RequestCode(reply: RequestReply): (code: u32) {
    match reply
    case PrimaryOwner => 1
    case InQueue => 2
    case Exists => 3
    case AlreadyOwner => 4
  }

  function ReleaseCode(reply: ReleaseReply): (code: u32) {
    match reply
    case Released => 1
    case NonExistent => 2
    case NotOwner => 3
  }

  datatype Outcome = Outcome(result: Result<seq<Types.Value>, DriverError>, changes: seq<NameOwnerChange>)

  /** No well-known name looks like a connection's unique name. */
  predicate WellKnown(names: Names) {
    forall name | name in names :: !IsUnique(name)
  }

  /** The same for a state of the quota runs, whose granted requests are about to be made. */
  predicate StateWellKnown(st: QuotaState) {
    WellKnown(st.names) && forall w | w in st.granted :: !IsUnique(st.granted[w].0)
  }

  predicate ActionsWellKnown(actions: seq<QuotaAction>) {
    forall a | a in actions :: a.Check? ==> !IsUnique(a.name)
  }

  predicate ActionsByOthers(actions: seq<QuotaAction>, who: text) {
    forall a | a in actions :: a.who != who
  }

  class Driver {
    const rules: Rules
    const registry: Registry
    /** Requests that have passed the limit check and not yet reached the table, one per connection at most:
        a connection's calls are handled one at a time. */
    var granted: map<text, (text, u32)>

    constructor (rules: Rules, registry: Registry)
      ensures this.rules == rules && this.registry == registry && granted == map[]
    {
      this.rules, this.registry, granted := rules, registry, map[];
    }

    function Now(): (st: QuotaState)
      reads this, registry
    {
      QuotaState(registry.names, granted)
    }

    /** One acquisition of the table's lock by another handler. */
    method Act(action: QuotaAction)
      requires registry.Valid()
      modifies registry`names, `granted
      ensures registry.Valid() && Now() == QuotaStep(old(Now()), action, rules.maxNames)
    {
      match action
      case Check(who, name, flags) =>
        if who !in granted {
          var held := registry.NamesHeldBy(who);
          if held < rules.maxNames {
            granted := granted[who := (name, flags)];
          }
        }
      case Commit(who) =>
        if who in granted {
          var (name, flags) := granted[who];
          var code, changes := registry.RequestName(who, name, flags);
          granted := granted - {who};
        }
      case Drop(who, name) =>
        var change := registry.ReleaseNameInternal(who, name);
    }

    method ActAll(actions: seq<QuotaAction>)
      requires registry.Valid()
      modifies registry`names, `granted
      ensures registry.Valid() && Now() == QuotaRun(old(Now()), actions, rules.maxNames)
    {
      hide QuotaStep;
      for i := 0 to |actions|
        invariant registry.Valid()
        invariant QuotaRun(old(Now()), actions, rules.maxNames) == QuotaRun(Now(), actions[i..], rules.maxNames)
      {
        assert actions[i..][0] == actions[i] && actions[i..][1..] == actions[i + 1..];
        Act(actions[i]);
      }
    }

    /**
     The limit check and the request take the table's lock separately; between is what other handlers do in the
     meantime. Together they are the check and the commit of a quota run, and a refusal changes nothing.
     */
    method HandleRequestName(who: text, args: Arguments, between: seq<QuotaAction>) returns (out: Outcome)
      requires registry.Valid() && who !in granted && ActionsByOthers(between, who)
      modifies registry`names, `granted
      ensures registry.Valid()
      ensures match Requested(rules, args)
              case Err(e) => out == Outcome(Err(e), []) && Now() == old(Now())
              case Ok((name, flags)) =>
                if |Held(old(registry.names), who)| >= rules.maxNames
                then out == Outcome(Err(LimitsExceeded), []) && Now() == old(Now())
                else
                  var seen := QuotaRun(old(Now()), [Check(who, name, flags)] + between, rules.maxNames);
                  && Now() == QuotaStep(seen, Commit(who), rules.maxNames)
                  && out == Granted(seen.names, who, name, flags)
      ensures forall name: text, flags: u32 | AsksFor(rules, args, name, flags) ::
                if !rules.mayOwn(name) then out == Outcome(Err(AccessDenied), []) && Now() == old(Now())
                else if |Held(old(registry.names), who)| >= rules.maxNames
                then out == Outcome(Err(LimitsExceeded), []) && Now() == old(Now())
                else
                  var seen := QuotaRun(old(Now()), [Check(who, name, flags)] + between, rules.maxNames);
                  Answers(out, seen.names, registry.names, who, name, flags)
      ensures (forall name: text, flags: u32 :: !AsksFor(rules, args, name, flags)) ==>
                out == Outcome(Err(InvalidArgs), []) && Now() == old(Now())
      ensures forall w :: WithinQuota(old(Now()), w, rules.maxNames) ==> WithinQuota(Now(), w, rules.maxNames)
      ensures StateWellKnown(old(Now())) && ActionsWellKnown(between) ==> StateWellKnown(Now())
    {
      hide Held, Requested, QuotaRun, Apply, AfterRequest, WithinQuota, StateWellKnown, ActionsWellKnown, AsksFor,
           Answers;
      ghost var start := Now();
      RequestedExactly(rules, args);
      var request := Admit(args);
      if request.Err? {
        return Outcome(Err(request.error), []);
      }
      var (name, flags) := request.value;
      var held := registry.NamesHeldBy(who);
      if held >= rules.maxNames {
        return Outcome(Err(LimitsExceeded), []);
      }
      granted := granted[who := (name, flags)];
      ghost var checked := Now();
      CheckThen(start, who, name, flags, between, rules.maxNames);
      GrantIsKept(checked, between, who, rules.maxNames);
      ActAll(between);
      ghost var seen := Now();
      GrantedAnswers(seen.names, who, name, flags);
      var code, changes := registry.RequestName(who, name, flags);
      granted := granted - {who};
      forall w | WithinQuota(start, w, rules.maxNames)
        ensures WithinQuota(Now(), w, rules.maxNames)
      {
        QuotaHolds(start, [Check(who, name, flags)] + between, rules.maxNames, w);
        QuotaStepKeepsQuota(seen, Commit(who), rules.maxNames, w);
      }
      if StateWellKnown(start) && ActionsWellKnown(between) {
        CheckIsWellKnown(start, who, name, flags, between);
        QuotaRunIsWellKnown(start, [Check(who, name, flags)] + between, rules.maxNames);
        QuotaStepIsWellKnown(seen, Commit(who), rules.maxNames);
      }
      return Outcome(Ok([Types.Value.UInt32(RequestCode(code))]), changes);
    }

    /** The checks in the order the driver makes them. */
    method Admit(args: Arguments) returns (r: Result<(text, u32), DriverError>)
      ensures r == Requested(rules, args)
    {
      var name :- ArgStr(args, 0);
      var valid := if IsUnique(name) then false else rules.isBusName(name);
      if !valid {
        return Err(InvalidArgs);
      }
      var flags :- ArgU32(args, 1);
      if !rules.mayOwn(name) {
        return Err(AccessDenied);
      }
      return Ok((name, flags));
    }

    method HandleReleaseName(who: text, args: Arguments, first: seq<Step>, second: seq<Step>) returns (out: Outcome)
      requires registry.Valid()
      modifies registry`names
      ensures registry.Valid()
      ensures forall name: text | IsTextArg(args, 0, name) ::
                var (code, after, changes) := ReleaseInterleaved(old(registry.names), who, name, first, second);
                && registry.names == after && out.changes == changes
                && out.result ==
                   Ok([Types.Value.UInt32(match code case Released => 1 case NonExistent => 2 case NotOwner => 3)])
      ensures (forall name: text :: !IsTextArg(args, 0, name)) ==>
                out == Outcome(Err(InvalidArgs), []) && registry.names == old(registry.names)
      ensures WellKnown(old(registry.names)) && AllWellKnown(first) && AllWellKnown(second) ==>
                WellKnown(registry.names)
    {
      hide Run, Apply, WellKnown, IsTextArg, ArgStr;
      ghost var names := registry.names;
      ArgsExactly(args, 0);
      var name := ArgStr(args, 0);
      if name.Err? {
        return Outcome(Err(name.error), []);
      }
      var code, changes := registry.ReleaseName(who, name.value, first, second);
      if WellKnown(names) && AllWellKnown(first) && AllWellKnown(second) {
        RunIsWellKnown(names, first);
        RunIsWellKnown(Run(names, first), second);
        ReleaseIsWellKnown(Run(Run(names, first), second), who, name.value);
      }
      return Outcome(Ok([Types.Value.UInt32(ReleaseCode(code))]), changes);
    }
  }

  predicate AllWellKnown(steps: seq<Step>) {
    forall s | s in steps :: !IsUnique(s.name)
  }

  lemma {:induction false} RunIsWellKnown(names: Names, steps: seq<Step>)
    requires WellKnown(names) && AllWellKnown(steps)
    ensures WellKnown(Run(names, steps))
    decreases |steps|
  {
    hide AfterRequest, Retain;
    if steps != [] {
      assert steps[0] in steps && forall s | s in steps[1..] :: s in steps;
      RunIsWellKnown(Apply(names, steps[0]), steps[1..]);
    }
  }

  lemma ReleaseIsWellKnown(names: Names, who: text, name: text)
    requires WellKnown(names)
    ensures WellKnown(Apply(names, Release(who, name)))
  {
  }

  /** The answer to a request that reaches the table. */
  function Granted(names: Names, who: text, name: text, flags: u32): (out: Outcome) {
    var code := match ReplyToRequest(QueueOf(names, name), who, flags)
                case PrimaryOwner => 1
                case InQueue => 2
                case Exists => 3
                case AlreadyOwner => 4;
    Outcome(Ok([Types.Value.UInt32(code)]), Changes(names, Request(who, name, flags)))
  }

  lemma CheckThen(st: QuotaState, who: text, name: text, flags: u32, between: seq<QuotaAction>, max: nat)
    requires who !in st.granted && |Held(st.names, who)| < max
    ensures QuotaRun(st, [Check(who, name, flags)] + between, max) ==
            QuotaRun(st.(granted := st.granted[who := (name, flags)]), between, max)
  {
    hide Held;
    var actions := [Check(who, name, flags)] + between;
    assert actions[0] == Check(who, name, flags) && actions[1..] == between;
  }

  /** What one connection has been granted waits for it, whatever others do. */
  lemma {:induction false} GrantIsKept(st: QuotaState, actions: seq<QuotaAction>, who: text, max: nat)
    requires ActionsByOthers(actions, who) && who in st.granted
    ensures var after := QuotaRun(st, actions, max);
            who in after.granted && after.granted[who] == st.granted[who]
    decreases |actions|
  {
    hide Held, Apply;
    if actions != [] {
      assert actions[0] in actions && forall a | a in actions[1..] :: a in actions;
      GrantIsKept(QuotaStep(st, actions[0], max), actions[1..], who, max);
    }
  }

  lemma QuotaStepIsWellKnown(st: QuotaState, action: QuotaAction, max: nat)
    requires StateWellKnown(st) && (action.Check? ==> !IsUnique(action.name))
    ensures StateWellKnown(QuotaStep(st, action, max))
  {
    hide Held, AfterRequest, Retain, IsUnique;
  }

  lemma {:induction false} QuotaRunIsWellKnown(st: QuotaState, actions: seq<QuotaAction>, max: nat)
    requires StateWellKnown(st) && ActionsWellKnown(actions)
    ensures StateWellKnown(QuotaRun(st, actions, max))
    decreases |actions|
  {
    hide StateWellKnown, QuotaStep;
    if actions != [] {
      assert actions[0] in actions && forall a | a in actions[1..] :: a in actions;
      QuotaStepIsWellKnown(st, actions[0], max);
      QuotaRunIsWellKnown(QuotaStep(st, actions[0], max), actions[1..], max);
    }
  }

  lemma CheckIsWellKnown(st: QuotaState, who: text, name: text, flags: u32, between: seq<QuotaAction>)
    requires !IsUnique(name) && ActionsWellKnown(between)
    ensures ActionsWellKnown([Check(who, name, flags)] + between)
  {
  }

  /** With nobody in between, a request at the limit changes nothing and one below it is made. */
  lemma CheckThenCommit(names: Names, who: text, name: text, flags: u32, max: nat)
    ensures var st := QuotaState(names, map[]);
            var run := QuotaRun(st, [Check(who, name, flags), Commit(who)], max);
            && run.granted == map[]
            && run.names == if |Held(names, who)| >= max then names else Apply(names, Request(who, name, flags))
    ensures forall w :: |Held(names, w)| <= max ==> WithinQuota(QuotaState(names, map[]), w, max)
  {
    hide Held, Apply;
    var st := QuotaState(names, map[]);
    var actions := [Check(who, name, flags), Commit(who)];
    assert actions[1..] == [Commit(who)] && actions[1..][1..] == [];
    var mid := QuotaStep(st, actions[0], max);
    assert QuotaRun(mid, [Commit(who)], max) == QuotaRun(QuotaStep(mid, Commit(who), max), [], max);
  }
}
