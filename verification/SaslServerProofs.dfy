/** Safety of the server's authentication over every sequence of lines. */
module SaslServerProofs {
  import opened Wrappers
  import opened Bytes
  import opened Text
  import opened SaslServer

  /** One line and what the world answers while it is handled. */
  datatype Input = Input(line: text, env: Env)

  /** The server after a history of inputs. */
  function After(h: Hash, c: Config, inputs: seq<Input>): (s: Server)
    decreases |inputs|
  {
    if inputs == [] then INITIAL
    else
      var last := inputs[|inputs| - 1];
      Step(h, c, After(h, c, inputs[..|inputs| - 1]), last.line, last.env).0
  }

  /** Its reaction to the last of them. */
  function Reply(h: Hash, c: Config, inputs: seq<Input>): (a: ServerAction)
    requires inputs != []
  {
    var last := inputs[|inputs| - 1];
    Step(h, c, After(h, c, inputs[..|inputs| - 1]), last.line, last.env).1
  }

  predicate IsOk(a: ServerAction) {
    a == Send(Okay)
  }

  predicate IsRejection(a: ServerAction) {
    a == Send(Rejected) || a == Disconnect
  }

  predicate IsChallenge(a: ServerAction) {
    a.Send? && a.line.Data? && a.line.payload != []
  }

  // ---- What an observer concludes from the replies alone ----

  /** An OK has been sent and no rejection since. */
  predicate Accepted(h: Hash, c: Config, inputs: seq<Input>)
    decreases |inputs|
  {
    inputs != [] &&
    var a := Reply(h, c, inputs);
    if IsOk(a) then true
    else if IsRejection(a) then false
    else Accepted(h, c, inputs[..|inputs| - 1])
  }

  function Rejections(h: Hash, c: Config, inputs: seq<Input>): (n: nat)
    decreases |inputs|
  {
    if inputs == [] then 0
    else Rejections(h, c, inputs[..|inputs| - 1]) + (if IsRejection(Reply(h, c, inputs)) then 1 else 0)
  }

  /** The input that drew the challenge still open: none since was answered by OK or a rejection. */
  function OpenChallenge(h: Hash, c: Config, inputs: seq<Input>): (i: Option<Input>)
    decreases |inputs|
  {
    if inputs == [] then None
    else
      var a := Reply(h, c, inputs);
      if IsOk(a) || IsRejection(a) then None
      else if IsChallenge(a) then Some(inputs[|inputs| - 1])
      else OpenChallenge(h, c, inputs[..|inputs| - 1])
  }

  /** Who may be let in: the peer itself, or nobody in particular where that is allowed. */
  predicate MayBegin(c: Config, uid: Option<u32>) {
    uid == Some(c.peerUid) || (uid == None && c.allowAnonymous && Anonymous in c.allowed)
  }

  // ---- One step ----

  /** The mechanism being negotiated is one the configuration lists, and anonymity one it enables. */
  predicate StateOk(c: Config, s: Server) {
    match s.state
    case WaitingForAuth => true
    case WaitingForData(m, cookie) =>
      && m in c.allowed && (m == Anonymous ==> c.allowAnonymous)
      && (cookie.cookieId.Some? <==> cookie.challenge.Some?)
      && (cookie.cookieId.Some? ==> m == DbusCookieSha1)
    case WaitingForBegin(uid) => MayBegin(c, uid)
  }

  /** The reply and the new state of one step, whatever mechanism data arrives. */
  lemma MechanismDataStep(h: Hash, c: Config, s: Server, data: seq<u8>, env: Env)
    requires s.state.WaitingForData? && StateOk(c, s)
    ensures var (t, a) := OnMechanismData(h, c, s, s.state.mechanism, data, env);
            && StateOk(c, t)
            && (IsOk(a) || IsRejection(a) || IsChallenge(a))
            && (IsOk(a) <==> t.state.WaitingForBegin?)
            && (IsRejection(a) ==> t.state == WaitingForAuth)
            && (IsChallenge(a) ==> OpenedBy(t, a, env))
            && t.failures == s.failures + (if IsRejection(a) then 1 else 0)
            && t.unixFd == s.unixFd && a != Send(AgreeUnixFd)
            && (a == Disconnect <==> IsRejection(a) && t.failures >= MAX_FAILURES)
  {
    hide ClaimedUid, ValidUtf8, SplitOnce, Decimal, CookieText;
  }

  /** A challenge on the wire is the id and challenge the state keeps. */
  predicate OpenedBy(t: Server, a: ServerAction, env: Env) {
    && t.state.WaitingForData? && t.state.mechanism == DbusCookieSha1
    && env.keyring.Some? && env.keyring.value.best.Some?
    && t.state.cookie == CookieState(env.keyring.value.best, Some(env.challenge))
    && a == Send(Data(ChallengeText(env.keyring.value.best.value, env.challenge)))
  }

  predicate KeepsCookie(s: Server, t: Server) {
    if s.state.WaitingForData? && s.state.cookie != NO_COOKIE then t.state == s.state
    else t.state.WaitingForData? ==> t.state.cookie == NO_COOKIE
  }

  /** Everything the theorems need to know about one step from s to t. */
  predicate GoodStep(c: Config, s: Server, t: Server, a: ServerAction, env: Env) {
    && StateOk(c, t)
    && (IsOk(a) ==> t.state.WaitingForBegin?)
    && (IsRejection(a) ==> t.state == WaitingForAuth)
    && (IsChallenge(a) ==> OpenedBy(t, a, env))
    && (!IsOk(a) && !IsRejection(a) ==> (t.state.WaitingForBegin? <==> s.state.WaitingForBegin?))
    && (!IsOk(a) && !IsRejection(a) && !IsChallenge(a) ==> KeepsCookie(s, t))
    && t.failures == s.failures + (if IsRejection(a) then 1 else 0)
    && (a == Disconnect <==> IsRejection(a) && t.failures >= MAX_FAILURES)
    && t.unixFd == (s.unixFd || a == Send(AgreeUnixFd))
  }

  lemma StepFacts(h: Hash, c: Config, s: Server, line: text, env: Env)
    requires StateOk(c, s)
    ensures var (t, a) := Step(h, c, s, line, env);
            && GoodStep(c, s, t, a, env)
            && (a.Begin? <==> s.state.WaitingForBegin? && SplitCommand(line).0 == BEGIN)
            && (a.Begin? ==> a.uid == s.state.uid)
  {
    hide SplitCommand, GoodStep, StateOk, InWaitingForAuth, InWaitingForData;
    var (command, rest) := SplitCommand(line);
    match s.state
    case WaitingForAuth => AuthStep(h, c, s, command, rest, env);
    case WaitingForData(_, _) => DataStep(h, c, s, command, rest, env);
    case WaitingForBegin(_) => BeginStep(c, s, command, env);
  }

  lemma AuthStep(h: Hash, c: Config, s: Server, command: text, rest: text, env: Env)
    requires s.state == WaitingForAuth
    ensures var (t, a) := InWaitingForAuth(h, c, s, command, rest, env); GoodStep(c, s, t, a, env) && !a.Begin?
  {
    hide OnAuth, Txt, OpenedBy;
    AuthFacts(h, c, s, rest, env);
  }

  lemma DataStep(h: Hash, c: Config, s: Server, command: text, rest: text, env: Env)
    requires s.state.WaitingForData? && StateOk(c, s)
    ensures var (t, a) := InWaitingForData(h, c, s, command, rest, env); GoodStep(c, s, t, a, env) && !a.Begin?
  {
    hide OnMechanismData, Txt, HexDecode, GoodStep, Reject, Complain;
    RejectStep(c, s, env);
    forall reason: text
      ensures GoodStep(c, s, Complain(s, reason).0, Complain(s, reason).1, env) && !Complain(s, reason).1.Begin?
    {
      ComplainStep(c, s, reason, env);
    }
    if HexDecode(rest).Some? {
      MechanismGoodStep(h, c, s, HexDecode(rest).value, env);
    }
  }

  lemma RejectStep(c: Config, s: Server, env: Env)
    ensures var (t, a) := Reject(s); GoodStep(c, s, t, a, env) && !a.Begin?
  {
    hide OpenedBy;
  }

  lemma ComplainStep(c: Config, s: Server, reason: text, env: Env)
    requires StateOk(c, s) && !s.state.WaitingForAuth?
    ensures var (t, a) := Complain(s, reason); GoodStep(c, s, t, a, env) && !a.Begin?
  {
    hide OpenedBy;
  }

  lemma MechanismGoodStep(h: Hash, c: Config, s: Server, data: seq<u8>, env: Env)
    requires s.state.WaitingForData? && StateOk(c, s)
    ensures var (t, a) := OnMechanismData(h, c, s, s.state.mechanism, data, env);
            GoodStep(c, s, t, a, env) && !a.Begin?
  {
    hide OnMechanismData, OpenedBy;
    MechanismDataStep(h, c, s, data, env);
  }

  lemma BeginStep(c: Config, s: Server, command: text, env: Env)
    requires s.state.WaitingForBegin? && StateOk(c, s)
    ensures var (t, a) := InWaitingForBegin(s, command);
            GoodStep(c, s, t, a, env) && (a.Begin? <==> command == BEGIN) && (a.Begin? ==> a.uid == s.state.uid)
  {
    hide Txt, OpenedBy;
  }

  lemma AuthFacts(h: Hash, c: Config, s: Server, rest: text, env: Env)
    requires s.state == WaitingForAuth
    ensures var (t, a) := OnAuth(h, c, s, rest, env);
            && StateOk(c, t)
            && (IsOk(a) <==> t.state.WaitingForBegin?)
            && (IsRejection(a) ==> t.state == WaitingForAuth)
            && (IsChallenge(a) ==> OpenedBy(t, a, env))
            && (!IsOk(a) && !IsRejection(a) && !IsChallenge(a) ==>
                  t.state.WaitingForData? && t.state.cookie == NO_COOKIE)
            && !a.Begin?
            && t.failures == s.failures + (if IsRejection(a) then 1 else 0)
            && t.unixFd == s.unixFd && a != Send(AgreeUnixFd)
            && (a == Disconnect <==> IsRejection(a) && t.failures >= MAX_FAILURES)
  {
    hide OnMechanismData, HexDecode, ParseMechanism, OpenedBy;
    var split := SplitOnce(rest, SPACE);
    var mechanism := ParseMechanism(if split.Some? then split.value.0 else rest);
    if mechanism.Some? && split.Some? && HexDecode(split.value.1).Some? {
      var started := s.(state := WaitingForData(mechanism.value, NO_COOKIE));
      if StateOk(c, started) {
        MechanismDataStep(h, c, started, HexDecode(split.value.1).value, env);
      }
    }
  }

  // ---- Over all runs ----

  lemma {:induction false} RunFacts(h: Hash, c: Config, inputs: seq<Input>)
    ensures var s := After(h, c, inputs);
            && StateOk(c, s)
            && (s.state.WaitingForBegin? <==> Accepted(h, c, inputs))
            && s.failures == Rejections(h, c, inputs)
    decreases |inputs|
  {
    hide Step, StateOk;
    if inputs == [] {
      assert StateOk(c, INITIAL) by { StartOk(c); }
    } else {
      var before := inputs[..|inputs| - 1];
      var last := inputs[|inputs| - 1];
      RunFacts(h, c, before);
      StepFacts(h, c, After(h, c, before), last.line, last.env);
    }
  }

  lemma StartOk(c: Config)
    ensures StateOk(c, INITIAL)
  {
  }

  /** BEGIN succeeds exactly when it comes after an OK that no rejection followed, and then for the
      peer's uid, or for nobody in particular only if ANONYMOUS is both listed and enabled. */
  lemma BeginOnlyAfterOk(h: Hash, c: Config, inputs: seq<Input>)
    requires inputs != []
    ensures var before := inputs[..|inputs| - 1];
            Reply(h, c, inputs).Begin? <==>
              Accepted(h, c, before) && SplitCommand(inputs[|inputs| - 1].line).0 == BEGIN
    ensures Reply(h, c, inputs).Begin? ==> MayBegin(c, Reply(h, c, inputs).uid)
  {
    hide Step, SplitCommand, MayBegin;
    var before := inputs[..|inputs| - 1];
    var last := inputs[|inputs| - 1];
    RunFacts(h, c, before);
    StepFacts(h, c, After(h, c, before), last.line, last.env);
  }

  /** The server hangs up exactly when it rejects for the sixth time or later. */
  lemma SixthRejectionDisconnects(h: Hash, c: Config, inputs: seq<Input>)
    requires inputs != []
    ensures Reply(h, c, inputs) == Disconnect <==>
              IsRejection(Reply(h, c, inputs)) && Rejections(h, c, inputs) >= 6
  {
    hide Step, StateOk;
    var before := inputs[..|inputs| - 1];
    var last := inputs[|inputs| - 1];
    RunFacts(h, c, before);
    StepFacts(h, c, After(h, c, before), last.line, last.env);
  }

  predicate AgreedEver(h: Hash, c: Config, inputs: seq<Input>)
    decreases |inputs|
  {
    inputs != [] && (Reply(h, c, inputs) == Send(AgreeUnixFd) || AgreedEver(h, c, inputs[..|inputs| - 1]))
  }

  /** Descriptor passing, once agreed, stays agreed, even if authentication is cancelled and restarted. */
  lemma {:induction false} AgreementIsKept(h: Hash, c: Config, inputs: seq<Input>)
    ensures After(h, c, inputs).unixFd <==> AgreedEver(h, c, inputs)
    decreases |inputs|
  {
    hide Step, StateOk;
    if inputs != [] {
      var before := inputs[..|inputs| - 1];
      var last := inputs[|inputs| - 1];
      RunFacts(h, c, before);
      StepFacts(h, c, After(h, c, before), last.line, last.env);
      AgreementIsKept(h, c, before);
    }
  }

  /** The cookie the state keeps is the one of the challenge that is still open. */
  lemma {:induction false} CookieIsOpenChallenge(h: Hash, c: Config, inputs: seq<Input>)
    ensures var s := After(h, c, inputs);
            match OpenChallenge(h, c, inputs)
            case None => s.state.WaitingForData? ==> s.state.cookie == NO_COOKIE
            case Some(i) =>
              && s.state.WaitingForData? && s.state.mechanism == DbusCookieSha1
              && i.env.keyring.Some? && i.env.keyring.value.best.Some?
              && s.state.cookie == CookieState(i.env.keyring.value.best, Some(i.env.challenge))
    decreases |inputs|
  {
    hide Step, StateOk, IsChallenge;
    if inputs != [] {
      var before := inputs[..|inputs| - 1];
      var last := inputs[|inputs| - 1];
      RunFacts(h, c, before);
      StepFacts(h, c, After(h, c, before), last.line, last.env);
      CookieIsOpenChallenge(h, c, before);
    }
  }

  // ---- Exactly when OK is sent, and exactly when a challenge is ----

  function MechanismNamed(line: text): (m: Option<Mechanism>) {
    var rest := SplitCommand(line).1;
    var split := SplitOnce(rest, SPACE);
    ParseMechanism(if split.Some? then split.value.0 else rest)
  }

  /** The mechanism under negotiation, as an observer sees it: named by the AUTH line that was answered neither
      by OK nor by a rejection, and open until one of them. */
  function Proposed(h: Hash, c: Config, inputs: seq<Input>): (m: Option<Mechanism>)
    decreases |inputs|
  {
    if inputs == [] then None
    else
      var a := Reply(h, c, inputs);
      var before := inputs[..|inputs| - 1];
      var line := inputs[|inputs| - 1].line;
      if IsOk(a) || IsRejection(a) then None
      else if Proposed(h, c, before).Some? || Accepted(h, c, before) then Proposed(h, c, before)
      else if SplitCommand(line).0 == AUTH then MechanismNamed(line)
      else None
  }

  predicate Startable(c: Config, m: Mechanism) {
    m in c.allowed && (m == Anonymous ==> c.allowAnonymous)
  }

  /** The mechanism data a line carries: after the mechanism's name on an AUTH line, on a DATA line later. */
  function Delivered(c: Config, proposed: Option<Mechanism>, line: text): (d: Option<(Mechanism, seq<u8>)>) {
    var (command, rest) := SplitCommand(line);
    match proposed
    case Some(m) =>
      if command != DATA || HexDecode(rest).None? then None else Some((m, HexDecode(rest).value))
    case None =>
      match SplitOnce(rest, SPACE)
      case None => None
      case Some((name, hex)) =>
        var m := ParseMechanism(name);
        if command != AUTH || m.None? || !Startable(c, m.value) || HexDecode(hex).None? then None
        else Some((m.value, HexDecode(hex).value))
  }

  /** No claim, or a claim to the peer's own uid. */
  predicate ClaimsPeer(c: Config, data: seq<u8>) {
    data == [] || (ValidUtf8(data) && ParseUnsigned(data, 0x1_0000_0000) == Some(c.peerUid))
  }

  /** A client challenge, a space, and the hash over the challenge issued, the client's and the secret of the
      announced key. */
  predicate AnswersChallenge(h: Hash, id: u32, challenge: text, data: seq<u8>, env: Env) {
    && ValidUtf8(data) && SplitOnce(data, SPACE).Some?
    && var (client, response) := SplitOnce(data, SPACE).value;
    && client != [] && response != []
    && env.home && env.keyring.Some? && id in env.keyring.value.keys
    && response == h(CookieText(challenge, client, env.keyring.value.keys[id]))
  }

  /** What each mechanism takes for an OK. The cookie mechanism takes an answer to the challenge that is open. */
  predicate EarnsOk(h: Hash, c: Config, m: Mechanism, issued: Option<Input>, data: seq<u8>, env: Env) {
    match m
    case External => ClaimsPeer(c, data)
    case Anonymous => true
    case DbusCookieSha1 =>
      && issued.Some? && issued.value.env.keyring.Some? && issued.value.env.keyring.value.best.Some?
      && AnswersChallenge(h, issued.value.env.keyring.value.best.value, issued.value.env.challenge, data, env)
  }

  /** A challenge is issued to a client of the server's own user that claims no other uid. */
  predicate EarnsChallenge(c: Config, m: Mechanism, issued: Option<Input>, data: seq<u8>, env: Env) {
    && m == DbusCookieSha1 && issued.None? && ClaimsPeer(c, data) && c.peerUid == env.currentUid
    && env.home && env.keyring.Some? && env.keyring.value.best.Some?
  }

  /** Who an OK lets in. */
  function Admitted(c: Config, m: Mechanism): (uid: Option<u32>) {
    if m == Anonymous then None else Some(c.peerUid)
  }

  function StateMechanism(s: Server): (m: Option<Mechanism>) {
    if s.state.WaitingForData? then Some(s.state.mechanism) else None
  }

  lemma StepMechanism(h: Hash, c: Config, s: Server, line: text, env: Env)
    requires StateOk(c, s)
    ensures var (t, a) := Step(h, c, s, line, env);
            !IsOk(a) && !IsRejection(a) ==>
              StateMechanism(t) == if s.state != WaitingForAuth then StateMechanism(s)
                                   else if SplitCommand(line).0 == AUTH then MechanismNamed(line)
                                   else None
  {
    hide SplitCommand, Txt, StateOk, MechanismNamed;
    match s.state
    case WaitingForAuth => AuthMechanism(h, c, s, line, env);
    case WaitingForData(_, _) => DataLineMechanism(h, c, s, line, env);
    case WaitingForBegin(_) =>
  }

  lemma AuthMechanism(h: Hash, c: Config, s: Server, line: text, env: Env)
    requires s.state == WaitingForAuth
    ensures var (t, a) := Step(h, c, s, line, env);
            !IsOk(a) && !IsRejection(a) ==>
              StateMechanism(t) == if SplitCommand(line).0 == AUTH then MechanismNamed(line) else None
  {
    hide SplitCommand, HexDecode, ParseMechanism, SplitOnce, Txt, OnMechanismData;
    SplitOnceNone([], SPACE);
    var split := SplitOnce(SplitCommand(line).1, SPACE);
    var m := MechanismNamed(line);
    if m.Some? && split.Some? && HexDecode(split.value.1).Some? {
      DataKeepsMechanism(h, c, s.(state := WaitingForData(m.value, NO_COOKIE)), HexDecode(split.value.1).value, env);
    }
  }

  lemma DataLineMechanism(h: Hash, c: Config, s: Server, line: text, env: Env)
    requires s.state.WaitingForData?
    ensures var (t, a) := Step(h, c, s, line, env);
            !IsOk(a) && !IsRejection(a) ==> StateMechanism(t) == StateMechanism(s)
  {
    hide SplitCommand, HexDecode, Txt, OnMechanismData;
    var data := HexDecode(SplitCommand(line).1);
    if data.Some? {
      DataKeepsMechanism(h, c, s, data.value, env);
    }
  }

  lemma DataKeepsMechanism(h: Hash, c: Config, s: Server, data: seq<u8>, env: Env)
    requires s.state.WaitingForData?
    ensures var (t, a) := OnMechanismData(h, c, s, s.state.mechanism, data, env);
            IsOk(a) || IsRejection(a) || StateMechanism(t) == StateMechanism(s)
  {
    hide ClaimedUid, ValidUtf8, SplitOnce, ChallengeText, CookieText;
  }

  /** The mechanism in the state is the one an observer sees proposed. */
  lemma {:induction false} ProposedIsState(h: Hash, c: Config, inputs: seq<Input>)
    ensures StateMechanism(After(h, c, inputs)) == Proposed(h, c, inputs)
    decreases |inputs|
  {
    hide Step, StateOk, MechanismNamed, SplitCommand;
    if inputs != [] {
      var before := inputs[..|inputs| - 1];
      var last := inputs[|inputs| - 1];
      RunFacts(h, c, before);
      RunFacts(h, c, inputs);
      StepFacts(h, c, After(h, c, before), last.line, last.env);
      StepMechanism(h, c, After(h, c, before), last.line, last.env);
      RejectedState(h, c, inputs);
      ProposedIsState(h, c, before);
    }
  }

  lemma RejectedState(h: Hash, c: Config, inputs: seq<Input>)
    requires inputs != []
    ensures IsRejection(Reply(h, c, inputs)) ==> After(h, c, inputs).state == WaitingForAuth
    ensures IsOk(Reply(h, c, inputs)) ==> After(h, c, inputs).state.WaitingForBegin?
  {
    hide Step, StateOk, SplitCommand;
    var before := inputs[..|inputs| - 1];
    var last := inputs[|inputs| - 1];
    RunFacts(h, c, before);
    StepFacts(h, c, After(h, c, before), last.line, last.env);
  }

  /** What mechanism data is worth in the state that has just been entered or kept. */
  lemma DataOutcome(h: Hash, c: Config, s: Server, issued: Option<Input>, data: seq<u8>, env: Env)
    requires s.state.WaitingForData? && CookieMatches(s, issued)
    ensures var m := s.state.mechanism;
            var (t, a) := OnMechanismData(h, c, s, m, data, env);
            && (IsOk(a) <==> EarnsOk(h, c, m, issued, data, env))
            && (IsOk(a) ==> t.state == WaitingForBegin(Admitted(c, m)))
            && (IsChallenge(a) <==> EarnsChallenge(c, m, issued, data, env))
  {
    hide ValidUtf8, ParseUnsigned, SplitOnce, Decimal, CookieText;
  }

  /** The state keeps the id and challenge of the open challenge, and none if none is open. */
  predicate CookieMatches(s: Server, issued: Option<Input>) {
    s.state.WaitingForData? ==>
      match issued
      case None => s.state.cookie == NO_COOKIE
      case Some(i) =>
        && s.state.mechanism == DbusCookieSha1
        && i.env.keyring.Some? && i.env.keyring.value.best.Some?
        && s.state.cookie == CookieState(i.env.keyring.value.best, Some(i.env.challenge))
  }

  /** The outcome of a step, by the data its line delivers. */
  predicate Outcome(h: Hash, c: Config, t: Server, a: ServerAction, d: Option<(Mechanism, seq<u8>)>,
                    issued: Option<Input>, env: Env) {
    && (IsOk(a) <==> d.Some? && EarnsOk(h, c, d.value.0, issued, d.value.1, env))
    && (IsOk(a) ==> t.state == WaitingForBegin(Admitted(c, d.value.0)))
    && (IsChallenge(a) <==> d.Some? && EarnsChallenge(c, d.value.0, issued, d.value.1, env))
  }

  lemma AuthOutcome(h: Hash, c: Config, s: Server, line: text, env: Env)
    requires s.state == WaitingForAuth
    ensures var (t, a) := Step(h, c, s, line, env); Outcome(h, c, t, a, Delivered(c, None, line), None, env)
  {
    hide SplitCommand, SplitOnce, HexDecode, ParseMechanism, OnMechanismData, EarnsOk, EarnsChallenge, Txt;
    SplitOnceNone([], SPACE);
    var d := Delivered(c, None, line);
    if d.Some? {
      DataOutcome(h, c, s.(state := WaitingForData(d.value.0, NO_COOKIE)), None, d.value.1, env);
    }
  }

  lemma DataLineOutcome(h: Hash, c: Config, s: Server, issued: Option<Input>, line: text, env: Env)
    requires s.state.WaitingForData? && CookieMatches(s, issued)
    ensures var (t, a) := Step(h, c, s, line, env);
            Outcome(h, c, t, a, Delivered(c, Some(s.state.mechanism), line), issued, env)
  {
    hide SplitCommand, HexDecode, OnMechanismData, EarnsOk, EarnsChallenge, CookieMatches, Txt;
    var d := Delivered(c, Some(s.state.mechanism), line);
    if d.Some? {
      DataOutcome(h, c, s, issued, d.value.1, env);
    }
  }

  lemma StepOutcome(h: Hash, c: Config, s: Server, issued: Option<Input>, line: text, env: Env)
    requires CookieMatches(s, issued) && (issued.Some? ==> s.state.WaitingForData?)
    ensures var (t, a) := Step(h, c, s, line, env);
            if s.state.WaitingForBegin? then !IsOk(a) && !IsChallenge(a)
            else Outcome(h, c, t, a, Delivered(c, StateMechanism(s), line), issued, env)
  {
    hide SplitCommand, Outcome, Delivered, CookieMatches, Txt;
    match s.state
    case WaitingForAuth => AuthOutcome(h, c, s, line, env);
    case WaitingForData(_, _) => DataLineOutcome(h, c, s, issued, line, env);
    case WaitingForBegin(_) =>
  }

  lemma HistoryMatches(h: Hash, c: Config, inputs: seq<Input>)
    ensures var s, issued := After(h, c, inputs), OpenChallenge(h, c, inputs);
            && CookieMatches(s, issued) && (issued.Some? ==> s.state.WaitingForData?)
            && StateMechanism(s) == Proposed(h, c, inputs)
            && (s.state.WaitingForBegin? <==> Accepted(h, c, inputs))
            && (issued.Some? ==> Proposed(h, c, inputs) == Some(DbusCookieSha1))
  {
    hide After, Accepted, OpenChallenge, Proposed, Rejections;
    CookieIsOpenChallenge(h, c, inputs);
    ProposedIsState(h, c, inputs);
    RunFacts(h, c, inputs);
  }

  /** After every history, OK is sent if and only if none has been sent already and the line delivers, to a
      mechanism that is listed and enabled, what earns it; the client is then let in as that mechanism allows. */
  lemma OkExactly(h: Hash, c: Config, inputs: seq<Input>)
    requires inputs != []
    ensures var before, last := inputs[..|inputs| - 1], inputs[|inputs| - 1];
            var d := Delivered(c, Proposed(h, c, before), last.line);
            && (IsOk(Reply(h, c, inputs)) <==>
                  && !Accepted(h, c, before) && d.Some?
                  && EarnsOk(h, c, d.value.0, OpenChallenge(h, c, before), d.value.1, last.env))
            && (IsOk(Reply(h, c, inputs)) ==> After(h, c, inputs).state == WaitingForBegin(Admitted(c, d.value.0)))
  {
    hide Step, Delivered, EarnsOk, EarnsChallenge, OpenChallenge, Proposed, Accepted, CookieMatches;
    var before, last := inputs[..|inputs| - 1], inputs[|inputs| - 1];
    HistoryMatches(h, c, before);
    StepOutcome(h, c, After(h, c, before), OpenChallenge(h, c, before), last.line, last.env);
  }

  /** After every history, a challenge is issued if and only if the cookie mechanism is given a good claim by a
      client of the server's own user, with no challenge open. */
  lemma ChallengeExactly(h: Hash, c: Config, inputs: seq<Input>)
    requires inputs != []
    ensures var before, last := inputs[..|inputs| - 1], inputs[|inputs| - 1];
            var d := Delivered(c, Proposed(h, c, before), last.line);
            IsChallenge(Reply(h, c, inputs)) <==>
              && !Accepted(h, c, before) && d.Some?
              && EarnsChallenge(c, d.value.0, OpenChallenge(h, c, before), d.value.1, last.env)
  {
    hide Step, Delivered, EarnsOk, EarnsChallenge, OpenChallenge, Proposed, Accepted, CookieMatches;
    var before, last := inputs[..|inputs| - 1], inputs[|inputs| - 1];
    HistoryMatches(h, c, before);
    StepOutcome(h, c, After(h, c, before), OpenChallenge(h, c, before), last.line, last.env);
  }

  /** A DATA line with the answer to a challenge, as the server reads it. */
  predicate CarriesAnswer(h: Hash, issued: Env, last: Input) {
    var (command, rest) := SplitCommand(last.line);
    && command == DATA && HexDecode(rest).Some?
    && issued.keyring.Some? && issued.keyring.value.best.Some?
    && AnswersChallenge(h, issued.keyring.value.best.value, issued.challenge, HexDecode(rest).value, last.env)
  }

  /** After every history, the cookie mechanism sends OK if and only if a challenge is open and the line carries
      the hash over that challenge and the secret of the announced key; the client is then the peer. */
  lemma CookieOkNeedsTheHash(h: Hash, c: Config, inputs: seq<Input>)
    requires inputs != []
    ensures var before, last := inputs[..|inputs| - 1], inputs[|inputs| - 1];
            var issued := OpenChallenge(h, c, before);
            && (issued.Some? ==> Proposed(h, c, before) == Some(DbusCookieSha1))
            && (Proposed(h, c, before) == Some(DbusCookieSha1) ==>
                  && (IsOk(Reply(h, c, inputs)) <==> issued.Some? && CarriesAnswer(h, issued.value.env, last))
                  && (IsOk(Reply(h, c, inputs)) ==> After(h, c, inputs).state == WaitingForBegin(Some(c.peerUid))))
  {
    hide AnswersChallenge, OpenChallenge, Accepted, After, Reply, Proposed, SplitCommand, HexDecode, IsOk;
    OkExactly(h, c, inputs);
    HistoryMatches(h, c, inputs[..|inputs| - 1]);
  }

  /** An AUTH line on its own never earns OK by the cookie mechanism. */
  lemma NoCookieOkWithoutChallenge(h: Hash, c: Config, inputs: seq<Input>)
    requires inputs != []
    ensures var before, last := inputs[..|inputs| - 1], inputs[|inputs| - 1];
            var d := Delivered(c, Proposed(h, c, before), last.line);
            IsOk(Reply(h, c, inputs)) ==>
              && d.Some? && Startable(c, d.value.0)
              && (d.value.0 == DbusCookieSha1 ==> OpenChallenge(h, c, before).Some?)
  {
    hide AnswersChallenge, OpenChallenge, Accepted, After, Reply, Proposed, SplitCommand, HexDecode, IsOk, Startable;
    var before := inputs[..|inputs| - 1];
    OkExactly(h, c, inputs);
    ProposedIsStartable(h, c, before);
  }

  lemma ProposedIsStartable(h: Hash, c: Config, inputs: seq<Input>)
    ensures var m := Proposed(h, c, inputs); m.Some? ==> Startable(c, m.value)
  {
    hide Proposed, After, Rejections, Accepted;
    RunFacts(h, c, inputs);
    ProposedIsState(h, c, inputs);
  }

  /** An AUTH line that names a mechanism and carries no data yet: the client is asked for it. */
  predicate NamesOnly(c: Config, line: text) {
    var (command, rest) := SplitCommand(line);
    && command == AUTH && rest != [] && SplitOnce(rest, SPACE).None?
    && ParseMechanism(rest).Some? && Startable(c, ParseMechanism(rest).value)
  }

  /** The line delivers what is worth an OK or a challenge. */
  predicate Worthy(h: Hash, c: Config, proposed: Option<Mechanism>, issued: Option<Input>, last: Input) {
    var d := Delivered(c, proposed, last.line);
    && d.Some?
    && var (m, data) := d.value;
       EarnsOk(h, c, m, issued, data, last.env) || EarnsChallenge(c, m, issued, data, last.env)
  }

  /** Which lines are rejected, by what an observer has seen before. */
  predicate Rejectable(h: Hash, c: Config, accepted: bool, proposed: Option<Mechanism>, issued: Option<Input>,
                       last: Input) {
    var command := SplitCommand(last.line).0;
    if accepted then command == CANCEL || command == ERROR
    else if proposed.Some? then
      command == CANCEL || command == ERROR || (command == DATA && !Worthy(h, c, proposed, issued, last))
    else
      command == ERROR || (command == AUTH && !Worthy(h, c, None, issued, last) && !NamesOnly(c, last.line))
  }

  lemma AuthRejects(h: Hash, c: Config, s: Server, last: Input)
    requires s.state == WaitingForAuth
    ensures IsRejection(Step(h, c, s, last.line, last.env).1) <==> Rejectable(h, c, false, None, None, last)
  {
    hide SplitCommand, SplitOnce, HexDecode, ParseMechanism, OnMechanismData, EarnsOk, EarnsChallenge, Txt;
    SplitOnceNone([], SPACE);
    var d := Delivered(c, None, last.line);
    if d.Some? {
      var started := s.(state := WaitingForData(d.value.0, NO_COOKIE));
      DataOutcome(h, c, started, None, d.value.1, last.env);
      MechanismDataStep(h, c, started, d.value.1, last.env);
    }
  }

  lemma DataLineRejects(h: Hash, c: Config, s: Server, issued: Option<Input>, last: Input)
    requires s.state.WaitingForData? && CookieMatches(s, issued) && StateOk(c, s)
    ensures IsRejection(Step(h, c, s, last.line, last.env).1) <==>
              Rejectable(h, c, false, Some(s.state.mechanism), issued, last)
  {
    hide SplitCommand, HexDecode, OnMechanismData, EarnsOk, EarnsChallenge, CookieMatches, StateOk, Txt;
    var d := Delivered(c, Some(s.state.mechanism), last.line);
    if d.Some? {
      DataOutcome(h, c, s, issued, d.value.1, last.env);
      MechanismDataStep(h, c, s, d.value.1, last.env);
    }
  }

  /** After every history, a line is rejected exactly if it cancels, reports an error, or delivers something that
      earns neither OK nor a challenge. Other lines that do not fit are complained about and change nothing. */
  lemma RejectionExactly(h: Hash, c: Config, inputs: seq<Input>)
    requires inputs != []
    ensures var before, last := inputs[..|inputs| - 1], inputs[|inputs| - 1];
            IsRejection(Reply(h, c, inputs)) <==>
              Rejectable(h, c, Accepted(h, c, before), Proposed(h, c, before), OpenChallenge(h, c, before), last)
  {
    hide Worthy, NamesOnly, OpenChallenge, Proposed, Accepted, CookieMatches, SplitCommand, After, Rejections, Txt;
    var before, last := inputs[..|inputs| - 1], inputs[|inputs| - 1];
    var s := After(h, c, before);
    HistoryMatches(h, c, before);
    RunFacts(h, c, before);
    match s.state
    case WaitingForAuth =>
      AuthRejects(h, c, s, last);
    case WaitingForData(_, _) =>
      DataLineRejects(h, c, s, OpenChallenge(h, c, before), last);
    case WaitingForBegin(_) =>
  }

  /** After every history, descriptor passing is agreed to exactly when it is asked for after an OK. */
  lemma AgreeExactly(h: Hash, c: Config, inputs: seq<Input>)
    requires inputs != []
    ensures var before, last := inputs[..|inputs| - 1], inputs[|inputs| - 1];
            Reply(h, c, inputs) == Send(AgreeUnixFd) <==>
              Accepted(h, c, before) && SplitCommand(last.line).0 == NEGOTIATE_UNIX_FD
  {
    hide SplitCommand, Accepted, After, Rejections, OnMechanismData, HexDecode, ParseMechanism, SplitOnce, Txt, StateOk;
    var before, last := inputs[..|inputs| - 1], inputs[|inputs| - 1];
    var s := After(h, c, before);
    RunFacts(h, c, before);
    StepFacts(h, c, s, last.line, last.env);
    assert BEGIN[0] != NEGOTIATE_UNIX_FD[0];
    if s.state.WaitingForBegin? {
      assert NEGOTIATE_UNIX_FD != CANCEL && NEGOTIATE_UNIX_FD != ERROR by {
        assert NEGOTIATE_UNIX_FD[0] != CANCEL[0] && NEGOTIATE_UNIX_FD[0] != ERROR[0];
      }
    } else {
      NeverAgreesBefore(h, c, s, last.line, last.env);
    }
  }

  lemma NeverAgreesBefore(h: Hash, c: Config, s: Server, line: text, env: Env)
    requires !s.state.WaitingForBegin? && StateOk(c, s)
    ensures Step(h, c, s, line, env).1 != Send(AgreeUnixFd)
  {
    hide SplitCommand, Txt, InWaitingForAuth, InWaitingForData, StateOk;
    var (command, rest) := SplitCommand(line);
    match s.state
    case WaitingForAuth => NoAgreementInAuth(h, c, s, command, rest, env);
    case WaitingForData(_, _) => NoAgreementInData(h, c, s, command, rest, env);
  }

  lemma NoAgreementInAuth(h: Hash, c: Config, s: Server, command: text, rest: text, env: Env)
    requires s.state == WaitingForAuth
    ensures InWaitingForAuth(h, c, s, command, rest, env).1 != Send(AgreeUnixFd)
  {
    hide OnAuth, Txt, OpenedBy;
    AuthFacts(h, c, s, rest, env);
  }

  lemma NoAgreementInData(h: Hash, c: Config, s: Server, command: text, rest: text, env: Env)
    requires s.state.WaitingForData? && StateOk(c, s)
    ensures InWaitingForData(h, c, s, command, rest, env).1 != Send(AgreeUnixFd)
  {
    hide OnMechanismData, Txt, OpenedBy, HexDecode;
    if HexDecode(rest).Some? {
      MechanismDataStep(h, c, s, HexDecode(rest).value, env);
    }
  }
}
