/** The authentication protocol as text: every word of it, and which line draws which answer. */
module SaslForm {
  import opened Wrappers
  import opened Bytes
  import opened Text
  import opened Utf8
  import opened TextForm
  import opened SaslServer
  import opened SaslServerProofs
  import opened SaslClient
  import opened SaslAgreement

  // ---- Words ----

  function MechanismText(m: Mechanism): (s: text) {
    match m
    case External => Txt("EXTERNAL")
    case DbusCookieSha1 => Txt("DBUS_COOKIE_SHA1")
    case Anonymous => Txt("ANONYMOUS")
  }

  lemma ClientWords()
    ensures AUTH == Txt("AUTH") && BEGIN == Txt("BEGIN") && CANCEL == Txt("CANCEL")
    ensures DATA == Txt("DATA") && ERROR == Txt("ERROR")
  {
  }

  lemma ServerWords()
    ensures OK == Txt("OK") && REJECTED == Txt("REJECTED")
  {
  }

  lemma DescriptorWords()
    ensures NEGOTIATE_UNIX_FD == Txt("NEGOTIATE_UNIX_FD") && AGREE_UNIX_FD == Txt("AGREE_UNIX_FD")
  {
  }

  lemma ContextWord()
    ensures CONTEXT == Txt("org_freedesktop_general")
  {
  }

  lemma TraceWord()
    ensures ANONYMOUS_TRACE == Txt("oxibus")
  {
  }

  lemma Names(m: Mechanism)
    ensures MechanismName(m) == MechanismText(m)
  {
  }

  /** The commands of both sides, the names of the mechanisms and the fixed parts of their data. */
  lemma Words()
    ensures AUTH == Txt("AUTH") && BEGIN == Txt("BEGIN") && CANCEL == Txt("CANCEL") && DATA == Txt("DATA")
    ensures ERROR == Txt("ERROR") && NEGOTIATE_UNIX_FD == Txt("NEGOTIATE_UNIX_FD")
    ensures OK == Txt("OK") && REJECTED == Txt("REJECTED") && AGREE_UNIX_FD == Txt("AGREE_UNIX_FD")
    ensures CONTEXT == Txt("org_freedesktop_general") && ANONYMOUS_TRACE == Txt("oxibus")
    ensures forall m :: MechanismName(m) == MechanismText(m)
  {
    hide Txt, MechanismName, MechanismText;
    ClientWords();
    ServerWords();
    DescriptorWords();
    ContextWord();
    TraceWord();
    forall m
      ensures MechanismName(m) == MechanismText(m)
    {
      Names(m);
    }
  }

  // ---- Lines ----

  lemma Blank()
    ensures Txt(" ") == [SPACE] && Txt(":") == [COLON] && Txt("\"") == [34]
  {
  }

  /** The lines of a client. */
  lemma ClientLines(line: ClientLine)
    ensures Render(line) ==
            match line
            case AuthLine(m, initial) => Txt("AUTH") + Txt(" ") + (MechanismText(m) + Txt(" ") + HexEncode(initial))
            case DataLine(payload) => Txt("DATA") + Txt(" ") + HexEncode(payload)
            case NegotiateLine => Txt("NEGOTIATE_UNIX_FD")
            case BeginLine => Txt("BEGIN")
  {
    hide Txt, MechanismName, MechanismText, HexEncode;
    Words();
    Blank();
  }

  /** The lines of a server. */
  lemma ServerLines(sc: Config, guid: text, line: ServerLine)
    ensures RenderServer(sc, guid, line) ==
            match line
            case Okay => Txt("OK") + Txt(" ") + guid
            case Rejected => Txt("REJECTED") + Txt(" ") + JoinNames(sc.allowed)
            case Data(payload) => Txt("DATA") + Txt(" ") + HexEncode(payload)
            case Error(reason) => Txt("ERROR") + Txt(" ") + Txt("\"") + reason + Txt("\"")
            case AgreeUnixFd => Txt("AGREE_UNIX_FD")
  {
    hide Txt, HexEncode, JoinNames;
    Words();
    Blank();
  }

  function MechanismTexts(ms: seq<Mechanism>): (names: seq<text>) {
    seq(|ms|, i requires 0 <= i < |ms| => MechanismText(ms[i]))
  }

  lemma NoSpaceInNames(m: Mechanism)
    ensures SPACE !in MechanismText(m)
  {
    Names(m);
  }

  /** A rejection lists the mechanisms on offer, in order, between spaces. */
  lemma {:induction false} NamesAreListed(ms: seq<Mechanism>)
    requires ms != []
    ensures Split(JoinNames(ms), SPACE) == MechanismTexts(ms)
  {
    hide Split, MechanismText, MechanismName;
    var first := MechanismText(ms[0]);
    Names(ms[0]);
    NoSpaceInNames(ms[0]);
    SplitNone(first, SPACE);
    if |ms| == 1 {
      assert MechanismTexts(ms) == [first];
    } else {
      NamesAreListed(ms[1..]);
      SplitConcat(first, SPACE, JoinNames(ms[1..]));
      assert MechanismTexts(ms) == [first] + MechanismTexts(ms[1..]);
    }
  }

  /** How a server takes a line apart: the command, any white space, and the rest. */
  lemma CommandExactly(command: text, spaces: seq<nat>, rest: text)
    requires SPACE !in command && AllSpaces(spaces) && AllScalars(spaces) && !StartsWithSpace(rest)
    ensures SplitCommand(command) == (command, [])
    ensures SplitCommand(command + Txt(" ") + (EncodeAll(spaces) + rest)) == (command, rest)
  {
    hide SplitOnce, TrimStart, Txt, IsSpace, StartsWithSpace, EncodeAll;
    Blank();
    SplitOnceNone(command, SPACE);
    SplitOnceFirst(command, SPACE, EncodeAll(spaces) + rest);
    TrimStartSpaces(spaces, rest);
  }

  /** What a cookie response is the hash of, and what a challenge announces. */
  lemma CookieTexts(server: text, client: text, secret: text, id: u32, challenge: text)
    ensures CookieText(server, client, secret) == server + Txt(":") + client + Txt(":") + secret
    ensures ChallengeText(id, challenge) ==
            Txt("org_freedesktop_general") + Txt(" ") + Decimal(id) + Txt(" ") + challenge
  {
    hide Txt, Decimal;
    Words();
    Blank();
  }

  // ---- The client's proposals ----

  /** The line a mechanism is proposed with: the cookie mechanism and EXTERNAL claim the client's own uid, in
      decimal, ANONYMOUS leaves a trace. */
  lemma Proposals(c: ClientConfig, index: nat)
    requires index < |c.mechanisms|
    ensures var (client, line) := BeginMechanism(c, index);
            && client == Client(index, WaitingForDataOrOk(c.mechanisms[index], None))
            && Render(line) ==
               match c.mechanisms[index]
               case External => Txt("AUTH EXTERNAL ") + HexEncode(Decimal(c.currentUid))
               case DbusCookieSha1 => Txt("AUTH DBUS_COOKIE_SHA1 ") + HexEncode(Decimal(c.currentUid))
               case Anonymous => Txt("AUTH ANONYMOUS ") + HexEncode(Txt("oxibus"))
  {
    hide Txt, HexEncode, Decimal, MechanismName, MechanismText, Render;
    var m := c.mechanisms[index];
    TraceWord();
    ProposalWords(m);
    var hex := HexEncode(BeginMechanism(c, index).1.initial);
    ClientLines(BeginMechanism(c, index).1);
    assert Txt("AUTH") + Txt(" ") + (MechanismText(m) + Txt(" ") + hex) ==
           Txt("AUTH") + Txt(" ") + MechanismText(m) + Txt(" ") + hex;
  }

  lemma ProposalWords(m: Mechanism)
    ensures Txt("AUTH") + Txt(" ") + MechanismText(m) + Txt(" ") ==
            match m
            case External => Txt("AUTH EXTERNAL ")
            case DbusCookieSha1 => Txt("AUTH DBUS_COOKIE_SHA1 ")
            case Anonymous => Txt("AUTH ANONYMOUS ")
  {
    hide Txt;
    assert "AUTH EXTERNAL " == "AUTH" + " " + "EXTERNAL" + " ";
    assert "AUTH DBUS_COOKIE_SHA1 " == "AUTH" + " " + "DBUS_COOKIE_SHA1" + " ";
    assert "AUTH ANONYMOUS " == "AUTH" + " " + "ANONYMOUS" + " ";
    match m
    case External => FourWords("AUTH", " ", "EXTERNAL", " ");
    case DbusCookieSha1 => FourWords("AUTH", " ", "DBUS_COOKIE_SHA1", " ");
    case Anonymous => FourWords("AUTH", " ", "ANONYMOUS", " ");
  }

  lemma FourWords(a: string, b: string, c: string, d: string)
    ensures Txt(a + b + c + d) == Txt(a) + Txt(b) + Txt(c) + Txt(d)
  {
    hide Txt;
    TxtConcat(a, b);
    TxtConcat(a + b, c);
    TxtConcat(a + b + c, d);
  }

  /** The lines after OK. */
  lemma FinishTexts(c: ClientConfig)
    ensures var (lines, expectReply) := FinishLines(c);
            && expectReply == c.wantUnixFd
            && seq(|lines|, i requires 0 <= i < |lines| => Render(lines[i])) ==
               if c.wantUnixFd then [Txt("NEGOTIATE_UNIX_FD"), Txt("BEGIN")] else [Txt("BEGIN")]
  {
    hide Txt;
    Words();
  }

  // ---- What each mechanism takes ----

  /** What follows a rejected proposal: the server hangs up, or the next mechanism is proposed, if there is one. */
  predicate GoesOn(c: ClientConfig, o: SaslAgreement.Outcome, tried: nat) {
    o.ServerHungUp? || (o.EveryMechanismRejected? && tried + 1 == |c.mechanisms|) ||
    (o.Running? && tried + 1 < |c.mechanisms| && (o.client, o.line) == BeginMechanism(c, tried + 1))
  }

  lemma RejectedRound(h: Hash, sc: Config, guid: text, c: ClientConfig, tried: nat, server: Server, world: World)
    requires tried < |c.mechanisms|
    requires var (client, line) := BeginMechanism(c, tried);
             Step(h, sc, server, Render(line), world.0) == Reject(server)
    ensures var (client, line) := BeginMechanism(c, tried);
            GoesOn(c, Round(h, sc, guid, c, client, server, line, world.0, world.1), tried)
  {
    hide Step, ClientStep, Render, RenderServer, InitialData;
    var (client, line) := BeginMechanism(c, tried);
    ClientReads(h, c, client, sc, guid, Rejected, world.1);
  }

  lemma AcceptedRound(h: Hash, sc: Config, guid: text, c: ClientConfig, tried: nat, server: Server, world: World,
                      uid: Option<u32>)
    requires tried < |c.mechanisms|
    requires var (client, line) := BeginMechanism(c, tried);
             Step(h, sc, server, Render(line), world.0) == Accept(server, uid)
    ensures var (client, line) := BeginMechanism(c, tried);
            Round(h, sc, guid, c, client, server, line, world.0, world.1) ==
            Done(Client(tried, Authenticated), Server(WaitingForBegin(uid), server.failures, server.unixFd))
  {
    hide Step, ClientStep, Render, RenderServer, InitialData;
    var (client, line) := BeginMechanism(c, tried);
    ClientReads(h, c, client, sc, guid, Okay, world.1);
  }

  /** Proposing EXTERNAL succeeds at once exactly if the server lists it and the peer's uid is the client's; the
      client is then let in with that uid. */
  lemma ExternalExactly(h: Hash, sc: Config, guid: text, c: ClientConfig, tried: nat, server: Server, world: World)
    requires tried < |c.mechanisms| && c.mechanisms[tried] == External && server.state == WaitingForAuth
    ensures var (client, line) := BeginMechanism(c, tried);
            var o := Round(h, sc, guid, c, client, server, line, world.0, world.1);
            if External in sc.allowed && sc.peerUid == c.currentUid
            then o == Done(Client(tried, Authenticated),
                           Server(WaitingForBegin(Some(c.currentUid)), server.failures, server.unixFd))
            else GoesOn(c, o, tried)
  {
    hide Step, Render, HexEncode, Decimal, ParseUnsigned, ValidUtf8, Round;
    var uid := Decimal(c.currentUid);
    ServerReadsAuth(h, sc, server, External, uid, world.0);
    DecimalRoundTrip(c.currentUid, 0x1_0000_0000);
    AsciiIsUtf8(uid);
    if External in sc.allowed && sc.peerUid == c.currentUid {
      AcceptedRound(h, sc, guid, c, tried, server, world, Some(c.currentUid));
    } else {
      RejectedRound(h, sc, guid, c, tried, server, world);
    }
  }

  /** Proposing ANONYMOUS succeeds at once exactly if the server lists and enables it; the client is then nobody in
      particular. */
  lemma AnonymousExactly(h: Hash, sc: Config, guid: text, c: ClientConfig, tried: nat, server: Server, world: World)
    requires tried < |c.mechanisms| && c.mechanisms[tried] == Anonymous && server.state == WaitingForAuth
    ensures var (client, line) := BeginMechanism(c, tried);
            var o := Round(h, sc, guid, c, client, server, line, world.0, world.1);
            if Anonymous in sc.allowed && sc.allowAnonymous
            then o == Done(Client(tried, Authenticated), Server(WaitingForBegin(None), server.failures, server.unixFd))
            else GoesOn(c, o, tried)
  {
    hide Step, Render, HexEncode, Decimal, Round;
    ServerReadsAuth(h, sc, server, Anonymous, ANONYMOUS_TRACE, world.0);
    if Anonymous in sc.allowed && sc.allowAnonymous {
      AcceptedRound(h, sc, guid, c, tried, server, world, None);
    } else {
      RejectedRound(h, sc, guid, c, tried, server, world);
    }
  }

  /** The usual handshake: EXTERNAL first, both ends on the same uid. One round, and the server begins with that uid
      and with descriptor passing as the client wants it. */
  lemma ExternalHandshake(h: Hash, sc: Config, guid: text, c: ClientConfig, worlds: seq<World>, last: Env)
    requires c.mechanisms != [] && c.mechanisms[0] == External && External in sc.allowed && worlds != []
    requires sc.peerUid == c.currentUid
    ensures var (client, line) := BeginMechanism(c, 0);
            && InStep(c, client, INITIAL, line)
            && var o := Converse(h, sc, guid, c, client, INITIAL, line, worlds);
            && o.Done?
            && Finish(h, sc, c, o.server, last) ==
               (Server(WaitingForBegin(Some(c.currentUid)), 0, c.wantUnixFd), Begin(Some(c.currentUid)))
  {
    hide Round, Finish;
    ExternalExactly(h, sc, guid, c, 0, INITIAL, worlds[0]);
    FinishBegins(h, sc, c, Server(WaitingForBegin(Some(c.currentUid)), 0, false), last);
  }

  // ---- The client's reactions ----

  /** What the client makes of a line, by its command. */
  lemma ClientReaction(h: Hash, c: ClientConfig, s: Client, command: text, rest: text, bare: bool, env: ClientEnv)
    requires s.tried < |c.mechanisms| && SPACE !in command
    ensures var (t, a) := ClientStep(h, c, s, if bare then command else command + Txt(" ") + rest, env);
            && (a == LoggedIn <==> command == Txt("OK") || command == Txt("AGREE_UNIX_FD"))
            && (a == MechanismRejected <==> command == Txt("REJECTED"))
            && (a.SendLine? ==> command == Txt("DATA"))
            && (command == Txt("DATA") ==> (t, a) == OnData(h, c, s, if bare then [] else Trim(rest), env))
            && (command == Txt("OK") ==> t == s.(state := Authenticated))
            && (command != Txt("OK") && command != Txt("DATA") ==> t == s)
  {
    hide SplitOnce, Txt, Trim, OnData, OnChallenge;
    Words();
    Blank();
    SplitOnceNone(command, SPACE);
    SplitOnceFirst(command, SPACE, rest);
    assert OK[0] == 79 && REJECTED[0] == 82 && DATA[0] == 68 && AGREE_UNIX_FD[0] == 65 && ERROR[0] == 69;
    TrimNothing([]);
    DataIsAnswered(h, c, s, if bare then [] else Trim(rest), env);
  }

  lemma DataIsAnswered(h: Hash, c: ClientConfig, s: Client, hex: text, env: ClientEnv)
    requires s.tried < |c.mechanisms|
    ensures var (t, a) := OnData(h, c, s, hex, env); a.SendLine? || (a == ProtocolError && t == s)
  {
    hide HexDecode, ParseChallenge, ValidUtf8, CookieText, InitialData;
  }

  /** A cookie challenge: a context, the id of a key and the server's challenge, between single spaces. */
  ghost predicate IsChallengeFor(data: seq<u8>, context: text, id: u32, challenge: text) {
    && ValidUtf8(data) && SPACE !in context
    && exists digits :: SPACE !in digits && ParseUnsigned(digits, 0x1_0000_0000) == Some(id)
                     && data == context + Txt(" ") + (digits + Txt(" ") + challenge)
  }

  predicate KnowsKey(env: ClientEnv, context: text, id: u32) {
    env.home && context in env.keyrings && id in env.keyrings[context]
  }

  lemma ChallengePartsExactly(data: seq<u8>, context: text, id: u32, challenge: text)
    requires ValidUtf8(data)
    ensures ParseChallenge(data) == Some((context, id, challenge)) <==> IsChallengeFor(data, context, id, challenge)
  {
    hide SplitOnce, Txt, ParseUnsigned, ValidUtf8;
    Blank();
    if ParseChallenge(data) == Some((context, id, challenge)) {
      SplitOnceParts(data, SPACE);
      var rest := SplitOnce(data, SPACE).value.1;
      SplitOnceParts(rest, SPACE);
      var digits := SplitOnce(rest, SPACE).value.0;
      assert data == context + [SPACE] + (digits + [SPACE] + challenge);
    }
    forall digits | SPACE !in context && SPACE !in digits && data == context + [SPACE] + (digits + [SPACE] + challenge)
      ensures SplitOnce(data, SPACE) == Some((context, digits + [SPACE] + challenge))
      ensures SplitOnce(digits + [SPACE] + challenge, SPACE) == Some((digits, challenge))
    {
      SplitOnceFirst(context, SPACE, digits + [SPACE] + challenge);
      SplitOnceFirst(digits, SPACE, challenge);
    }
  }

  /** A challenge for a key the client knows is answered with its own challenge and the hash; anything else is an error
      and changes nothing. */
  ghost predicate ReactsTo(h: Hash, s: Client, data: seq<u8>, env: ClientEnv, t: Client, a: ClientAction) {
    && (forall context: text, id: u32, challenge: text |
          IsChallengeFor(data, context, id, challenge) && KnowsKey(env, context, id) ::
          && t == Client(s.tried, WaitingForDataOrOk(DbusCookieSha1, Some(id)))
          && a == SendLine(DataLine(env.challenge + Txt(" ") +
               h(challenge + Txt(":") + env.challenge + Txt(":") + env.keyrings[context][id]))))
    && ((forall context: text, id: u32, challenge: text ::
           !(IsChallengeFor(data, context, id, challenge) && KnowsKey(env, context, id))) ==>
          (t, a) == (s, ProtocolError))
  }

  /** DATA is answered while a mechanism is under way: by proposing EXTERNAL or ANONYMOUS again, and by the cookie
      mechanism once. Everything else is an error and changes nothing. */
  lemma DataReaction(h: Hash, c: ClientConfig, s: Client, hex: text, env: ClientEnv)
    requires s.tried < |c.mechanisms|
    ensures var (t, a) := OnData(h, c, s, hex, env);
            if !s.state.WaitingForDataOrOk? || HexDecode(hex).None? then (t, a) == (s, ProtocolError)
            else if s.state.mechanism != DbusCookieSha1 then
              t == BeginMechanism(c, s.tried).0 && a == SendLine(BeginMechanism(c, s.tried).1)
            else if s.state.cookiePendingId.Some? then (t, a) == (s, ProtocolError)
            else ReactsTo(h, s, HexDecode(hex).value, env, t, a)
  {
    hide HexDecode, InitialData, OnChallenge, ReactsTo;
    if s.state.WaitingForDataOrOk? && HexDecode(hex).Some? && s.state.mechanism == DbusCookieSha1 {
      ChallengeReaction(h, s, HexDecode(hex).value, env);
    }
  }

  lemma ChallengeReaction(h: Hash, s: Client, data: seq<u8>, env: ClientEnv)
    ensures var (t, a) := OnChallenge(h, s, data, env); ReactsTo(h, s, data, env, t, a)
  {
    hide Txt, ParseChallenge, IsChallengeFor, ValidUtf8, KnowsKey;
    Blank();
    KeysExactly(env);
    if ValidUtf8(data) {
      forall context: text, id: u32, challenge: text
        ensures ParseChallenge(data) == Some((context, id, challenge)) <==> IsChallengeFor(data, context, id, challenge)
      {
        ChallengePartsExactly(data, context, id, challenge);
      }
      if ParseChallenge(data).Some? {
        var (context, id, challenge) := ParseChallenge(data).value;
        assert IsChallengeFor(data, context, id, challenge);
        assert KnowsKey(env, context, id) <==> env.home && context in env.keyrings && id in env.keyrings[context];
      }
    } else {
      NoChallenge(data);
    }
  }

  lemma KeysExactly(env: ClientEnv)
    ensures forall context: text, id: u32 :: KnowsKey(env, context, id) <==>
              env.home && context in env.keyrings && id in env.keyrings[context]
  {
  }

  lemma NoChallenge(data: seq<u8>)
    requires !ValidUtf8(data)
    ensures forall context: text, id: u32, challenge: text :: !IsChallengeFor(data, context, id, challenge)
  {
    hide ValidUtf8;
  }

  // ---- The server's other replies ----

  /** A complaint leaves everything as it was, and says what was expected. */
  predicate Complains(s: Server, t: Server, a: ServerAction, command: text) {
    && t == s
    && a == Send(SaslServer.Error(
         match s.state
         case WaitingForAuth => Txt("Sent unexpected command while expecting AUTH")
         case WaitingForData(_, _) =>
           if command == Txt("BEGIN") then Txt("Sent BEGIN while expecting DATA")
           else if command == Txt("AUTH") then Txt("Sent AUTH while expecting DATA")
           else Txt("Unknown command while expecting DATA")
         case WaitingForBegin(_) => Txt("Unknown command while expecting BEGIN")))
  }

  /** A prompt for initial data: an empty DATA line. */
  predicate IsPrompt(a: ServerAction) {
    a == Send(Data([]))
  }

  lemma ReplyKinds(h: Hash, c: Config, s: Server, line: text, env: Env)
    requires StateOk(c, s)
    ensures var (t, a) := Step(h, c, s, line, env);
            || IsOk(a) || IsRejection(a) || IsChallenge(a) || IsPrompt(a) || a == Send(AgreeUnixFd) || a.Begin?
            || Complains(s, t, a, SplitCommand(line).0)
    ensures var (t, a) := Step(h, c, s, line, env);
            IsPrompt(a) <==> s.state == WaitingForAuth && NamesOnly(c, line)
  {
    hide SplitCommand, Txt, OnMechanismData, HexDecode, ParseMechanism, SplitOnce, StateOk;
    Words();
    var (command, rest) := SplitCommand(line);
    assert BEGIN[0] == 66 && AUTH[0] == 65 && DATA[0] == 68;
    match s.state
    case WaitingForAuth => AuthKinds(h, c, s, line, env);
    case WaitingForData(_, _) =>
      if HexDecode(rest).Some? {
        MechanismDataStep(h, c, s, HexDecode(rest).value, env);
      }
    case WaitingForBegin(_) =>
  }

  lemma AuthKinds(h: Hash, c: Config, s: Server, line: text, env: Env)
    requires s.state == WaitingForAuth
    ensures var (t, a) := Step(h, c, s, line, env);
            || IsOk(a) || IsRejection(a) || IsChallenge(a) || IsPrompt(a) || Complains(s, t, a, SplitCommand(line).0)
    ensures var (t, a) := Step(h, c, s, line, env); IsPrompt(a) <==> NamesOnly(c, line)
  {
    hide SplitCommand, Txt, OnMechanismData, HexDecode, ParseMechanism, SplitOnce, StateOk;
    SplitOnceNone([], SPACE);
    var (command, rest) := SplitCommand(line);
    var split := SplitOnce(rest, SPACE);
    var m := ParseMechanism(if split.Some? then split.value.0 else rest);
    if m.Some? && split.Some? && HexDecode(split.value.1).Some? && Startable(c, m.value) {
      var started := s.(state := WaitingForData(m.value, NO_COOKIE));
      assert StateOk(c, started) by { StartedOk(c, s, m.value); }
      MechanismDataStep(h, c, started, HexDecode(split.value.1).value, env);
    }
  }

  lemma StartedOk(c: Config, s: Server, m: Mechanism)
    requires Startable(c, m)
    ensures StateOk(c, s.(state := WaitingForData(m, NO_COOKIE)))
  {
  }

  /** After every history: a reply that is none of the others is a complaint and changes nothing, and initial data is
      asked for exactly when an AUTH line names a mechanism that may be started and carries none. */
  lemma OtherReplies(h: Hash, c: Config, inputs: seq<Input>)
    requires inputs != []
    ensures var before, last := inputs[..|inputs| - 1], inputs[|inputs| - 1];
            var a := Reply(h, c, inputs);
            && (|| IsOk(a) || IsRejection(a) || IsChallenge(a) || IsPrompt(a) || a == Send(AgreeUnixFd) || a.Begin?
                || Complains(After(h, c, before), After(h, c, inputs), a, SplitCommand(last.line).0))
            && (IsPrompt(a) <==>
                  !Accepted(h, c, before) && Proposed(h, c, before).None? && NamesOnly(c, last.line))
  {
    hide Step, Complains, NamesOnly, SplitCommand, Accepted, Proposed, OpenChallenge, Rejections, CookieMatches;
    var before, last := inputs[..|inputs| - 1], inputs[|inputs| - 1];
    HistoryMatches(h, c, before);
    RunFacts(h, c, before);
    ReplyKinds(h, c, After(h, c, before), last.line, last.env);
  }
}
