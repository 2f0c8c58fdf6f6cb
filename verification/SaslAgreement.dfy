/** Client and server run in lock step: they terminate, and agree on the outcome. */
module SaslAgreement {
  import opened Wrappers
  import opened Bytes
  import opened Text
  import opened SaslServer
  import opened SaslServerProofs
  import opened SaslClient

  // ---- Lines on the wire ----

  function JoinNames(ms: seq<Mechanism>): (s: text) {
    if ms == [] then []
    else if |ms| == 1 then MechanismName(ms[0])
    else MechanismName(ms[0]) + [SPACE] + JoinNames(ms[1..])
  }

  /** The text of a server line. */
  function RenderServer(sc: Config, guid: text, line: ServerLine): (s: text) {
    match line
    case Okay => OK + [SPACE] + guid
    case Rejected => REJECTED + [SPACE] + JoinNames(sc.allowed)
    case Data(payload) => DATA + [SPACE] + HexEncode(payload)
    case Error(reason) => ERROR + [SPACE] + [34] + reason + [34]
    case AgreeUnixFd => AGREE_UNIX_FD
  }

  lemma AuthLineParts(m: Mechanism, initial: seq<u8>)
    ensures var line := Render(AuthLine(m, initial));
            && SplitCommand(line) == (AUTH, MechanismName(m) + [SPACE] + HexEncode(initial))
            && SplitOnce(MechanismName(m) + [SPACE] + HexEncode(initial), SPACE) ==
                 Some((MechanismName(m), HexEncode(initial)))
            && ParseMechanism(MechanismName(m)) == Some(m)
  {
    hide SplitOnce, HexEncode, TrimStart;
    var name := MechanismName(m);
    var hex := HexEncode(initial);
    SplitOnceFirst(AUTH, SPACE, name + [SPACE] + hex);
    SplitOnceFirst(name, SPACE, hex);
    assert (name + [SPACE] + hex)[0] == name[0];
    TrimVisibleStart(name + [SPACE] + hex);
    MechanismNamesDiffer(m);
  }

  lemma MechanismNamesDiffer(m: Mechanism)
    ensures ParseMechanism(MechanismName(m)) == Some(m)
  {
    assert MechanismName(External)[0] == 69;
    assert MechanismName(DbusCookieSha1)[0] == 68;
    assert MechanismName(Anonymous)[0] == 65;
  }

  lemma TrimVisibleStart(s: text)
    requires s != [] && Visible(s[0])
    ensures TrimStart(s) == s
  {
  }

  lemma DataLineParts(payload: seq<u8>)
    ensures SplitOnce(DATA + [SPACE] + HexEncode(payload), SPACE) == Some((DATA, HexEncode(payload)))
    ensures TrimStart(HexEncode(payload)) == HexEncode(payload) && Trim(HexEncode(payload)) == HexEncode(payload)
    ensures HexDecode(HexEncode(payload)) == Some(payload)
  {
    hide SplitOnce, TrimStart, TrimEnd, Trim, HexDecode;
    var hex := HexEncode(payload);
    SplitOnceFirst(DATA, SPACE, hex);
    if hex != [] {
      assert Visible(hex[0]) && Visible(hex[|hex| - 1]);
    }
    TrimNothing(hex);
    HexRoundTrip(payload);
  }

  // ---- Commands are told apart ----

  lemma ClientReads(h: Hash, c: ClientConfig, s: Client, sc: Config, guid: text, line: ServerLine, env: ClientEnv)
    requires s.tried < |c.mechanisms|
    ensures var r := ClientStep(h, c, s, RenderServer(sc, guid, line), env);
            match line
            case Okay => r == (s.(state := Authenticated), LoggedIn)
            case Rejected => r == (s, MechanismRejected)
            case Data(payload) => r == OnData(h, c, s, HexEncode(payload), env)
            case Error(_) => r == (s, ProtocolError)
            case AgreeUnixFd => r == (s, LoggedIn)
  {
    hide SplitOnce, HexEncode, OnData, JoinNames, Trim;
    match line
    case Okay => SplitOnceFirst(OK, SPACE, guid);
    case Rejected =>
      SplitOnceFirst(REJECTED, SPACE, JoinNames(sc.allowed));
      assert REJECTED[0] != OK[0];
    case Data(payload) =>
      DataLineParts(payload);
      assert DATA[0] != OK[0] && DATA[0] != REJECTED[0];
    case Error(reason) =>
      assert RenderServer(sc, guid, line) == ERROR + [SPACE] + ([34] + reason + [34]);
      SplitOnceFirst(ERROR, SPACE, [34] + reason + [34]);
      assert ERROR[0] != OK[0] && ERROR[0] != REJECTED[0] && ERROR[0] != DATA[0];
    case AgreeUnixFd =>
      SplitOnceNone(AGREE_UNIX_FD, SPACE);
      assert AGREE_UNIX_FD[0] != OK[0] && AGREE_UNIX_FD[0] != REJECTED[0] && AGREE_UNIX_FD[0] != DATA[0] &&
             AGREE_UNIX_FD[0] != ERROR[0];
  }

  /** What the server does with a fresh AUTH line. */
  lemma ServerReadsAuth(h: Hash, sc: Config, s: Server, m: Mechanism, initial: seq<u8>, env: Env)
    requires s.state == WaitingForAuth
    ensures var started := s.(state := WaitingForData(m, NO_COOKIE));
            Step(h, sc, s, Render(AuthLine(m, initial)), env) ==
            if m !in sc.allowed || (m == Anonymous && !sc.allowAnonymous) then Reject(s)
            else OnMechanismData(h, sc, started, m, initial, env)
  {
    hide SplitOnce, SplitCommand, HexEncode, HexDecode, ParseMechanism, MechanismName, OnMechanismData, Render;
    AuthLineParts(m, initial);
    HexRoundTrip(initial);
  }

  /** A fresh AUTH line is answered by OK exactly when its mechanism is listed and either it is an
      enabled ANONYMOUS, or EXTERNAL without a claim or with a claim to the peer's own uid. */
  lemma FirstOkExactly(h: Hash, sc: Config, s: Server, m: Mechanism, initial: seq<u8>, env: Env)
    requires s.state == WaitingForAuth
    ensures IsOk(Step(h, sc, s, Render(AuthLine(m, initial)), env).1) <==>
            && m in sc.allowed
            && (|| (m == Anonymous && sc.allowAnonymous)
                || (m == External && (initial == [] ||
                      (ValidUtf8(initial) && ParseUnsigned(initial, 0x1_0000_0000) == Some(sc.peerUid)))))
  {
    hide ValidUtf8, ParseUnsigned, Render, Step, Decimal;
    ServerReadsAuth(h, sc, s, m, initial, env);
  }

  lemma ServerReadsData(h: Hash, sc: Config, s: Server, payload: seq<u8>, env: Env)
    requires s.state.WaitingForData?
    ensures Step(h, sc, s, Render(DataLine(payload)), env) ==
            OnMechanismData(h, sc, s, s.state.mechanism, payload, env)
  {
    hide SplitOnce, HexEncode, HexDecode, OnMechanismData, TrimStart, Trim, Txt;
    DataLineParts(payload);
  }

  // ---- The conversation ----

  datatype Outcome =
    | Running(client: Client, server: Server, line: ClientLine)
    | Done(client: Client, server: Server)
    | EveryMechanismRejected
    | ClientError
    | ServerHungUp

  /** One exchange: the client's line, the server's reply, the client's next move. */
  function Round(h: Hash, sc: Config, guid: text, c: ClientConfig, client: Client, server: Server, line: ClientLine,
                 env: Env, clientEnv: ClientEnv): (o: Outcome)
    requires client.tried < |c.mechanisms|
  {
    var (server', action) := Step(h, sc, server, Render(line), env);
    match action
    case Disconnect => ServerHungUp
    case Begin(_) => ServerHungUp
    case Send(reply) =>
      var (client', next) := ClientStep(h, c, client, RenderServer(sc, guid, reply), clientEnv);
      match next
      case SendLine(l) => Running(client', server', l)
      case LoggedIn => Done(client', server')
      case ProtocolError => ClientError
      case MechanismRejected =>
        if !HasMore(c, client') then EveryMechanismRejected
        else
          var (client'', l) := BeginMechanism(c, client'.tried + 1);
          Running(client'', server', l)
  }

  /** The world's answers for one round. */
  type World = (Env, ClientEnv)

  /** The two machines are in step: a mechanism has just been proposed, or a challenge answered. */
  predicate InStep(c: ClientConfig, client: Client, server: Server, line: ClientLine) {
    && client.tried < |c.mechanisms|
    && client.state.WaitingForDataOrOk?
    && client.state.mechanism == c.mechanisms[client.tried]
    && !server.unixFd
    && (|| (&& server.state == WaitingForAuth && client.state.cookiePendingId == None
            && line == AuthLine(client.state.mechanism, InitialData(c, client.state.mechanism)))
        || (&& server.state.WaitingForData? && server.state.mechanism == DbusCookieSha1
            && server.state.cookie.cookieId.Some? && client.state.cookiePendingId.Some?
            && client.state.mechanism == DbusCookieSha1 && line.DataLine?))
  }

  /** Rounds that may still come: two per mechanism left, one less once its challenge is answered. */
  function RoundsLeft(c: ClientConfig, client: Client, server: Server): (n: nat)
    requires client.tried < |c.mechanisms|
  {
    2 * (|c.mechanisms| - 1 - client.tried) + (if server.state == WaitingForAuth then 2 else 1)
  }

  predicate GoodOutcome(c: ClientConfig, o: Outcome, left: nat) {
    match o
    case Running(client, server, line) => InStep(c, client, server, line) && RoundsLeft(c, client, server) < left
    case Done(client, server) => server.state.WaitingForBegin? && !server.unixFd && client.state == Authenticated
    case _ => true
  }

  lemma RoundKeepsStep(h: Hash, sc: Config, guid: text, c: ClientConfig, client: Client, server: Server,
                       line: ClientLine, env: Env, clientEnv: ClientEnv)
    requires InStep(c, client, server, line)
    ensures GoodOutcome(c, Round(h, sc, guid, c, client, server, line, env, clientEnv), RoundsLeft(c, client, server))
  {
    hide Step, ClientStep, Render, RenderServer, OnMechanismData, OnChallenge, HexEncode, HexDecode;
    var (server', action) := Step(h, sc, server, Render(line), env);
    if server.state == WaitingForAuth {
      ServerReadsAuth(h, sc, server, client.state.mechanism, line.initial, env);
      if action.Send? {
        FirstReply(h, sc, server, client.state.mechanism, line.initial, env);
        ClientReads(h, c, client, sc, guid, action.line, clientEnv);
        if action.line.Data? {
          HexRoundTrip(action.line.payload);
          ChallengeAnswer(h, client, action.line.payload, clientEnv);
        }
      }
    } else {
      ServerReadsData(h, sc, server, line.payload, env);
      if action.Send? {
        SecondReply(h, sc, server, line.payload, env);
        ClientReads(h, c, client, sc, guid, action.line, clientEnv);
      }
    }
  }

  lemma FirstReply(h: Hash, sc: Config, server: Server, m: Mechanism, initial: seq<u8>, env: Env)
    requires server.state == WaitingForAuth
    ensures var started := server.(state := WaitingForData(m, NO_COOKIE));
            var (t, a) := OnMechanismData(h, sc, started, m, initial, env);
            && t.unixFd == server.unixFd
            && (a == Disconnect ||
                (a == Send(Rejected) && t.state == WaitingForAuth) ||
                (a == Send(Okay) && t.state.WaitingForBegin?) ||
                (&& a.Send? && a.line.Data? && m == DbusCookieSha1
                 && t.state.WaitingForData? && t.state.mechanism == DbusCookieSha1 && t.state.cookie.cookieId.Some?))
  {
    hide ClaimedUid, ChallengeText;
  }

  lemma SecondReply(h: Hash, sc: Config, server: Server, payload: seq<u8>, env: Env)
    requires server.state.WaitingForData? && server.state.mechanism == DbusCookieSha1
    requires server.state.cookie.cookieId.Some?
    ensures var (t, a) := OnMechanismData(h, sc, server, DbusCookieSha1, payload, env);
            && t.unixFd == server.unixFd
            && (a == Disconnect ||
                (a == Send(Rejected) && t.state == WaitingForAuth) ||
                (a == Send(Okay) && t.state.WaitingForBegin?))
  {
    hide ValidUtf8, SplitOnce, CookieText;
  }

  lemma ChallengeAnswer(h: Hash, client: Client, payload: seq<u8>, env: ClientEnv)
    ensures var (t, a) := OnChallenge(h, client, payload, env);
            && t.tried == client.tried
            && (a == ProtocolError ||
                (a.SendLine? && a.line.DataLine? && t.state.WaitingForDataOrOk? &&
                 t.state.mechanism == DbusCookieSha1 && t.state.cookiePendingId.Some?))
  {
    hide ValidUtf8, ParseChallenge, CookieText;
  }

  /** The conversation as long as the world's answers last. */
  function Converse(h: Hash, sc: Config, guid: text, c: ClientConfig, client: Client, server: Server,
                    line: ClientLine, worlds: seq<World>): (o: Outcome)
    requires InStep(c, client, server, line)
    decreases |worlds|
  {
    if worlds == [] then Running(client, server, line)
    else
      RoundKeepsStep(h, sc, guid, c, client, server, line, worlds[0].0, worlds[0].1);
      match Round(h, sc, guid, c, client, server, line, worlds[0].0, worlds[0].1)
      case Running(client', server', line') => Converse(h, sc, guid, c, client', server', line', worlds[1..])
      case o => o
  }

  /** The server's state and last reaction after some lines of the client. */
  function Feed(h: Hash, sc: Config, server: Server, lines: seq<ClientLine>, env: Env): (r: (Server, ServerAction))
    requires lines != []
    decreases |lines|
  {
    var (next, action) := Step(h, sc, server, Render(lines[0]), env);
    if |lines| == 1 then (next, action) else Feed(h, sc, next, lines[1..], env)
  }

  /** What the server ends up with after the client's finishing lines. */
  function Finish(h: Hash, sc: Config, c: ClientConfig, server: Server, env: Env): (r: (Server, ServerAction)) {
    Feed(h, sc, server, FinishLines(c).0, env)
  }

  lemma FinishBegins(h: Hash, sc: Config, c: ClientConfig, server: Server, env: Env)
    requires server.state.WaitingForBegin? && !server.unixFd
    ensures Finish(h, sc, c, server, env) == (server.(unixFd := c.wantUnixFd), Begin(server.state.uid))
  {
    hide SplitOnce;
    SplitOnceNone(BEGIN, SPACE);
    SplitOnceNone(NEGOTIATE_UNIX_FD, SPACE);
    assert BEGIN[0] != NEGOTIATE_UNIX_FD[0];
    if c.wantUnixFd {
      assert [NegotiateLine, BeginLine][1..] == [BeginLine];
      assert Feed(h, sc, server.(unixFd := true), [BeginLine], env) ==
             Step(h, sc, server.(unixFd := true), Render(BeginLine), env);
    }
  }

  lemma {:induction false} ConverseOutcome(h: Hash, sc: Config, guid: text, c: ClientConfig, client: Client,
                                           server: Server, line: ClientLine, worlds: seq<World>)
    requires InStep(c, client, server, line)
    ensures var o := Converse(h, sc, guid, c, client, server, line, worlds);
            && GoodOutcome(c, o, RoundsLeft(c, client, server) + 1)
            && (o.Running? ==> RoundsLeft(c, o.client, o.server) + |worlds| <= RoundsLeft(c, client, server))
    decreases |worlds|
  {
    hide Round;
    if worlds != [] {
      RoundKeepsStep(h, sc, guid, c, client, server, line, worlds[0].0, worlds[0].1);
      var o := Round(h, sc, guid, c, client, server, line, worlds[0].0, worlds[0].1);
      if o.Running? {
        ConverseOutcome(h, sc, guid, c, o.client, o.server, o.line, worlds[1..]);
      }
    }
  }

  /** The handshake ends within two rounds per mechanism, whatever the world answers; and if the client
      believes it is authenticated, the server is waiting for BEGIN, and the finishing lines make it
      begin with descriptor passing exactly as the client wants it. */
  lemma HandshakeAgrees(h: Hash, sc: Config, guid: text, c: ClientConfig, worlds: seq<World>, last: Env)
    requires c.mechanisms != [] && |worlds| >= 2 * |c.mechanisms|
    ensures var (client, line) := BeginMechanism(c, 0);
            && InStep(c, client, INITIAL, line)
            && var o := Converse(h, sc, guid, c, client, INITIAL, line, worlds);
            && !o.Running?
            && (o.Done? ==>
                  && o.server.state.WaitingForBegin?
                  && Finish(h, sc, c, o.server, last) ==
                       (o.server.(unixFd := c.wantUnixFd), Begin(o.server.state.uid)))
  {
    hide Converse, Finish;
    var (client, line) := BeginMechanism(c, 0);
    ConverseOutcome(h, sc, guid, c, client, INITIAL, line, worlds);
    var o := Converse(h, sc, guid, c, client, INITIAL, line, worlds);
    if o.Done? {
      FinishBegins(h, sc, c, o.server, last);
    }
  }

  /** The two handshake loops, run against each other. */
  method Handshake(h: Hash, sc: Config, guid: text, c: ClientConfig, worlds: seq<World>) returns (o: Outcome)
    requires c.mechanisms != []
    ensures var (client, line) := BeginMechanism(c, 0);
            InStep(c, client, INITIAL, line) && o == Converse(h, sc, guid, c, client, INITIAL, line, worlds)
  {
    hide Step, ClientStep, Render, RenderServer;
    var client := new ClientAuth(h, c);
    var server := new ServerAuth(h, sc);
    var line := client.Start();
    ghost var all := Converse(h, sc, guid, c, client.Now(), server.Now(), line, worlds);
    for i := 0 to |worlds|
      invariant fresh(client) && fresh(server) && client.Valid()
      invariant client.hash == server.hash == h && client.config == c && server.config == sc
      invariant InStep(c, client.Now(), server.Now(), line)
      invariant all == Converse(h, sc, guid, c, client.Now(), server.Now(), line, worlds[i..])
    {
      RoundKeepsStep(h, sc, guid, c, client.Now(), server.Now(), line, worlds[i].0, worlds[i].1);
      assert worlds[i..][0] == worlds[i] && worlds[i..][1..] == worlds[i + 1..];
      var action := server.FeedLine(Render(line), worlds[i].0);
      if !action.Send? {
        return ServerHungUp;
      }
      var next := client.FeedLine(RenderServer(sc, guid, action.line), worlds[i].1);
      match next
      case LoggedIn => return Done(client.Now(), server.Now());
      case ProtocolError => return ClientError;
      case SendLine(l) => line := l;
      case MechanismRejected =>
        var retry := client.TryNextMechanism();
        if retry.None? {
          return EveryMechanismRejected;
        }
        line := retry.value;
    }
    return Running(client.Now(), server.Now(), line);
  }

  // ---- The cookie exchange succeeds ----

  ghost predicate HexHash(h: Hash) {
    forall s :: h(s) != [] && Ascii(h(s))
  }

  lemma ChallengeParses(id: u32, challenge: text)
    requires Ascii(challenge)
    ensures ValidUtf8(ChallengeText(id, challenge))
    ensures ParseChallenge(ChallengeText(id, challenge)) == Some((CONTEXT, id, challenge))
  {
    hide SplitOnce, Decimal, ValidUtf8, ParseUnsigned;
    var digits := Decimal(id);
    assert ChallengeText(id, challenge) == CONTEXT + [SPACE] + (digits + [SPACE] + challenge);
    SplitOnceFirst(CONTEXT, SPACE, digits + [SPACE] + challenge);
    SplitOnceFirst(digits, SPACE, challenge);
    DecimalRoundTrip(id, 0x1_0000_0000);
    assert Ascii(ChallengeText(id, challenge));
    AsciiIsUtf8(ChallengeText(id, challenge));
  }

  lemma ResponseParses(client: text, response: text)
    requires Ascii(client) && SPACE !in client && Ascii(response)
    ensures var s := client + [SPACE] + response; ValidUtf8(s) && SplitOnce(s, SPACE) == Some((client, response))
  {
    hide SplitOnce, ValidUtf8;
    var s := client + [SPACE] + response;
    assert Ascii(s);
    AsciiIsUtf8(s);
    SplitOnceFirst(client, SPACE, response);
  }

  /** When both sides hold the same secret for the announced key, the cookie mechanism succeeds in two
      rounds and the server will begin with the peer's uid. */
  lemma CookieExchangeSucceeds(h: Hash, sc: Config, guid: text, c: ClientConfig, server: Server, tried: nat,
                               first: World, second: World)
    requires HexHash(h)
    requires tried < |c.mechanisms| && c.mechanisms[tried] == DbusCookieSha1
    requires server.state == WaitingForAuth && DbusCookieSha1 in sc.allowed
    // both processes run as the same user, and both can read the keyring
    requires sc.peerUid == c.currentUid == first.0.currentUid
    requires first.0.home && first.0.keyring.Some? && first.0.keyring.value.best.Some?
    requires Ascii(first.0.challenge)
    requires var id := first.0.keyring.value.best.value;
             && first.1.home && CONTEXT in first.1.keyrings && id in first.1.keyrings[CONTEXT]
             && second.0.home && second.0.keyring.Some? && id in second.0.keyring.value.keys
             && first.1.keyrings[CONTEXT][id] == second.0.keyring.value.keys[id]
    requires Ascii(first.1.challenge) && SPACE !in first.1.challenge && first.1.challenge != []
    ensures var (client, line) := BeginMechanism(c, tried);
            var o := Round(h, sc, guid, c, client, server, line, first.0, first.1);
            && o.Running?
            && o.client.tried < |c.mechanisms|
            && var p := Round(h, sc, guid, c, o.client, o.server, o.line, second.0, second.1);
            p == Done(o.client.(state := Authenticated), o.server.(state := WaitingForBegin(Some(sc.peerUid))))
  {
    hide Step, ClientStep, Render, RenderServer, OnMechanismData, OnChallenge, HexEncode, HexDecode, HexHash;
    var (client, line) := BeginMechanism(c, tried);
    var id := first.0.keyring.value.best.value;
    ServerReadsAuth(h, sc, server, DbusCookieSha1, line.initial, first.0);
    Announces(h, sc, server, first.0);
    var payload := ChallengeText(id, first.0.challenge);
    ClientReads(h, c, client, sc, guid, Data(payload), first.1);
    HexRoundTrip(payload);
    Answers(h, client, id, first.0.challenge, first.1);
    var waiting := server.(state := WaitingForData(DbusCookieSha1, CookieState(Some(id), Some(first.0.challenge))));
    var secret := first.1.keyrings[CONTEXT][id];
    var response := h(CookieText(first.0.challenge, first.1.challenge, secret));
    var answer := first.1.challenge + [SPACE] + response;
    ServerReadsData(h, sc, waiting, answer, second.0);
    Accepts(h, sc, waiting, id, first.0.challenge, first.1.challenge, second.0);
    var answered := Client(tried, WaitingForDataOrOk(DbusCookieSha1, Some(id)));
    ClientReads(h, c, answered, sc, guid, Okay, second.1);
  }

  lemma Announces(h: Hash, sc: Config, server: Server, env: Env)
    requires server.state == WaitingForAuth && sc.peerUid == env.currentUid
    requires env.home && env.keyring.Some? && env.keyring.value.best.Some?
    ensures var id := env.keyring.value.best.value;
            var started := server.(state := WaitingForData(DbusCookieSha1, NO_COOKIE));
            OnMechanismData(h, sc, started, DbusCookieSha1, Decimal(sc.peerUid), env) ==
            (server.(state := WaitingForData(DbusCookieSha1, CookieState(Some(id), Some(env.challenge)))),
             Send(Data(ChallengeText(id, env.challenge))))
  {
    hide Decimal, ParseUnsigned, ValidUtf8, ChallengeText;
    DecimalRoundTrip(sc.peerUid, 0x1_0000_0000);
    AsciiIsUtf8(Decimal(sc.peerUid));
  }

  lemma Answers(h: Hash, client: Client, id: u32, challenge: text, env: ClientEnv)
    requires Ascii(challenge) && env.home && CONTEXT in env.keyrings && id in env.keyrings[CONTEXT]
    ensures var response := h(CookieText(challenge, env.challenge, env.keyrings[CONTEXT][id]));
            OnChallenge(h, client, ChallengeText(id, challenge), env) ==
            (client.(state := WaitingForDataOrOk(DbusCookieSha1, Some(id))),
             SendLine(DataLine(env.challenge + [SPACE] + response)))
  {
    hide ParseChallenge, ValidUtf8, ChallengeText, CookieText;
    ChallengeParses(id, challenge);
  }

  lemma Accepts(h: Hash, sc: Config, server: Server, id: u32, challenge: text, client: text, env: Env)
    requires HexHash(h)
    requires server.state == WaitingForData(DbusCookieSha1, CookieState(Some(id), Some(challenge)))
    requires env.home && env.keyring.Some? && id in env.keyring.value.keys
    requires Ascii(client) && SPACE !in client && client != []
    ensures var response := h(CookieText(challenge, client, env.keyring.value.keys[id]));
            OnMechanismData(h, sc, server, DbusCookieSha1, client + [SPACE] + response, env) ==
            Accept(server, Some(sc.peerUid))
  {
    hide SplitOnce, ValidUtf8, CookieText;
    var response := h(CookieText(challenge, client, env.keyring.value.keys[id]));
    ResponseParses(client, response);
  }
}
