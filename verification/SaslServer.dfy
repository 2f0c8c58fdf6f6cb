/** The server side of the authentication protocol. */
module SaslServer {
  import opened Wrappers
  import opened Bytes
  import opened Text

  const MAX_FAILURES: nat := 6

  datatype Mechanism = External | DbusCookieSha1 | Anonymous

  function MechanismName(m: Mechanism): (s: text)
    ensures s != [] && SPACE !in s && Visible(s[0])
  {
    match m
    case External => [69, 88, 84, 69, 82, 78, 65, 76]
    case DbusCookieSha1 => [68, 66, 85, 83, 95, 67, 79, 79, 75, 73, 69, 95, 83, 72, 65, 49]
    case Anonymous => [65, 78, 79, 78, 89, 77, 79, 85, 83]
  }

  function ParseMechanism(s: text): (m: Option<Mechanism>)
    ensures m.Some? ==> MechanismName(m.value) == s
  {
    if s == MechanismName(External) then Some(External)
    else if s == MechanismName(DbusCookieSha1) then Some(DbusCookieSha1)
    else if s == MechanismName(Anonymous) then Some(Anonymous)
    else None
  }

  const AUTH: text := [65, 85, 84, 72]
  const BEGIN: text := [66, 69, 71, 73, 78]
  const CANCEL: text := [67, 65, 78, 67, 69, 76]
  const DATA: text := [68, 65, 84, 65]
  const ERROR: text := [69, 82, 82, 79, 82]
  const NEGOTIATE_UNIX_FD: text := [78, 69, 71, 79, 84, 73, 65, 84, 69, 95, 85, 78, 73, 88, 95, 70, 68]
  const CONTEXT: text := [111, 114, 103, 95, 102, 114, 101, 101, 100, 101, 115, 107, 116, 111, 112, 95,
                          103, 101, 110, 101, 114, 97, 108] // org_freedesktop_general
  const COLON: u8 := 58

  /** A hash of text as hexadecimal text; SHA-1 in the source, arbitrary here. */
  type Hash = text -> text

  /** Keys by id, as hexadecimal text, and the id a server would use now. */
  datatype Keyring = Keyring(keys: map<u32, text>, best: Option<u32>)

  /** What the outside world answers while one line is handled. */
  datatype Env = Env(currentUid: u32, home: bool, keyring: Option<Keyring>, challenge: text)

  datatype Config = Config(peerUid: u32, allowed: seq<Mechanism>, allowAnonymous: bool)

  datatype CookieState = CookieState(cookieId: Option<u32>, challenge: Option<text>)

  datatype State =
    | WaitingForAuth
    | WaitingForData(mechanism: Mechanism, cookie: CookieState)
    | WaitingForBegin(uid: Option<u32>)

  /** The lines a server sends. */
  datatype ServerLine =
    | Okay
    | Rejected
    | Data(payload: seq<u8>)
    | Error(reason: text)
    | AgreeUnixFd

  datatype ServerAction =
    | Send(line: ServerLine)
    | Begin(uid: Option<u32>)
    | Disconnect

  datatype Server = Server(state: State, failures: nat, unixFd: bool)

  const INITIAL: Server := Server(WaitingForAuth, 0, false)
  const NO_COOKIE: CookieState := CookieState(None, None)

  /** Command and arguments of a line. */
  function SplitCommand(line: text): (r: (text, text)) {
    match SplitOnce(line, SPACE)
    case Some((command, rest)) => (command, TrimStart(rest))
    case None => (line, [])
  }

  /** The text a cookie response is the hash of. */
  function CookieText(server: text, client: text, secret: text): (s: text) {
    server + [COLON] + client + [COLON] + secret
  }

  function ChallengeText(id: u32, challenge: text): (s: text) {
    CONTEXT + [SPACE] + Decimal(id) + [SPACE] + challenge
  }

  function Reject(s: Server): (r: (Server, ServerAction)) {
    (Server(WaitingForAuth, s.failures + 1, s.unixFd),
     if s.failures + 1 >= MAX_FAILURES then Disconnect else Send(Rejected))
  }

  function Accept(s: Server, uid: Option<u32>): (r: (Server, ServerAction)) {
    (s.(state := WaitingForBegin(uid)), Send(Okay))
  }

  function Complain(s: Server, reason: text): (r: (Server, ServerAction)) {
    (s, Send(Error(reason)))
  }

  /** The uid a client claims: its own if it says nothing. */
  function ClaimedUid(c: Config, data: seq<u8>): (uid: Option<nat>) {
    if data == [] then Some(c.peerUid)
    else if !ValidUtf8(data) then None
    else ParseUnsigned(data, 0x1_0000_0000)
  }

  function OnExternal(c: Config, s: Server, data: seq<u8>): (r: (Server, ServerAction)) {
    if ClaimedUid(c, data) == Some(c.peerUid) then Accept(s, Some(c.peerUid)) else Reject(s)
  }

  function OnCookieStart(c: Config, s: Server, data: seq<u8>, env: Env): (r: (Server, ServerAction)) {
    if ClaimedUid(c, data) != Some(c.peerUid) || c.peerUid != env.currentUid then Reject(s)
    else if !env.home || env.keyring.None? || env.keyring.value.best.None? then Reject(s)
    else
      var id := env.keyring.value.best.value;
      (s.(state := WaitingForData(DbusCookieSha1, CookieState(Some(id), Some(env.challenge)))),
       Send(Data(ChallengeText(id, env.challenge))))
  }

  function OnCookieResponse(h: Hash, c: Config, s: Server, id: u32, cookie: CookieState, data: seq<u8>, env: Env)
    : (r: (Server, ServerAction))
  {
    if !ValidUtf8(data) then Reject(s)
    else match SplitOnce(data, SPACE)
    case None => Reject(s)
    case Some((client, response)) =>
      if client == [] || response == [] then Reject(s)
      else if !env.home || env.keyring.None? || id !in env.keyring.value.keys then Reject(s)
      else
        var challenge := if cookie.challenge.Some? then cookie.challenge.value else [];
        if h(CookieText(challenge, client, env.keyring.value.keys[id])) != response then Reject(s)
        else Accept(s, Some(c.peerUid))
  }

  /** Mechanism data; the cookie mechanism looks at the state that has just been entered or kept. */
  function OnMechanismData(h: Hash, c: Config, s: Server, m: Mechanism, data: seq<u8>, env: Env)
    : (r: (Server, ServerAction))
    requires s.state.WaitingForData?
  {
    match m
    case External => OnExternal(c, s, data)
    case Anonymous => Accept(s, None)
    case DbusCookieSha1 =>
      var cookie := s.state.cookie;
      if cookie.cookieId.None? then OnCookieStart(c, s, data, env)
      else OnCookieResponse(h, c, s, cookie.cookieId.value, cookie, data, env)
  }

  function OnAuth(h: Hash, c: Config, s: Server, rest: text, env: Env): (r: (Server, ServerAction)) {
    if rest == [] then Reject(s)
    else
      var split := SplitOnce(rest, SPACE);
      var name := if split.Some? then split.value.0 else rest;
      var mechanism := ParseMechanism(name);
      if mechanism.None? then Reject(s)
      else if mechanism.value !in c.allowed then Reject(s)
      else if mechanism.value == Anonymous && !c.allowAnonymous then Reject(s)
      else
        var started := s.(state := WaitingForData(mechanism.value, NO_COOKIE));
        if split.None? then (started, Send(Data([])))
        else
          var data := HexDecode(split.value.1);
          if data.None? then Reject(s)
          else OnMechanismData(h, c, started, mechanism.value, data.value, env)
  }

  function InWaitingForAuth(h: Hash, c: Config, s: Server, command: text, rest: text, env: Env)
    : (r: (Server, ServerAction))
  {
    if command == AUTH then OnAuth(h, c, s, rest, env)
    else if command == ERROR then Reject(s)
    else Complain(s, Txt("Sent unexpected command while expecting AUTH"))
  }

  function InWaitingForData(h: Hash, c: Config, s: Server, command: text, rest: text, env: Env)
    : (r: (Server, ServerAction))
    requires s.state.WaitingForData?
  {
    if command == DATA then
      var data := HexDecode(rest);
      if data.None? then Reject(s)
      else OnMechanismData(h, c, s, s.state.mechanism, data.value, env)
    else if command == CANCEL || command == ERROR then Reject(s)
    else if command == BEGIN then Complain(s, Txt("Sent BEGIN while expecting DATA"))
    else if command == AUTH then Complain(s, Txt("Sent AUTH while expecting DATA"))
    else Complain(s, Txt("Unknown command while expecting DATA"))
  }

  function InWaitingForBegin(s: Server, command: text): (r: (Server, ServerAction))
    requires s.state.WaitingForBegin?
  {
    if command == BEGIN then (s, Begin(s.state.uid))
    else if command == NEGOTIATE_UNIX_FD then (s.(unixFd := true), Send(AgreeUnixFd))
    else if command == CANCEL || command == ERROR then Reject(s)
    else Complain(s, Txt("Unknown command while expecting BEGIN"))
  }

  function Step(h: Hash, c: Config, s: Server, line: text, env: Env): (r: (Server, ServerAction)) {
    var (command, rest) := SplitCommand(line);
    match s.state
    case WaitingForAuth => InWaitingForAuth(h, c, s, command, rest, env)
    case WaitingForData(_, _) => InWaitingForData(h, c, s, command, rest, env)
    case WaitingForBegin(_) => InWaitingForBegin(s, command)
  }

  class ServerAuth {
    const hash: Hash
    const config: Config
    var state: State
    var failures: nat
    var unixFdNegotiated: bool

    constructor (hash: Hash, config: Config)
      ensures this.hash == hash && this.config == config && Now() == INITIAL
    {
      this.hash, this.config := hash, config;
      state, failures, unixFdNegotiated := WaitingForAuth, 0, false;
    }

    function Now(): (s: Server)
      reads this
    {
      Server(state, failures, unixFdNegotiated)
    }

    method RejectedAction() returns (a: ServerAction)
      modifies this
      ensures (Now(), a) == Reject(old(Now()))
    {
      failures := failures + 1;
      state := WaitingForAuth;
      if failures >= MAX_FAILURES {
        return Disconnect;
      }
      return Send(Rejected);
    }

    method OkAction(uid: Option<u32>) returns (a: ServerAction)
      modifies this
      ensures (Now(), a) == Accept(old(Now()), uid)
    {
      state := WaitingForBegin(uid);
      return Send(Okay);
    }

    method FeedLine(line: text, env: Env) returns (a: ServerAction)
      modifies this
      ensures (Now(), a) == Step(hash, config, old(Now()), line, env)
    {
      var (command, rest) := SplitCommand(line);
      match state
      case WaitingForAuth => a := HandleWaitingForAuth(command, rest, env);
      case WaitingForData(_, _) => a := HandleWaitingForData(command, rest, env);
      case WaitingForBegin(_) => a := HandleWaitingForBegin(command);
    }

    method HandleWaitingForAuth(command: text, rest: text, env: Env) returns (a: ServerAction)
      modifies this
      ensures (Now(), a) == InWaitingForAuth(hash, config, old(Now()), command, rest, env)
    {
      if command == AUTH {
        if rest == [] {
          a := RejectedAction();
          return;
        }
        var split := SplitOnce(rest, SPACE);
        var mechanism := ParseMechanism(if split.Some? then split.value.0 else rest);
        if mechanism.None? || mechanism.value !in config.allowed {
          a := RejectedAction();
          return;
        }
        if mechanism.value == Anonymous && !config.allowAnonymous {
          a := RejectedAction();
          return;
        }
        if split.None? {
          state := WaitingForData(mechanism.value, NO_COOKIE);
          return Send(Data([]));
        }
        var data := HexDecode(split.value.1);
        if data.None? {
          a := RejectedAction();
          return;
        }
        state := WaitingForData(mechanism.value, NO_COOKIE);
        a := DispatchMechanismData(mechanism.value, data.value, env);
      } else if command == ERROR {
        a := RejectedAction();
      } else {
        a := Send(Error(Txt("Sent unexpected command while expecting AUTH")));
      }
    }

    method HandleWaitingForData(command: text, rest: text, env: Env) returns (a: ServerAction)
      requires state.WaitingForData?
      modifies this
      ensures (Now(), a) == InWaitingForData(hash, config, old(Now()), command, rest, env)
    {
      if command == DATA {
        var data := HexDecode(rest);
        if data.None? {
          a := RejectedAction();
        } else {
          a := DispatchMechanismData(state.mechanism, data.value, env);
        }
      } else if command == CANCEL || command == ERROR {
        a := RejectedAction();
      } else if command == BEGIN {
        a := Send(Error(Txt("Sent BEGIN while expecting DATA")));
      } else if command == AUTH {
        a := Send(Error(Txt("Sent AUTH while expecting DATA")));
      } else {
        a := Send(Error(Txt("Unknown command while expecting DATA")));
      }
    }

    method HandleWaitingForBegin(command: text) returns (a: ServerAction)
      requires state.WaitingForBegin?
      modifies this
      ensures (Now(), a) == InWaitingForBegin(old(Now()), command)
    {
      if command == BEGIN {
        a := Begin(state.uid);
      } else if command == NEGOTIATE_UNIX_FD {
        unixFdNegotiated := true;
        a := Send(AgreeUnixFd);
      } else if command == CANCEL || command == ERROR {
        a := RejectedAction();
      } else {
        a := Send(Error(Txt("Unknown command while expecting BEGIN")));
      }
    }

    method DispatchMechanismData(m: Mechanism, data: seq<u8>, env: Env) returns (a: ServerAction)
      requires state.WaitingForData?
      modifies this
      ensures (Now(), a) == OnMechanismData(hash, config, old(Now()), m, data, env)
    {
      match m
      case External =>
        if ClaimedUid(config, data) == Some(config.peerUid) {
          a := OkAction(Some(config.peerUid));
        } else {
          a := RejectedAction();
        }
      case Anonymous => a := OkAction(None);
      case DbusCookieSha1 =>
        var cookie := state.cookie;
        if cookie.cookieId.None? {
          a := CookieFirstResponse(data, env);
        } else {
          a := CookieSecondResponse(cookie.cookieId.value, cookie, data, env);
        }
    }

    method CookieFirstResponse(data: seq<u8>, env: Env) returns (a: ServerAction)
      modifies this
      ensures (Now(), a) == OnCookieStart(config, old(Now()), data, env)
    {
      if ClaimedUid(config, data) != Some(config.peerUid) || config.peerUid != env.currentUid {
        a := RejectedAction();
        return;
      }
      if !env.home || env.keyring.None? || env.keyring.value.best.None? {
        a := RejectedAction();
        return;
      }
      var id := env.keyring.value.best.value;
      state := WaitingForData(DbusCookieSha1, CookieState(Some(id), Some(env.challenge)));
      return Send(Data(ChallengeText(id, env.challenge)));
    }

    method CookieSecondResponse(id: u32, cookie: CookieState, data: seq<u8>, env: Env) returns (a: ServerAction)
      modifies this
      ensures (Now(), a) == OnCookieResponse(hash, config, old(Now()), id, cookie, data, env)
    {
      var split := if ValidUtf8(data) then SplitOnce(data, SPACE) else None;
      if split.None? || split.value.0 == [] || split.value.1 == [] {
        a := RejectedAction();
        return;
      }
      var (client, response) := split.value;
      if !env.home || env.keyring.None? || id !in env.keyring.value.keys {
        a := RejectedAction();
        return;
      }
      var challenge := if cookie.challenge.Some? then cookie.challenge.value else [];
      var expected := hash(CookieText(challenge, client, env.keyring.value.keys[id]));
      if expected != response {
        a := RejectedAction();
        return;
      }
      a := OkAction(Some(config.peerUid));
    }
  }
}
