/** The client side of the authentication protocol. */
module SaslClient {
  import opened Wrappers
  import opened Bytes
  import opened Text
  import opened SaslServer

  const OK: text := [79, 75]
  const REJECTED: text := [82, 69, 74, 69, 67, 84, 69, 68]
  const AGREE_UNIX_FD: text := [65, 71, 82, 69, 69, 95, 85, 78, 73, 88, 95, 70, 68]
  const ANONYMOUS_TRACE: text := [111, 120, 105, 98, 117, 115] // oxibus

  /** The lines a client sends. */
  datatype ClientLine =
    | AuthLine(mechanism: Mechanism, initial: seq<u8>)
    | DataLine(payload: seq<u8>)
    | NegotiateLine
    | BeginLine

  function Render(line: ClientLine): (s: text) {
    match line
    case AuthLine(m, initial) => AUTH + [SPACE] + (MechanismName(m) + [SPACE] + HexEncode(initial))
    case DataLine(payload) => DATA + [SPACE] + HexEncode(payload)
    case NegotiateLine => NEGOTIATE_UNIX_FD
    case BeginLine => BEGIN
  }

  /** What the world answers while the client handles one line: keys by context and id. */
  datatype ClientEnv = ClientEnv(home: bool, keyrings: map<text, map<u32, text>>, challenge: text)

  datatype ClientConfig = ClientConfig(mechanisms: seq<Mechanism>, wantUnixFd: bool, currentUid: u32)

  datatype ClientState =
    | Init
    | WaitingForDataOrOk(mechanism: Mechanism, cookiePendingId: Option<u32>)
    | WaitingForAgreeUnixFd
    | Authenticated

  datatype Client = Client(tried: nat, state: ClientState)

  datatype ClientAction =
    | SendLine(line: ClientLine)
    | LoggedIn
    | MechanismRejected
    | ProtocolError

  function InitialData(c: ClientConfig, m: Mechanism): (data: seq<u8>) {
    if m == Anonymous then ANONYMOUS_TRACE else Decimal(c.currentUid)
  }

  function BeginMechanism(c: ClientConfig, index: nat): (r: (Client, ClientLine))
    requires index < |c.mechanisms|
  {
    var m := c.mechanisms[index];
    (Client(index, WaitingForDataOrOk(m, None)), AuthLine(m, InitialData(c, m)))
  }

  predicate HasMore(c: ClientConfig, s: Client) {
    s.tried + 1 < |c.mechanisms|
  }

  /** Context, key id and server challenge of a cookie challenge. */
  function ParseChallenge(s: text): (r: Option<(text, u32, text)>) {
    match SplitOnce(s, SPACE)
    case None => None
    case Some((context, rest)) =>
      match SplitOnce(rest, SPACE)
      case None => None
      case Some((id, challenge)) =>
        match ParseUnsigned(id, 0x1_0000_0000)
        case None => None
        case Some(n) => Some((context, n, challenge))
  }

  function OnChallenge(h: Hash, s: Client, data: seq<u8>, env: ClientEnv): (r: (Client, ClientAction)) {
    if !ValidUtf8(data) then (s, ProtocolError)
    else match ParseChallenge(data)
    case None => (s, ProtocolError)
    case Some((context, id, challenge)) =>
      if !env.home || context !in env.keyrings || id !in env.keyrings[context] then (s, ProtocolError)
      else
        var response := h(CookieText(challenge, env.challenge, env.keyrings[context][id]));
        (s.(state := WaitingForDataOrOk(DbusCookieSha1, Some(id))),
         SendLine(DataLine(env.challenge + [SPACE] + response)))
  }

  function OnData(h: Hash, c: ClientConfig, s: Client, hex: text, env: ClientEnv): (r: (Client, ClientAction))
    requires s.tried < |c.mechanisms|
  {
    if !s.state.WaitingForDataOrOk? then (s, ProtocolError)
    else
      var data := HexDecode(hex);
      if data.None? then (s, ProtocolError)
      else if s.state.mechanism != DbusCookieSha1 then
        var (t, line) := BeginMechanism(c, s.tried);
        (t, SendLine(line))
      else if s.state.cookiePendingId.Some? then (s, ProtocolError)
      else OnChallenge(h, s, data.value, env)
  }

  function ClientStep(h: Hash, c: ClientConfig, s: Client, line: text, env: ClientEnv): (r: (Client, ClientAction))
    requires s.tried < |c.mechanisms|
  {
    var (command, rest) := match SplitOnce(line, SPACE)
                           case Some(parts) => parts
                           case None => (line, []);
    if command == OK then (s.(state := Authenticated), LoggedIn)
    else if command == REJECTED then (s, MechanismRejected)
    else if command == DATA then OnData(h, c, s, Trim(rest), env)
    else if command == ERROR then (s, ProtocolError)
    else if command == AGREE_UNIX_FD then (s, LoggedIn)
    else (s, ProtocolError)
  }

  /** The lines after authentication, and whether a reply to them is awaited. */
  function FinishLines(c: ClientConfig): (r: (seq<ClientLine>, bool)) {
    if c.wantUnixFd then ([NegotiateLine, BeginLine], true) else ([BeginLine], false)
  }

  class ClientAuth {
    const hash: Hash
    const config: ClientConfig
    var tried: nat
    var state: ClientState

    ghost predicate Valid()
      reads this
    {
      tried < |config.mechanisms|
    }

    constructor (hash: Hash, config: ClientConfig)
      requires config.mechanisms != []
      ensures Valid() && this.hash == hash && this.config == config && Now() == Client(0, Init)
    {
      this.hash, this.config := hash, config;
      tried, state := 0, Init;
    }

    function Now(): (s: Client)
      reads this
    {
      Client(tried, state)
    }

    method Start() returns (line: ClientLine)
      requires Valid()
      modifies this
      ensures Valid() && (Now(), line) == BeginMechanism(config, 0)
    {
      line := BeginMechanismAt(0);
    }

    method BeginMechanismAt(index: nat) returns (line: ClientLine)
      requires index < |config.mechanisms|
      modifies this
      ensures Valid() && (Now(), line) == BeginMechanism(config, index)
    {
      tried := index;
      var m := config.mechanisms[index];
      state := WaitingForDataOrOk(m, None);
      match m
      case External => line := AuthLine(External, Decimal(config.currentUid));
      case Anonymous => line := AuthLine(Anonymous, ANONYMOUS_TRACE);
      case DbusCookieSha1 => line := AuthLine(DbusCookieSha1, Decimal(config.currentUid));
    }

    method TryNextMechanism() returns (line: Option<ClientLine>)
      requires Valid()
      modifies this
      ensures Valid()
      ensures if HasMore(config, old(Now()))
              then line.Some? && (Now(), line.value) == BeginMechanism(config, old(tried) + 1)
              else line == None && Now() == old(Now())
    {
      if tried + 1 < |config.mechanisms| {
        var l := BeginMechanismAt(tried + 1);
        return Some(l);
      }
      return None;
    }

    method FeedLine(line: text, env: ClientEnv) returns (a: ClientAction)
      requires Valid()
      modifies this
      ensures Valid() && (Now(), a) == ClientStep(hash, config, old(Now()), line, env)
    {
      var split := SplitOnce(line, SPACE);
      var command := if split.Some? then split.value.0 else line;
      var rest := if split.Some? then split.value.1 else [];
      if command == OK {
        state := Authenticated;
        return LoggedIn;
      } else if command == REJECTED {
        return MechanismRejected;
      } else if command == DATA {
        a := HandleData(Trim(rest), env);
      } else if command == ERROR {
        return ProtocolError;
      } else if command == AGREE_UNIX_FD {
        return LoggedIn;
      } else {
        return ProtocolError;
      }
    }

    method HandleData(hex: text, env: ClientEnv) returns (a: ClientAction)
      requires Valid()
      modifies this
      ensures Valid() && (Now(), a) == OnData(hash, config, old(Now()), hex, env)
    {
      if !state.WaitingForDataOrOk? {
        return ProtocolError;
      }
      var data := HexDecode(hex);
      if data.None? {
        return ProtocolError;
      }
      match state.mechanism
      case External | Anonymous =>
        var line := BeginMechanismAt(tried);
        a := SendLine(line);
      case DbusCookieSha1 =>
        if state.cookiePendingId.Some? {
          return ProtocolError;
        }
        a := RespondToCookieChallenge(data.value, env);
    }

    method RespondToCookieChallenge(data: seq<u8>, env: ClientEnv) returns (a: ClientAction)
      requires Valid()
      modifies this
      ensures Valid() && (Now(), a) == OnChallenge(hash, old(Now()), data, env)
    {
      if !ValidUtf8(data) {
        return ProtocolError;
      }
      var parsed := ParseChallenge(data);
      if parsed.None? {
        return ProtocolError;
      }
      var (context, id, challenge) := parsed.value;
      if !env.home || context !in env.keyrings || id !in env.keyrings[context] {
        return ProtocolError;
      }
      var response := hash(CookieText(challenge, env.challenge, env.keyrings[context][id]));
      state := WaitingForDataOrOk(DbusCookieSha1, Some(id));
      return SendLine(DataLine(env.challenge + [SPACE] + response));
    }

    method FinishLinesOf() returns (lines: seq<ClientLine>, expectReply: bool)
      modifies `state
      ensures (lines, expectReply) == FinishLines(config)
      ensures state == if config.wantUnixFd then WaitingForAgreeUnixFd else old(state)
    {
      if config.wantUnixFd {
        state := WaitingForAgreeUnixFd;
        return [NegotiateLine, BeginLine], true;
      }
      return [BeginLine], false;
    }
  }
}
