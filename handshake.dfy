/**
  The opening handshake of `server/shakeHand.go`: the clamps of
  `NewUpGrader`, the origin check `defaultCheckOrigin`, the fixed-order
  guard chain of `UpGrade` with the HTTP status of each failure
  (section 4.2.1 of RFC 6455), and the 101 response (section 4.2.2).

  The request is its method, its header map and the scheme and host it was
  addressed to. Library code enters as parameters (`Env`): header-key
  canonicalisation, URL parsing, SHA-1 and base64. What the network does
  (`Hijack`, the flush of the response, the time the handshake took, and
  the bytes and keys of the connection then built) is given as `Net`.
*/
module Handshake {
  import opened Wrappers
  import opened Bytes
  import opened Protocol
  import opened ConnModel
  import opened Tool
  import Conn

  /** `time.Second` in nanoseconds: the least handshake timeout. */
  const MinHandshakeTimeout := 1_000_000_000

  /** The compression levels of `compress/flate`. */
  const NoCompression := 0
  const BestSpeed := 1
  const BestCompression := 9
  const DefaultCompression := -1
  const HuffmanOnly := -2

  /** The HTTP statuses `UpGrade` answers with. */
  const StatusSwitchingProtocols := 101
  const StatusBadRequest := 400
  const StatusForbidden := 403
  const StatusMethodNotAllowed := 405
  const StatusUpgradeRequired := 426
  const StatusInternalServerError := 500

  const MethodGet := "GET"

  /** The reasons `UpGrade` hands to `Error`, in the order of its checks. */
  const ReasonNoUpgrade := "'Upgrade' 字段没包含在 'Connection' 字段内"
  const ReasonNoWebsocket := "'websocket' 没有包含在 'Upgrade' 内"
  const ReasonNotGet := "请求方法不是get方法"
  const ReasonNoVersion := "请求头不包含服务端支持websocket版本"
  const ReasonCrossOrigin := "不允许跨域"
  const ReasonBadKeyPrefix := "请求头应包含Sec-WebSocket-Key字段的24位随机字符串,wrong: "
  const ReasonNoHijack := "不能劫持http请求"

  /** A parsed URL, as far as the origin check looks at it. */
  datatype Url = Url(scheme: string, host: string)

  /** An HTTP request: its method, its headers, and the scheme and host it was sent to. */
  datatype Request = Request(verb: string, header: HttpHeader, scheme: string, host: string)

  /**
    The library functions the handshake calls: `http.CanonicalHeaderKey`,
    `URL.Parse` (failing with `None`), SHA-1 and base64 encoding.
  */
  datatype Env = Env(
    canon: string -> string,
    parse: string -> Option<Url>,
    sha1: seq<Byte> -> seq<Byte>,
    base64: seq<Byte> -> string)

  /**
    What the network does during one `UpGrade`: whether the connection can
    be hijacked, whether the response is flushed, how many nanoseconds the
    handshake took, and the peer's bytes, keys and write budget on the
    connection that is then built.
  */
  datatype Net = Net(
    hijackOk: bool,
    flushOk: bool,
    elapsed: int,
    input: seq<Byte>,
    keys: nat -> bv32,
    writeQuota: nat)

  /**
    The `OnError` handler. What a handler writes is outside the model, so a
    caller's handler is known only by a name.
  */
  datatype ErrorHandler = DefaultOnErr | Handler(name: string)

  /** The `CheckOrigin` handler: `defaultCheckOrigin` or a caller's decision. */
  datatype OriginCheck = DefaultCheckOrigin | CallerCheck(accepts: Request -> bool)

  /** `upGrader`; the timeout is a `time.Duration`, in nanoseconds. */
  datatype UpGrader = UpGrader(
    handshakeTimeout: int,
    readBufferSize: int,
    writeBufferSize: int,
    onError: ErrorHandler,
    checkOrigin: OriginCheck,
    compressLevel: int)

  /**
    `NewUpGrader`: a missing handler is replaced by the default one, a
    timeout below one second becomes one second, a buffer size outside
    [65535, 655350] becomes 65535, and a compression level outside
    [HuffmanOnly, BestCompression] becomes NoCompression.
  */
  function NewUpGrader(handshakeTimeout: int, rBufSize: int, wBufSize: int, onErr: Option<ErrorHandler>,
                       checkOrigin: Option<Request -> bool>, compressLevel: int): (u: UpGrader)
    ensures u.handshakeTimeout >= MinHandshakeTimeout
    ensures handshakeTimeout >= MinHandshakeTimeout ==> u.handshakeTimeout == handshakeTimeout
    ensures u.handshakeTimeout != handshakeTimeout ==> u.handshakeTimeout == MinHandshakeTimeout
    ensures MinReadBufferSize <= u.readBufferSize <= MaxReadBufferSize
    ensures MinWriteBufferSize <= u.writeBufferSize <= MaxWriteBufferSize
    ensures u.readBufferSize != rBufSize ==> u.readBufferSize == MinReadBufferSize
    ensures u.writeBufferSize != wBufSize ==> u.writeBufferSize == MinWriteBufferSize
    ensures MinReadBufferSize <= rBufSize <= MaxReadBufferSize ==> u.readBufferSize == rBufSize
    ensures MinWriteBufferSize <= wBufSize <= MaxWriteBufferSize ==> u.writeBufferSize == wBufSize
    ensures HuffmanOnly <= u.compressLevel <= BestCompression
    ensures HuffmanOnly <= compressLevel <= BestCompression ==> u.compressLevel == compressLevel
    ensures u.compressLevel != compressLevel ==> u.compressLevel == NoCompression
    ensures u.onError == if onErr.None? then DefaultOnErr else onErr.value
    ensures checkOrigin.None? <==> u.checkOrigin == DefaultCheckOrigin
    ensures checkOrigin.Some? ==> u.checkOrigin.accepts == checkOrigin.value
  {
    var handler := if onErr.None? then DefaultOnErr else onErr.value;
    var origin := if checkOrigin.None? then DefaultCheckOrigin else CallerCheck(checkOrigin.value);
    var timeout := if handshakeTimeout < MinHandshakeTimeout then MinHandshakeTimeout else handshakeTimeout;
    var level := if compressLevel < HuffmanOnly || compressLevel > BestCompression then NoCompression else compressLevel;
    UpGrader(timeout, ClampSize(rBufSize, MinReadBufferSize, MaxReadBufferSize),
             ClampSize(wBufSize, MinWriteBufferSize, MaxWriteBufferSize), handler, origin, level)
  }

  /** `Header.Get`: the first value under the canonical key, or "" when there is none. */
  function HeaderGet(header: HttpHeader, canon: string -> string, key: string): string {
    var k := canon(key);
    if k in header && |header[k]| > 0 then header[k][0] else ""
  }

  /**
    `defaultCheckOrigin`: a request without an Origin is accepted; one whose
    Origin cannot be parsed is refused; otherwise the Origin's scheme and
    host must be the request's own.
  */
  function DefaultOriginCheck(r: Request, parse: string -> Option<Url>, canon: string -> string): bool {
    var origin := HeaderGet(r.header, canon, "Origin");
    if |origin| == 0 then true
    else match parse(origin)
      case None => false
      case Some(u) => u.scheme == r.scheme && u.host == r.host
  }

  /**
    `defaultCheckOrigin` accepts exactly the requests that carry no Origin
    value and those whose Origin parses to their own scheme and host.
  */
  lemma DefaultOriginCheckMeans(r: Request, parse: string -> Option<Url>, canon: string -> string)
    ensures DefaultOriginCheck(r, parse, canon) <==>
      var k := canon("Origin");
      (k !in r.header || r.header[k] == [] || r.header[k][0] == "") ||
      parse(r.header[k][0]) == Some(Url(r.scheme, r.host))
  {
  }

  /** The origin decision `UpGrade` makes with the upgrader's handler. */
  function OriginAllowed(ug: UpGrader, r: Request, env: Env): bool {
    match ug.checkOrigin
    case DefaultCheckOrigin => DefaultOriginCheck(r, env.parse, env.canon)
    case CallerCheck(accepts) => accepts(r)
  }

  /** The key the client sent. */
  function ClientKey(r: Request, env: Env): string {
    HeaderGet(r.header, env.canon, "Sec-WebSocket-Key")
  }

  /** A refused handshake: the status and the reason handed to `Error`. */
  datatype Refusal = Refusal(status: int, reason: string)

  /** The guard chain of `UpGrade`: the first check that fails decides the refusal. */
  function Guard(ug: UpGrader, r: Request, env: Env): Option<Refusal> {
    if !IsWsHeader(r.header, env.canon, "Connection", "Upgrade") then Some(Refusal(StatusBadRequest, ReasonNoUpgrade))
    else if !IsWsHeader(r.header, env.canon, "Upgrade", "websocket") then Some(Refusal(StatusBadRequest, ReasonNoWebsocket))
    else if r.verb != MethodGet then Some(Refusal(StatusMethodNotAllowed, ReasonNotGet))
    else if !IsWsHeader(r.header, env.canon, "Sec-Websocket-Version", "13") then Some(Refusal(StatusUpgradeRequired, ReasonNoVersion))
    else if !OriginAllowed(ug, r, env) then Some(Refusal(StatusForbidden, ReasonCrossOrigin))
    else if !IsSWK(ClientKey(r, env)) then Some(Refusal(StatusBadRequest, ReasonBadKeyPrefix + ClientKey(r, env)))
    else None
  }

  /** The six checks of section 4.2.1 as `UpGrade` orders them. */
  function Checks(ug: UpGrader, r: Request, env: Env): (cs: seq<bool>)
    ensures |cs| == 6
  {
    [IsWsHeader(r.header, env.canon, "Connection", "Upgrade"),
     IsWsHeader(r.header, env.canon, "Upgrade", "websocket"),
     r.verb == MethodGet,
     IsWsHeader(r.header, env.canon, "Sec-Websocket-Version", "13"),
     OriginAllowed(ug, r, env),
     IsSWK(ClientKey(r, env))]
  }

  /** What each check's failure answers, in the same order. */
  function Refusals(key: string): (rs: seq<Refusal>)
    ensures |rs| == 6
  {
    [Refusal(StatusBadRequest, ReasonNoUpgrade),
     Refusal(StatusBadRequest, ReasonNoWebsocket),
     Refusal(StatusMethodNotAllowed, ReasonNotGet),
     Refusal(StatusUpgradeRequired, ReasonNoVersion),
     Refusal(StatusForbidden, ReasonCrossOrigin),
     Refusal(StatusBadRequest, ReasonBadKeyPrefix + key)]
  }

  /**
    The guard chain passes exactly when all six checks hold; otherwise it
    answers with the refusal of the first check that fails, so the
    statuses are 400, 400, 405, 426, 403 and 400 in that order.
  */
  lemma GuardIsFirstFailure(ug: UpGrader, r: Request, env: Env)
    ensures Guard(ug, r, env).None? <==> forall i :: 0 <= i < 6 ==> Checks(ug, r, env)[i]
    ensures forall i :: 0 <= i < 6 && !Checks(ug, r, env)[i] && (forall j :: 0 <= j < i ==> Checks(ug, r, env)[j]) ==>
      Guard(ug, r, env) == Some(Refusals(ClientKey(r, env))[i])
  {
    var cs := Checks(ug, r, env);
    var rs := Refusals(ClientKey(r, env));
    forall i | 0 <= i < 6 && !cs[i] && (forall j :: 0 <= j < i ==> cs[j])
      ensures Guard(ug, r, env) == Some(rs[i])
    {
      if i > 0 { assert cs[0]; }
      if i > 1 { assert cs[1]; }
      if i > 2 { assert cs[2]; }
      if i > 3 { assert cs[3]; }
      if i > 4 { assert cs[4]; }
    }
    if forall i :: 0 <= i < 6 ==> cs[i] {
      assert cs[0] && cs[1] && cs[2] && cs[3] && cs[4] && cs[5];
    }
  }

  /** The four lines `UpGrade` writes for a successful handshake. */
  function ResponseLines(accept: string): seq<string> {
    ["HTTP/1.1 101 Switching Protocols\r\n",
     "Connection:upgrade\r\n",
     "Upgrade:websocket\r\n",
     "Sec-WebSocket-Accept:" + accept + "\r\n\r\n"]
  }

  /** What `UpGrade` wrote back: nothing, an error answer through `OnError`, or the 101 response. */
  datatype Reply = ErrorReply(handler: ErrorHandler, status: int, reason: string) | Switching(lines: seq<string>)

  /** The errors `UpGrade` returns. */
  datatype UpgradeError =
    | Refused(reason: string)   // `errors.New(reason)` from `Error`
    | FlushFailed               // the 101 response could not be flushed
    | CloseError(e: ConnError)  // closing a handshake that took too long failed
    | TimedOut                  // the handshake took too long (the corrected outcome only)

  /** The result of `UpGrade`: its reply, the connection returned (`None` for nil) and the error. */
  datatype Handshaken = Handshaken(reply: Reply, conn: Option<Link>, err: Option<UpgradeError>)

  /** `upGrader.Error`: the handler answers with the status and reason; nil and an error carrying the reason are returned. */
  function Error(ug: UpGrader, status: int, reason: string): (h: Handshaken)
    ensures h.conn.None? && h.err == Some(Refused(reason))
    ensures h.reply == ErrorReply(ug.onError, status, reason)
  {
    Handshaken(ErrorReply(ug.onError, status, reason), None, Some(Refused(reason)))
  }

  /** The connection side of the handshake: the hijacked connection as a server. */
  function ServerPeer(net: Net): Peer {
    Peer(true, net.input, net.keys)
  }

  /** `NewWsConn` on the hijacked connection, then `State = Connected`. */
  function Established(net: Net): Link {
    Link(Connected, 0, [], net.writeQuota, true, 0)
  }

  /**
    Everything `UpGrade` does up to the timeout test: the guard chain, the
    hijack, the 101 response and its flush. `None` means the handshake
    got as far as the connection; the reply is then the 101 response.
  */
  function Prepare(ug: UpGrader, r: Request, env: Env, net: Net): Option<Handshaken> {
    match Guard(ug, r, env)
    case Some(f) => Some(Error(ug, f.status, f.reason))
    case None =>
      if !net.hijackOk then Some(Error(ug, StatusInternalServerError, ReasonNoHijack))
      else if !net.flushOk then Some(Handshaken(Switching(Accepted(r, env)), None, Some(FlushFailed)))
      else None
  }

  /** The 101 response to the request's key. */
  function Accepted(r: Request, env: Env): seq<string> {
    ResponseLines(EncodeSWK(ClientKey(r, env), env.sha1, env.base64))
  }

  /** Whether the handshake took longer than the upgrader allows: `start.Add(timeout).Before(now)`. */
  predicate TooSlow(ug: UpGrader, net: Net) {
    ug.handshakeTimeout < net.elapsed
  }

  /**
    `UpGrade` as written: a handshake that took too long closes the new
    connection with 1006 and returns nil together with the close's error,
    which is nil when the close frame was written.
  */
  function UpGrade(ug: UpGrader, r: Request, env: Env, net: Net): Handshaken {
    match Prepare(ug, r, env, net)
    case Some(h) => h
    case None =>
      if TooSlow(ug, net) then
        var o := Close(ServerPeer(net), Established(net), CloseAbnormal);
        Handshaken(Switching(Accepted(r, env)), None, if o.err.Some? then Some(CloseError(o.err.value)) else None)
      else Handshaken(Switching(Accepted(r, env)), Some(Established(net)), None)
  }

  /**
    `UpGrade` as evidently intended: a handshake that took too long is
    reported as an error even when its connection closes cleanly.
  */
  function UpGradeCorrected(ug: UpGrader, r: Request, env: Env, net: Net): Handshaken {
    match Prepare(ug, r, env, net)
    case Some(h) => h
    case None =>
      if TooSlow(ug, net) then
        var o := Close(ServerPeer(net), Established(net), CloseAbnormal);
        Handshaken(Switching(Accepted(r, env)), None, if o.err.Some? then Some(CloseError(o.err.value)) else Some(TimedOut))
      else Handshaken(Switching(Accepted(r, env)), Some(Established(net)), None)
  }

  /**
    A refused request gets the status and reason of the first failing check
    through the handler, no connection and an error carrying the reason;
    the hijack failing answers 500 the same way.
  */
  lemma RefusedHandshake(ug: UpGrader, r: Request, env: Env, net: Net)
    ensures Guard(ug, r, env).Some? ==>
      var f := Guard(ug, r, env).value;
      UpGrade(ug, r, env, net) == Handshaken(ErrorReply(ug.onError, f.status, f.reason), None, Some(Refused(f.reason)))
    ensures Guard(ug, r, env).None? && !net.hijackOk ==>
      UpGrade(ug, r, env, net) == Handshaken(ErrorReply(ug.onError, StatusInternalServerError, ReasonNoHijack), None, Some(Refused(ReasonNoHijack)))
    ensures Guard(ug, r, env).None? && net.hijackOk && !net.flushOk ==>
      UpGrade(ug, r, env, net) == Handshaken(Switching(Accepted(r, env)), None, Some(FlushFailed))
  {
  }

  /**
    A connection is returned exactly when every check passes, the hijack and
    the flush succeed and the handshake was quick enough; it is then new,
    Connected, and the 101 response carries `EncodeSWK` of the client's key.
  */
  lemma UpGradeSucceeds(ug: UpGrader, r: Request, env: Env, net: Net)
    ensures UpGrade(ug, r, env, net).conn.Some? <==>
      (forall i :: 0 <= i < 6 ==> Checks(ug, r, env)[i]) && net.hijackOk && net.flushOk && !TooSlow(ug, net)
    ensures UpGrade(ug, r, env, net).conn.Some? ==>
      var h := UpGrade(ug, r, env, net);
      h.err.None? && h.conn.value == Established(net) && h.conn.value.state == Connected &&
      h.reply == Switching(ResponseLines(EncodeSWK(ClientKey(r, env), env.sha1, env.base64)))
    ensures UpGrade(ug, r, env, net).conn.Some? ==>
      UpGrade(ug, r, env, net).reply.lines[3] == "Sec-WebSocket-Accept:" + EncodeSWK(ClientKey(r, env), env.sha1, env.base64) + "\r\n\r\n"
  {
    GuardIsFirstFailure(ug, r, env);
  }

  /**
    As written, a handshake that passes every check but took too long, whose
    close frame is written, returns no connection and no error either.
  */
  lemma SlowHandshakeReportsNothing(ug: UpGrader, r: Request, env: Env, net: Net)
    requires Guard(ug, r, env).None? && net.hijackOk && net.flushOk
    requires TooSlow(ug, net) && net.writeQuota > 0
    ensures UpGrade(ug, r, env, net).conn.None? && UpGrade(ug, r, env, net).err.None?
  {
    CloseEffect(ServerPeer(net), Established(net), CloseAbnormal);
  }

  /** Corrected, `UpGrade` returns no connection exactly when it returns an error. */
  lemma CorrectedReportsFailure(ug: UpGrader, r: Request, env: Env, net: Net)
    ensures UpGradeCorrected(ug, r, env, net).conn.None? <==> UpGradeCorrected(ug, r, env, net).err.Some?
    ensures TooSlow(ug, net) && Prepare(ug, r, env, net).None? ==> UpGradeCorrected(ug, r, env, net).err.Some?
  {
  }

  /** The correction changes only the error of a handshake that took too long and closed cleanly. */
  lemma CorrectedAgrees(ug: UpGrader, r: Request, env: Env, net: Net)
    ensures UpGradeCorrected(ug, r, env, net).reply == UpGrade(ug, r, env, net).reply
    ensures UpGradeCorrected(ug, r, env, net).conn == UpGrade(ug, r, env, net).conn
    ensures UpGrade(ug, r, env, net).err.Some? ==> UpGradeCorrected(ug, r, env, net).err == UpGrade(ug, r, env, net).err
  {
    if Prepare(ug, r, env, net).None? && TooSlow(ug, net) {
      var o := Close(ServerPeer(net), Established(net), CloseAbnormal);
      var e := if o.err.Some? then Some(CloseError(o.err.value)) else None;
      assert UpGrade(ug, r, env, net) == Handshaken(Switching(Accepted(r, env)), None, e);
    }
  }

  /**
    `UpGrade` as a method, with the timeout corrected: the 101 response is
    written, the hijacked connection becomes a server-side `WsConn` in state
    Connected, and one that took too long is closed with 1006 and reported
    as an error instead of being returned.
  */
  method UpGradeConn(ug: UpGrader, r: Request, env: Env, net: Net) returns (conn: Conn.WsConn?, reply: Reply, err: Option<UpgradeError>)
    requires |net.input| <= MaxInt
    ensures var h := UpGradeCorrected(ug, r, env, net);
      reply == h.reply && err == h.err && (conn != null <==> h.conn.Some?)
    ensures conn != null ==>
      fresh(conn) && conn.Valid() && conn.Endpoint() == ServerPeer(net) && conn.View() == UpGradeCorrected(ug, r, env, net).conn.value &&
      conn.readBufferSize == ClampSize(ug.readBufferSize, MinReadBufferSize, MaxReadBufferSize) &&
      conn.writeBufferSize == ClampSize(ug.writeBufferSize, MinWriteBufferSize, MaxWriteBufferSize) &&
      conn.compressLevel == ug.compressLevel
  {
    var refusal := Guard(ug, r, env);
    if refusal.Some? {
      var h := Error(ug, refusal.value.status, refusal.value.reason);
      return null, h.reply, h.err;
    }
    if !net.hijackOk {
      var h := Error(ug, StatusInternalServerError, ReasonNoHijack);
      return null, h.reply, h.err;
    }
    reply := Switching(ResponseLines(EncodeSWK(ClientKey(r, env), env.sha1, env.base64)));
    if !net.flushOk {
      return null, reply, Some(FlushFailed);
    }
    conn := new Conn.WsConn(true, net.input, net.keys, ug.readBufferSize, ug.writeBufferSize, ug.compressLevel, net.writeQuota);
    conn.state := Connected;
    if TooSlow(ug, net) {
      var e := conn.Close(CloseAbnormal);
      conn := null;
      err := if e.Some? then Some(CloseError(e.value)) else Some(TimedOut);
      return;
    }
    err := None;
  }
}
