/** The HTTP exchange of src/surffs_socket.c: the request text, the split of the server's
    response into headers and payload, and how the outcome of `surffs_get_http` follows
    from what the network did.

    The socket calls themselves (creation, timeouts, connect, `sock_sendmsg`, the chunked
    `sock_recvmsg` loop) are not modelled: a `NetOutcome` value says what they produced.
    The page's log is a text value the exchange appends to. */
module Socket {
  import opened Base
  import opened CString
  import opened Helpers

  const HTTP_PORT: int := 80
  /** The end of the header section (section 3 of RFC 7230: CRLF CRLF). */
  const HEADERS_SEPARATOR: String := "\r\n\r\n"
  /** The status text the response must contain somewhere. */
  const STATUS_OK_MARK: String := "200 OK"
  /** The header lines after `Host`, with the empty line that ends the request. */
  const FIXED_HEADERS: String := "User-Agent: surffs_filesystem\nAccept: text/html\nConnection: close\n\n"
  const REQUEST_LINE_TAIL: String := " HTTP/1.1\nHost: "

  const MSG_EMPTY_RESPONSE: String := "error extract http payload: empty server response\n"
  const MSG_NO_BODY: String := "error extract http payload: no http body\n"
  const MSG_EXTRACTED: String := "http data extracted\n"

  // ---------------------------------------------------------------------------------
  // surffs_extract_http_payload

  /** `surffs_extract_http_payload`: the offset of the body in the response. There is none
      for an empty response, one without "200 OK" anywhere, one without a CRLF CRLF, or
      one whose first CRLF CRLF ends the text. */
  function PayloadStart(resp: String): (r: Option<nat>)
    ensures r.Some? ==> |HEADERS_SEPARATOR| <= r.value < |resp|
    ensures r.Some? ==> OccursAt(resp, HEADERS_SEPARATOR, r.value - |HEADERS_SEPARATOR|)
  {
    if resp == [] then None
    else
      match IndexOf(resp, STATUS_OK_MARK, 0)
      case None => None
      case Some(_) =>
        match IndexOf(resp, HEADERS_SEPARATOR, 0)
        case None => None
        case Some(f) => if f + |HEADERS_SEPARATOR| >= |resp| then None else Some(f + |HEADERS_SEPARATOR|)
  }

  /** The line `surffs_extract_http_payload` appends to the log, success or not. */
  function PayloadLog(resp: String): String
  {
    if resp == [] then MSG_EMPTY_RESPONSE
    else if IndexOf(resp, STATUS_OK_MARK, 0).None? then
      "error extract http payload: bad http status code (\"200 OK\" not found). Server response:\n"
      + resp + "\n---------\n"
    else if IndexOf(resp, HEADERS_SEPARATOR, 0).None? then
      "error extract http payload: http headers separator not found ('" + HEADERS_SEPARATOR + "')\n"
    else if PayloadStart(resp).None? then MSG_NO_BODY
    else MSG_EXTRACTED
  }

  /** A payload is found only in a response that holds "200 OK" somewhere, and it starts
      right after the first CRLF CRLF, with at least one byte of body. */
  lemma PayloadStartSound(resp: String) returns (status: nat)
    requires PayloadStart(resp).Some?
    ensures OccursAt(resp, STATUS_OK_MARK, status)
    ensures var p := PayloadStart(resp).value;
              forall j :: 0 <= j < p - |HEADERS_SEPARATOR| ==> !OccursAt(resp, HEADERS_SEPARATOR, j)
  {
    status := IndexOf(resp, STATUS_OK_MARK, 0).value;
    IndexOfFirst(resp, HEADERS_SEPARATOR, 0);
  }

  /** Conversely, a response with "200 OK" anywhere (even in the body) and a body after its
      first CRLF CRLF has its payload found there. */
  lemma PayloadStartComplete(resp: String, status: nat, sep: nat)
    requires OccursAt(resp, STATUS_OK_MARK, status)
    requires OccursAt(resp, HEADERS_SEPARATOR, sep)
    requires forall j :: 0 <= j < sep ==> !OccursAt(resp, HEADERS_SEPARATOR, j)
    requires sep + |HEADERS_SEPARATOR| < |resp|
    ensures PayloadStart(resp) == Some(sep + |HEADERS_SEPARATOR|)
    ensures PayloadLog(resp) == MSG_EXTRACTED
  {
    IndexOfFirst(resp, STATUS_OK_MARK, 0);
    IndexOfFinds(resp, HEADERS_SEPARATOR, 0, sep);
  }

  // ---------------------------------------------------------------------------------
  // surffs_make_request

  /** The request `surffs_make_request` builds: request line, `Host` line, the fixed lines,
      each ended by LF (not the CRLF of section 3 of RFC 7230). */
  function RequestText(path: String, host: String): String
  {
    "GET " + path + REQUEST_LINE_TAIL + host + "\n" + FIXED_HEADERS
  }

  /** Reading a request back: the target between "GET " and " HTTP/1.1", the host up to the
      end of the `Host` line. */
  function ParseRequest(req: String): Option<(String, String)>
  {
    if !OccursAt(req, "GET ", 0) then None
    else
      match IndexOf(req, REQUEST_LINE_TAIL, 4)
      case None => None
      case Some(k) =>
        match IndexOf(req, "\n", k + |REQUEST_LINE_TAIL|)
        case None => None
        case Some(e) => Some((req[4..k], req[k + |REQUEST_LINE_TAIL|..e]))
  }

  /** The request names exactly the path and host it was built from, as long as neither
      holds a line break. */
  lemma RequestRoundTrip(path: String, host: String)
    requires '\n' !in path && '\n' !in host
    ensures ParseRequest(RequestText(path, host)) == Some((path, host))
  {
    ParseRequestLines(path, host, FIXED_HEADERS);
    var line := "GET " + path + REQUEST_LINE_TAIL;
    ConcatAssoc(line + host, "\n", FIXED_HEADERS);
    ConcatAssoc(line, host, "\n" + FIXED_HEADERS);
    ConcatAssoc(host, "\n", FIXED_HEADERS);
  }

  /** Only the request line and the `Host` line matter to `ParseRequest`. */
  lemma ParseRequestLines(path: String, host: String, rest: String)
    requires '\n' !in path && '\n' !in host
    ensures ParseRequest(("GET " + path + REQUEST_LINE_TAIL) + (host + "\n" + rest)) == Some((path, host))
  {
    var req := ("GET " + path + REQUEST_LINE_TAIL) + (host + "\n" + rest);
    var k := 4 + |path|;
    var e := k + |REQUEST_LINE_TAIL| + |host|;
    RequestLinesAt(path, host, rest);
    NoTailBefore(req, k);
    ParseRequestAt(req, k, e);
  }

  /** Where the lines of a built request sit: "GET " first, the target up to `k` and
      without line breaks, the tail at `k`, the host after it, and a line break at `e`. */
  lemma RequestLinesAt(path: String, host: String, rest: String)
    requires '\n' !in path && '\n' !in host
    ensures var req := ("GET " + path + REQUEST_LINE_TAIL) + (host + "\n" + rest);
            var k := 4 + |path|;
            var e := k + |REQUEST_LINE_TAIL| + |host|;
            && e < |req| && req[..4] == "GET " && req[4..k] == path
            && req[k..k + |REQUEST_LINE_TAIL|] == REQUEST_LINE_TAIL
            && req[k + |REQUEST_LINE_TAIL|..e] == host && req[e] == '\n'
            && (forall i :: 4 <= i < k ==> req[i] != '\n')
            && (forall i :: k + |REQUEST_LINE_TAIL| <= i < e ==> req[i] != '\n')
  {
    var head := "GET " + path + REQUEST_LINE_TAIL;
    var tail := host + "\n" + rest;
    var req := head + tail;
    var k := 4 + |path|;
    var h := k + |REQUEST_LINE_TAIL|;
    assert req[..|head|] == head && req[|head|..] == tail;
    assert head[..4] == "GET " && head[4..k] == path && head[k..] == REQUEST_LINE_TAIL;
    assert tail[..|host|] == host && tail[|host|] == '\n';
    forall i | 4 <= i < k
      ensures req[i] != '\n'
    {
      assert req[i] == path[i - 4];
      assert path[i - 4] in path;
    }
    forall i | h <= i < h + |host|
      ensures req[i] != '\n'
    {
      assert req[i] == host[i - h];
      assert host[i - h] in host;
    }
  }

  /** With no line break in the target, the tail (whose line break is its tenth character)
      cannot start before `k`. */
  lemma NoTailBefore(req: String, k: nat)
    requires 4 <= k && k + |REQUEST_LINE_TAIL| <= |req|
    requires req[k..k + |REQUEST_LINE_TAIL|] == REQUEST_LINE_TAIL
    requires forall i :: 4 <= i < k ==> req[i] != '\n'
    ensures forall j :: 4 <= j < k ==> !OccursAt(req, REQUEST_LINE_TAIL, j)
  {
    forall j | 4 <= j < k
      ensures !OccursAt(req, REQUEST_LINE_TAIL, j)
    {
      if j + 9 >= k {
        assert req[j + 9] == req[k..k + |REQUEST_LINE_TAIL|][j + 9 - k];
      }
      Mismatch(req, REQUEST_LINE_TAIL, j, 9);
    }
  }

  /** `ParseRequest` on a request whose first tail is at `k` and whose `Host` line ends at
      `e`. */
  lemma ParseRequestAt(req: String, k: nat, e: nat)
    requires 4 <= k && k + |REQUEST_LINE_TAIL| <= e < |req|
    requires req[..4] == "GET " && req[k..k + |REQUEST_LINE_TAIL|] == REQUEST_LINE_TAIL
    requires forall j :: 4 <= j < k ==> !OccursAt(req, REQUEST_LINE_TAIL, j)
    requires req[e] == '\n' && forall j :: k + |REQUEST_LINE_TAIL| <= j < e ==> req[j] != '\n'
    ensures ParseRequest(req) == Some((req[4..k], req[k + |REQUEST_LINE_TAIL|..e]))
  {
    assert OccursAt(req, "GET ", 0);
    IndexOfFinds(req, REQUEST_LINE_TAIL, 4, k);
    FirstLineBreak(req, k + |REQUEST_LINE_TAIL|, e);
  }

  /** The first line break at or after `from` is the first '\n' character there. */
  lemma FirstLineBreak(s: String, from: nat, e: nat)
    requires from <= e < |s| && s[e] == '\n'
    requires forall j :: from <= j < e ==> s[j] != '\n'
    ensures IndexOf(s, "\n", from) == Some(e)
  {
    assert OccursAt(s, "\n", e) by { assert s[e..e + 1] == "\n"; }
    forall j | from <= j < e
      ensures !OccursAt(s, "\n", j)
    {
      Mismatch(s, "\n", j, 0);
    }
    IndexOfFinds(s, "\n", from, e);
  }

  /** What `surffs_make_request` appends to the log: the request between two marker lines. */
  function RequestLog(path: String, host: String): String
  {
    "request:\n" + RequestText(path, host) + "\n----------\n"
  }

  /** `surffs_make_request` into the caller's request string, logging the request. The
      string is cleared first (`-EINVAL` when it has no buffer). */
  method MakeRequest(path: String, host: String, request: SfsString, log: String)
    returns (ret: int, newLog: String)
    requires request.Valid()
    modifies request, request.data
    ensures request.Valid() && (request.data == old(request.data) || fresh(request.data))
    ensures old(request.memlen) == 0 ==> ret == EINVAL && newLog == log
    ensures old(request.memlen) > 0 ==>
              && ret == 0 && request.Text() == RequestText(path, host)
              && newLog == log + RequestLog(path, host)
  {
    newLog := log;
    ret := request.Clear();
    if ret != 0 {
      return;
    }
    BuildRequest(path, host, request);
    newLog := newLog + RequestLog(path, host);
  }

  /** The three appends of `surffs_make_request` to a cleared request string. */
  method BuildRequest(path: String, host: String, request: SfsString)
    requires request.Valid() && request.memlen > 0 && request.Text() == []
    modifies request, request.data
    ensures request.Valid() && (request.data == old(request.data) || fresh(request.data))
    ensures request.memlen > 0 && request.Text() == RequestText(path, host)
  {
    var _ := request.Cat("GET " + path + " HTTP/1.1\n");
    var _ := request.Cat("Host: " + host + "\n");
    var _ := request.Cat(FIXED_HEADERS);
    assert request.Text() == RequestText(path, host);
  }

  // ---------------------------------------------------------------------------------
  // surffs_get_http

  /** What the receive loop produced: an error part way (with the text received so far),
      or the whole response with the byte count the receive calls reported. The count
      exceeds the length of the text when the reply holds NUL bytes, since each chunk is
      appended as a C string. */
  datatype Reply =
    | RecvFailed(partial: String, err: Errno)
    | Received(response: String, size: nat)

  /** What the network did: socket setup failed, the connect was refused, or the request was
      sent (`sent` bytes of it, as `sock_sendmsg` reports) and a reply came back. */
  datatype NetOutcome =
    | SetupFailed(err: Errno)
    | ConnectFailed(errcode: int)
    | Connected(sent: int, reply: Reply)

  datatype HttpResult = HttpResult(ret: int, response: String, payload: Option<nat>)

  function ConnectedMsg(ip: String): String
  {
    "connected to " + ip + ":" + Decimal(HTTP_PORT) + "\n"
  }

  function ConnectErrorMsg(ip: String, errcode: int): String
  {
    "error connecting to " + ip + ":" + Decimal(HTTP_PORT) + ", errcode = " + Decimal(errcode) + "\n"
  }

  function SendErrorMsg(sent: int, len: nat): String
  {
    "error sending data to socket: sent only " + Decimal(sent) + " of " + Decimal(len) + " bytes\n"
  }

  function ReceivedMsg(size: nat): String
  {
    "received " + Decimal(size) + " bytes\n"
  }

  /** What `surffs_get_http` appends to the log: the connect outcome, then (through
      `ExchangeLog`) the request and what became of it. */
  function HttpLog(ip: String, host: String, path: String, net: NetOutcome): String
  {
    match net
    case SetupFailed(_) => []
    case ConnectFailed(errcode) => ConnectErrorMsg(ip, errcode)
    case Connected(sent, reply) => ConnectedMsg(ip) + ExchangeLog(host, path, sent, reply)
  }

  /** The log of a connected exchange: the request, then (through `TransferLog`) the send
      error or the reply's size and payload verdict. */
  function ExchangeLog(host: String, path: String, sent: int, reply: Reply): String
  {
    RequestLog(path, host) + TransferLog(|RequestText(path, host)|, sent, reply)
  }

  /** The log of sending `len` bytes and receiving the reply. A receive error adds
      nothing. */
  function TransferLog(len: nat, sent: int, reply: Reply): String
  {
    if sent != len then SendErrorMsg(sent, len)
    else
      match reply
      case RecvFailed(_, _) => []
      case Received(response, size) => ReceivedMsg(size) + PayloadLog(response)
  }

  /** The part of `surffs_get_http` once the socket is connected: the request is made and
      sent, and the response received. `log` already holds the connect message. */
  method Exchange(host: String, path: String, net: NetOutcome, log: String)
    returns (r: HttpResult, newLog: String)
    requires net.Connected?
    ensures |newLog| > |log| && newLog[..|log|] == log
    ensures newLog == log + ExchangeLog(host, path, net.sent, net.reply)
    ensures r.payload.Some? <==> net.sent == |RequestText(path, host)|
                                 && net.reply.Received? && PayloadStart(net.reply.response).Some?
    ensures net.sent != |RequestText(path, host)| ==> r == HttpResult(0, [], None)
    ensures net.sent == |RequestText(path, host)| && net.reply.RecvFailed? ==>
              r == HttpResult(net.reply.err, net.reply.partial, None)
    ensures net.sent == |RequestText(path, host)| && net.reply.Received? ==>
              r == HttpResult(0, net.reply.response, PayloadStart(net.reply.response))
  {
    var request := new SfsString.Createz(512);
    var ret: int;
    ret, newLog := MakeRequest(path, host, request, log);
    assert newLog[..|log|] == log;
    r, newLog := Transfer(request.textlen, net, newLog);
    ConcatAssoc(log, RequestLog(path, host), TransferLog(|RequestText(path, host)|, net.sent, net.reply));
  }

  /** Sending the `len` bytes of the request and receiving the response. */
  method Transfer(len: nat, net: NetOutcome, log: String) returns (r: HttpResult, newLog: String)
    requires net.Connected?
    ensures |newLog| >= |log| && newLog[..|log|] == log
    ensures newLog == log + TransferLog(len, net.sent, net.reply)
    ensures r.payload.Some? <==> net.sent == len && net.reply.Received? && PayloadStart(net.reply.response).Some?
    ensures net.sent != len ==> r == HttpResult(0, [], None)
    ensures net.sent == len && net.reply.RecvFailed? ==> r == HttpResult(net.reply.err, net.reply.partial, None)
    ensures net.sent == len && net.reply.Received? ==>
              r == HttpResult(0, net.reply.response, PayloadStart(net.reply.response))
  {
    if net.sent != len {
      newLog := log + SendErrorMsg(net.sent, len);
      assert newLog[..|log|] == log;
      return HttpResult(0, [], None), newLog;
    }
    if net.reply.RecvFailed? {
      return HttpResult(net.reply.err, net.reply.partial, None), log;
    }
    var response := net.reply.response;
    newLog := log + ReceivedMsg(net.reply.size);
    var payload := PayloadStart(response);
    newLog := newLog + PayloadLog(response);
    ConcatAssoc(log, ReceivedMsg(net.reply.size), PayloadLog(response));
    assert newLog[..|log|] == log;
    r := HttpResult(0, response, payload);
  }

  /** `surffs_get_http`. The return code is the setup or receive error, and 0 otherwise: a
      refused connect, a short send and a response without payload all return 0. */
  method GetHttp(ip: String, host: String, path: String, net: NetOutcome, log: String)
    returns (r: HttpResult, newLog: String)
    ensures r.payload.Some? <==> net.Connected? && net.sent == |RequestText(path, host)|
                                 && net.reply.Received? && PayloadStart(net.reply.response).Some?
    ensures r.payload.Some? ==> r.payload == PayloadStart(r.response) && r.response == net.reply.response
    ensures net.SetupFailed? ==> r == HttpResult(net.err, [], None) && newLog == log
    ensures net.ConnectFailed? ==> r == HttpResult(0, [], None) && newLog == log + ConnectErrorMsg(ip, net.errcode)
    ensures net.Connected? ==> |newLog| > |log + ConnectedMsg(ip)| && newLog[..|log + ConnectedMsg(ip)|] == log + ConnectedMsg(ip)
    ensures net.Connected? && net.sent != |RequestText(path, host)| ==>
              && r == HttpResult(0, [], None)
              && newLog == log + ConnectedMsg(ip) + RequestLog(path, host)
                           + SendErrorMsg(net.sent, |RequestText(path, host)|)
    ensures net.Connected? && net.sent == |RequestText(path, host)| && net.reply.RecvFailed? ==>
              && r == HttpResult(net.reply.err, net.reply.partial, None)
              && newLog == log + ConnectedMsg(ip) + RequestLog(path, host)
    ensures net.Connected? && net.sent == |RequestText(path, host)| && net.reply.Received? ==>
              && r == HttpResult(0, net.reply.response, PayloadStart(net.reply.response))
              && newLog == log + ConnectedMsg(ip) + RequestLog(path, host)
                           + ReceivedMsg(net.reply.size) + PayloadLog(net.reply.response)
    ensures newLog == log + HttpLog(ip, host, path, net)
  {
    if net.SetupFailed? {
      return HttpResult(net.err, [], None), log;
    }
    if net.ConnectFailed? {
      return HttpResult(0, [], None), log + ConnectErrorMsg(ip, net.errcode);
    }
    r, newLog := Exchange(host, path, net, log + ConnectedMsg(ip));
    HttpLogConnected(ip, host, path, net, log);
  }

  /** The log of a connected `surffs_get_http`, case by case. */
  lemma HttpLogConnected(ip: String, host: String, path: String, net: NetOutcome, log: String)
    requires net.Connected?
    ensures log + ConnectedMsg(ip) + ExchangeLog(host, path, net.sent, net.reply) == log + HttpLog(ip, host, path, net)
    ensures var head := log + ConnectedMsg(ip) + RequestLog(path, host);
            && (net.sent != |RequestText(path, host)| ==>
                  log + HttpLog(ip, host, path, net) == head + SendErrorMsg(net.sent, |RequestText(path, host)|))
            && (net.sent == |RequestText(path, host)| && net.reply.RecvFailed? ==>
                  log + HttpLog(ip, host, path, net) == head)
            && (net.sent == |RequestText(path, host)| && net.reply.Received? ==>
                  log + HttpLog(ip, host, path, net) == head + ReceivedMsg(net.reply.size) + PayloadLog(net.reply.response))
  {
    var c, q := ConnectedMsg(ip), RequestLog(path, host);
    var t := TransferLog(|RequestText(path, host)|, net.sent, net.reply);
    ConcatAssoc(log, c, q + t);
    ConcatAssoc(c, q, t);
    ConcatAssoc(log + c, q, t);
    if net.sent == |RequestText(path, host)| && net.reply.Received? {
      ConcatAssoc(log + c + q, ReceivedMsg(net.reply.size), PayloadLog(net.reply.response));
    }
  }

}
