/** Delivery of one event to the SignifAi collector: the retry loop that
    opens the HTTPS connection (`HTTP_connect`) and the judgement of the
    collector's answer (`POST_data`). The network is a script: which way
    each pass of the connect loop goes, and how the one POST exchange
    ends. The payload is left abstract. */
module Delivery {
  import opened Wrappers

  /** The collector path events are posted to. */
  const DefaultUri := "/v1/incidents"

  /** How many times `HTTP_connect` tries when the caller does not say. */
  const DefaultAttempts: nat := 5

  /** How one pass of the connect loop goes. */
  datatype ConnectStep =
    | CreateFails    // building the connection object raises `HTTPException`
    | TimesOut       // `connect()` raises `socket.timeout`; the client is closed
    | ConnectErrors  // `connect()` raises another `HTTPException` or `socket.error`
    | Connects

  /** The passes that send the loop round again. */
  predicate Retries(s: ConnectStep) {
    s.TimesOut? || s.ConnectErrors?
  }

  datatype ClientState = Open | Closed | Unconnected

  /** The connection object built on pass `attempt` of the loop. */
  datatype Client = Client(attempt: nat, state: ClientState)

  /** The state a client is left in by a pass that sends the loop round. */
  function LeftBy(s: ConnectStep): ClientState
    requires Retries(s)
  {
    if s.TimesOut? then Closed else Unconnected
  }

  /** What `HTTP_connect` returns, with how many connection objects it
      built and how many times it called `connect()`. */
  datatype Connection = Connection(client: Option<Client>, creations: nat, connects: nat)

  /** The loop from pass `retry` on, `client` being what the variable of
      that name holds when the pass starts. */
  function ConnectFrom(steps: seq<ConnectStep>, attempts: nat, retry: nat, client: Option<Client>): (c: Connection)
    requires retry <= attempts <= |steps|
    requires client.None? || client.value.state != Open
    ensures c.connects <= c.creations <= attempts - retry
    ensures c.client.Some? && c.client.value.state == Open ==>
              retry <= c.client.value.attempt < attempts && steps[c.client.value.attempt].Connects?
    decreases attempts - retry
  {
    if retry == attempts then
      Connection(None, 0, 0)
    else
      match steps[retry]
      case CreateFails => Connection(client, 1, 0)
      case Connects => Connection(Some(Client(retry, Open)), 1, 1)
      case TimesOut =>
        var c := ConnectFrom(steps, attempts, retry + 1, Some(Client(retry, Closed)));
        c.(creations := c.creations + 1, connects := c.connects + 1)
      case ConnectErrors =>
        var c := ConnectFrom(steps, attempts, retry + 1, Some(Client(retry, Unconnected)));
        c.(creations := c.creations + 1, connects := c.connects + 1)
  }

  /** `HTTP_connect` with `attempts` passes: a client whose `connect()`
      succeeded, or what the loop was left holding. */
  function HttpConnect(steps: seq<ConnectStep>, attempts: nat): (c: Connection)
    requires attempts <= |steps|
    ensures c.connects <= c.creations <= attempts
    ensures c.client.Some? && c.client.value.state == Open ==>
              c.client.value.attempt < attempts && steps[c.client.value.attempt].Connects?
  {
    ConnectFrom(steps, attempts, 0, None)
  }

  /** The first pass at or after `k` that ends the loop early, or `n`
      when every pass up to `n` sends it round again. */
  function FirstStop(steps: seq<ConnectStep>, n: nat, k: nat): (i: nat)
    requires k <= n <= |steps|
    ensures k <= i <= n
    ensures forall j :: k <= j < i ==> Retries(steps[j])
    ensures i < n ==> !Retries(steps[i])
    decreases n - k
  {
    if k == n || !Retries(steps[k]) then k else FirstStop(steps, n, k + 1)
  }

  /** An independent account of the loop, read off the first pass that
      stops it: all passes retried and the loop falls into its `else`,
      which drops the client; or `connect()` succeeded; or building the
      object failed, which breaks out holding the previous pass's client,
      closed or never connected. */
  function Expected(steps: seq<ConnectStep>, attempts: nat): Connection
    requires attempts <= |steps|
  {
    var i := FirstStop(steps, attempts, 0);
    if i == attempts then Connection(None, attempts, attempts)
    else if steps[i].Connects? then Connection(Some(Client(i, Open)), i + 1, i + 1)
    else if i == 0 then Connection(None, 1, 0)
    else Connection(Some(Client(i - 1, LeftBy(steps[i - 1]))), i + 1, i)
  }

  lemma {:induction false} ConnectFromExpected(steps: seq<ConnectStep>, attempts: nat, retry: nat, client: Option<Client>)
    requires retry <= attempts <= |steps|
    requires forall j :: 0 <= j < retry ==> Retries(steps[j])
    requires client == if retry == 0 then None else Some(Client(retry - 1, LeftBy(steps[retry - 1])))
    ensures var c := ConnectFrom(steps, attempts, retry, client);
            var e := Expected(steps, attempts);
            c.client == e.client && c.creations == e.creations - retry && c.connects == e.connects - retry
    decreases attempts - retry
  {
    var i := FirstStop(steps, attempts, 0);
    assert i == FirstStop(steps, attempts, retry) by {
      FirstStopSkips(steps, attempts, 0, retry);
    }
    if retry < attempts && Retries(steps[retry]) {
      ConnectFromExpected(steps, attempts, retry + 1, Some(Client(retry, LeftBy(steps[retry]))));
    }
  }

  /** Passes already known to retry do not move the first stop. */
  lemma {:induction false} FirstStopSkips(steps: seq<ConnectStep>, n: nat, k: nat, m: nat)
    requires k <= m <= n <= |steps|
    requires forall j :: k <= j < m ==> Retries(steps[j])
    ensures FirstStop(steps, n, k) == FirstStop(steps, n, m)
    decreases m - k
  {
    if k < m {
      FirstStopSkips(steps, n, k + 1, m);
    }
  }

  /** `HTTP_connect` agrees with the first-stop account on every script. */
  lemma ConnectIsExpected(steps: seq<ConnectStep>, attempts: nat)
    requires attempts <= |steps|
    ensures HttpConnect(steps, attempts) == Expected(steps, attempts)
  {
    ConnectFromExpected(steps, attempts, 0, None);
  }

  /** When every pass retries, the loop makes all its attempts, calls
      `connect()` each time and gives up with no client. */
  lemma ConnectExhausted(steps: seq<ConnectStep>, attempts: nat)
    requires attempts <= |steps|
    requires forall j :: 0 <= j < attempts ==> Retries(steps[j])
    ensures HttpConnect(steps, attempts) == Connection(None, attempts, attempts)
  {
    ConnectIsExpected(steps, attempts);
    FirstStopSkips(steps, attempts, 0, attempts);
  }

  /** A constructor that raises on the first pass stops the loop at once,
      with no client and no retry. */
  lemma ConnectCreateFailsFirst(steps: seq<ConnectStep>, attempts: nat)
    requires 0 < attempts <= |steps| && steps[0].CreateFails?
    ensures HttpConnect(steps, attempts) == Connection(None, 1, 0)
  {
    ConnectIsExpected(steps, attempts);
  }

  /** A constructor that raises on a later pass also stops the loop, but
      `HTTP_connect` then returns the previous pass's client although its
      `connect()` never succeeded. */
  lemma ConnectCreateFailsLater(steps: seq<ConnectStep>, attempts: nat, k: nat)
    requires 0 < k < attempts <= |steps| && steps[k].CreateFails?
    requires forall j :: 0 <= j < k ==> Retries(steps[j])
    ensures var c := HttpConnect(steps, attempts);
            c.client == Some(Client(k - 1, LeftBy(steps[k - 1]))) && c.client.value.state != Open
  {
    ConnectIsExpected(steps, attempts);
    FirstStopSkips(steps, attempts, 0, k);
  }

  /** After `k` timed-out passes, a successful `connect()` gives an open
      client; `connect()` was called `k + 1` times. */
  lemma ConnectSucceedsAfter(steps: seq<ConnectStep>, attempts: nat, k: nat)
    requires k < attempts <= |steps| && steps[k].Connects?
    requires forall j :: 0 <= j < k ==> Retries(steps[j])
    ensures HttpConnect(steps, attempts) == Connection(Some(Client(k, Open)), k + 1, k + 1)
  {
    ConnectIsExpected(steps, attempts);
    FirstStopSkips(steps, attempts, 0, k);
  }

  /** An open client is only ever returned by a pass whose `connect()`
      succeeded, and only when every pass before it retried. */
  lemma OpenClientMeansConnected(steps: seq<ConnectStep>, attempts: nat)
    requires attempts <= |steps|
    requires HttpConnect(steps, attempts).client.Some?
    ensures var cl := HttpConnect(steps, attempts).client.value;
            cl.attempt < attempts
            && (forall j :: 0 <= j < cl.attempt ==> Retries(steps[j]))
            && (cl.state == Open <==> steps[cl.attempt].Connects?)
  {
    ConnectIsExpected(steps, attempts);
  }

  /** The collector's reply, as far as `POST_data` looks at it. */
  datatype Reply =
    | NotJson                                            // `json.loads` raises `ValueError`
    | NotObject                                          // valid JSON that cannot be indexed by key
    | Object(success: Option<bool>, failedEvents: Option<bool>)
      // `None` for a key that is absent; otherwise the value's truth
      // (for `failed_events`, whether the list is non-empty)

  /** Reading the response body. */
  datatype Body =
    | ReadIOError     // `res.read()` raises `IOError`
    | ReadHttpError   // `res.read()` raises an `HTTPException`
    | Read(reply: Reply)

  /** How the POST goes once a client exists. */
  datatype Exchange =
    | SendTimesOut    // `request` or `getresponse` raises `socket.timeout`
    | SendFails       // they raise another `HTTPException` or `socket.error`
    | Answered(status: int, body: Body)

  /** The script the network follows: the connect loop, then the POST. */
  datatype Network = Network(steps: seq<ConnectStep>, exchange: Exchange)

  /** `POST_data`'s return value: `True`, `False`, `None`, or an
      exception escaping to the caller. */
  datatype Verdict = Delivered | Failed | Undecided | Raised

  datatype Request<D> = Request(verb: string, uri: string, headers: seq<(string, string)>, body: D)

  /** What `POST_data` did: the connect loop, the request it sent if any,
      and what it returned. */
  datatype Post<D> = Post(connection: Connection, request: Option<Request<D>>, verdict: Verdict)

  predicate Success(status: int) {
    200 <= status < 300
  }

  /** The verdict on a parsed reply to a 2xx response: delivered only
      when the collector says it succeeded with no failed events; a reply
      that is not JSON is a failure; one that cannot be indexed, or lacks
      either key, makes the lookup raise; the rest are undecided. */
  function Judge(reply: Reply): (v: Verdict)
    ensures v == Delivered <==> reply == Object(Some(true), Some(false))
    ensures v == Failed <==> reply.NotJson?
    ensures v == Raised <==> reply.NotObject? || (reply.Object? && (reply.success.None? || reply.failedEvents.None?))
    ensures v == Undecided <==>
              reply.Object? && reply.success.Some? && reply.failedEvents.Some?
              && (!reply.success.value || reply.failedEvents.value)
  {
    match reply
    case NotJson => Failed
    case NotObject => Raised
    case Object(success, failed) =>
      if success.None? || failed.None? then Raised
      else if success.value && !failed.value then Delivered
      else Undecided
  }

  /** The verdict on the POST exchange: a timeout or transport error is
      a failure, and so is a non-2xx answer whose body was read; a body
      that fails to read is undecided after a 2xx on `IOError` and raises
      otherwise; a 2xx body that was read is judged. */
  function Answer(x: Exchange): (v: Verdict)
    ensures v == Delivered <==> x.Answered? && Success(x.status) && x.body == Read(Object(Some(true), Some(false)))
    ensures v == Failed <==>
              || x.SendTimesOut? || x.SendFails?
              || (x.Answered? && x.body.Read? && (!Success(x.status) || x.body.reply.NotJson?))
    ensures v == Undecided <==>
              x.Answered? && Success(x.status)
              && (x.body.ReadIOError? || (x.body.Read? && Judge(x.body.reply) == Undecided))
    ensures v == Raised <==>
              x.Answered?
              && (|| x.body.ReadHttpError?
                  || (!Success(x.status) && x.body.ReadIOError?)
                  || (Success(x.status) && x.body.Read? && Judge(x.body.reply) == Raised))
  {
    match x
    case SendTimesOut => Failed
    case SendFails => Failed
    case Answered(status, body) =>
      if Success(status) then
        match body
        case ReadIOError => Undecided
        case ReadHttpError => Raised
        case Read(reply) => Judge(reply)
      else if body.Read? then Failed
      else Raised
  }

  function Headers(authKey: string): seq<(string, string)> {
    [("Authorization", "Bearer " + authKey),
     ("Content-Type", "application/json"),
     ("Accept", "application/json")]
  }

  /** `POST_data(auth_key, data, signifai_uri=uri, attempts=attempts)`. */
  function PostData<D>(authKey: string, data: D, uri: string, attempts: nat, net: Network): (p: Post<D>)
    requires attempts <= |net.steps|
    ensures p.request.Some? <==> p.connection.client.Some?
    ensures p.request.None? ==> p.verdict == Failed
    ensures p.request.Some? ==>
              p.request.value.verb == "POST" && p.request.value.uri == uri && p.request.value.body == data
              && ("Authorization", "Bearer " + authKey) in p.request.value.headers
              && ("Content-Type", "application/json") in p.request.value.headers
              && ("Accept", "application/json") in p.request.value.headers
  {
    var c := HttpConnect(net.steps, attempts);
    if c.client.None? then
      Post(c, None, Failed)
    else
      var r := Request("POST", uri, Headers(authKey), data);
      assert r.headers[0] == ("Authorization", "Bearer " + authKey);
      assert r.headers[1] == ("Content-Type", "application/json");
      assert r.headers[2] == ("Accept", "application/json");
      Post(c, Some(r), Answer(net.exchange))
  }

  /** The verdict is `False` without a client and the verdict on the
      exchange with one. */
  lemma PostVerdict<D>(authKey: string, data: D, uri: string, attempts: nat, net: Network)
    requires attempts <= |net.steps|
    ensures PostData(authKey, data, uri, attempts, net).verdict ==
              if HttpConnect(net.steps, attempts).client.None? then Failed else Answer(net.exchange)
  {
  }

  /** `True` exactly when a client was obtained and the collector answered
      2xx with a JSON object reporting success and no failed events. */
  lemma DeliveredIff<D>(authKey: string, data: D, uri: string, attempts: nat, net: Network)
    requires attempts <= |net.steps|
    ensures PostData(authKey, data, uri, attempts, net).verdict == Delivered
            <==> HttpConnect(net.steps, attempts).client.Some?
                 && net.exchange.Answered? && Success(net.exchange.status)
                 && net.exchange.body == Read(Object(Some(true), Some(false)))
  {
    PostVerdict(authKey, data, uri, attempts, net);
  }

  /** An exception escapes `POST_data` only after the collector answered:
      a failed read of a non-2xx body, or a 2xx body that cannot be read
      over HTTP, is not a JSON object, or lacks `success` or
      `failed_events`. */
  lemma RaisedIff<D>(authKey: string, data: D, uri: string, attempts: nat, net: Network)
    requires attempts <= |net.steps|
    ensures PostData(authKey, data, uri, attempts, net).verdict == Raised
            <==> HttpConnect(net.steps, attempts).client.Some? && net.exchange.Answered?
                 && var b := net.exchange.body;
                    if Success(net.exchange.status) then
                      b.ReadHttpError?
                      || (b.Read? && (b.reply.NotObject? || (b.reply.Object? && (b.reply.success.None? || b.reply.failedEvents.None?))))
                    else !b.Read?
  {
    PostVerdict(authKey, data, uri, attempts, net);
  }

  /** `None`, neither `True` nor `False`, exactly when a 2xx
      body could not be read for an `IOError`, or parsed to an object
      whose `success` is false or whose `failed_events` is non-empty. */
  lemma UndecidedIff<D>(authKey: string, data: D, uri: string, attempts: nat, net: Network)
    requires attempts <= |net.steps|
    ensures PostData(authKey, data, uri, attempts, net).verdict == Undecided
            <==> HttpConnect(net.steps, attempts).client.Some? && net.exchange.Answered?
                 && Success(net.exchange.status)
                 && var b := net.exchange.body;
                    b.ReadIOError?
                    || (b.Read? && b.reply.Object? && b.reply.success.Some? && b.reply.failedEvents.Some?
                        && (!b.reply.success.value || b.reply.failedEvents.value))
  {
    PostVerdict(authKey, data, uri, attempts, net);
  }

  /** `False` exactly when no client was obtained, the POST itself failed,
      a non-2xx answer was read, or a 2xx answer was not JSON. */
  lemma FailedIff<D>(authKey: string, data: D, uri: string, attempts: nat, net: Network)
    requires attempts <= |net.steps|
    ensures PostData(authKey, data, uri, attempts, net).verdict == Failed
            <==> HttpConnect(net.steps, attempts).client.None?
                 || net.exchange.SendTimesOut? || net.exchange.SendFails?
                 || (net.exchange.Answered? && net.exchange.body.Read?
                     && (!Success(net.exchange.status) || net.exchange.body.reply.NotJson?))
  {
    PostVerdict(authKey, data, uri, attempts, net);
  }
}
