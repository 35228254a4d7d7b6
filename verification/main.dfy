/** The command-line entry point `main(argv)`: check the arguments, parse
    the alert text Zabbix passes as the message body, let a `_API_KEY`
    field override the key on the command line, normalise the fields
    into a SignifAi event and post it, then turn the outcome into an exit
    status. */
module Cli {
  import opened Wrappers
  import opened Fields
  import Template
  import Normalizer
  import Delivery

  /** How the process ends: `main` returns a status, or an exception it
      does not catch escapes it. */
  datatype Exit = Status(code: int) | Crash

  /** The request `main` sent, if it got that far, and how it ended. */
  datatype Session = Session(posted: Option<Delivery.Request<Normalizer.Event>>, exit: Exit)

  /** The API key the event is posted with: the message's own `_API_KEY`
      field when it has one, else the command-line key. */
  function ChosenKey(fields: Dict, commandLineKey: string): string {
    if Normalizer.ApiKeyKey in fields.values then fields.values[Normalizer.ApiKeyKey] else commandLineKey
  }

  /** The exit status for what `POST_data` returned. */
  function ExitFor(v: Delivery.Verdict): (x: Exit)
    ensures x == Status(0) <==> v.Delivered?
    ensures x == Crash <==> v.Raised?
  {
    match v
    case Delivered => Status(0)
    case Raised => Crash
    case _ => Status(1)
  }

  /** `main(argv)` with `argv[0]` the program name, `argv[1]` the API key,
      `argv[2]` the bugsnag key and `argv[3]` the alert text. */
  function Execute(argv: seq<string>, net: Delivery.Network): (s: Session)
    requires Delivery.DefaultAttempts <= |net.steps|
    ensures |argv| < 4 ==> s == Session(None, Status(1))
    ensures s.exit == Status(0) ==> s.posted.Some?
    ensures s.posted.Some? ==> s.posted.value.verb == "POST" && s.posted.value.uri == Delivery.DefaultUri
  {
    if |argv| < 4 then
      Session(None, Status(1))
    else
      match Template.ParseZabbixMsg(argv[3])
      case Err(_) => Session(None, Status(1))
      case Ok(d) =>
        var fields := Remove(d, Normalizer.ApiKeyKey);
        match Normalizer.PrepareRestEvent(fields)
        case Err(e) => Session(None, if e.IntOverflow? then Crash else Status(1))
        case Ok(event) =>
          var p := Delivery.PostData(ChosenKey(d, argv[1]), event, Delivery.DefaultUri, Delivery.DefaultAttempts, net);
          Session(p.request, ExitFor(p.verdict))
  }

  /** The fields `prepare_REST_event` sees: the parsed message less its
      `_API_KEY`. */
  function MessageFields(argv: seq<string>): (r: Option<Dict>)
    requires |argv| >= 4
    ensures r.Some? ==> Valid(r.value) && Normalizer.ApiKeyKey !in r.value.values
  {
    match Template.ParseZabbixMsg(argv[3])
    case Err(_) => None
    case Ok(d) => Some(Remove(d, Normalizer.ApiKeyKey))
  }

  /** `main` returns 0 exactly when the message parses, no field's value
      is rejected, every `ATTR_MAP` macro is present, a connection is
      made, and the collector answers 2xx with a JSON object reporting
      success and no failed events. */
  lemma ExitZeroIff(argv: seq<string>, net: Delivery.Network)
    requires Delivery.DefaultAttempts <= |net.steps|
    ensures Execute(argv, net).exit == Status(0)
            <==> |argv| >= 4 && MessageFields(argv).Some?
                 && !Normalizer.AnyError(MessageFields(argv).value)
                 && Normalizer.AttrMap.Keys <= MessageFields(argv).value.values.Keys
                 && Delivery.HttpConnect(net.steps, Delivery.DefaultAttempts).client.Some?
                 && net.exchange.Answered? && Delivery.Success(net.exchange.status)
                 && net.exchange.body == Delivery.Read(Delivery.Object(Some(true), Some(false)))
  {
    if |argv| >= 4 && MessageFields(argv).Some? {
      var f := MessageFields(argv).value;
      var r := Normalizer.PrepareRestEvent(f);
      if r.Ok? {
        var d := Template.ParseZabbixMsg(argv[3]).value;
        Delivery.DeliveredIff(ChosenKey(d, argv[1]), r.value, Delivery.DefaultUri, Delivery.DefaultAttempts, net);
      }
    }
  }

  /** A message that does not parse, or whose fields cannot be normalised,
      is never posted and never ends in status 0; only an out-of-range
      date or time part makes `main` crash instead of returning 1. */
  lemma RejectedNotPosted(argv: seq<string>, net: Delivery.Network)
    requires Delivery.DefaultAttempts <= |net.steps|
    requires |argv| >= 4
    requires MessageFields(argv).None? || Normalizer.PrepareRestEvent(MessageFields(argv).value).Err?
    ensures Execute(argv, net).posted.None?
    ensures Execute(argv, net).exit == Status(1)
            <==> MessageFields(argv).None? || !Normalizer.PrepareRestEvent(MessageFields(argv).value).error.IntOverflow?
  {
  }

  /** The posted request carries the event made from the message, and is
      authorised with the message's `_API_KEY` when it has one and with
      the command-line key otherwise. */
  lemma PostedWithChosenKey(argv: seq<string>, net: Delivery.Network)
    requires Delivery.DefaultAttempts <= |net.steps|
    requires Execute(argv, net).posted.Some?
    ensures |argv| >= 4 && Template.ParseZabbixMsg(argv[3]).Ok?
    ensures var d := Template.ParseZabbixMsg(argv[3]).value;
            var req := Execute(argv, net).posted.value;
            && ("Authorization", "Bearer " + ChosenKey(d, argv[1])) in req.headers
            && Normalizer.PrepareRestEvent(Remove(d, Normalizer.ApiKeyKey)) == Ok(req.body)
  {
  }

  /** A message without a `_API_KEY` field is posted with the key given on
      the command line. */
  lemma CommandLineKeyByDefault(argv: seq<string>, net: Delivery.Network)
    requires Delivery.DefaultAttempts <= |net.steps|
    requires Execute(argv, net).posted.Some?
    requires |argv| >= 4 && Template.ParseZabbixMsg(argv[3]).Ok?
    requires Normalizer.ApiKeyKey !in Template.ParseZabbixMsg(argv[3]).value.values
    ensures ("Authorization", "Bearer " + argv[1]) in Execute(argv, net).posted.value.headers
  {
    PostedWithChosenKey(argv, net);
  }
}
