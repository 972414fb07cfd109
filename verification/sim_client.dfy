/**
 * `smtp_client.py`: the same address check guarded by `isinstance`, a
 * `send_email` that only validates and never connects, and its `main`.
 */
module SimClient {
  import opened Wrappers
  import opened Cli
  import Address
  import Lists
  import Session
  import Message

  /** Python truthiness of a decoded value: a string is true when non-empty. */
  predicate Truthy(v: PyValue) {
    if v.Str? then |v.s| > 0 else v.truthy
  }

  /** `validate_email_address`: false for anything that is not a string. */
  function Validate(v: PyValue): (ok: bool)
    ensures ok <==> v.Str? && Address.PatternMatches(v.s)
  {
    v.Str? && Address.IsValid(v.s)
  }

  /** A recipient passes `not recipient or not validate_email_address(recipient)`. */
  predicate Passes(v: PyValue) {
    Truthy(v) && Validate(v)
  }

  /**
   * The simulated `send_email`, which writes nothing anywhere.  It is the
   * address check alone: the sender first, then the recipients in order, and
   * success exactly when all pass.
   */
  function SimulateSend(sender: string, vs: seq<PyValue>): (r: (bool, int))
    ensures !Address.IsValid(sender) ==> r == (false, 1)
    ensures Address.IsValid(sender) ==> (r == (true, 0) <==> forall i :: 0 <= i < |vs| ==> ValidValue(vs[i]))
    ensures Address.IsValid(sender) && (exists i :: 0 <= i < |vs| && !ValidValue(vs[i])) ==> r == (false, 2)
  {
    ValidIsTruthy(Str(sender));
    PassesAreValid(vs);
    if |sender| == 0 || !Validate(Str(sender)) then (false, 1)
    else if Lists.FirstFailing(vs, Passes).Some? then (false, 2)
    else (true, 0)
  }

  /** What the command line gave, with the JSON words already decoded. */
  datatype Invocation = Invocation(
    sender: string,
    password: string,
    recipients: RecipientArg,
    subject: seq<string>,
    body: seq<string>,
    headers: HeaderArg)

  /** Header words that let the run go on: none at all, or parsed headers whose every line is ASCII. */
  predicate HeadersUsable(arg: HeaderArg) {
    arg.NoWords? || (arg.Parsed? && forall i :: 0 <= i < |arg.headers| ==> IsAscii(Message.HeaderLine(arg.headers[i])))
  }

  /** The header step of `main`: an empty `-h` means no headers, parsed headers must be ASCII. */
  function HeaderStep(arg: HeaderArg): (r: Result<seq<Message.Header>, Output>)
    ensures r.Ok? <==> HeadersUsable(arg)
    ensures r.Ok? ==> r.value == if arg.Parsed? then arg.headers else []
    ensures arg.Unparsable? ==> r == Err(HeaderError(arg.reason))
    ensures arg.Parsed? && r.Err? ==> r.error == HeaderError(NonAsciiReason)
  {
    match arg
    case NoWords => Ok([])
    case Unparsable(reason) => Err(HeaderError(reason))
    case Parsed(hs) => CheckAsciiIff(hs); CheckAscii(hs)
  }

  /**
   * The printed outcome of one run: the header error, then the recipient
   * error, and otherwise the report of the simulated send, which depends on
   * the addresses alone.
   */
  function Run(inv: Invocation): (o: Output)
    ensures inv.headers.Unparsable? ==> o == HeaderError(inv.headers.reason)
    ensures inv.headers.Parsed? && !HeadersUsable(inv.headers) ==> o == HeaderError(NonAsciiReason)
    ensures HeadersUsable(inv.headers) && inv.recipients.BadList? ==>
              o == Output(400, "Error en destinatarios: " + inv.recipients.reason)
    ensures HeadersUsable(inv.headers) && inv.recipients.List? && !Address.IsValid(inv.sender) ==>
              o == Output(501, "Invalid sender address")
    ensures HeadersUsable(inv.headers) && inv.recipients.List? && Address.IsValid(inv.sender) ==>
              var vs := inv.recipients.values;
              && (o == Accepted <==> forall i :: 0 <= i < |vs| ==> ValidValue(vs[i]))
              && ((exists i :: 0 <= i < |vs| && !ValidValue(vs[i])) ==> o == Output(550, "Invalid recipient address"))
  {
    match HeaderStep(inv.headers)
    case Err(out) => out
    case Ok(_) =>
      if inv.recipients.BadList? then Output(400, "Error en destinatarios: " + inv.recipients.reason)
      else
        var (sent, errorType) := SimulateSend(inv.sender, inv.recipients.values);
        Report(Client, sent, errorType)
  }

  // ----- properties -----

  /** A valid address is never empty, so the truthiness tests add nothing to the address check. */
  lemma ValidIsTruthy(v: PyValue)
    ensures Validate(v) ==> Truthy(v)
    ensures Passes(v) <==> ValidValue(v)
  {
    if Validate(v) {
      Address.ValidShape(v.s);
    }
  }

  /** Over a whole list, passing the client's test is passing the address check. */
  lemma PassesAreValid(vs: seq<PyValue>)
    ensures forall i :: 0 <= i < |vs| ==> (Passes(vs[i]) <==> ValidValue(vs[i]))
  {
    forall i | 0 <= i < |vs|
      ensures Passes(vs[i]) <==> ValidValue(vs[i])
    {
      ValidIsTruthy(vs[i]);
    }
  }

  /** Recipients that are plain strings. */
  function Strs(rs: seq<string>): (vs: seq<PyValue>)
    ensures |vs| == |rs| && forall i :: 0 <= i < |rs| ==> vs[i] == Str(rs[i])
    decreases |rs|
  {
    if |rs| == 0 then [] else [Str(rs[0])] + Strs(rs[1..])
  }

  /**
   * On string recipients the simulated send agrees with the real engine's
   * pre-validation: the same result whenever an address is invalid, and
   * success exactly where the engine goes on to connect.
   */
  lemma AgreesWithEngine(e: Message.Envelope, t: Session.Transport)
    ensures var (sent, errorType) := SimulateSend(e.sender, Strs(e.recipients));
            && (sent <==> Session.Prevalid(e))
            && (!sent ==> Session.Deliver(e, t) == Session.Delivery([], false, errorType))
  {
    if Address.IsValid(e.sender) && !Session.AllValid(e.recipients) {
      var i :| 0 <= i < |e.recipients| && !Address.IsValid(e.recipients[i]);
      assert !ValidValue(Strs(e.recipients)[i]);
    }
  }

  /** Unlike the library program, a recipient that is not a string is simply refused with error type 2. */
  lemma NonStringRefused(inv: Invocation, i: nat)
    requires HeadersUsable(inv.headers) && inv.recipients.List?
    requires Address.IsValid(inv.sender)
    requires i < |inv.recipients.values| && inv.recipients.values[i].NonStr?
    ensures Run(inv) == Output(550, "Invalid recipient address")
  {
    assert !ValidValue(inv.recipients.values[i]);
  }

  /** An empty `-h` means no custom headers, and the run goes on. */
  lemma EmptyHeaderWords(inv: Invocation)
    requires inv.headers.NoWords?
    ensures HeaderStep(inv.headers) == Ok([])
    ensures inv.recipients.List? ==>
              Run(inv) == var r := SimulateSend(inv.sender, inv.recipients.values); Report(Client, r.0, r.1)
  {
  }
}
