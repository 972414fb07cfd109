/**
 * `main` of `smtp_utils.py` past argument parsing: the header step, the
 * recipient list, subject and body defaults, the call to `send_email`, and
 * the printed outcome.
 */
module UtilsMain {
  import opened Wrappers
  import opened Cli
  import Session
  import Message
  import Address
  import Lists

  /** What the command line gave, with the JSON words already decoded. */
  datatype Invocation = Invocation(
    sender: string,
    password: string,
    recipients: RecipientArg,
    subject: seq<string>,
    body: seq<string>,
    headers: HeaderArg)

  /** The text of the `TypeError` that `re.match` raises on a value that is not a string. */
  const MatchTypeError := "expected string or bytes-like object"

  /**
   * The text of the `UnboundLocalError` raised when `-h` was given with no
   * words: `custom_headers` is a local of `main` that was never assigned.
   * This is the wording of Python 3.11 and later.
   */
  const UnboundHeaders := "cannot access local variable 'custom_headers' where it is not associated with a value"

  /** The outer `except Exception` of `main`. */
  function Crash(text: string): Output {
    Output(500, "Excepción: " + text)
  }

  /** The position of the first recipient the loop in `send_email` rejects or cannot check, if any. */
  function FirstBad(vs: seq<PyValue>): (r: Option<nat>)
    ensures r.None? <==> forall i :: 0 <= i < |vs| ==> ValidValue(vs[i])
    ensures r.Some? ==> r.value < |vs| && !ValidValue(vs[r.value])
                        && forall i :: 0 <= i < r.value ==> ValidValue(vs[i])
  {
    Lists.FirstFailing(vs, ValidValue)
  }

  /** The strings of a list of valid recipients. */
  function Strings(vs: seq<PyValue>): (ss: seq<string>)
    requires forall i :: 0 <= i < |vs| ==> vs[i].Str?
    ensures |ss| == |vs| && forall i :: 0 <= i < |vs| ==> ss[i] == vs[i].s
    decreases |vs|
  {
    if |vs| == 0 then [] else [vs[0].s] + Strings(vs[1..])
  }

  /** The envelope `send_email` is called with once every address passed. */
  function EnvelopeOf(inv: Invocation, vs: seq<PyValue>, hs: seq<Message.Header>): Message.Envelope
    requires forall i :: 0 <= i < |vs| ==> vs[i].Str?
  {
    Message.Envelope(inv.sender, inv.password, Strings(vs), DefaultText(inv.subject), DefaultText(inv.body), hs)
  }

  /** The printed outcome of one run against the transport `t`. */
  function Run(inv: Invocation, t: Session.Transport): (o: Output)
    ensures o.statusCode in {250, 400, 500, 501, 503, 550}
    ensures inv.headers.Unparsable? ==> o == HeaderError(inv.headers.reason)
    ensures inv.headers.Parsed? && !(forall i :: 0 <= i < |inv.headers.headers| ==> IsAscii(Message.HeaderLine(inv.headers.headers[i])))
            ==> o == HeaderError(NonAsciiReason)
    ensures inv.recipients.BadList? && !inv.headers.Unparsable? && !(inv.headers.Parsed? && CheckAscii(inv.headers.headers).Err?)
            ==> o == Output(400, "Error en destinatarios: " + inv.recipients.reason)
  {
    CheckedArg(inv.headers);
    if inv.headers.Unparsable? then HeaderError(inv.headers.reason)
    else if inv.headers.Parsed? && CheckAscii(inv.headers.headers).Err? then
      CheckAscii(inv.headers.headers).error
    else if inv.recipients.BadList? then Output(400, "Error en destinatarios: " + inv.recipients.reason)
    else if inv.headers.NoWords? then Crash(UnboundHeaders)
    else
      var hs := inv.headers.headers;
      var vs := inv.recipients.values;
      if !Address.IsValid(inv.sender) then Report(Utils, false, 1)
      else match FirstBad(vs)
        case Some(i) => if vs[i].NonStr? then Crash(MatchTypeError) else Report(Utils, false, 2)
        case None =>
          var d := Session.Deliver(EnvelopeOf(inv, vs, hs), t);
          Report(Utils, d.sent, d.errorType)
  }

  // ----- properties -----

  /**
   * Once the arguments are usable, the printed outcome is the report of
   * `send_email` on the envelope: the checks done here before calling it are
   * the ones `send_email` does first.
   */
  lemma RunReportsDelivery(inv: Invocation, t: Session.Transport)
    requires inv.headers.Parsed? && CheckAscii(inv.headers.headers).Ok? && inv.recipients.List?
    requires forall i :: 0 <= i < |inv.recipients.values| ==> inv.recipients.values[i].Str?
    ensures var vs := inv.recipients.values; var hs := inv.headers.headers;
            var d := Session.Deliver(EnvelopeOf(inv, vs, hs), t);
            Run(inv, t) == Report(Utils, d.sent, d.errorType)
  {
    var vs := inv.recipients.values;
    var e := EnvelopeOf(inv, vs, inv.headers.headers);
    if !Address.IsValid(inv.sender) {
      assert Session.Deliver(e, t) == Session.Delivery([], false, 1);
    } else if FirstBad(vs).Some? {
      var i := FirstBad(vs).value;
      assert !Address.IsValid(e.recipients[i]);
      assert !Session.AllValid(e.recipients);
      assert Session.Deliver(e, t) == Session.Delivery([], false, 2);
    }
  }

  /**
   * A recipient that is not a string, reached before any invalid one, makes
   * the address check raise, and the run prints status 500.
   */
  lemma NonStringRecipientCrashes(inv: Invocation, t: Session.Transport, i: nat)
    requires inv.headers.Parsed? && CheckAscii(inv.headers.headers).Ok? && inv.recipients.List?
    requires Address.IsValid(inv.sender)
    requires i < |inv.recipients.values| && inv.recipients.values[i].NonStr?
    requires forall j :: 0 <= j < i ==> ValidValue(inv.recipients.values[j])
    ensures Run(inv, t) == Crash(MatchTypeError)
  {
    FirstBadAt(inv.recipients.values, i);
  }

  /** The first rejected position is the one every earlier value passes. */
  lemma FirstBadAt(vs: seq<PyValue>, i: nat)
    requires i < |vs| && !ValidValue(vs[i])
    requires forall j :: 0 <= j < i ==> ValidValue(vs[j])
    ensures FirstBad(vs) == Some(i)
  {
  }

  /**
   * `-h` given with no words skips the assignment of `custom_headers`; the
   * call to `send_email` then raises `UnboundLocalError`, and a run whose recipient
   * list parsed prints status 500 instead of falling back to no headers.
   */
  lemma EmptyHeaderWordsCrash(inv: Invocation, t: Session.Transport)
    requires inv.headers.NoWords? && inv.recipients.List?
    ensures Run(inv, t) == Output(500, "Excepción: " + UnboundHeaders)
  {
  }
}
