/**
 * The envelope a delivery starts from and the message text written after
 * `DATA`: the header lines `From`, `To`, `Subject`, `Date` and the custom
 * headers in insertion order, joined by CRLF, an empty line, the body as
 * given, and the end-of-data marker `CRLF . CRLF`.
 */
module Message {
  import opened Text

  /** One custom header, as `dict.items()` yields it. */
  datatype Header = Header(name: string, value: string)

  /**
   * What `send_email` is called with.  `headers` keeps the dictionary's
   * insertion order.
   */
  datatype Envelope = Envelope(
    sender: string,
    password: string,
    recipients: seq<string>,
    subject: string,
    body: string,
    headers: seq<Header>)

  const CRLF := "\r\n"

  /** The end-of-data marker that closes the payload (section 4.1.1.4 of RFC 5321). */
  const EndOfData := "\r\n.\r\n"

  /** `f"{header}: {value}"`. */
  function HeaderLine(h: Header): string {
    h.name + ": " + h.value
  }

  /** One line per custom header, in order. */
  function CustomLines(hs: seq<Header>): (lines: seq<string>)
    ensures |lines| == |hs|
    ensures forall i :: 0 <= i < |hs| ==> lines[i] == HeaderLine(hs[i])
    decreases |hs|
  {
    if |hs| == 0 then [] else [HeaderLine(hs[0])] + CustomLines(hs[1..])
  }

  /** The header lines in the order the message carries them. */
  function HeaderLines(e: Envelope, date: string): (lines: seq<string>)
    ensures |lines| == 4 + |e.headers|
    ensures lines[0] == "From: " + e.sender
    ensures lines[1] == "To: " + Join(e.recipients, ", ")
    ensures lines[2] == "Subject: " + e.subject
    ensures lines[3] == "Date: " + date
    ensures forall i :: 0 <= i < |e.headers| ==> lines[4 + i] == HeaderLine(e.headers[i])
  {
    ["From: " + e.sender, "To: " + Join(e.recipients, ", "), "Subject: " + e.subject, "Date: " + date]
    + CustomLines(e.headers)
  }

  /** `email_content`: header lines joined by CRLF, an empty line, then the body. */
  function Content(e: Envelope, date: string): string {
    Join(HeaderLines(e, date), CRLF) + CRLF + CRLF + e.body
  }

  /** What is written after the `DATA` reply: the content and the end-of-data marker. */
  function Payload(e: Envelope, date: string): string {
    Content(e, date) + EndOfData
  }

  /**
   * The payload is every header line terminated by CRLF, an empty line, the
   * body, and a line holding a single dot.
   */
  lemma PayloadLayout(e: Envelope, date: string)
    ensures Payload(e, date)
            == Terminated(HeaderLines(e, date), CRLF) + CRLF + e.body + CRLF + "." + CRLF
  {
    JoinThenTerminate(HeaderLines(e, date), CRLF);
  }

  /**
   * The body is sent as given, without the dot-stuffing of section 4.5.2 of
   * RFC 5321: a body holding `CRLF . CRLF` puts the end-of-data marker into
   * the payload before its end.
   */
  lemma BodySentUnescaped(e: Envelope, date: string, p: nat)
    requires OccursAt(e.body, EndOfData, p)
    ensures var payload := Payload(e, date);
            exists i :: OccursAt(payload, EndOfData, i) && i + |EndOfData| < |payload|
  {
    var head := Join(HeaderLines(e, date), CRLF) + CRLF + CRLF;
    var payload := Payload(e, date);
    assert payload == head + e.body + EndOfData;
    var i := |head| + p;
    assert payload[i..i + |EndOfData|] == e.body[p..p + |EndOfData|];
    assert OccursAt(payload, EndOfData, i);
  }
}
