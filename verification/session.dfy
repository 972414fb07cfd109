/**
 * `send_email` of `smtp_utils.py`: address pre-validation, then one SMTP
 * session over an abstract transport, then the classification of a failure
 * into the integer error type the caller sees.
 *
 * The transport is a flag saying whether the connection opens and the
 * sequence of results of the session's reads.  Every write is followed by
 * exactly one read, so the reply to the `k`-th write (counting from 1) is
 * read number `k`; read 0 is the greeting.
 *
 * `Converse` follows the code step by step.  `Reference` states the same
 * session independently: the fixed command script, cut just after the first
 * reply that does not let the session go on.  `ConverseIsReference` proves
 * them equal, and the lemmas after it read the properties of a delivery off
 * the reference.
 */
module Session {
  import opened Wrappers
  import opened Text
  import opened Response
  import Address
  import AuthPlain
  import Base64
  import Message

  /** Whether the connection opens, and what each read of the session returns. */
  datatype Transport = Transport(connects: bool, incoming: seq<ReadResult>)

  /** The commands the client writes, in the order it may write them. */
  datatype Command = Ehlo | Auth | Credential | MailFrom | RcptTo(address: string) | Data | Content | Quit

  /**
   * Why a session stopped: an `SMTPClientError` carrying its text and the
   * error type already set when it was raised, or any other exception.
   */
  datatype Failure = Refused(message: string, tag: int) | Lost

  /**
   * A session so far: still running with the commands written up to now, or
   * stopped with the commands written before and including the failing one.
   */
  datatype Phase = Resumed(log: seq<Command>) | Stopped(log: seq<Command>, failure: Failure) {
    predicate IsFailure() { Stopped? }

    function PropagateFailure(): Phase
      requires Stopped?
    {
      this
    }

    function Extract(): seq<Command>
      requires Resumed?
    {
      log
    }
  }

  /**
   * The `(email_sent, error_type)` pair and the commands written to the
   * transport, in order; `Wires` gives their text.
   */
  datatype Delivery = Delivery(written: seq<Command>, sent: bool, errorType: int)

  const EhloLine := "EHLO localhost"
  const AuthLine := "AUTH PLAIN"
  const MailVerb := "MAIL FROM:"
  const RcptVerb := "RCPT TO:"
  const DataLine := "DATA"
  const QuitLine := "QUIT"

  /**
   * The text written for a command; every text ends with CRLF.  Only the
   * content spans several lines on purpose, and an address that ends in a
   * line feed puts one inside its command (see `SenderNewlineInLine`).
   */
  function Wire(c: Command, e: Message.Envelope, date: string): (w: string)
    ensures |w| >= 2 && w[|w| - 2..] == "\r\n"
  {
    match c
    case Ehlo => EhloLine + "\r\n"
    case Auth => AuthLine + "\r\n"
    case Credential => AuthPlain.CredentialLine(e.sender, e.password)
    case MailFrom => MailVerb + e.sender + "\r\n"
    case RcptTo(a) => RcptVerb + a + "\r\n"
    case Data => DataLine + "\r\n"
    case Content => Message.Payload(e, date)
    case Quit => QuitLine + "\r\n"
  }

  /** The texts written for a sequence of commands. */
  function Wires(cs: seq<Command>, e: Message.Envelope, date: string): (ws: seq<string>)
    ensures |ws| == |cs|
    ensures forall i :: 0 <= i < |cs| ==> ws[i] == Wire(cs[i], e, date)
    decreases |cs|
  {
    if |cs| == 0 then [] else [Wire(cs[0], e, date)] + Wires(cs[1..], e, date)
  }

  /** One `RCPT TO` per recipient, in order. */
  function RcptCommands(rs: seq<string>): (cs: seq<Command>)
    ensures |cs| == |rs|
    ensures forall i :: 0 <= i < |rs| ==> cs[i] == RcptTo(rs[i])
    decreases |rs|
  {
    if |rs| == 0 then [] else [RcptTo(rs[0])] + RcptCommands(rs[1..])
  }

  /** Where `MAIL FROM` sits in the script: after EHLO, AUTH and, if sent, the credential. */
  function MailIndex(credential: bool): nat {
    if credential then 3 else 2
  }

  /**
   * Every command of a session that runs to the end, in order; the credential
   * line is there only when the server asked for it.
   */
  function Script(e: Message.Envelope, credential: bool): (cs: seq<Command>)
    ensures var m := MailIndex(credential); var n := |e.recipients|;
            && |cs| == m + n + 4
            && cs[0] == Ehlo && cs[1] == Auth && (credential ==> cs[2] == Credential)
            && cs[m] == MailFrom
            && (forall i :: 0 <= i < n ==> cs[m + 1 + i] == RcptTo(e.recipients[i]))
            && cs[m + n + 1] == Data && cs[m + n + 2] == Content && cs[m + n + 3] == Quit
  {
    [Ehlo, Auth] + (if credential then [Credential] else []) + [MailFrom]
    + RcptCommands(e.recipients) + [Data, Content, Quit]
  }

  // ----- the session as the code runs it -----

  /**
   * The classified replies of the scripted reads.  Classifying a read depends
   * on nothing but the read, so the session works on this sequence.
   */
  function Replies(incoming: seq<ReadResult>): (replies: seq<Reply>)
    ensures |replies| == |incoming|
    decreases |incoming|
  {
    if |incoming| == 0 then [] else [Classify(incoming[0])] + Replies(incoming[1..])
  }

  /** Reply `i` is the classification of read `i`. */
  lemma {:induction false} RepliesAt(incoming: seq<ReadResult>, i: nat)
    requires i < |incoming|
    ensures Replies(incoming)[i] == Classify(incoming[i])
    decreases i
  {
    if i > 0 {
      RepliesAt(incoming[1..], i - 1);
    }
  }

  /** Reply number `i`: past the scripted reads the stream is closed, and an empty read is refused. */
  function ReplyAt(replies: seq<Reply>, i: nat): Reply {
    if i < |replies| then replies[i] else Rejected(ErrorPrefix)
  }

  /** Reply `i` of the session is the classification of read `i`. */
  lemma ReplyAtRead(incoming: seq<ReadResult>, i: nat)
    ensures ReplyAt(Replies(incoming), i) == Classify(ReadAt(incoming, i))
  {
    if i < |incoming| {
      RepliesAt(incoming, i);
    } else {
      BlankReadRefused("");
    }
  }

  /** Write `c` after the commands in `log`, then read and classify its reply. */
  function Exchange(replies: seq<Reply>, log: seq<Command>, c: Command): (seq<Command>, Reply) {
    (log + [c], ReplyAt(replies, |log| + 1))
  }

  /** Stop on a reply that was not accepted; `tag` is the error type the step sets before re-raising. */
  function Abort(log: seq<Command>, reply: Reply, tag: int): Phase
    requires !reply.Accepted?
  {
    Stopped(log, if reply.Broken? then Lost else Refused(reply.message, tag))
  }

  /** Read the greeting. */
  function Greet(replies: seq<Reply>): Phase {
    var reply := ReplyAt(replies, 0);
    if reply.Accepted? then Resumed([]) else Abort([], reply, 0)
  }

  /** Write one command and require an accepted reply. */
  function Step(replies: seq<Reply>, log: seq<Command>, c: Command, tag: int): Phase {
    var (l, reply) := Exchange(replies, log, c);
    if reply.Accepted? then Resumed(l) else Abort(l, reply, tag)
  }

  /** The `except SMTPClientError` around authentication: a refusal whose text holds `502` is forgiven. */
  function Forgive(log: seq<Command>, reply: Reply): Phase {
    match reply
    case Accepted(_) => Resumed(log)
    case Rejected(m) => if Contains(m, "502") then Resumed(log) else Stopped(log, Refused(m, 0))
    case Broken => Stopped(log, Lost)
  }

  /** `AUTH PLAIN`, always written; the credential follows only a reply starting with `334`. */
  function Authenticate(replies: seq<Reply>, log: seq<Command>): Phase {
    var (l, auth) := Exchange(replies, log, Auth);
    if auth.Accepted? && StartsWith(auth.text, "334") then
      var (l', cred) := Exchange(replies, l, Credential);
      Forgive(l', cred)
    else Forgive(l, auth)
  }

  /** `RCPT TO` for each recipient in order; the first refusal sets error type 2 and stops. */
  function SendRecipients(replies: seq<Reply>, log: seq<Command>, rs: seq<string>): Phase
    decreases |rs|
  {
    if |rs| == 0 then Resumed(log)
    else
      var l :- Step(replies, log, RcptTo(rs[0]), 2);
      SendRecipients(replies, l, rs[1..])
  }

  /** The body of the `try` block once the connection is open. */
  function Converse(replies: seq<Reply>, e: Message.Envelope): Phase {
    var l0 :- Greet(replies);
    var l1 :- Step(replies, l0, Ehlo, 0);
    var l2 :- Authenticate(replies, l1);
    Transact(replies, e, l2)
  }

  /** The rest of the `try` block, from `MAIL FROM` to `QUIT`. */
  function Transact(replies: seq<Reply>, e: Message.Envelope, log: seq<Command>): Phase {
    var l3 :- Step(replies, log, MailFrom, 1);
    var l4 :- SendRecipients(replies, l3, e.recipients);
    Finish(replies, l4)
  }

  /** `DATA`, the message content and `QUIT`. */
  function Finish(replies: seq<Reply>, log: seq<Command>): Phase {
    var l5 :- Step(replies, log, Data, 0);
    var l6 :- Step(replies, l5, Content, 0);
    var l7 :- Step(replies, l6, Quit, 0);
    Resumed(l7)
  }

  /** The two `except` clauses: keep a set error type, else look for `501` then `550`; other exceptions give 3. */
  function ErrorType(f: Failure): (r: int)
    ensures f.Lost? ==> r == 3
    ensures f.Refused? && f.tag != 0 ==> r == f.tag
    ensures f.Refused? && f.tag == 0 ==> 0 <= r <= 2
  {
    match f
    case Lost => 3
    case Refused(m, tag) =>
      if tag != 0 then tag
      else if Contains(m, "501") then 1
      else if Contains(m, "550") then 2
      else 0
  }

  /**
   * A refusal raised with no error type set is sorted by the codes its text
   * holds anywhere: `501` first, then `550`.
   */
  lemma ErrorTypeByOccurrence(m: string)
    ensures var r := ErrorType(Refused(m, 0));
            && (r == 1 <==> exists i :: OccursAt(m, "501", i))
            && (r == 2 <==> (!exists i :: OccursAt(m, "501", i)) && exists i :: OccursAt(m, "550", i))
            && (r == 0 <==> (!exists i :: OccursAt(m, "501", i)) && !exists i :: OccursAt(m, "550", i))
  {
    ContainsAt(m, "501");
    ContainsAt(m, "550");
  }

  /** Every recipient passes the address check. */
  predicate AllValid(rs: seq<string>) {
    forall i :: 0 <= i < |rs| ==> Address.IsValid(rs[i])
  }

  /** The addresses pass the checks made before any connection. */
  predicate Prevalid(e: Message.Envelope) {
    Address.IsValid(e.sender) && AllValid(e.recipients)
  }

  /**
   * The address commands carry the bare address after the colon: a valid
   * address holds no angle bracket, and none is added, although section
   * 4.1.1.2 of RFC 5321 writes the path as `<address>`.
   */
  lemma AddressLinesBare(e: Message.Envelope, date: string)
    requires Prevalid(e)
    ensures '<' !in Wire(MailFrom, e, date) && '>' !in Wire(MailFrom, e, date)
    ensures forall i :: 0 <= i < |e.recipients| ==>
              '<' !in Wire(RcptTo(e.recipients[i]), e, date) && '>' !in Wire(RcptTo(e.recipients[i]), e, date)
  {
    BareLine(MailFrom, e, date, e.sender);
    forall i | 0 <= i < |e.recipients|
      ensures '<' !in Wire(RcptTo(e.recipients[i]), e, date) && '>' !in Wire(RcptTo(e.recipients[i]), e, date)
    {
      BareLine(RcptTo(e.recipients[i]), e, date, e.recipients[i]);
    }
  }

  /** The line of one address command holds no angle bracket when its address is valid. */
  lemma BareLine(c: Command, e: Message.Envelope, date: string, a: string)
    requires (c == MailFrom && a == e.sender) || c == RcptTo(a)
    requires Address.IsValid(a)
    ensures '<' !in Wire(c, e, date) && '>' !in Wire(c, e, date)
  {
    Address.ValidShape(a);
    var verb := if c == MailFrom then MailVerb else RcptVerb;
    assert Wire(c, e, date) == verb + a + "\r\n";
    VerbsBare();
    Absent(verb, a, '<');
    Absent(verb, a, '>');
  }

  /**
   * Every command but the content is a single line: no carriage return or
   * line feed comes before its final CRLF, provided the addresses match the
   * pattern without the trailing line feed that Python's `$` lets through.
   */
  lemma CommandLines(c: Command, e: Message.Envelope, date: string)
    requires c != Content
    requires c == MailFrom ==> Address.FullMatch(e.sender)
    requires c.RcptTo? ==> Address.FullMatch(c.address)
    ensures var w := Wire(c, e, date); NoBreak(w[..|w| - 2])
  {
    var w := Wire(c, e, date);
    FixedLinesUnbroken();
    if c == Credential {
      forall k | 0 <= k < |w| - 2
        ensures w[k] != '\r' && w[k] != '\n'
      {
        assert Base64.InAlphabet(w[k]);
      }
    } else if c == MailFrom {
      Address.MatchShape(e.sender);
      LineBody(MailVerb, e.sender);
    } else if c.RcptTo? {
      Address.MatchShape(c.address);
      LineBody(RcptVerb, c.address);
    } else {
      var fixed := if c == Ehlo then EhloLine else if c == Auth then AuthLine else if c == Data then DataLine else QuitLine;
      LineBody(fixed, "");
      assert w == fixed + "" + "\r\n";
    }
  }

  /** The fixed command texts hold no line break. */
  lemma FixedLinesUnbroken()
    ensures NoBreak(EhloLine) && NoBreak(AuthLine) && NoBreak(DataLine) && NoBreak(QuitLine)
    ensures NoBreak(MailVerb) && NoBreak(RcptVerb)
  {
  }

  /** What comes before the CRLF of `verb + a + CRLF` is `verb + a`, unbroken when both parts are. */
  lemma LineBody(verb: string, a: string)
    requires NoBreak(verb) && forall k :: 0 <= k < |a| ==> Address.Plain(a[k])
    ensures var w := verb + a + "\r\n"; w[..|w| - 2] == verb + a && NoBreak(verb + a)
  {
    var w := verb + a + "\r\n";
    assert w[..|w| - 2] == verb + a;
  }

  /**
   * A sender that matches the pattern and then ends in a line feed passes
   * the address check, and its `MAIL FROM` text carries that bare line feed
   * before the final CRLF, which section 2.3.8 of RFC 5321 does not allow.
   */
  lemma SenderNewlineInLine(e: Message.Envelope, date: string, s: string)
    requires Address.FullMatch(s) && e.sender == s + "\n"
    ensures Address.IsValid(e.sender)
    ensures var w := Wire(MailFrom, e, date); var k := |MailVerb| + |s|;
            k < |w| - 2 && w[k] == '\n'
  {
    Address.NewlineTolerance(s);
  }

  /** The verbs of the address commands hold no angle bracket. */
  lemma VerbsBare()
    ensures '<' !in MailVerb && '>' !in MailVerb && '<' !in RcptVerb && '>' !in RcptVerb
  {
  }

  /** A character found in neither the verb nor the address is not in the line. */
  lemma Absent(verb: string, a: string, x: char)
    requires x !in verb && x != '\r' && x != '\n'
    requires forall k :: 0 <= k < |a| ==> a[k] != x
    ensures x !in verb + a + "\r\n"
  {
    assert x !in a;
  }

  /**
   * `send_email`.  A bad sender gives `(false, 1)` and a bad recipient
   * `(false, 2)` before anything is written; a connection that does not open
   * gives `(false, 3)`.
   */
  function Deliver(e: Message.Envelope, t: Transport): (d: Delivery)
    ensures !Address.IsValid(e.sender) ==> d == Delivery([], false, 1)
    ensures Address.IsValid(e.sender) && !AllValid(e.recipients) ==> d == Delivery([], false, 2)
    ensures Prevalid(e) && !t.connects ==> d == Delivery([], false, 3)
    ensures d.sent ==> d.errorType == 0 && Prevalid(e) && t.connects
  {
    if !Address.IsValid(e.sender) then Delivery([], false, 1)
    else if !AllValid(e.recipients) then Delivery([], false, 2)
    else if !t.connects then Delivery([], false, 3)
    else Settle(Converse(Replies(t.incoming), e))
  }

  /** What a session that got past the connection returns, and what it wrote. */
  function Settle(p: Phase): (d: Delivery)
    ensures d.written == p.log
    ensures d.sent <==> p.Resumed?
    ensures p.Resumed? ==> d.errorType == 0
    ensures p.Stopped? ==> d.errorType == ErrorType(p.failure)
  {
    match p
    case Resumed(log) => Delivery(log, true, 0)
    case Stopped(log, f) => Delivery(log, false, ErrorType(f))
  }

  // ----- the same session, stated as a script cut at its first failing reply -----

  /** The reply to `AUTH PLAIN` (read 2) is accepted and starts with `334`. */
  predicate CredentialRequested(replies: seq<Reply>) {
    var r := ReplyAt(replies, 2);
    r.Accepted? && StartsWith(r.text, "334")
  }

  /** The commands of this session if every reply let it go on. */
  function Commands(e: Message.Envelope, replies: seq<Reply>): seq<Command> {
    Script(e, CredentialRequested(replies))
  }

  /**
   * Read `i` lets the session go on: it is accepted, or it answers `AUTH
   * PLAIN` or the credential with a refusal whose text holds `502`.
   */
  predicate Passes(replies: seq<Reply>, cmds: seq<Command>, i: nat)
    requires i <= |cmds|
  {
    var r := ReplyAt(replies, i);
    r.Accepted?
    || (i > 0 && (cmds[i - 1] == Auth || cmds[i - 1] == Credential)
        && r.Rejected? && Contains(r.message, "502"))
  }

  /** The error type set when the reply to command `i - 1` is refused: 1 for `MAIL FROM`, 2 for `RCPT TO`. */
  function Tag(cmds: seq<Command>, i: nat): int
    requires i <= |cmds|
  {
    if i > 0 && cmds[i - 1] == MailFrom then 1
    else if i > 0 && cmds[i - 1].RcptTo? then 2
    else 0
  }

  /** The failure a non-passing read `i` stands for. */
  function FailureAt(replies: seq<Reply>, cmds: seq<Command>, i: nat): Failure
    requires i <= |cmds|
  {
    var r := ReplyAt(replies, i);
    if r.Rejected? then Refused(r.message, Tag(cmds, i)) else Lost
  }

  /** The first read from `i` on that does not pass; `|cmds| + 1` if there is none. */
  function FirstStop(replies: seq<Reply>, cmds: seq<Command>, i: nat): (n: nat)
    requires i <= |cmds| + 1
    ensures i <= n <= |cmds| + 1
    decreases |cmds| + 1 - i
  {
    if i > |cmds| then i
    else if !Passes(replies, cmds, i) then i
    else FirstStop(replies, cmds, i + 1)
  }

  /** Every read before `FirstStop` passes, and the one it names does not. */
  lemma {:induction false} FirstStopIsFirst(replies: seq<Reply>, cmds: seq<Command>, i: nat)
    requires i <= |cmds| + 1
    ensures forall j :: i <= j < FirstStop(replies, cmds, i) ==> Passes(replies, cmds, j)
    ensures FirstStop(replies, cmds, i) <= |cmds| ==> !Passes(replies, cmds, FirstStop(replies, cmds, i))
    decreases |cmds| + 1 - i
  {
    if i <= |cmds| && Passes(replies, cmds, i) {
      FirstStopIsFirst(replies, cmds, i + 1);
    }
  }

  /** The script cut after its first non-passing read, or the whole script. */
  function Cut(replies: seq<Reply>, cmds: seq<Command>): Phase {
    var n := FirstStop(replies, cmds, 0);
    if n > |cmds| then Resumed(cmds) else Stopped(cmds[..n], FailureAt(replies, cmds, n))
  }

  /** The reference session. */
  function Reference(replies: seq<Reply>, e: Message.Envelope): Phase {
    Cut(replies, Commands(e, replies))
  }

  // ----- proof that the code's session is the reference session -----

  /** `log` is the start of `cmds` and every read so far passed. */
  ghost predicate Clean(replies: seq<Reply>, cmds: seq<Command>, log: seq<Command>) {
    && |log| <= |cmds| && log == cmds[..|log|]
    && forall j :: 0 <= j <= |log| ==> Passes(replies, cmds, j)
  }

  /** A phase agrees with the script: running means clean, stopping means at the first failing read. */
  ghost predicate Faithful(replies: seq<Reply>, cmds: seq<Command>, p: Phase) {
    match p
    case Resumed(log) => Clean(replies, cmds, log)
    case Stopped(log, f) =>
      && |log| <= |cmds| && log == cmds[..|log|]
      && (forall j :: 0 <= j < |log| ==> Passes(replies, cmds, j))
      && !Passes(replies, cmds, |log|)
      && f == FailureAt(replies, cmds, |log|)
  }

  lemma GreetFaithful(replies: seq<Reply>, cmds: seq<Command>)
    ensures Faithful(replies, cmds, Greet(replies))
    ensures Greet(replies).Resumed? ==> Greet(replies).log == []
  {
  }

  lemma StepFaithful(replies: seq<Reply>, cmds: seq<Command>, log: seq<Command>, c: Command, tag: int)
    requires Clean(replies, cmds, log) && |log| < |cmds| && cmds[|log|] == c
    requires c != Auth && c != Credential
    requires tag == Tag(cmds, |log| + 1)
    ensures Faithful(replies, cmds, Step(replies, log, c, tag))
    ensures Step(replies, log, c, tag).Resumed? ==> |Step(replies, log, c, tag).log| == |log| + 1
  {
    assert log + [c] == cmds[..|log| + 1];
  }

  lemma AuthFaithful(replies: seq<Reply>, e: Message.Envelope, log: seq<Command>)
    requires Clean(replies, Commands(e, replies), log) && log == [Ehlo]
    ensures Faithful(replies, Commands(e, replies), Authenticate(replies, log))
    ensures Authenticate(replies, log).Resumed? ==>
              |Authenticate(replies, log).log| == MailIndex(CredentialRequested(replies))
  {
    var cmds := Commands(e, replies);
    assert log + [Auth] == cmds[..2];
    if CredentialRequested(replies) {
      assert log + [Auth] + [Credential] == cmds[..3];
    }
  }

  lemma RecipientsFaithful(replies: seq<Reply>, cmds: seq<Command>, log: seq<Command>, rs: seq<string>)
    requires Clean(replies, cmds, log) && |log| + |rs| <= |cmds|
    requires forall i :: 0 <= i < |rs| ==> cmds[|log| + i] == RcptTo(rs[i])
    ensures Faithful(replies, cmds, SendRecipients(replies, log, rs))
    ensures SendRecipients(replies, log, rs).Resumed? ==>
              |SendRecipients(replies, log, rs).log| == |log| + |rs|
    decreases |rs|
  {
    if |rs| > 0 {
      StepFaithful(replies, cmds, log, RcptTo(rs[0]), 2);
      var p := Step(replies, log, RcptTo(rs[0]), 2);
      if p.Resumed? {
        RecipientsFaithful(replies, cmds, p.log, rs[1..]);
      }
    }
  }

  lemma ConverseFaithful(replies: seq<Reply>, e: Message.Envelope)
    ensures Faithful(replies, Commands(e, replies), Converse(replies, e))
    ensures Converse(replies, e).Resumed? ==> Converse(replies, e).log == Commands(e, replies)
  {
    var cmds := Commands(e, replies);
    GreetFaithful(replies, cmds);
    var p0 := Greet(replies);
    if p0.Stopped? { return; }
    StepFaithful(replies, cmds, [], Ehlo, 0);
    var p1 := Step(replies, [], Ehlo, 0);
    if p1.Stopped? { return; }
    AuthFaithful(replies, e, p1.log);
    var p2 := Authenticate(replies, p1.log);
    if p2.Stopped? { return; }
    TransactFaithful(replies, e, cmds, p2.log);
  }

  lemma TransactFaithful(replies: seq<Reply>, e: Message.Envelope, cmds: seq<Command>, log: seq<Command>)
    requires Clean(replies, cmds, log)
    requires var m := |log|; var n := |e.recipients|;
             && |cmds| == m + n + 4 && cmds[m] == MailFrom
             && (forall i :: 0 <= i < n ==> cmds[m + 1 + i] == RcptTo(e.recipients[i]))
             && cmds[m + n + 1] == Data && cmds[m + n + 2] == Content && cmds[m + n + 3] == Quit
    ensures Faithful(replies, cmds, Transact(replies, e, log))
    ensures Transact(replies, e, log).Resumed? ==> Transact(replies, e, log).log == cmds
  {
    StepFaithful(replies, cmds, log, MailFrom, 1);
    var p3 := Step(replies, log, MailFrom, 1);
    if p3.Stopped? { return; }
    RecipientsFaithful(replies, cmds, p3.log, e.recipients);
    var p4 := SendRecipients(replies, p3.log, e.recipients);
    if p4.Stopped? { return; }
    FinishFaithful(replies, cmds, p4.log);
  }

  lemma FinishFaithful(replies: seq<Reply>, cmds: seq<Command>, log: seq<Command>)
    requires Clean(replies, cmds, log) && |log| + 3 == |cmds|
    requires cmds[|log|] == Data && cmds[|log| + 1] == Content && cmds[|log| + 2] == Quit
    ensures Faithful(replies, cmds, Finish(replies, log))
    ensures Finish(replies, log).Resumed? ==> Finish(replies, log).log == cmds
  {
    StepFaithful(replies, cmds, log, Data, 0);
    var p5 := Step(replies, log, Data, 0);
    if p5.Stopped? { return; }
    StepFaithful(replies, cmds, p5.log, Content, 0);
    var p6 := Step(replies, p5.log, Content, 0);
    if p6.Stopped? { return; }
    StepFaithful(replies, cmds, p6.log, Quit, 0);
    assert cmds[..|cmds|] == cmds;
  }

  /** `FirstStop` finds the first non-passing read. */
  lemma {:induction false} FirstStopFinds(replies: seq<Reply>, cmds: seq<Command>, i: nat, n: nat)
    requires i <= n <= |cmds| + 1
    requires forall j :: i <= j < n ==> Passes(replies, cmds, j)
    requires n <= |cmds| ==> !Passes(replies, cmds, n)
    ensures FirstStop(replies, cmds, i) == n
    decreases n - i
  {
    if i < n {
      FirstStopFinds(replies, cmds, i + 1, n);
    }
  }

  /** A phase that agrees with the script, and runs the whole script if it does not stop, is the cut script. */
  lemma FaithfulIsCut(replies: seq<Reply>, cmds: seq<Command>, p: Phase)
    requires Faithful(replies, cmds, p)
    requires p.Resumed? ==> p.log == cmds
    ensures p == Cut(replies, cmds)
  {
    if p.Resumed? {
      FirstStopFinds(replies, cmds, 0, |cmds| + 1);
    } else {
      FirstStopFinds(replies, cmds, 0, |p.log|);
    }
  }

  /** The cut script agrees with the script, and runs all of it when it does not stop. */
  lemma CutFaithful(replies: seq<Reply>, cmds: seq<Command>)
    ensures Faithful(replies, cmds, Cut(replies, cmds))
    ensures Cut(replies, cmds).Resumed? ==> Cut(replies, cmds).log == cmds
  {
    FirstStopIsFirst(replies, cmds, 0);
    assert cmds[..|cmds|] == cmds;
  }

  /** The session the code runs is the reference session, for every sequence of reads. */
  lemma ConverseIsReference(replies: seq<Reply>, e: Message.Envelope)
    ensures Converse(replies, e) == Reference(replies, e)
  {
    ConverseFaithful(replies, e);
    FaithfulIsCut(replies, Commands(e, replies), Converse(replies, e));
  }
}
