/**
 * What `send_email` promises, read off the reference session: when it
 * reports success, what it has written when it stops, which error type it
 * reports, and the order of the authentication steps.
 */
module SessionFacts {
  import opened Text
  import opened Response
  import opened Session
  import Message

  /** Once the addresses pass and the connection opens, delivery is the reference session settled. */
  lemma DeliverIsReference(e: Message.Envelope, t: Transport)
    requires Prevalid(e) && t.connects
    ensures Deliver(e, t) == Settle(Reference(Replies(t.incoming), e))
  {
    ConverseIsReference(Replies(t.incoming), e);
  }

  /**
   * The message is reported sent exactly when the addresses pass, the
   * connection opens and every reply of the whole script lets the session go
   * on; then every command of the script was written, in order.
   */
  lemma SentExactly(e: Message.Envelope, t: Transport)
    ensures var replies := Replies(t.incoming); var cmds := Commands(e, replies);
            Deliver(e, t).sent <==>
              Prevalid(e) && t.connects && forall j :: 0 <= j <= |cmds| ==> Passes(replies, cmds, j)
    ensures Deliver(e, t).sent ==>
              Deliver(e, t).written == Commands(e, Replies(t.incoming))
  {
    if Prevalid(e) && t.connects {
      var replies := Replies(t.incoming);
      DeliverIsReference(e, t);
      CutFaithful(replies, Commands(e, replies));
    }
  }

  /**
   * A session that stops has written a prefix of the script and nothing
   * after the command whose reply stopped it: every earlier reply passed,
   * the reply to the last write did not, and the error type is the one that
   * reply stands for.
   */
  lemma StopsAtFirstFailure(e: Message.Envelope, t: Transport)
    requires Prevalid(e) && t.connects && !Deliver(e, t).sent
    ensures var replies := Replies(t.incoming); var cmds := Commands(e, replies);
            var d := Deliver(e, t); var k := |d.written|;
            && k <= |cmds| && d.written == cmds[..k]
            && (forall j :: 0 <= j < k ==> Passes(replies, cmds, j))
            && !Passes(replies, cmds, k)
            && d.errorType == ErrorType(FailureAt(replies, cmds, k))
  {
    var replies := Replies(t.incoming);
    DeliverIsReference(e, t);
    CutFaithful(replies, Commands(e, replies));
  }

  /** Whatever happens, what was written is the start of the script. */
  lemma WritesFollowScript(e: Message.Envelope, t: Transport)
    ensures var cmds := Commands(e, Replies(t.incoming)); var d := Deliver(e, t);
            |d.written| <= |cmds| && d.written == cmds[..|d.written|]
    ensures !(Prevalid(e) && t.connects) ==> Deliver(e, t).written == []
  {
    var cmds := Commands(e, Replies(t.incoming));
    SentExactly(e, t);
    if Deliver(e, t).sent {
      assert cmds[..|cmds|] == cmds;
    } else if Prevalid(e) && t.connects {
      StopsAtFirstFailure(e, t);
    }
  }

  /**
   * The error type of a stopped session, in terms of the read that stopped
   * it: 3 for a transport failure; for a refused reply 1 after `MAIL FROM`,
   * 2 after `RCPT TO`, and otherwise 1 or 2 when the stripped reply holds
   * `501` or `550`, checked in that order, else 0.
   */
  lemma ErrorTypeRules(e: Message.Envelope, t: Transport)
    requires Prevalid(e) && t.connects && !Deliver(e, t).sent
    ensures var cmds := Commands(e, Replies(t.incoming)); var d := Deliver(e, t);
            var k := |d.written|; var read := ReadAt(t.incoming, k);
            && k <= |cmds|
            && (read.TransportFail? ==> d.errorType == 3)
            && (read.Chunk? ==>
                  d.errorType ==
                    if k > 0 && cmds[k - 1] == MailFrom then 1
                    else if k > 0 && cmds[k - 1].RcptTo? then 2
                    else if Contains(Strip(read.text), "501") then 1
                    else if Contains(Strip(read.text), "550") then 2
                    else 0)
  {
    var k := |Deliver(e, t).written|;
    StopsAtFirstFailure(e, t);
    ReplyAtRead(t.incoming, k);
    var read := ReadAt(t.incoming, k);
    if read.Chunk? {
      CodeInErrorText(read.text, "501");
      CodeInErrorText(read.text, "550");
    }
  }

  /** The error type is always one of 0, 1, 2 and 3. */
  lemma ErrorTypeRange(e: Message.Envelope, t: Transport)
    ensures 0 <= Deliver(e, t).errorType <= 3
  {
    if Prevalid(e) && t.connects && !Deliver(e, t).sent {
      StopsAtFirstFailure(e, t);
    }
  }

  /** The credential is in the script exactly when it was asked for. */
  lemma CredentialInScript(e: Message.Envelope, credential: bool)
    ensures Credential in Script(e, credential) <==> credential
  {
    var cs := Script(e, credential);
    var m := MailIndex(credential);
    if !credential {
      forall i | 0 <= i < |cs|
        ensures cs[i] != Credential
      {
        if m < i < m + 1 + |e.recipients| {
          assert cs[i] == RcptTo(e.recipients[i - m - 1]);
        }
      }
    }
  }

  /** Commands whose replies all passed were all written. */
  lemma PassedWritten(e: Message.Envelope, t: Transport, k: nat)
    requires Prevalid(e) && t.connects
    requires var replies := Replies(t.incoming); var cmds := Commands(e, replies);
             k <= |cmds| && forall j :: 0 <= j < k ==> Passes(replies, cmds, j)
    ensures var d := Deliver(e, t);
            |d.written| >= k && d.written[..k] == Commands(e, Replies(t.incoming))[..k]
  {
    var replies := Replies(t.incoming);
    DeliverIsReference(e, t);
    PassedCut(replies, Commands(e, replies), k);
  }

  /** The cut script keeps every command whose reply passed. */
  lemma PassedCut(replies: seq<Reply>, cmds: seq<Command>, k: nat)
    requires k <= |cmds| && forall j :: 0 <= j < k ==> Passes(replies, cmds, j)
    ensures |Cut(replies, cmds).log| >= k && Cut(replies, cmds).log[..k] == cmds[..k]
  {
    CutFaithful(replies, cmds);
    var log := Cut(replies, cmds).log;
    assert log[..k] == cmds[..|log|][..k];
  }

  /**
   * Once the greeting and the EHLO reply are accepted, `AUTH PLAIN` is written
   * second, whatever the password, even an empty one.
   */
  lemma AuthAlwaysWritten(e: Message.Envelope, t: Transport)
    requires Prevalid(e) && t.connects
    requires Classify(ReadAt(t.incoming, 0)).Accepted? && Classify(ReadAt(t.incoming, 1)).Accepted?
    ensures var d := Deliver(e, t);
            |d.written| >= 2 && d.written[0] == Ehlo && d.written[1] == Auth
  {
    ReplyAtRead(t.incoming, 0);
    ReplyAtRead(t.incoming, 1);
    HelloAnswered(e, t);
  }

  lemma HelloAnswered(e: Message.Envelope, t: Transport)
    requires Prevalid(e) && t.connects
    requires ReplyAt(Replies(t.incoming), 0).Accepted? && ReplyAt(Replies(t.incoming), 1).Accepted?
    ensures var d := Deliver(e, t); |d.written| >= 2 && d.written[0] == Ehlo && d.written[1] == Auth
  {
    DeliverIsReference(e, t);
    HelloCut(Replies(t.incoming), e);
  }

  lemma HelloCut(replies: seq<Reply>, e: Message.Envelope)
    requires ReplyAt(replies, 0).Accepted? && ReplyAt(replies, 1).Accepted?
    ensures var log := Reference(replies, e).log; |log| >= 2 && log[0] == Ehlo && log[1] == Auth
  {
    var cmds := Commands(e, replies);
    assert forall j :: 0 <= j < 2 ==> Passes(replies, cmds, j);
    PassedCut(replies, cmds, 2);
    var log := Cut(replies, cmds).log;
    assert log[0] == log[..2][0] == cmds[0];
    assert log[1] == log[..2][1] == cmds[1];
  }

  /**
   * The credential line is written third exactly when the reply to `AUTH
   * PLAIN` was accepted and starts with `334`; otherwise it is never written.
   */
  lemma CredentialOnlyWhenAsked(e: Message.Envelope, t: Transport)
    requires Prevalid(e) && t.connects
    requires Classify(ReadAt(t.incoming, 0)).Accepted? && Classify(ReadAt(t.incoming, 1)).Accepted?
    ensures var r := Classify(ReadAt(t.incoming, 2)); var d := Deliver(e, t);
            r.Accepted? && StartsWith(r.text, "334") ==> |d.written| >= 3 && d.written[2] == Credential
    ensures var r := Classify(ReadAt(t.incoming, 2));
            !(r.Accepted? && StartsWith(r.text, "334")) ==>
              Credential !in Commands(e, Replies(t.incoming))
  {
    ReplyAtRead(t.incoming, 0);
    ReplyAtRead(t.incoming, 1);
    ReplyAtRead(t.incoming, 2);
    CredentialAnswered(e, t);
  }

  lemma CredentialAnswered(e: Message.Envelope, t: Transport)
    requires Prevalid(e) && t.connects
    requires ReplyAt(Replies(t.incoming), 0).Accepted? && ReplyAt(Replies(t.incoming), 1).Accepted?
    ensures var d := Deliver(e, t);
            CredentialRequested(Replies(t.incoming)) ==> |d.written| >= 3 && d.written[2] == Credential
    ensures !CredentialRequested(Replies(t.incoming)) ==> Credential !in Commands(e, Replies(t.incoming))
  {
    var replies := Replies(t.incoming);
    CredentialInScript(e, CredentialRequested(replies));
    if CredentialRequested(replies) {
      CredentialSent(e, t);
    }
  }

  lemma CredentialSent(e: Message.Envelope, t: Transport)
    requires Prevalid(e) && t.connects && CredentialRequested(Replies(t.incoming))
    requires ReplyAt(Replies(t.incoming), 0).Accepted? && ReplyAt(Replies(t.incoming), 1).Accepted?
    ensures var d := Deliver(e, t); |d.written| >= 3 && d.written[2] == Credential
  {
    DeliverIsReference(e, t);
    CredentialCut(Replies(t.incoming), e);
  }

  lemma CredentialCut(replies: seq<Reply>, e: Message.Envelope)
    requires CredentialRequested(replies)
    requires ReplyAt(replies, 0).Accepted? && ReplyAt(replies, 1).Accepted?
    ensures var log := Reference(replies, e).log; |log| >= 3 && log[2] == Credential
  {
    var cmds := Commands(e, replies);
    assert Passes(replies, cmds, 0) && Passes(replies, cmds, 1) && Passes(replies, cmds, 2);
    forall j | 0 <= j < 3
      ensures Passes(replies, cmds, j)
    {
      assert j == 0 || j == 1 || j == 2;
    }
    PassedCut(replies, cmds, 3);
    var log := Cut(replies, cmds).log;
    assert log[2] == log[..3][2] == cmds[2];
  }

  /**
   * A refusal of the `i`-th `RCPT TO` ends the session with error type 2:
   * the last write is that `RCPT TO`, and `DATA` is never written.
   */
  lemma RecipientRefusalStops(e: Message.Envelope, t: Transport, i: nat)
    requires Prevalid(e) && t.connects && i < |e.recipients|
    requires var replies := Replies(t.incoming); var cmds := Commands(e, replies);
             var k := MailIndex(CredentialRequested(replies)) + 2 + i;
             && (forall j :: 0 <= j < k ==> Passes(replies, cmds, j))
             && ReadAt(t.incoming, k).Chunk? && !Classify(ReadAt(t.incoming, k)).Accepted?
    ensures var cmds := Commands(e, Replies(t.incoming));
            var k := MailIndex(CredentialRequested(Replies(t.incoming))) + 2 + i;
            var d := Deliver(e, t);
            && d.sent == false && d.errorType == 2
            && d.written == cmds[..k]
            && d.written[k - 1] == RcptTo(e.recipients[i])
            && Data !in d.written
  {
    ReplyAtRead(t.incoming, MailIndex(CredentialRequested(Replies(t.incoming))) + 2 + i);
    RecipientRefused(e, t, i);
  }

  lemma RecipientRefused(e: Message.Envelope, t: Transport, i: nat)
    requires Prevalid(e) && t.connects && i < |e.recipients|
    requires var replies := Replies(t.incoming); var cmds := Commands(e, replies);
             var k := MailIndex(CredentialRequested(replies)) + 2 + i;
             && (forall j :: 0 <= j < k ==> Passes(replies, cmds, j))
             && ReplyAt(replies, k).Rejected?
    ensures var cmds := Commands(e, Replies(t.incoming));
            var k := MailIndex(CredentialRequested(Replies(t.incoming))) + 2 + i;
            var d := Deliver(e, t);
            && d.sent == false && d.errorType == 2
            && d.written == cmds[..k]
            && d.written[k - 1] == RcptTo(e.recipients[i])
            && Data !in d.written
  {
    var replies := Replies(t.incoming);
    var k := MailIndex(CredentialRequested(replies)) + 2 + i;
    RecipientCut(replies, e, i);
    DataAfterRecipients(e, CredentialRequested(replies), k);
    DeliverIsReference(e, t);
  }

  /** In the reference session, a refused `RCPT TO` is the last command and carries error type 2. */
  lemma RecipientCut(replies: seq<Reply>, e: Message.Envelope, i: nat)
    requires i < |e.recipients|
    requires var cmds := Commands(e, replies); var k := MailIndex(CredentialRequested(replies)) + 2 + i;
             && (forall j :: 0 <= j < k ==> Passes(replies, cmds, j))
             && ReplyAt(replies, k).Rejected?
    ensures var cmds := Commands(e, replies); var k := MailIndex(CredentialRequested(replies)) + 2 + i;
            && cmds[k - 1] == RcptTo(e.recipients[i])
            && Reference(replies, e) == Stopped(cmds[..k], Refused(ReplyAt(replies, k).message, 2))
  {
    var cmds := Commands(e, replies);
    var k := MailIndex(CredentialRequested(replies)) + 2 + i;
    assert cmds[k - 1] == RcptTo(e.recipients[i]);
    FirstStopFinds(replies, cmds, 0, k);
  }

  /** `DATA` comes after every `RCPT TO` of the script. */
  lemma DataAfterRecipients(e: Message.Envelope, credential: bool, k: nat)
    requires k <= MailIndex(credential) + 1 + |e.recipients|
    ensures Data !in Script(e, credential)[..k]
  {
    var cmds := Script(e, credential);
    var m := MailIndex(credential);
    forall j | 0 <= j < k
      ensures cmds[..k][j] != Data
    {
      if m < j {
        assert cmds[j] == RcptTo(e.recipients[j - m - 1]);
      }
    }
  }

  /** A refused reply to `EHLO` ends the session after that one command, with the reply's text. */
  lemma EhloRefused(e: Message.Envelope, t: Transport)
    requires Prevalid(e) && t.connects
    requires Classify(ReadAt(t.incoming, 0)).Accepted?
    requires ReadAt(t.incoming, 1).Chunk? && !Classify(ReadAt(t.incoming, 1)).Accepted?
    ensures Deliver(e, t)
            == Delivery([Ehlo], false, ErrorType(Refused(Classify(ReadAt(t.incoming, 1)).message, 0)))
  {
    ReplyAtRead(t.incoming, 0);
    ReplyAtRead(t.incoming, 1);
    EhloRefusedCut(Replies(t.incoming), e);
    DeliverIsReference(e, t);
  }

  lemma EhloRefusedCut(replies: seq<Reply>, e: Message.Envelope)
    requires ReplyAt(replies, 0).Accepted? && ReplyAt(replies, 1).Rejected?
    ensures Reference(replies, e) == Stopped([Ehlo], Refused(ReplyAt(replies, 1).message, 0))
  {
    var cmds := Commands(e, replies);
    FirstStopFinds(replies, cmds, 0, 1);
    assert cmds[..1] == [Ehlo];
  }
}
