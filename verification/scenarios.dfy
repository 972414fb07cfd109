/**
 * Whole sessions against particular peers: a server that refuses `AUTH
 * PLAIN` with 502, one that refuses the second recipient, one that closes
 * the stream after the greeting, and the toy server of `smtp_server.py`.
 */
module Scenarios {
  import opened Text
  import opened Response
  import opened Session
  import SessionFacts
  import ToyServer
  import Cli
  import Message

  /** A read holding a reply that the client accepts, with no whitespace around it. */
  predicate Positive(r: ReadResult) {
    r.Chunk? && |r.text| > 0 && (r.text[0] == '2' || r.text[0] == '3') && !IsSpace(r.text[|r.text| - 1])
  }

  const AuthRefusal := "502 Command not implemented"

  /** The reads from a server that answers 502 to `AUTH PLAIN` and accepts everything else. */
  function StubReads(n: nat): (script: seq<ReadResult>)
    ensures |script| == n + 7
    ensures script[2] == Chunk(AuthRefusal)
    ensures forall j :: 0 <= j < |script| && j != 2 ==> Positive(script[j])
  {
    [Chunk("220 ready"), Chunk("250 hello"), Chunk(AuthRefusal), Chunk("250 OK")]
    + seq(n, _ => Chunk("250 OK")) + [Chunk("354 go ahead"), Chunk("250 OK"), Chunk("221 bye")]
  }

  /** The refusal of `AUTH PLAIN` is forgiven: its error text holds `502`. */
  lemma AuthRefusalForgiven()
    ensures Classify(Chunk(AuthRefusal)) == Rejected(ErrorPrefix + AuthRefusal)
    ensures Contains(ErrorPrefix + AuthRefusal, "502")
  {
    assert StartsWith(AuthRefusal, "502");
    RefusedCarriesCode(AuthRefusal, "502");
  }

  /** Every read of the stub server lets the session go on, and no credential is asked for. */
  lemma StubRepliesPass(e: Message.Envelope)
    ensures var replies := Replies(StubReads(|e.recipients|));
            && !CredentialRequested(replies)
            && |Commands(e, replies)| + 1 == |StubReads(|e.recipients|)|
            && forall j :: 0 <= j <= |Commands(e, replies)| ==> Passes(replies, Commands(e, replies), j)
  {
    var script := StubReads(|e.recipients|);
    var replies := Replies(script);
    AuthRefusalForgiven();
    ReplyAtRead(script, 2);
    assert !CredentialRequested(replies);
    var cmds := Commands(e, replies);
    forall j | 0 <= j <= |cmds|
      ensures Passes(replies, cmds, j)
    {
      ReplyAtRead(script, j);
      if j != 2 {
        AcceptedText(script[j].text);
      }
    }
  }

  /**
   * Against a server without AUTH support the message is still delivered:
   * every command but the credential is written, and the result is
   * `(true, 0)`.
   */
  lemma StubServerDelivers(e: Message.Envelope)
    requires Prevalid(e)
    ensures Deliver(e, Transport(true, StubReads(|e.recipients|))) == Delivery(Script(e, false), true, 0)
  {
    var t := Transport(true, StubReads(|e.recipients|));
    StubRepliesPass(e);
    SessionFacts.SentExactly(e, t);
  }

  /** A peer that answers the greeting and then closes the stream. */
  lemma PeerClosesAfterGreeting(e: Message.Envelope)
    requires Prevalid(e)
    ensures Deliver(e, Transport(true, [Chunk("220 ready")])) == Delivery([Ehlo], false, 0)
  {
    AcceptedText("220 ready");
    BlankReadRefused("");
    PrefixHoldsNoCode();
    SessionFacts.EhloRefused(e, Transport(true, [Chunk("220 ready")]));
  }

  /** The bare error prefix holds neither `501` nor `550`. */
  lemma PrefixHoldsNoCode()
    ensures ErrorType(Refused(ErrorPrefix, 0)) == 0
  {
    assert '5' !in ErrorPrefix;
    NotContainedWithout(ErrorPrefix, "501");
    NotContainedWithout(ErrorPrefix, "550");
  }

  // ----- the client against the toy server -----

  /** The toy server's answer to `EHLO`, after the client strips it. */
  const HelloJson := "{\"status_code\": 250, \"message\": \"Hello\"}"

  /** `HelloJson` cut just before the `5` of the status code. */
  const JsonHead := "{\"status_code\": 2"
  const JsonTail := "50, \"message\": \"Hello\"}"

  lemma HelloPieces()
    ensures HelloJson == JsonHead + JsonTail
  {
  }

  lemma HeadLacksFive()
    ensures '5' !in JsonHead
  {
  }

  lemma TailHoldsNoCode()
    ensures |JsonTail| > 0 && '5' !in JsonTail[1..]
    ensures !StartsWith(JsonTail, "501") && !StartsWith(JsonTail, "550")
  {
    assert JsonTail[1] == '0' && JsonTail[2] == ',';
  }

  lemma HelloEnds()
    ensures |HelloJson| > 0 && !IsSpace(HelloJson[0]) && !IsSpace(HelloJson[|HelloJson| - 1])
    ensures HelloJson[0] != '2' && HelloJson[0] != '3'
  {
  }

  lemma RenderHello()
    ensures ToyServer.Render(ToyServer.Hello) == HelloJson + "\r\n"
  {
  }

  lemma EhloIsHello()
    ensures ToyServer.Dispatch(EhloLine + "\r\n") == ToyServer.Hello
  {
    var ehlo := EhloLine + "\r\n";
    assert ehlo[0] == 'E' && StartsWith(ehlo, "EHLO");
  }

  /** The toy server greets, then answers `EHLO` with its JSON `Hello` object. */
  lemma ToyServerAnswers(e: Message.Envelope, date: string)
    ensures ToyServer.Serve(Wires([Ehlo], e, date)) == [ToyServer.Greeting, HelloJson + "\r\n"]
  {
    EhloIsHello();
    RenderHello();
    assert Wires([Ehlo], e, date) == [EhloLine + "\r\n"];
    assert ToyServer.Respond([EhloLine + "\r\n"]) == [ToyServer.Render(ToyServer.Hello)];
  }

  /** The client accepts the greeting and refuses the JSON reply; the error text is the JSON object. */
  lemma ToyRepliesClassified()
    ensures Classify(Chunk(ToyServer.Greeting)).Accepted?
    ensures Classify(Chunk(HelloJson + "\r\n")) == Rejected(ErrorPrefix + HelloJson)
  {
    var g := ToyServer.Greeting;
    assert g[0] == '2';
    LeadingCode(g);
    HelloEnds();
    var w := "\r\n";
    assert IsSpace(w[0]) && IsSpace(w[1]);
    RefusedWithTrailer(HelloJson, w);
  }

  /** The JSON reply holds neither `501` nor `550`, so the failure keeps error type 0. */
  lemma HelloCarriesNoCode()
    ensures ErrorType(Refused(ErrorPrefix + HelloJson, 0)) == 0
  {
    HelloEnds();
    HelloLacks("501");
    HelloLacks("550");
    ErrorTextLacks(HelloJson, "501");
    ErrorTextLacks(HelloJson, "550");
  }

  /** A code missing from a reply with visible ends is missing from the client's error text too. */
  lemma ErrorTextLacks(t: string, code: string)
    requires |code| > 0 && '0' <= code[0] <= '9'
    requires |t| > 0 && !IsSpace(t[0]) && !IsSpace(t[|t| - 1])
    requires !Contains(t, code)
    ensures !Contains(ErrorPrefix + t, code)
  {
    StripUnchanged(t);
    CodeInErrorText(t, code);
  }

  lemma HelloLacks(code: string)
    requires code == "501" || code == "550"
    ensures !Contains(HelloJson, code)
  {
    HeadLacksFive();
    TailHoldsNoCode();
    NotContainedAround(JsonHead, JsonTail, code);
    HelloPieces();
  }

  /** The reads a client gets from the toy server after writing `EHLO`. */
  function ToyReads(): seq<ReadResult> {
    [Chunk(ToyServer.Greeting), Chunk(HelloJson + "\r\n")]
  }

  /**
   * Against the toy server the session stops right after `EHLO`: the server's
   * JSON reply starts with `{`, which the client refuses, and the reply holds
   * neither `501` nor `550`, so the result is `(false, 0)` and the library
   * program prints status 550.  The reads are exactly what the server sends
   * for what the client wrote.
   */
  lemma AgainstToyServer(e: Message.Envelope, date: string)
    requires Prevalid(e)
    ensures Deliver(e, Transport(true, ToyReads())) == Delivery([Ehlo], false, 0)
    ensures ToyServer.Serve(Wires(Deliver(e, Transport(true, ToyReads())).written, e, date)) == [
              ToyServer.Greeting, HelloJson + "\r\n"]
    ensures Cli.Report(Cli.Utils, false, 0) == Cli.Output(550, "Error desconocido del servidor")
  {
    ToyDelivery(e, ToyReads());
    ToyServerAnswers(e, date);
  }

  /** Fed the toy server's replies, the session stops after `EHLO` with error type 0. */
  lemma ToyDelivery(e: Message.Envelope, script: seq<ReadResult>)
    requires Prevalid(e) && script == ToyReads()
    ensures Deliver(e, Transport(true, script)) == Delivery([Ehlo], false, 0)
  {
    ToyRepliesClassified();
    HelloCarriesNoCode();
    assert ReadAt(script, 0) == Chunk(ToyServer.Greeting);
    assert ReadAt(script, 1) == Chunk(HelloJson + "\r\n");
    SessionFacts.EhloRefused(e, Transport(true, script));
  }
}
