/**
 * `handle_client` of `smtp_server.py`: a greeting, then one JSON reply per
 * received chunk, chosen by the chunk's leading keyword, until a read comes
 * back empty.
 */
module ToyServer {
  import opened Text

  /** The first text sent on every connection. */
  const Greeting := "220 Welcome to Simple SMTP Server\r\n"

  /** The reply chosen for a chunk. */
  datatype Verdict = Hello | SenderOk | RecipientOk | ReadyForData | Goodbye | NotImplemented

  /** The keywords that select a verdict; none selects `NotImplemented`. */
  function Keywords(v: Verdict): seq<string> {
    match v
    case Hello => ["HELO", "EHLO"]
    case SenderOk => ["MAIL FROM"]
    case RecipientOk => ["RCPT TO"]
    case ReadyForData => ["DATA"]
    case Goodbye => ["QUIT"]
    case NotImplemented => []
  }

  /** `data` starts with one of the keywords of `v`. */
  predicate Selects(v: Verdict, data: string) {
    exists i :: 0 <= i < |Keywords(v)| && StartsWith(data, Keywords(v)[i])
  }

  /** The `status_code` field of a reply. */
  function Status(v: Verdict): int {
    if v == NotImplemented then 502 else 250
  }

  /** The `message` field of a reply. */
  function Wording(v: Verdict): string {
    match v
    case Hello => "Hello"
    case SenderOk => "Sender OK"
    case RecipientOk => "Recipient OK"
    case ReadyForData => "Ready for data"
    case Goodbye => "Goodbye"
    case NotImplemented => "Command not implemented"
  }

  /** The `if`/`elif` chain: keywords tested in order, case-sensitively, at the start of the chunk. */
  function Dispatch(data: string): Verdict {
    if StartsWith(data, "HELO") || StartsWith(data, "EHLO") then Hello
    else if StartsWith(data, "MAIL FROM") then SenderOk
    else if StartsWith(data, "RCPT TO") then RecipientOk
    else if StartsWith(data, "DATA") then ReadyForData
    else if StartsWith(data, "QUIT") then Goodbye
    else NotImplemented
  }

  /** The decimal text of a status code, as `json.dumps` writes the `status_code` field. */
  function StatusText(v: Verdict): (s: string)
    ensures |s| == 3 && s[0] == (if v == NotImplemented then '5' else '2')
    ensures s == "502" <==> Status(v) == 502
    ensures s == "250" <==> Status(v) == 250
  {
    if v == NotImplemented then "502" else "250"
  }

  /** What `json.dumps` writes before the status code. */
  const StatusKey := "{\"status_code\": "

  /** What `json.dumps` writes between the status code and the message, and after the message with the CRLF. */
  const MessageKey := ", \"message\": \""
  const Close := "\"}\r\n"

  /** `json.dumps` of the reply object with its default separators, then CRLF. */
  function Render(v: Verdict): (s: string)
    ensures |s| >= |StatusKey| + 3 && s[0] == '{' && s[|s| - 2..] == "\r\n"
    ensures s[..|StatusKey|] == StatusKey && s[|StatusKey|..|StatusKey| + 3] == StatusText(v)
  {
    var s := StatusKey + StatusText(v) + MessageKey + Wording(v) + Close;
    assert s[..|StatusKey|] == StatusKey;
    assert s[|StatusKey|..|StatusKey| + 3] == StatusText(v);
    s
  }

  /** The replies to the received chunks, up to the first empty one. */
  function Respond(chunks: seq<string>): (out: seq<string>)
    ensures |out| <= |chunks|
    decreases |chunks|
  {
    if |chunks| == 0 || chunks[0] == "" then []
    else [Render(Dispatch(chunks[0]))] + Respond(chunks[1..])
  }

  /** Everything sent on one connection, given the chunks received; an exhausted input reads as empty. */
  function Serve(chunks: seq<string>): (out: seq<string>)
    ensures |out| >= 1 && out[0] == Greeting
  {
    [Greeting] + Respond(chunks)
  }

  // ----- properties -----

  /**
   * The six replies the server can send: `json.dumps` writes `StatusKey`,
   * the code, `MessageKey`, the message and `Close`.
   */
  lemma ReplyTable()
    ensures Render(Hello) == StatusKey + "250" + MessageKey + "Hello" + Close
    ensures Render(SenderOk) == StatusKey + "250" + MessageKey + "Sender OK" + Close
    ensures Render(RecipientOk) == StatusKey + "250" + MessageKey + "Recipient OK" + Close
    ensures Render(ReadyForData) == StatusKey + "250" + MessageKey + "Ready for data" + Close
    ensures Render(Goodbye) == StatusKey + "250" + MessageKey + "Goodbye" + Close
    ensures Render(NotImplemented) == StatusKey + "502" + MessageKey + "Command not implemented" + Close
  {
  }

  /** No keyword of one verdict can start the same chunk as a keyword of another. */
  lemma KeywordsExclusive(data: string, v: Verdict, w: Verdict)
    requires Selects(v, data) && Selects(w, data)
    ensures v == w
  {
    var i :| 0 <= i < |Keywords(v)| && StartsWith(data, Keywords(v)[i]);
    var j :| 0 <= j < |Keywords(w)| && StartsWith(data, Keywords(w)[j]);
    assert data[0] == Keywords(v)[i][0] == Keywords(w)[j][0];
    assert data[1] == Keywords(v)[i][1] == Keywords(w)[j][1];
  }

  /**
   * The dispatch picks the verdict whose keyword starts the chunk, so the
   * order of the tests does not matter; `NotImplemented` exactly when no
   * keyword does.
   */
  lemma DispatchByKeyword(data: string)
    ensures Dispatch(data) != NotImplemented ==> Selects(Dispatch(data), data)
    ensures Dispatch(data) == NotImplemented <==>
              forall v :: v != NotImplemented ==> !Selects(v, data)
  {
    var d := Dispatch(data);
    if d != NotImplemented {
      if StartsWith(data, "HELO") {
        assert StartsWith(data, Keywords(Hello)[0]);
      } else if StartsWith(data, "EHLO") {
        assert StartsWith(data, Keywords(Hello)[1]);
      } else {
        assert StartsWith(data, Keywords(d)[0]);
      }
      assert Selects(d, data);
      assert !Selects(NotImplemented, data);
    } else {
      forall v | v != NotImplemented
        ensures !Selects(v, data)
      {
        forall i | 0 <= i < |Keywords(v)|
          ensures !StartsWith(data, Keywords(v)[i])
        {
          if v == Hello {
            assert i == 0 || i == 1;
          }
        }
      }
    }
  }

  /**
   * The reply sent for a chunk carries status code 502 exactly when no
   * keyword starts the chunk, and 250 otherwise.
   */
  lemma StatusCodes(data: string)
    ensures var s := Render(Dispatch(data)); var code := s[|StatusKey|..|StatusKey| + 3];
            && (code == "502" <==> forall v :: v != NotImplemented ==> !Selects(v, data))
            && (code == "250" <==> exists v :: v != NotImplemented && Selects(v, data))
  {
    DispatchByKeyword(data);
  }

  /** `AUTH PLAIN` and message content that starts with no keyword get 502. */
  lemma AuthNotImplemented(data: string)
    requires |data| > 0 && data[0] != 'H' && data[0] != 'E' && data[0] != 'M'
    requires data[0] != 'R' && data[0] != 'D' && data[0] != 'Q'
    ensures Dispatch(data) == NotImplemented
    ensures Dispatch("AUTH PLAIN\r\n") == NotImplemented
  {
    var auth := "AUTH PLAIN\r\n";
    assert auth[0] == 'A';
  }

  /** Each non-empty chunk before the first empty one gets exactly one reply, in order. */
  lemma {:induction false} OneReplyPerChunk(chunks: seq<string>, k: nat)
    requires k <= |chunks| && forall j :: 0 <= j < k ==> chunks[j] != ""
    ensures |Respond(chunks)| >= k
    ensures forall j :: 0 <= j < k ==> Respond(chunks)[j] == Render(Dispatch(chunks[j]))
    decreases k
  {
    if k > 0 {
      OneReplyPerChunk(chunks[1..], k - 1);
    }
  }

  /** Nothing is answered from the first empty chunk on. */
  lemma {:induction false} StopsAtEmpty(chunks: seq<string>, k: nat)
    requires k < |chunks| && chunks[k] == "" && forall j :: 0 <= j < k ==> chunks[j] != ""
    ensures Respond(chunks) == Respond(chunks[..k])
    ensures |Respond(chunks)| == k
    decreases k
  {
    if k > 0 {
      StopsAtEmpty(chunks[1..], k - 1);
      var head := chunks[..k];
      assert chunks[1..][..k - 1] == head[1..];
      assert head[0] == chunks[0] != "";
      assert Respond(head) == [Render(Dispatch(chunks[0]))] + Respond(head[1..]);
    } else {
      assert chunks[..k] == [];
    }
  }

  /** `QUIT` is answered like any keyword and does not end the loop: later chunks are still answered. */
  lemma QuitKeepsReading(rest: seq<string>)
    ensures Respond(["QUIT\r\n"] + rest) == [Render(Goodbye)] + Respond(rest)
  {
    var quit := "QUIT\r\n";
    assert quit[0] == 'Q' && quit[..4] == "QUIT";
    assert Dispatch(quit) == Goodbye;
    assert ([quit] + rest)[0] == quit && ([quit] + rest)[1..] == rest;
  }
}
