/**
 * `read_server_response`: one read of at most 1024 octets, decoded and
 * stripped, accepted when it starts with `2` or `3`, otherwise turned into an
 * `SMTPClientError` whose text is `"Error del servidor: "` followed by the
 * stripped reply.
 */
module Response {
  import opened Text

  /** What one `reader.read(1024)` gives: decoded text, or a failure of the transport. */
  datatype ReadResult = Chunk(text: string) | TransportFail

  /**
   * The outcome of reading one reply: the stripped text of an accepted reply,
   * the text of the `SMTPClientError` raised for a refused one, or a failure
   * that is not an `SMTPClientError` (a reset, a failed write, undecodable octets).
   */
  datatype Reply = Accepted(text: string) | Rejected(message: string) | Broken

  /** The fixed start of every `SMTPClientError` text. */
  const ErrorPrefix := "Error del servidor: "

  /**
   * The result of the `i`-th read of a session.  Once the scripted reads are
   * used up the peer has closed the stream, and `read` returns empty text.
   */
  function ReadAt(incoming: seq<ReadResult>, i: nat): (r: ReadResult)
    ensures i < |incoming| ==> r == incoming[i]
    ensures i >= |incoming| ==> r == Chunk("")
  {
    if i < |incoming| then incoming[i] else Chunk("")
  }

  /** Only whitespace before position `k` of `t`. */
  predicate BlankBefore(t: string, k: nat)
    requires k <= |t|
  {
    forall j :: 0 <= j < k ==> IsSpace(t[j])
  }

  /** The first character of `t` after whitespace is `2` or `3`. */
  predicate OpensPositive(t: string) {
    exists k :: 0 <= k < |t| && (t[k] == '2' || t[k] == '3') && BlankBefore(t, k)
  }

  /** A reply is accepted when its first character after whitespace is `2` or `3`. */
  function Classify(r: ReadResult): (reply: Reply)
    ensures r.TransportFail? <==> reply.Broken?
    ensures r.Chunk? ==> (reply.Accepted? <==> OpensPositive(r.text))
    ensures reply.Accepted? ==> reply.text == Strip(r.text)
    ensures reply.Rejected? ==> reply.message == ErrorPrefix + Strip(r.text)
  {
    match r
    case TransportFail => Broken
    case Chunk(t) =>
      var d := Strip(t);
      if |d| > 0 then
        StripFirst(t, Lead(t));
        if d[0] == '2' || d[0] == '3' then Accepted(d) else Rejected(ErrorPrefix + d)
      else
        StripEmpty(t);
        Rejected(ErrorPrefix + d)
  }

  /**
   * When `t` starts with a visible character, the reply is accepted exactly
   * when that character is `2` or `3`.
   */
  lemma LeadingCode(t: string)
    requires |t| > 0 && !IsSpace(t[0])
    ensures Classify(Chunk(t)).Accepted? <==> t[0] == '2' || t[0] == '3'
  {
    assert BlankBefore(t, 0);
    forall k | 0 < k < |t|
      ensures !BlankBefore(t, k)
    {
      assert !IsSpace(t[0]);
    }
  }

  /**
   * A reply with no whitespace around it that is refused carries its own text
   * after the prefix.
   */
  lemma RefusedText(t: string)
    requires |t| > 0 && !IsSpace(t[0]) && !IsSpace(t[|t| - 1]) && t[0] != '2' && t[0] != '3'
    ensures Classify(Chunk(t)) == Rejected(ErrorPrefix + t)
  {
    LeadingCode(t);
    StripUnchanged(t);
  }

  /** A refused reply with no whitespace around it that starts with a status code carries that code in its error text. */
  lemma RefusedCarriesCode(t: string, code: string)
    requires |t| > 0 && !IsSpace(t[0]) && !IsSpace(t[|t| - 1]) && t[0] != '2' && t[0] != '3'
    requires |code| > 0 && '0' <= code[0] <= '9' && StartsWith(t, code)
    ensures Classify(Chunk(t)) == Rejected(ErrorPrefix + t)
    ensures Contains(ErrorPrefix + t, code)
  {
    RefusedText(t);
    StripUnchanged(t);
    CodeInErrorText(t, code);
  }

  /** Whitespace after a refused reply, such as its CRLF, does not reach the error text. */
  lemma RefusedWithTrailer(t: string, w: string)
    requires |t| > 0 && !IsSpace(t[0]) && !IsSpace(t[|t| - 1]) && t[0] != '2' && t[0] != '3'
    requires forall k :: 0 <= k < |w| ==> IsSpace(w[k])
    ensures Classify(Chunk(t + w)) == Rejected(ErrorPrefix + t)
  {
    StripTrailing(t, w);
    LeadingCode(t + w);
  }

  /** A reply with no whitespace around it that is accepted is kept as it is. */
  lemma AcceptedText(t: string)
    requires |t| > 0 && !IsSpace(t[|t| - 1]) && (t[0] == '2' || t[0] == '3')
    ensures Classify(Chunk(t)) == Accepted(t)
  {
    LeadingCode(t);
    StripUnchanged(t);
  }

  /**
   * An empty read (the peer closed the stream) or a read of whitespace only is
   * refused, and its error text is the bare prefix.
   */
  lemma BlankReadRefused(t: string)
    requires forall k :: 0 <= k < |t| ==> IsSpace(t[k])
    ensures Classify(Chunk(t)) == Rejected(ErrorPrefix)
  {
    StripEmpty(t);
  }

  /**
   * A status code (a text starting with a digit) occurs in the error text of a
   * refused reply exactly when it occurs in the stripped reply itself: the
   * prefix holds no digit.
   */
  lemma CodeInErrorText(t: string, code: string)
    requires |code| > 0 && '0' <= code[0] <= '9'
    ensures Contains(ErrorPrefix + Strip(t), code) <==> Contains(Strip(t), code)
  {
    assert code[0] !in ErrorPrefix;
    ContainsPastPrefix(ErrorPrefix, Strip(t), code);
  }
}
