/**
 * The credential of the `AUTH PLAIN` exchange.  The client builds the
 * message `"\0" + sender + "\0" + password`, which is the message of section 2
 * of RFC 4616 with an empty authorization identity, sends its UTF-8 octets in
 * base 64, and ends the line with CRLF.  `Parse` reads a message the way the
 * grammar of RFC 4616 does, which shows what a server can recover from it.
 */
module AuthPlain {
  import opened Wrappers
  import opened Text
  import Utf8
  import Base64

  const NUL: char := '\0'

  /** The three fields of a PLAIN message. */
  datatype Fields = Fields(authzid: string, authcid: string, passwd: string)

  /** The message the client builds: empty authzid, the sender as authcid, then the password. */
  function Message(authcid: string, passwd: string): (m: string)
    ensures |m| == |authcid| + |passwd| + 2 && m[0] == NUL && m[|authcid| + 1] == NUL
    ensures m[1..|authcid| + 1] == authcid && m[|authcid| + 2..] == passwd
  {
    [NUL] + authcid + [NUL] + passwd
  }

  /**
   * `message = [authzid] UTF8NUL authcid UTF8NUL passwd`, where `authcid` and
   * `passwd` are one or more characters other than NUL.
   */
  function Parse(m: string): (r: Option<Fields>)
    ensures r.Some? ==> m == r.value.authzid + [NUL] + r.value.authcid + [NUL] + r.value.passwd
    ensures r.Some? ==> |r.value.authcid| > 0 && |r.value.passwd| > 0
    ensures r.Some? ==> NUL !in r.value.authzid && NUL !in r.value.authcid && NUL !in r.value.passwd
  {
    match IndexOf(m, NUL)
    case None => None
    case Some(i) =>
      var rest := m[i + 1..];
      match IndexOf(rest, NUL)
      case None => None
      case Some(j) =>
        var f := Fields(m[..i], rest[..j], rest[j + 1..]);
        if |f.authcid| == 0 || |f.passwd| == 0 || NUL in f.passwd then None
        else
          SplitAround(m, i, j);
          Some(f)
  }

  /** Cutting at a NUL and at the next NUL after it gives back the message. */
  lemma SplitAround(m: string, i: nat, j: nat)
    requires i < |m| && m[i] == NUL && j < |m[i + 1..]| && m[i + 1..][j] == NUL
    ensures m == m[..i] + [NUL] + m[i + 1..][..j] + [NUL] + m[i + 1..][j + 1..]
  {
    var rest := m[i + 1..];
    assert rest == rest[..j] + [NUL] + rest[j + 1..];
    assert m == m[..i] + [NUL] + rest;
  }

  /** A sender and a password without NUL come back out of the message unchanged. */
  lemma ParseMessage(authcid: string, passwd: string)
    requires |authcid| > 0 && |passwd| > 0 && NUL !in authcid && NUL !in passwd
    ensures Parse(Message(authcid, passwd)) == Some(Fields("", authcid, passwd))
  {
    var m := Message(authcid, passwd);
    assert IndexOf(m, NUL) == Some(0) by {
      assert m[..0] == [];
    }
    var rest := m[1..];
    assert rest == authcid + [NUL] + passwd;
    assert IndexOf(rest, NUL) == Some(|authcid|) by {
      assert rest[..|authcid|] == authcid;
    }
    assert rest[..|authcid|] == authcid && rest[|authcid| + 1..] == passwd;
  }

  /**
   * The client writes the credential even when the password is empty, and
   * that message is not a PLAIN message.
   */
  lemma EmptyPasswordNotPlain(authcid: string)
    ensures Parse(Message(authcid, "")).None?
  {
  }

  /** The line written after a `334` reply: base 64 of the message's UTF-8 octets, then CRLF. */
  function CredentialLine(sender: string, password: string): (line: string)
    ensures |line| >= 2 && line[|line| - 2..] == "\r\n"
    ensures forall k :: 0 <= k < |line| - 2 ==> Base64.InAlphabet(line[k])
    ensures Base64.Decode(line[..|line| - 2]) == Some(Utf8.Encode(Message(sender, password)))
  {
    var payload := Base64.Encode(Utf8.Encode(Message(sender, password)));
    Base64.DecodeEncode(Utf8.Encode(Message(sender, password)));
    Base64.EncodeAlphabet(Utf8.Encode(Message(sender, password)));
    assert (payload + "\r\n")[..|payload|] == payload;
    payload + "\r\n"
  }

  /** A server that reverses the base 64 and UTF-8 layers recovers the sender and the password. */
  lemma CredentialRecovered(sender: string, password: string)
    requires |sender| > 0 && |password| > 0 && NUL !in sender && NUL !in password
    ensures var line := CredentialLine(sender, password);
            var octets := Base64.Decode(line[..|line| - 2]).value;
            Utf8.Decode(octets) == Some(Message(sender, password))
            && Parse(Message(sender, password)) == Some(Fields("", sender, password))
  {
    Utf8.DecodeEncode(Message(sender, password));
    ParseMessage(sender, password);
  }
}
