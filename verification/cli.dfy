/**
 * The pure parts of the two `main` functions: the outcome tables that turn
 * `(sent, error_type)` into the printed status code and message, the ASCII
 * check on custom headers, and the defaults for subject and body.
 * Command-line parsing and JSON decoding are outside the model; their
 * results come in as values.
 */
module Cli {
  import opened Wrappers
  import opened Text
  import Message
  import Utf8
  import Address

  /** The object printed as JSON. */
  datatype Output = Output(statusCode: int, message: string)

  /** The two programs; their tables differ only in wording. */
  datatype Program = Utils | Client

  /**
   * A value decoded from JSON where an address is expected: a string, or
   * some other value, of which only its truthiness matters.
   */
  datatype PyValue = Str(s: string) | NonStr(truthy: bool)

  /** The words of `-h` after `json.loads`: none given, text that failed to parse, or the parsed headers in order. */
  datatype HeaderArg = NoWords | Unparsable(reason: string) | Parsed(headers: seq<Message.Header>)

  /** The words of `-t` after `json.loads`: text that failed to parse, or the decoded list. */
  datatype RecipientArg = BadList(reason: string) | List(values: seq<PyValue>)

  const Accepted := Output(250, "Message accepted for delivery")

  /** `status_codes.get(error_type, 550)`, the same in both programs. */
  function StatusCode(errorType: int): (code: int)
    ensures code == 501 <==> errorType == 1
    ensures code == 503 <==> errorType == 3
    ensures code == 550 <==> errorType != 1 && errorType != 3
  {
    if errorType == 1 then 501 else if errorType == 3 then 503 else 550
  }

  /**
   * `error_messages.get(error_type, "Unknown error")`.  The address errors
   * have their own messages in both programs, and only an unknown type falls
   * back to the default.
   */
  function ErrorMessage(p: Program, errorType: int): (m: string)
    ensures m == "Invalid sender address" <==> errorType == 1
    ensures m == "Invalid recipient address" <==> errorType == 2
    ensures m == "Unknown error" <==> !(0 <= errorType <= 3)
    ensures errorType == 0 ==> m == if p == Utils then "Error desconocido del servidor" else "Unknown server error."
    ensures errorType == 3 ==> m == if p == Utils then "Error de protocolo SMTP" else "SMTP error."
  {
    if errorType == 0 then
      (if p == Utils then "Error desconocido del servidor" else "Unknown server error.")
    else if errorType == 1 then "Invalid sender address"
    else if errorType == 2 then "Invalid recipient address"
    else if errorType == 3 then
      (if p == Utils then "Error de protocolo SMTP" else "SMTP error.")
    else "Unknown error"
  }

  /** The printed outcome of a delivery attempt. */
  function Report(p: Program, sent: bool, errorType: int): (o: Output)
    ensures sent ==> o == Accepted
    ensures !sent ==> o.statusCode == StatusCode(errorType) && o.statusCode != 250
    ensures !sent ==> o.message == ErrorMessage(p, errorType)
    ensures !sent && !(0 <= errorType <= 3) ==> o == Output(550, "Unknown error")
  {
    if sent then Accepted else Output(StatusCode(errorType), ErrorMessage(p, errorType))
  }

  /**
   * Status codes alone confuse error types 0 and 2, both 550; the messages
   * tell every outcome apart, so the printed output determines the result.
   */
  lemma ReportDistinguishes(p: Program, s1: bool, t1: int, s2: bool, t2: int)
    requires s1 || 0 <= t1 <= 3
    requires s2 || 0 <= t2 <= 3
    requires Report(p, s1, t1) == Report(p, s2, t2)
    ensures s1 == s2 && (!s1 ==> t1 == t2)
  {
  }

  /** Every character of `s` has a code below 128. */
  predicate IsAscii(s: string) {
    forall i :: 0 <= i < |s| ==> s[i] as int < 128
  }

  const NonAsciiReason := "Encabezados contienen caracteres no ASCII"

  /** The printed error for a header argument that was refused. */
  function HeaderError(reason: string): Output {
    Output(400, "Error en encabezados: " + reason)
  }

  /** The loop over `custom_headers.items()`: the first header whose line is not ASCII stops it. */
  function CheckAscii(hs: seq<Message.Header>): (r: Result<seq<Message.Header>, Output>)
    decreases |hs|
  {
    if |hs| == 0 then Ok([])
    else if !IsAscii(Message.HeaderLine(hs[0])) then Err(HeaderError(NonAsciiReason))
    else match CheckAscii(hs[1..])
      case Ok(rest) => Ok([hs[0]] + rest)
      case Err(o) => Err(o)
  }

  /** `" ".join(words) if words else " "`: an absent or empty word list gives one space. */
  function DefaultText(words: seq<string>): (r: string)
    ensures |words| == 0 ==> r == " "
    ensures |words| == 1 ==> r == words[0]
  {
    if |words| == 0 then " " else Join(words, " ")
  }

  // ----- properties -----

  /** The check passes exactly when every header line is ASCII, and then keeps the headers as given. */
  lemma {:induction false} CheckAsciiIff(hs: seq<Message.Header>)
    ensures CheckAscii(hs).Ok? <==> forall i :: 0 <= i < |hs| ==> IsAscii(Message.HeaderLine(hs[i]))
    ensures CheckAscii(hs).Ok? ==> CheckAscii(hs).value == hs
    ensures CheckAscii(hs).Err? ==> CheckAscii(hs).error == Output(400, "Error en encabezados: " + NonAsciiReason)
    decreases |hs|
  {
    if |hs| > 0 {
      CheckAsciiIff(hs[1..]);
      if IsAscii(Message.HeaderLine(hs[0])) && CheckAscii(hs[1..]).Ok? {
        assert [hs[0]] + hs[1..] == hs;
      }
      if !CheckAscii(hs[1..]).Ok? {
        var i :| 0 <= i < |hs[1..]| && !IsAscii(Message.HeaderLine(hs[1..][i]));
        assert !IsAscii(Message.HeaderLine(hs[i + 1]));
      }
    }
  }

  /** `CheckAsciiIff` for a header argument that parsed; nothing to say otherwise. */
  lemma CheckedArg(arg: HeaderArg)
    ensures arg.Parsed? ==>
              && (CheckAscii(arg.headers).Ok? <==> forall i :: 0 <= i < |arg.headers| ==> IsAscii(Message.HeaderLine(arg.headers[i])))
              && (CheckAscii(arg.headers).Err? ==> CheckAscii(arg.headers).error == HeaderError(NonAsciiReason))
  {
    if arg.Parsed? {
      CheckAsciiIff(arg.headers);
    }
  }

  /**
   * Headers that pass the check go on the wire as one octet per character,
   * each equal to the character's code.
   */
  lemma CheckedHeadersBytewise(hs: seq<Message.Header>, i: nat)
    requires CheckAscii(hs).Ok? && i < |hs|
    ensures var line := Message.HeaderLine(hs[i]);
            |Utf8.Encode(line)| == |line|
            && forall k :: 0 <= k < |line| ==> Utf8.Encode(line)[k] == line[k] as int
  {
    CheckAsciiIff(hs);
    Utf8.AsciiBytewise(Message.HeaderLine(hs[i]));
  }

  /** A recipient the address check accepts: a string matching the pattern. */
  predicate ValidValue(v: PyValue) {
    v.Str? && Address.IsValid(v.s)
  }

  /** The text is empty only for a single empty word. */
  lemma DefaultTextEmpty(words: seq<string>)
    ensures DefaultText(words) == "" <==> words == [""]
  {
    JoinEmpty(words, " ");
  }
}
