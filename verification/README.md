# SMTP client, simulated client and toy server, modelled in Dafny

This project models the three programs of a small SMTP exercise:

- `smtp_utils.py`, a client library and command-line program. `send_email` validates the
  sender and recipient addresses with a regular expression, then runs one SMTP session:
  - greeting, `EHLO`;
  - `AUTH PLAIN`, always attempted;
  - `MAIL FROM`, one `RCPT TO` per recipient;
  - `DATA`, the message content, `QUIT`.

  It returns `(email_sent, error_type)`, and `main` turns that pair into a JSON status object.
- `smtp_client.py`, a simulated client. Its `send_email` only validates the addresses and
  never connects.
- `smtp_server.py`, a toy server. It greets, then answers every received chunk with a JSON
  object chosen by the chunk's first keyword, until a read comes back empty.

The session is a pure function over an abstract transport.
- The transport is a flag saying whether the connection opens, and the sequence of results
  of the session's reads. Each read is some text, or a transport failure.
- The function returns the commands written, in order, and the `(sent, errorType)` pair.
  `Session.Wires` gives the text of each command.

The session is stated twice:
- `Session.Converse` follows the code step by step.
- `Session.Reference` is the fixed command script cut just after the first reply that does
  not let the session go on.

`Session.ConverseIsReference` proves the two equal. Every property of a delivery in
`SessionFacts` is then read off the script.

Modules:
- `Text`: Python's `str.strip()`, `startswith`, `in`, `join`.
- `Address`: the address regular expression, including Python's `$` accepting a final line feed.
- `Response`: `read_server_response`.
- `Message`: the header lines and the payload written after `DATA`.
- `Base64` and `Utf8`: the encodings behind the `AUTH PLAIN` credential, following section 4
  of RFC 4648 and section 3 of RFC 3629.
- `AuthPlain`: the credential message, and a parser for the message of section 2 of RFC 4616.
- `Session` and `SessionFacts`: the delivery engine and its properties.
- `Cli`: the outcome tables, the ASCII check on custom headers, and the subject and body defaults.
- `UtilsMain`: `main` of `smtp_utils.py`.
- `SimClient`: `smtp_client.py`.
- `ToyServer`: `smtp_server.py`.
- `Scenarios`: whole sessions against particular peers, including the toy server.

## Model

| member | source | states |
|---|---|---|
| Address.IsValid | src/smtp_utils.py:18-28 | An address is valid exactly when the pattern matches the whole string, or the whole string minus one final line feed. |
| Address.ScanIff | src/smtp_utils.py:18 | Cutting at the first `@` and at the last `.` after it accepts exactly the strings that split into local part, `@`, domain, `.` and a label of two or more letters. |
| Address.NewlineTolerance | src/smtp_utils.py:18 | Python's `$` lets one trailing line feed through, but not two. |
| Address.ValidShape | src/smtp_utils.py:18 | A valid address has at least six characters and no NUL, carriage return or space. A line feed can only be its last character. |
| Text.Strip | src/smtp_utils.py:34 | `strip()` returns the slice after the leading whitespace, with only whitespace after it, and neither end of the result is whitespace. |
| Text.StripIdempotent | src/smtp_utils.py:34 | Stripping twice gives the same text as stripping once. |
| Text.StripEmpty | src/smtp_utils.py:34 | The stripped text is empty exactly when the read is all whitespace. |
| Text.ContainsAt | src/smtp_utils.py:109 | The `in` test holds exactly when the code occurs at some position of the text. |
| Response.Classify | src/smtp_utils.py:31-41 | A read is accepted exactly when its first non-whitespace character is `2` or `3`. An accepted reply is returned stripped. A refused reply's error text is `Error del servidor: ` plus the stripped text. A transport failure is neither accepted nor refused. |
| Response.LeadingCode | src/smtp_utils.py:38-39 | For a reply starting with a visible character, acceptance depends on that character alone. |
| Response.BlankReadRefused | src/smtp_utils.py:33-39 | An empty read, from a peer that closed the stream, or a read of whitespace only is refused with the bare prefix as its text. |
| Response.RefusedWithTrailer | src/smtp_utils.py:34-39 | The CRLF after a refused reply does not reach the error text. |
| Response.CodeInErrorText | src/smtp_utils.py:152-155 | A status code occurs in the error text exactly when it occurs in the stripped reply, because the prefix holds no digit. |
| Message.HeaderLines | src/smtp_utils.py:72-81 | The header lines are `From`, `To` with the recipients joined by `, `, `Subject`, `Date`, and then each custom header as `name: value`, in insertion order. |
| Message.PayloadLayout | src/smtp_utils.py:137 | The payload is every header line ended by CRLF, an empty line, the body, and a line holding one dot. |
| Message.BodySentUnescaped | src/smtp_utils.py:137 | A body holding CRLF . CRLF puts the end-of-data marker into the payload before its end, since no dot-stuffing is done. |
| AuthPlain.Message | src/smtp_utils.py:103 | The credential message is a NUL, the sender, a NUL and the password, with nothing else: the authzid is empty. This holds for an empty password too. |
| AuthPlain.ParseMessage | src/smtp_utils.py:103 | A server parsing the message with the grammar of RFC 4616 gets back an empty authzid, the sender and the password, whenever both are non-empty and hold no NUL. |
| AuthPlain.EmptyPasswordNotPlain | src/smtp_utils.py:99-105 | The message built for an empty password is not a valid PLAIN message, yet the client sends it. |
| AuthPlain.CredentialLine | src/smtp_utils.py:103-105 | The credential line ends with CRLF. What precedes it uses only base 64 symbols and `=`, and decodes from base 64 to the UTF-8 octets of the message. |
| AuthPlain.CredentialRecovered | src/smtp_utils.py:103-105 | Reversing base 64 and then UTF-8 recovers the message, and parsing it recovers the sender and the password. |
| Base64.Encode | src/smtp_utils.py:104 | The encoding has four characters for every started group of three octets. |
| Base64.EncodeAlphabet | src/smtp_utils.py:104 | Every character of the encoding is a symbol of the base 64 alphabet or `=`. |
| Base64.DecodeEncode | src/smtp_utils.py:104 | Decoding the encoding gives back the octets. |
| Base64.EncodeDecode | src/smtp_utils.py:104 | Whatever the strict decoder accepts is the encoding of what it returns. |
| Utf8.DecodeEncode | src/smtp_utils.py:103 | `str.encode()` is undone by strict UTF-8 decoding. |
| Utf8.EncodeDecode | src/smtp_utils.py:103 | Whatever the strict decoder accepts is the encoding of the text it returns. |
| Session.Script | src/smtp_utils.py:93-144 | A full session writes, in order: `EHLO`, `AUTH PLAIN`, the credential only when asked for, `MAIL FROM`, one `RCPT TO` per recipient in list order, `DATA`, the content, and `QUIT`. |
| Session.Deliver | src/smtp_utils.py:44-160 | An invalid sender gives `(false, 1)`. Otherwise an invalid recipient gives `(false, 2)`. A connection that does not open gives `(false, 3)`. In these cases nothing is written. A sent message has error type 0. |
| Session.Wire | src/smtp_utils.py:93-142 | Every command text ends with CRLF. |
| Session.CommandLines | src/smtp_utils.py:93-142 | Every command but the content has no carriage return or line feed before its final CRLF, as long as the addresses match the pattern without a trailing line feed. |
| Session.SenderNewlineInLine | src/smtp_utils.py:115 | A sender that matches the pattern followed by one line feed passes the address check. Its `MAIL FROM` text then holds that bare line feed before the final CRLF, which section 2.3.8 of RFC 5321 forbids. |
| Session.AddressLinesBare | src/smtp_utils.py:115-124 | With valid addresses, the `MAIL FROM:` and `RCPT TO:` lines hold no angle bracket. The address is written bare, not as the `<address>` path of section 4.1.1.2 of RFC 5321. |
| Session.ErrorType | src/smtp_utils.py:117-158 | An exception other than `SMTPClientError` gives 3. A refusal keeps an error type already set. A refusal with none set gives 0, 1 or 2. |
| Session.ErrorTypeByOccurrence | src/smtp_utils.py:151-155 | A refusal with no error type set gives 1 exactly when its text holds `501` somewhere. It gives 2 exactly when it holds `550` but not `501`, and 0 when it holds neither. |
| Session.ConverseIsReference | src/smtp_utils.py:87-146 | For every sequence of reads, the session as coded equals the script cut after its first non-passing reply, with that reply's failure. |
| SessionFacts.SentExactly | src/smtp_utils.py:89-146 | The message is reported sent exactly when the addresses pass, the connection opens and every reply of the whole script passes. Every command of the script was then written. |
| SessionFacts.StopsAtFirstFailure | src/smtp_utils.py:87-158 | A stopped session wrote a prefix of the script. Every earlier reply passed, the reply to its last write did not, and the error type is the one that reply stands for. |
| SessionFacts.WritesFollowScript | src/smtp_utils.py:89-144 | Whatever happens, what was written is the start of the script. Before a connection nothing is written. |
| SessionFacts.PassedWritten | src/smtp_utils.py:89-144 | Every command whose reply and all earlier replies passed was written. |
| SessionFacts.ErrorTypeRules | src/smtp_utils.py:114-158 | The error type of a stopped session follows the failing read. A transport failure gives 3. A refused reply to `MAIL FROM` gives 1, and to `RCPT TO` gives 2. Otherwise the reply gives 1 if it holds `501`, else 2 if it holds `550`, else 0. |
| SessionFacts.ErrorTypeRange | src/smtp_utils.py:149-158 | The error type is always 0, 1, 2 or 3. |
| SessionFacts.AuthAlwaysWritten | src/smtp_utils.py:97-101 | After an accepted greeting and `EHLO` reply, `AUTH PLAIN` is the second write, whatever the password. |
| SessionFacts.CredentialOnlyWhenAsked | src/smtp_utils.py:102-107 | The credential line is the third write when the `AUTH PLAIN` reply is accepted and starts with `334`. Otherwise it is not in the script at all. |
| SessionFacts.CredentialInScript | src/smtp_utils.py:102-107 | The script holds the credential line exactly when it was asked for. |
| SessionFacts.RecipientRefusalStops | src/smtp_utils.py:123-130 | A refused `RCPT TO` ends the session with `(false, 2)`. That `RCPT TO` is the last write, and `DATA` is never written. |
| SessionFacts.EhloRefused | src/smtp_utils.py:93-95 | A refused `EHLO` reply ends the session after that one write, with the reply's error type. |
| Scenarios.AuthRefusalForgiven | src/smtp_utils.py:108-112 | A `502` refusal of `AUTH PLAIN` yields an error text holding `502`, so it is forgiven. |
| Scenarios.StubServerDelivers | src/smtp_utils.py:97-146 | Against a server that refuses `AUTH PLAIN` with 502 and accepts everything else, the message is sent. Every command but the credential is written. |
| Scenarios.PeerClosesAfterGreeting | src/smtp_utils.py:93-95 | A peer that closes after the greeting stops the session after `EHLO`, with error type 0. |
| Scenarios.AgainstToyServer | src/smtp_server.py:5-26 | Against the toy server the session stops after `EHLO`, because the JSON reply starts with `{`. The result is `(false, 0)`, printed as 550. The reads are exactly what the server sends for what the client wrote. |
| Cli.ErrorMessage | src/smtp_utils.py:164-169 | The whole message table of both programs. Types 1 and 2, and only they, get the sender and recipient messages. Types 0 and 3 get `Error desconocido del servidor` and `Error de protocolo SMTP` in the library program, and `Unknown server error.` and `SMTP error.` in the simulated client. `Unknown error` is printed exactly for a type outside 0 to 3. |
| Cli.StatusCode | src/smtp_utils.py:171-176 | Error type 1 gives 501 and 3 gives 503. Every other type gives 550, including unknown types. |
| Cli.Report | src/smtp_utils.py:239-245 | Success prints 250 with the acceptance message. A failure prints its table code, never 250, with its table message. An unknown type prints 550 `Unknown error`. |
| Cli.ReportDistinguishes | src/smtp_utils.py:164-176 | Different outcomes with known error types print different objects, even though types 0 and 2 share code 550. |
| Cli.CheckAsciiIff | src/smtp_utils.py:205-207 | The header check passes exactly when every `name: value` line is ASCII, and it then keeps the headers as given. A failure prints status 400. |
| Cli.CheckedHeadersBytewise | src/smtp_utils.py:205-207 | Headers that pass the check go on the wire as one octet per character. |
| Cli.DefaultText | src/smtp_utils.py:220-221 | No words give a single space. One word is kept as it is. |
| Cli.DefaultTextEmpty | src/smtp_utils.py:220-221 | The subject or body is empty only for a single empty word. |
| UtilsMain.FirstBad | src/smtp_utils.py:67-69 | It returns the first recipient in list order that is not a valid string, or none when all pass. |
| UtilsMain.Run | src/smtp_utils.py:200-250 | The printed status is always one of 250, 400, 500, 501, 503 and 550. A header argument that fails to parse prints 400 with the parser's reason. A parsed header whose `name: value` line is not ASCII prints 400 with the fixed non-ASCII reason. Otherwise a recipient list that fails to parse prints 400. |
| UtilsMain.RunReportsDelivery | src/smtp_utils.py:223-245 | Once the arguments are usable, `main` prints the report of `send_email` on the envelope built from them. |
| UtilsMain.NonStringRecipientCrashes | src/smtp_utils.py:247-248 | A recipient that is not a string, before any invalid one, makes the regular expression raise, and `main` prints 500. |
| UtilsMain.EmptyHeaderWordsCrash | src/smtp_utils.py:202-203 | `-h` with no words leaves `custom_headers`, a local of `main`, unassigned. When the recipient list parsed, the call to `send_email` raises `UnboundLocalError`, and the run prints 500 with that error's text. |
| SimClient.Validate | src/smtp_client.py:26-28 | The check holds exactly for a string that the address pattern matches, including one final line feed. It is false for any value that is not a string. |
| SimClient.ValidIsTruthy | src/smtp_client.py:48-53 | A valid address is never empty, so the emptiness tests add nothing to the address check. |
| SimClient.SimulateSend | src/smtp_client.py:47-58 | An invalid sender gives `(false, 1)` before any recipient is checked. Otherwise an invalid recipient gives `(false, 2)`, and `(true, 0)` comes exactly when all pass. |
| SimClient.AgreesWithEngine | src/smtp_client.py:47-58 | On string recipients, the simulated send succeeds exactly when the real engine's pre-validation passes, and otherwise gives the engine's result. |
| SimClient.NonStringRefused | src/smtp_client.py:52-54 | Unlike the library program, a recipient that is not a string is refused with 550 `Invalid recipient address`. |
| SimClient.EmptyHeaderWords | src/smtp_client.py:97-104 | An empty `-h` gives no custom headers, and the run goes on to the simulated send. |
| SimClient.HeaderStep | src/smtp_client.py:96-107 | The header step lets the run go on exactly when `-h` had no words or every parsed `name: value` line is ASCII. It then yields the parsed headers, or none. A parse error or a non-ASCII line is refused with its 400 text. |
| SimClient.Run | src/smtp_client.py:96-145 | A header argument that fails to parse prints 400 with the parser's reason. A non-ASCII header line prints 400 with the fixed reason. Otherwise a recipient list that fails to parse prints 400. Otherwise an invalid sender prints 501. With a valid sender, 250 is printed exactly when every recipient is a valid string, and 550 `Invalid recipient address` otherwise. |
| ToyServer.Serve | src/smtp_server.py:5 | The first text sent on a connection is the 220 greeting. |
| ToyServer.Render | src/smtp_server.py:26 | Every reply starts with `{` and ends with CRLF. The `status_code` field comes first, and its value is the verdict's code. |
| ToyServer.ReplyTable | src/smtp_server.py:12-26 | The six replies, in full. `Hello`, `Sender OK`, `Recipient OK`, `Ready for data` and `Goodbye` come with 250, and `Command not implemented` with 502. Each is written as `{"status_code": ` (`StatusKey`), the code, `, "message": "` (`MessageKey`), the message, and `"}` plus CRLF (`Close`). |
| ToyServer.DispatchByKeyword | src/smtp_server.py:12-24 | A chunk gets the verdict whose keyword starts it, so the order of the tests does not matter. It gets `NotImplemented` exactly when no keyword starts it. |
| ToyServer.KeywordsExclusive | src/smtp_server.py:13-22 | No chunk starts with keywords of two different verdicts. |
| ToyServer.StatusCodes | src/smtp_server.py:11-26 | The reply sent for a chunk carries status code 502 exactly when no keyword starts the chunk, and 250 otherwise. |
| ToyServer.AuthNotImplemented | src/smtp_server.py:23-24 | `AUTH PLAIN`, and content starting with no keyword, get 502. |
| ToyServer.OneReplyPerChunk | src/smtp_server.py:6-26 | Each non-empty chunk before the first empty one gets exactly one reply, in order. |
| ToyServer.StopsAtEmpty | src/smtp_server.py:7-9 | Nothing is answered from the first empty chunk on. |
| ToyServer.QuitKeepsReading | src/smtp_server.py:21-22 | `QUIT` is answered like any keyword, and later chunks are still answered. |

## Left out

- Sockets and asyncio are left out: opening the connection, `reader.read(1024)`, `writer.write`, `drain`, and the server's accept loop. Reads are a given sequence; once it is used up, a read returns empty text, as from a closed peer.
- Every failure other than a refused reply is one `TransportFail` read, with error type 3. This covers a reset, a failed write or drain, and undecodable octets. A write that fails is modelled as written, followed by a failed read; the outcome is the same.
- A peer that never replies is left out. `send_email` sets no timeout, so `reader.read(1024)` waits forever and `send_email` never returns. In the model every read yields a result.
- Lone surrogates are left out. Dafny's `char` excludes them, but a password, subject or body from the command line can hold them. Their `.encode()` would then raise, giving error type 3 at the credential or the content. A sender holding one fails the address pattern, which accepts only ASCII, and gives `(false, 1)` before anything is encoded.
- How octets split into reads is left out. One read is one reply; a reply longer than 1024 octets, or two replies in one read, are not modelled.
- `formatdate` reads the clock. The `Date` value is a parameter.
- `argparse` and `json.loads` are left out. Their results come in as values: the words of `-s` and `-b`; the recipient list or the text of the parse error; the header list, a parse error, or no words at all.
- The `json.dumps` text of the printed object, `print`, `exit` and logging are left out. An output is a status code and a message.
- A recipient argument that parses to JSON but not to a list is left out, and so are header values that are not strings.
- `close` is not modelled: the client never closes its writer, and nothing is stated about closing.
- UtilsMain.NonStringRecipientCrashes: the `TypeError` text is fixed to one wording; Python versions differ in what follows it.
- UtilsMain.EmptyHeaderWordsCrash: the `UnboundLocalError` text is the wording of Python 3.11 and later. Python 3.10 and earlier print `local variable 'custom_headers' referenced before assignment` instead.
- The toy server works on text. Decoding errors in `recv` are not modelled, and `start_server` is not modelled.
