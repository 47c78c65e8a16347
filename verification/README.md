# mailroom POP3 engine, modelled in Dafny

This project models the POP3 server core of mailroom, a small mail server
written in Rust. The model covers:

- the command parser (`POP3Command::try_from`, `bytes_to_uint`,
  `uppercase`);
- the response codec (`From<POP3Response> for Bytes`, `parse_oneline`,
  `parse_multiline`, `contains_crlf`);
- the connection state machine (`read_command`, `authenticate`,
  `transaction`);
- the Internet Message Format parser (`Mail::try_from`, `unfold`,
  `HeaderName::from`);
- the in-memory `TestMailBox` and its two copies.

The modules are:

| file | module | models |
|---|---|---|
| `wrappers.dfy` | `Wrappers` | `Option` and `Result` |
| `bytes.dfy` | `Bytes` | octets, CR, LF, SP |
| `str.dfy` | `Str` | the `str` methods the mail parser uses: `trim_start`, `trim`, `split_once`, `split`, `len` (UTF-8 octets) |
| `pop3_command.dfy` | `Pop3Command` | `src/pop3/command.rs` |
| `pop3_response.dfy` | `Pop3Response` | `src/pop3/response.rs` |
| `pop3_connection.dfy` | `Pop3Connection` | `src/pop3/connection.rs` |
| `imf_header.dfy` | `ImfHeader` | `src/imf/header.rs` |
| `imf_mail.dfy` | `ImfMail` | `src/database/imf/mail.rs` |
| `mailbox.dfy` | `MemoryMailBox`, `MailboxCrate`, `DatabaseCrate` | `mailbox/src/mailbox.rs`, `database/src/mailbox.rs` |

The connection is a pure state machine.

- **Events.** Each event is one socket read. An empty read means the peer
  closed the stream.
- **Outputs.** Each step returns the responses written to the socket. When
  the server shuts the stream down, it also returns `Close`.
- **Collaborators.** Three pieces of code outside the engine become
  function-valued fields of `Collaborators`:
  - UTF-8 decoding (`str::from_utf8`);
  - address validation (`EmailAddress::from_str`);
  - the credential store (`user_database::authenticate_user`), whose
    `Err` is a database error.

Message numbers are unbounded naturals. Strings are sequences of Unicode
scalar values, and whitespace is Rust's `char::is_whitespace`.

In three places the code departs from RFC 1939 or from its own doc
comments; the model follows the code in each:

- **No byte-stuffing.** Section 3 of RFC 1939 has a multi-line response
  stuff every line that begins with "." with a second ".". Neither the
  encoder nor `parse_multiline` stuffs or unstuffs, and only the final
  CRLF "." CRLF is removed (`Pop3Response.ParseMultilineDotLine`).
- **PASS with no remembered name.** The `Password` doc comment
  (src/pop3/command.rs:54-55) says PASS must be preceded by USER, but
  `authenticate` does not enforce it: it unwraps the remembered name, so
  the task panics on a PASS before any USER and also on a PASS after a
  USER whose argument was not UTF-8 or not an e-mail address, since that
  USER stored `None` (src/pop3/connection.rs:136-139). The model ends the
  session in `Ended(Panicked)` with no reply whenever the name is `None`
  and the password is UTF-8.
- **APOP.** Section 7 of RFC 1939 has APOP authenticate the user with a
  digest. The code answers "+OK" and ends the session without a
  transaction, as `authenticate` returns `false`.

## Model

| member | source | states |
|---|---|---|
| Pop3Command.BytesToUint | src/pop3/command.rs:161-180 | accepts exactly the non-empty all-digit strings (no sign, leading zeros allowed) and yields their decimal value read most-significant digit first, although the loop sums digit times ten-to-the-position from the right |
| Pop3Command.BytesToUintDecimal | src/pop3/command.rs:161-180 | parsing the decimal spelling of any number gives that number back |
| Pop3Command.LeadingZero | src/pop3/command.rs:161-180 | a leading "0" never changes the parse of a non-empty string, neither its success nor its value |
| Pop3Command.Uppercase | src/pop3/command.rs:182-192 | same length; every a–z octet becomes its upper-case letter, every other octet is unchanged |
| Pop3Command.UppercaseIdempotent | src/pop3/command.rs:182-192 | the result has no lower-case letter, so upper-casing twice equals upper-casing once |
| Pop3Command.Tokenize | src/pop3/command.rs:85-96 | the argument list is empty exactly for an empty body; no token holds a space; joining the tokens with single spaces gives back the body, less one trailing space |
| Pop3Command.SplitInverse | src/pop3/command.rs:86-96 | splitting on spaces loses nothing: joining the pieces with spaces restores the input |
| Pop3Command.TokenizeLoop | src/pop3/command.rs:86-96 | the octet-by-octet loop with its `last_space` index builds exactly the independent split-based `Tokenize` |
| Pop3Command.TokenizeJoin | src/pop3/command.rs:86-96 | non-empty space-free words joined with single spaces tokenize back into those words |
| Pop3Command.NumericArg | src/pop3/command.rs:107-115 | succeeds exactly when the argument exists and is decimal, with its value; otherwise `InvalidArguments` |
| Pop3Command.BytesArg | src/pop3/command.rs:99-104 | succeeds exactly when the argument exists, with its octets; otherwise `InvalidArguments` |
| Pop3Command.Dispatch | src/pop3/command.rs:117-153 | per upper-cased verb: QUIT/STAT/NOOP/RSET/CAPA always succeed; LIST and UIDL always succeed, with `None` for a missing or non-decimal argument; RETR/DELE/TOP succeed exactly with decimal arguments and carry their values; USER/PASS/APOP succeed exactly with enough arguments and carry them verbatim; an unmatched verb is `UnknownCommand` with the verb as sent |
| Pop3Command.DispatchInvalidArguments | src/pop3/command.rs:107-149 | `InvalidArguments` is returned exactly for RETR or DELE without a decimal argument, TOP without two, USER or PASS without one, and APOP without two |
| Pop3Command.DispatchSurplus | src/pop3/command.rs:117-153 | tokens after the third never change the result |
| Pop3Command.Parse | src/pop3/command.rs:74-156 | `IncompleteResponse` exactly when the frame does not end in CRLF; `InvalidSyntax` exactly for a bare CRLF; `UnknownCommand` exactly when the first token's upper case is no verb, reported as sent |
| Pop3Command.ParseInvalidArguments | src/pop3/command.rs:74-156 | a frame is rejected for its arguments exactly when it ends in CRLF, has a token, and its tokens are a bad argument list |
| Pop3Command.ParseSerialize | src/pop3/command.rs:74-156 | parsing inverts the wire form: every command with non-empty space-free raw arguments, written as its verb and arguments with numbers in decimal, parses back to itself |
| Pop3Command.ParseVerbCaseInsensitive | src/pop3/command.rs:117-150 | the case of the verb never matters; an unmatched verb is reported in its original spelling |
| Pop3Command.UintParseLeadingZero | src/pop3/command.rs:249 | "01230450" is 1230450 |
| Pop3Command.UintParseZero | src/pop3/command.rs:250 | "0" is 0 |
| Pop3Command.UintParseAccepts | src/pop3/command.rs:251 | "1127" is 1127 |
| Pop3Command.UintParseRejects | src/pop3/command.rs:252-264 | "", "Hell0, w0r1d!", "-100" and "+100" are rejected |
| Pop3Command.UppercaseAlphabet | src/pop3/command.rs:267-273 | the lower-case alphabet upper-cases to the upper-case alphabet |
| Pop3Command.ParseNoOpSurplus | src/pop3/command.rs:196-199 | "NOOP 1 2 3 4" is NOOP |
| Pop3Command.ParseQuitLower | src/pop3/command.rs:200-203 | "quit" is QUIT |
| Pop3Command.ParseListOne | src/pop3/command.rs:204-209 | "LIST 1" lists message 1 |
| Pop3Command.ParseListSpace | src/pop3/command.rs:210-215 | "LIST " lists everything: the trailing space makes no token |
| Pop3Command.ParseRetrieveExample | src/pop3/command.rs:216-221 | "RETR 1234321" retrieves message 1234321 |
| Pop3Command.ParseTopExample | src/pop3/command.rs:222-228 | "TOP 5 10" asks for ten lines of message 5 |
| Pop3Command.ParseUserMixedCase | src/pop3/command.rs:229-234 | "usEr mghebrial" is USER with the name kept as written |
| Pop3Command.ParseApopExample | src/pop3/command.rs:235-244 | "APOP mrose c4c9…22fb" carries the name and the digest verbatim |
| Pop3Response.ContainsCrlfScan | src/pop3/response.rs:153-164 | the window-by-window scan returns true exactly when a CR LF pair occurs somewhere, and false for inputs shorter than two octets |
| Pop3Response.Encode | src/pop3/response.rs:123-149 | starts with the status indicator; an empty message adds nothing before the terminator (no space), a non-empty one follows one space; ends in CRLF "." CRLF when the message holds a CR LF and in CRLF otherwise |
| Pop3Response.EncodeTerminatorIff | src/pop3/response.rs:139-146 | an encoding ends in the multi-line terminator exactly when its message holds a CR LF |
| Pop3Response.EncodeInjective | src/pop3/response.rs:123-149 | distinct responses have distinct encodings |
| Pop3Response.ParseStatusLine | src/pop3/response.rs:91-118 | a line parses exactly when it opens with "+OK" or "-ERR" followed by nothing or a space; otherwise `InvalidSyntax`; on success the line spells the response |
| Pop3Response.ParseOneline | src/pop3/response.rs:82-119 | `IncompleteResponse` exactly without a final CRLF; `InvalidSyntax` exactly when what precedes it opens with neither indicator followed by nothing or a space; a result is spelt by the line before the CRLF |
| Pop3Response.ParseMultiline | src/pop3/response.rs:42-79 | the same with CRLF "." CRLF: only the final terminator is removed |
| Pop3Response.OnelineRoundTrip | src/pop3/response.rs:82-119 | a response whose message has no CR LF survives encoding and one-line parsing |
| Pop3Response.MultilineRoundTrip | src/pop3/response.rs:42-79 | a response whose message has a CR LF survives encoding and multi-line parsing |
| Pop3Response.ParseOnelineBare | src/pop3/response.rs:169-176 | "+OK" and "-ERR" alone carry an empty message |
| Pop3Response.ParseOnelineMessage | src/pop3/response.rs:177-180 | "+OK Hello, world!" carries "Hello, world!" |
| Pop3Response.ParseMultilineDotLine | src/pop3/response.rs:181-187 | the multi-line test message, with its line ".f", is returned as it was sent |
| Pop3Response.ParseOnelineRejects | src/pop3/response.rs:190-201 | "+ok" and "-eRr" are invalid: the indicator is case-sensitive |
| Pop3Response.ParseOnelineGlued | src/pop3/response.rs:202-207 | "+OKHello, World" is invalid: a message must follow a space |
| Pop3Response.ParseMultilineUnterminated | src/pop3/response.rs:209-215 | a multi-line response without its terminator is incomplete |
| Pop3Response.EncodeOneline | src/pop3/response.rs:220-223 | "this is a test" encodes on one line |
| Pop3Response.EncodeMultiline | src/pop3/response.rs:224-227 | a message with a CR LF encodes with the multi-line terminator |
| Pop3Connection.ReadCommand | src/pop3/connection.rs:98-120 | an empty read is the peer closing; the buffer keeps growing exactly while it does not end in CRLF; a complete frame gives its parsed command; an unknown verb and a dropped frame (bare CRLF or bad arguments) are told apart exactly |
| Pop3Connection.RememberedName | src/pop3/connection.rs:135-141 | USER remembers a name exactly when its argument is UTF-8 and an e-mail address |
| Pop3Connection.CheckPassword | src/pop3/connection.rs:143-162 | TRANSACTION is entered exactly when there is a remembered name, a UTF-8 password and an account from the store, with "+OK Authenticated"; a non-UTF-8 or rejected password stays in AUTHORIZATION with the same name and "-ERR Username or password is not valid"; a UTF-8 password with no name panics; a store error fails the session |
| Pop3Connection.Authorize | src/pop3/connection.rs:130-186 | USER replies "+OK" and remembers the name; APOP replies "+OK" and ends the session; QUIT closes; CAPA lists "USER"; PASS is answered exactly as `CheckPassword` states (a password that is not UTF-8 or that the store does not know gets "Username or password is not valid" and keeps the name; an accepted one enters TRANSACTION; no remembered name panics; a store error fails the session); every other command is refused with "command not valid during authentication" and changes nothing |
| Pop3Connection.RejectedPassKeepsName | src/pop3/connection.rs:143-162 | a whole PASS frame that is not UTF-8, or that the store does not know for the remembered name, is answered "-ERR Username or password is not valid" and leaves the session in AUTHORIZATION with that name |
| Pop3Connection.TransactionReplies | src/pop3/connection.rs:189-228 | in TRANSACTION, a whole frame for any command but QUIT gets exactly its fixed reply and the session stays logged in as the same account |
| Pop3Connection.TransactionReply | src/pop3/connection.rs:193-228 | STAT, LIST, RETR and CAPA get their fixed bodies; DELE, NOOP and RSET get an empty "+OK"; TOP and UIDL get "-ERR unsupported"; USER, PASS and APOP get "command not valid during transaction"; the reply is positive exactly for the first seven |
| Pop3Connection.Transact | src/pop3/connection.rs:189-216 | QUIT, and only QUIT, ends the session with a stream shutdown; every other command keeps the account and gets exactly one reply, the one `TransactionReply` states for it (so DELE, NOOP and RSET an empty "+OK", TOP and UIDL "-ERR unsupported") |
| Pop3Connection.Start | src/pop3/connection.rs:126-128 | a new connection is in AUTHORIZATION with no name and an empty buffer, and sends "+OK hello" |
| Pop3Connection.Step | src/pop3/connection.rs:98-120 | an ended session ignores reads; an empty read aborts with a shutdown; a read that does not end a frame is buffered without output; a read that ends one empties the buffer; a read after which the buffer parses hands the parsed command to the AUTHORIZATION or TRANSACTION table, however many reads built the frame |
| Pop3Connection.Advance | src/pop3/connection.rs:101-118 | the outcome of one read: abort, keep buffering, answer "unknown command", drop the frame, or give the completed command to `Authorize` or `Transact` for the current state |
| Pop3Connection.StepParsed | src/pop3/connection.rs:106-110 | a read that completes a parsable frame, whatever was buffered before, gives exactly the state table's transition for the parsed command |
| Pop3Connection.SplitReadDelivered | src/pop3/connection.rs:98-120 | a command split over two reads, the first without its CRLF, is buffered and then handled exactly as one that arrives whole |
| Pop3Connection.RunConsistent | src/pop3/connection.rs:46-57 | over any sequence of reads, the buffer holds no complete frame, a remembered name is an address, and a transaction belongs to an account the store returned |
| Pop3Connection.TransactionIsVouched | src/pop3/connection.rs:143-157 | from a fresh connection, whatever the client sends, a session in TRANSACTION is logged in as an account the store returned for a valid address |
| Pop3Connection.TransactionOnlyAfterPass | src/pop3/connection.rs:46-57 | a read moves AUTHORIZATION to TRANSACTION exactly when it completes a PASS frame the store accepts for the remembered name |
| Pop3Connection.TransactionAbsorbing | src/pop3/connection.rs:189-216 | TRANSACTION is left only for Closed (exactly on a QUIT frame) or Aborted |
| Pop3Connection.NoReturnToAuthorization | src/pop3/connection.rs:46-57 | a session that has left AUTHORIZATION never returns to it |
| Pop3Connection.UnknownVerbKeepsPhase | src/pop3/connection.rs:112-116 | an unknown verb empties the buffer, keeps the state and answers "-ERR unknown command" |
| Pop3Connection.BadFrameDropped | src/pop3/connection.rs:117 | a frame with no verb or bad arguments is dropped silently and the state kept |
| Pop3Connection.StepWholeCommand | src/pop3/connection.rs:106-110 | a well-formed command arriving whole is handed to the current state's table |
| Pop3Connection.NoOpIdempotent | src/pop3/connection.rs:179-198 | any number of NOOPs leave a live session unchanged, with one reply each: "+OK" in TRANSACTION, the AUTHORIZATION refusal otherwise |
| Pop3Connection.LoginScenario | src/pop3/connection.rs:126-216 | greeting, USER, a rejected PASS, the right PASS, STAT, QUIT: the exact six outputs, the retry staying in AUTHORIZATION, and a closed session |
| Pop3Connection.FixedRepliesFraming | src/pop3/connection.rs:218-228 | the STAT reply travels on one line; the LIST and RETR replies and the capability list are multi-line |
| ImfMail.ContentLen | src/database/imf/mail.rs:21-23 | the body's length in UTF-8 octets, between one and four per character |
| ImfMail.UnfoldLinesFails | src/database/imf/mail.rs:51-67 | unfolding fails exactly when the first line is a continuation; otherwise a non-empty section yields at least one header |
| ImfMail.UnfoldLinesCount | src/database/imf/mail.rs:51-67 | there are as many unfolded headers as lines that begin one |
| ImfMail.UnfoldLinesConcat | src/database/imf/mail.rs:54-64 | unfolding neither loses nor adds a character: only the line breaks inside a folded header go |
| ImfMail.UnfoldPush | src/database/imf/mail.rs:57-59 | a line without leading whitespace is pushed as a new header |
| ImfMail.UnfoldJoin | src/database/imf/mail.rs:60-63 | a continuation line, whitespace and all, is appended to the last header |
| ImfMail.UnfoldAsWrittenPanics | src/database/imf/mail.rs:61-62 | the code as written agrees with the corrected unfolding wherever that succeeds, panics exactly where it fails, and never takes its own `MailParseError` path |
| ImfMail.LeadingContinuationPanics | src/database/imf/mail.rs:61-62 | the header section " A: b" panics as written and is `MailParseError` when corrected |
| ImfMail.UnfoldFails | src/database/imf/mail.rs:51-67 | `unfold` of a header section fails exactly when it begins with whitespace other than a line break |
| ImfMail.UnfoldExample | src/database/imf/mail.rs:99-102 | "Subject: This is" and " a test." unfold into one header |
| ImfMail.UnfoldExampleTwo | src/database/imf/mail.rs:104-110 | a folded Subject followed by "Foo: Bar\tBiz" unfolds into two headers |
| ImfMail.Field | src/database/imf/mail.rs:41-43 | a header has a field exactly when it holds a colon |
| ImfMail.FirstColon | src/database/imf/mail.rs:41-43 | a header is split at its first colon, both halves trimmed |
| ImfMail.HeaderMapFails | src/database/imf/mail.rs:39-44 | the header map is built exactly when every header holds a colon |
| ImfMail.HeaderMapKeys | src/database/imf/mail.rs:39-44 | the map's names are exactly the trimmed names of the headers |
| ImfMail.LastHeaderWins | src/database/imf/mail.rs:43 | of several headers with one name, the last one's trimmed body is kept |
| ImfMail.Sections | src/database/imf/mail.rs:32-35 | with a blank line, the input is headers, the first blank line and the body; otherwise the trimmed input and an empty body |
| ImfMail.ParseMailSplit | src/database/imf/mail.rs:30-47 | a message with a blank line parses exactly when the headers before it unfold and map, and its body is everything after it |
| ImfMail.ParseMailNoBody | src/database/imf/mail.rs:32-35 | without a blank line the trimmed input is all headers and the body is empty |
| ImfMail.ParseMailHeaders | src/database/imf/mail.rs:30-47 | a message parses exactly when its header section unfolds and every header holds a colon, and its map then holds exactly the headers' names |
| ImfMail.ParseMailHasHeaders | src/database/imf/mail.rs:30-47 | a parsed message has at least one header |
| ImfMail.HeaderLine | src/database/imf/mail.rs:69-95 | a "name:value" line, a blank line and a body parse to the trimmed name bound to the trimmed value, with that body |
| ImfMail.EmptyMailRejected | src/database/imf/mail.rs:30-47 | the empty message is rejected |
| ImfHeader.FromName | src/imf/header.rs:33-61 | the twenty-one RFC 5322 names map to their variants by exact, case-sensitive spelling; any other name is `Other` with the text kept |
| ImfHeader.SpellingRoundTrip | src/imf/header.rs:33-61 | every dedicated variant is recovered from its spelling |
| ImfHeader.SpellingInjective | src/imf/header.rs:36-57 | distinct dedicated variants have distinct spellings |
| ImfHeader.CaseSensitive | src/imf/header.rs:36-58 | "date" is `Other("date")` |
| MemoryMailBox.GetMessages | mailbox/src/mailbox.rs:25-31 | the map's keys are exactly 0 to n-1, and key i holds the i-th stored message |
| MemoryMailBox.DeleteMessage | mailbox/src/mailbox.rs:33-41 | an out-of-range number is `MessageDoesNotExist` and changes nothing; otherwise one message fewer, with the earlier ones kept and the later ones shifted down |
| MemoryMailBox.DeleteRemovesOne | mailbox/src/mailbox.rs:33-41 | a successful delete removes exactly the named message: the remaining ones plus it are the former contents |
| MemoryMailBox.DeleteRenumbers | mailbox/src/mailbox.rs:25-41 | after a delete, listing number i is the former i below the deleted number and the former i+1 from it on |
| MailboxCrate.New | mailbox/src/mailbox.rs:16-21 | a new mailbox holds one message of 37 octets |
| MailboxCrate.NewDeletes | mailbox/src/mailbox.rs:16-41 | in a new mailbox only message 0 can be deleted, which leaves it empty |
| DatabaseCrate.New | database/src/mailbox.rs:16-21 | a new mailbox is empty |
| DatabaseCrate.NewRejectsDeletes | database/src/mailbox.rs:33-36 | in a new mailbox every delete fails and changes nothing |
| Str.TrimStart | src/database/imf/mail.rs:55 | removes the longest whitespace prefix: the result is a suffix, what went is whitespace, and it does not start with whitespace |
| Str.Trim | src/database/imf/mail.rs:43 | the result is a slice with whitespace on both sides cut off, and neither starts nor ends with whitespace |
| Str.SplitOnce | src/database/imf/mail.rs:32 | splits at the first occurrence of the separator; none exactly when there is no occurrence |
| Str.Split | src/database/imf/mail.rs:54 | at least one piece; the pieces joined with the separator give back the input; no piece holds the separator |
| Str.Utf8Length | src/database/imf/mail.rs:22 | the length of the UTF-8 encoding |

## Left out

- Pop3Command.BytesToUint: the 64-bit `usize` arithmetic of `bytes_to_uint` is not modelled. `base.pow(i)` and `out +=` at src/pop3/command.rs:176 overflow (a panic in a debug build, a wrap in a release build) exactly when the token has more than 20 digits, since `base.pow(20)` overflows even for a leading 0 (so "000000000000000000001" panics where the model returns 1), or when its value exceeds 18446744073709551615. Tokens of up to 20 digits with a value that fits, such as "18446744073709551615", parse without overflow, as in the model. The model returns the exact value in every case.
- Pop3Command.Dispatch: `usize` message numbers are unbounded naturals, for the same reason.
- I/O: the `io::Error` exits from `write_all`, `read_buf` and `shutdown` (src/pop3/connection.rs:89, 101, 232) are not modelled. Writes always succeed and a read returns whatever octets arrived. The tokio accept loop and the task per connection are not modelled either.
- ImfMail.ParseMail: follows the release-build result of `&out.len()-1` at src/database/imf/mail.rs:61. There the index wraps to `usize::MAX`, `get_mut` finds nothing, and the result is `MailParseError`. The debug-build panic is `ImfMail.UnfoldLinesAsWritten` (see Findings).
- ImfMail.Mail: the `HashMap<String, String>` of headers is a Dafny `map`; iteration order is not part of the model.
- Collaborators: `str::from_utf8`, `EmailAddress::from_str`, `user_database::authenticate_user` (a database query with argon2 hashing) and its errors are parameters, not models.
- Pop3Connection.Transact: the TRANSACTION replies are the fixed placeholder bodies of the source. DELE marks nothing and QUIT deletes nothing, because the source does neither; no mailbox is consulted.
- ImfMail.HeaderLine: the source's `mail_parse` test uses five headers; the model proves its one-header shape for any name, value and body, and the general map laws (`HeaderMapKeys`, `LastHeaderWins`) cover the rest.
- `HeaderName` and `HeaderBody` have no parser of their own beyond `HeaderName::from`; `ImfHeader` is only the record.
- Outside this model: the SMTP engine, the configuration editor, the database migration, the command-line interface and `pop3/src/connection.rs`, an older copy of the connection.

## Findings

| source | as written | input that shows it | evidently intended | confidence | as-written member | corrected member |
|---|---|---|---|---|---|---|
| src/database/imf/mail.rs:61 | `let index = &out.len()-1;` is computed before `out.get_mut(index).ok_or(MailParseError)?`, so a continuation line before any header underflows the subtraction | the header section " A: b" (first line starts with whitespace); a debug build panics instead of returning an error | a continuation line with no header before it is `MailParseError`, which the `ok_or` is written for | not executed | ImfMail.UnfoldAsWrittenPanics, ImfMail.LeadingContinuationPanics (over ImfMail.UnfoldLinesAsWritten) | ImfMail.UnfoldLinesFails (over ImfMail.UnfoldLines) |
