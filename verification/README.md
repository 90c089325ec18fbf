# Mailpit in Dafny

Mailpit takes in mail over SMTP, keeps it in SQL tables, and shows it over POP3, a search and a web
interface. This project models the parts of it with the most state and the most intricate text handling, and
proves what those parts are for, over all inputs and all runs. `dafny verify dfyconfig.toml` checks it.

Code that changes state step by step is modelled as classes and loops in the same shape, each proved against
a function or a predicate; what the functions mean is proved in lemmas.

| files | what they model |
|---|---|
| `bytes`, `dot_stuffing`, `smtp_data` | the buffered reader, dot-stuffing, and reading or draining a message body |
| `smtp_session`, `smtp_traces`, `smtp_commands` | the SMTP command loop, what its every run amounts to, and what each command does in every state |
| `pop3_text`, `pop3` | RETR and TOP on the wire, and the POP3 session |
| `args_parser`, `text_runs`, `like`, `address_json`, `search`, `search_keys` | search strings, the words of a text, the escaping of words for LIKE and for JSON, stored lists of addresses, the rows a search selects, and what each key finds |
| `headers`, `header_fields` | rewriting and removing a header field of a raw message, and when that does what it should |
| `short_uuid` | the 22-character identifiers |
| `orientation` | undoing the EXIF orientation of an image |
| `envelope_cache`, `envelope_answers`, `throttle`, `hub` | the single-flight cache of parsed mail, the registry of rate limiters, the websocket hub |
| `tags`, `mailbox` | the tag tables, the mailbox tables and the counters kept beside them |

**How the SMTP loop is stated.** A session appends to a ghost log: lines and messages read, senders and
recipients accepted, handler calls with their arguments, resets, TLS, authentication. `IsReaction` says what
each command must append in each state, `Allowed` when an event may be appended at all, and `Proper` that
every event of a log was allowed. `Serve` keeps `Proper`, whatever the client sends and whatever handlers
answer, for every buffer that can hold the end line, and makes its log of rounds: `IsRun` says that each round
reads the next octets of the stream and reacts to them in the state that the rounds before it lead to.
Everything in `smtp_traces` is a consequence of `Proper` and of `IsRun` alone. Nothing of a message, taken or
refused, is read as a command.

**How concurrency is stated.** In the envelope cache every region that holds the lock is one method, and so
is every action between such regions (the parse, the closing of the channel, a waiter waking up, a timer
firing, which is apart from its function getting the lock). What a step does is also a function of the state,
`Next`, so that lemmas can speak of all runs; the class is proved to do the same.
In the hub a step is one case of the `select` or one receive of a write pump; sending on a closed channel and
closing twice would bring the program down and are excluded by preconditions.

**Assumptions.** Message ids are never reused. Raw mail never changes once stored. Tag names compare
without regard to case and are unique in that sense (internal/storage/schemas/1.4.0.sql:1-7). Storage operations
are sequential and their commits succeed. Case folding, lower-casing and `(?i)` act on ASCII letters. Texts
are valid Unicode. The counters do not overflow.

**Where the code does not do what it is documented to do.** The model follows the code.

- A message that begins with a dot loses it on RETR, as stuffing looks for a dot after a line feed only
  (`RetrRoundTrip` says exactly when RETR is right); TOP has the same gap at the start of the headers and of the
  body (`TopRoundTrip`).
- TOP sends the whole body whatever number of lines is asked for (`TopKeepsToLinesExactlyWhen`,
  `TopSendsTwoLines`), and one empty line too many before it, as the empty line is sent with a line ending of its
  own (`TopAddsEmptyLine`).
- `SetMessageHeader` looks for the field's text as the scan has collected it, with CR LF after every line, and
  replaces its first occurrence. That can be inside an earlier field (`WrongFieldIsRewritten`). Or the text occurs
  nowhere, as the message ends a line of the field with a bare line feed or not at all; then the message is returned
  as it is, without an error (`UnchangedExactlyWhen`), as is every message without carriage returns
  (`BareLineFeedsAreLeft`, `FieldIsLeft`). The replacement is right exactly when all lines of the field end with
  CR LF and its text does not occur earlier (`RewriteIsRightExactlyWhen`).
- `RemoveMessageHeaders` fails in the same two ways, so a field that was to be removed can stay without an error. It
  is right also when the text between the occurrences repeats (`RemovalIsRightExactlyWhen`, and
  `NamesAreRemovedExactlyWhen` for a list of names).
- A word can be found inside the escapes of the stored JSON (`JsonSearchFindsTooMuch`;
  `JsonSearchIsExactExactlyWhen` says for which words), and in its keys and punctuation: `to:name` finds every message
  with a recipient (`EveryRecipientHasAName`). `ListSearchIsExactExactlyWhen` and `ObjectSearchIsExactExactlyWhen` say
  for which words a search for addresses is exact.
- A blank term is ignored, but excluding a blank term excludes every message (`ExcludedCommaFindsNothing`). Other
  terms without a condition are ignored on both sides (`ExclusionIsIgnoredExactlyWhen`).
- A message deleted and invalidated while a parse of it is under way can still be cached and served afterwards
  (`DeletedMessageIsServed`); `NeverServedAgainExactlyWhen` says exactly when it cannot.

## Model

| member | source | states |
|---|---|---|
| `Bytes.Reader.ReadSlice` | internal/smtpd/smtpd.go:949-957 | what a fixed-size buffer yields: a piece up to a line feed, or a full buffer without one, or, at the end, the rest; nothing is lost or repeated |
| `Bytes.Reader.ReadLine` | internal/smtpd/smtpd.go:893-906 | one line without its ending, or a flagged prefix of it, a final carriage return put back |
| `DotStuffing.FindEnd` | internal/smtpd/smtpd.go:963-966 | the end of a message is the first `.` CR LF that starts a line, and none is missed |
| `DotStuffing.FindEndSkips` | internal/smtpd/smtpd.go:985-1002 | text without an end line can be passed over in pieces cut anywhere |
| `DotStuffing.StuffedHasNoEnd` | internal/pop3/server.go:349-356 | stuffed text holds no end line, whatever follows it |
| `DotStuffing.UnstuffUndoesStuff` | internal/smtpd/smtpd.go:967-970 | taking off leading dots undoes stuffing |
| `DotStuffing.StuffedTextIsRecovered` | internal/smtpd/smtpd.go:962-976 | the receiver of a stuffed text finds its end where it was put, recovers the text, and goes on right after it |
| `SmtpData.DrainData` | internal/smtpd/smtpd.go:981-1002 | draining leaves exactly what follows the end line, wherever the buffer cuts |
| `SmtpData.ReadData` | internal/smtpd/smtpd.go:936-979 | for every input, buffer and limit: the unstuffed lines before the end, or a refusal exactly when they are over the limit; either way what follows the end line is left unread; without an end line an error |
| `SmtpData.PartialLineBound` | internal/smtpd/smtpd.go:957-961 | a message whose line starts with a partial one is at least as long as it, although a dot may still be dropped |
| `SmtpData.PartialLineRefused` | internal/smtpd/smtpd.go:957-961 | the early check of a partial line refuses only what the final check would |
| `SmtpSession.ReadLine` | internal/smtpd/smtpd.go:888-922 | the next line of the stream is taken exactly when it fits the buffer, and is gone from the stream either way |
| `SmtpSession.MessageOctetsEnd` | internal/smtpd/smtpd.go:936-979 | the octets taken by DATA are one message, ending with its end line |
| `SmtpSession.ReadMessage` | internal/smtpd/smtpd.go:609-640 | the outcome of DATA's reading: a text with the octets it stands for, too big, or cut short |
| `SmtpSession.Session.constructor` | internal/smtpd/smtpd.go:402-416 | a session starts with nothing greeted or open, and with 100 recipients when no maximum is given |
| `SmtpSession.Session.NextLine` | internal/smtpd/smtpd.go:424-441 | a line taken off the stream is accounted for in the log |
| `SmtpSession.Session.HandleHello` | internal/smtpd/smtpd.go:443-464 | HELO and EHLO end the transaction |
| `SmtpSession.Session.HandleMail` | internal/smtpd/smtpd.go:465-541 | MAIL opens a transaction only when secured, authenticated and greeted as required and no recipient is set, and only for a valid address and parameters within the size limit; a refusal keeps the earlier sender |
| `SmtpSession.Session.HandleRcpt` | internal/smtpd/smtpd.go:542-587 | RCPT adds a recipient only inside a transaction, below the maximum and approved under the current sender; a refused one is swallowed or rejected as configured |
| `SmtpSession.Session.TakeMessage` | internal/smtpd/smtpd.go:602-640 | reading a message changes nothing but the stream |
| `SmtpSession.Session.HandOver` | internal/smtpd/smtpd.go:642-693 | one handler call with the Received header and the text, which ends the transaction if it succeeds; no call when no recipient was approved |
| `SmtpSession.Session.HandleData` | internal/smtpd/smtpd.go:588-693 | DATA reads a message only inside a transaction with a recipient, approved or swallowed, and hands over only what was read whole and within the limit |
| `SmtpSession.Session.HandleRset` | internal/smtpd/smtpd.go:697-707 | RSET ends the transaction |
| `SmtpSession.Session.BeginTls` | internal/smtpd/smtpd.go:774-787 | inside TLS a new stream starts, and nothing sent in clear counts |
| `SmtpSession.Session.GoOnInClear` | internal/smtpd/smtpd.go:768-773 | after a failed handshake the transaction goes on, with whatever the handshake has left of the stream |
| `SmtpSession.Session.HandleStartTls` | internal/smtpd/smtpd.go:746-787 | STARTTLS without parameters begins TLS if it is configured and not in force, and the outcome of the handshake decides which stream is read next |
| `SmtpSession.Session.CheckCredentials` | internal/smtpd/smtpd.go:1069-1172 | an AUTH exchange reads the next lines of the stream, as many as the mechanism needs, and asks the handler once if all of them could be read and decoded, and only then |
| `SmtpSession.Session.HandleAuth` | internal/smtpd/smtpd.go:788-859 | AUTH asks the handler only outside a transaction, once granted never again, and only for a mechanism that the state of TLS or the configuration allows |
| `SmtpSession.Session.Execute` | internal/smtpd/smtpd.go:441-863 | each command has exactly its reaction |
| `SmtpSession.Session.Round` | internal/smtpd/smtpd.go:419-441 | every round reads the next line of the stream; one that fits the buffer is answered as its command, a longer one is not; the state and the stream follow from the events |
| `SmtpSession.Session.Serve` | internal/smtpd/smtpd.go:402-863 | on every run the log is made of rounds, each of which follows from the place where those before it lead, the loop ends only with QUIT or a lost connection, and no round follows QUIT, the end of the input or a message cut short; all events were allowed when they happened |
| `SmtpTraces.OpenMeans` | internal/smtpd/smtpd.go:408-412 | the variables of an open transaction are the sender of its MAIL and the recipients accepted since |
| `SmtpTraces.OpenExists` | internal/smtpd/smtpd.go:408-412 | an open transaction goes back to an accepted MAIL with no reset since |
| `SmtpTraces.WhatTheStateRemembers` | internal/smtpd/smtpd.go:443-463 | the session is greeted, secured or authenticated only if it was so earlier in the run |
| `SmtpTraces.RecipientsBounded` | internal/smtpd/smtpd.go:567-569 | no transaction gets more recipients than the maximum |
| `SmtpTraces.HandlerCallsAreJustified` | internal/smtpd/smtpd.go:642-672 | every handler call carries the last accepted sender and the recipients accepted since in order, one to the maximum of them, each approved under that sender, after a greeting and with required TLS and authentication in force, and the text of the message just read |
| `SmtpTraces.DeliveredOnce` | internal/smtpd/smtpd.go:687-693 | between a delivery and any later handler call there is the MAIL of the later one |
| `SmtpTraces.DataRound` | internal/smtpd/smtpd.go:588-693 | a round of DATA with a stuffed text within the limit hands over exactly that text and leaves what follows it to be read |
| `SmtpTraces.RecipientsAccumulate` | internal/smtpd/smtpd.go:567-580 | on every run, approved recipients no more than the maximum are accepted one by one and in order |
| `SmtpTraces.CompliantMailIsHandedOver` | internal/smtpd/smtpd.go:402-693 | on every run of the loop, the octets of a client that names a sender, with any parameters that fit, and approved recipients and transmits a stuffed text lead to exactly one handler call in its DATA round, with these and nothing else, and what it sends next is read next |
| `SmtpCommands.MailIsAcceptedExactlyWhen` | internal/smtpd/smtpd.go:465-541 | in every state: MAIL is accepted if and only if security is in force, there was a greeting and no recipient, the address is valid, and its parameters fit: a valid AUTH and a SIZE that is well-formed and no larger than the limit, if there is one; otherwise the earlier sender stays |
| `SmtpCommands.RcptIsAcceptedExactlyWhen` | internal/smtpd/smtpd.go:542-587 | in every state: which recipients the handler is asked about, which are accepted and which swallowed, and what the transaction then holds |
| `SmtpCommands.GreetingExactly` | internal/smtpd/smtpd.go:443-464 | a greeting is remembered and ends the transaction |
| `SmtpCommands.ResetExactlyWhen` | internal/smtpd/smtpd.go:697-707 | RSET is carried out if and only if no TLS is owed, and ends the transaction only then |
| `SmtpCommands.TlsStartsExactlyWhen` | internal/smtpd/smtpd.go:746-787 | TLS begins if and only if a handshake is made, where TLS is configured and not in force, and succeeds; what is left of the state and which stream is read next, for both outcomes |
| `SmtpCommands.DataIsHandedOverExactlyWhen` | internal/smtpd/smtpd.go:588-693 | for every state and every continuation of the stream: the octets that DATA takes, and whether their unstuffed text is handed over, dropped, too big or cut short |
| `SmtpCommands.TransactionAfterData` | internal/smtpd/smtpd.go:660-693 | the transaction is over if and only if the message was dropped or the handler has taken it |
| `SmtpCommands.AuthIsAskedExactlyWhen` | internal/smtpd/smtpd.go:788-859 | in every state: the handler is asked if and only if AUTH is possible, the mechanism allowed, and every line that it needs is read and decoded; exactly the lines needed are read, and they are the next ones |
| `SmtpCommands.OthersDoNothing` | internal/smtpd/smtpd.go:694-745 | QUIT, NOOP, XCLIENT, HELP, VRFY and EXPN change nothing of a transaction |
| `Pop3Text.ByteStuffIsStuff` | internal/pop3/server.go:355 | replacing LF `.` by LF `..` stuffs every line but the first |
| `Pop3Text.JoinSplit` | internal/pop3/functions.go:61-68 | splitting into any number of pieces and joining them gives the text back |
| `Pop3Text.TopSendsWholeBody` | internal/pop3/functions.go:54-69 | TOP's header section and body are those of the message, and the body is whole for every number of lines but none |
| `Pop3Text.TopKeepsToLinesExactlyWhen` | internal/pop3/functions.go:61-68 | TOP sends no more lines than asked for if and only if none are asked for or the body has no more |
| `Pop3Text.TopSendsTwoLines` | internal/pop3/functions.go:61-68 | a message of which one line is asked for and two are sent |
| `Pop3Text.RetrRoundTrip` | internal/pop3/server.go:346-356 | the receiver of RETR recovers the message and one line ending, if and only if it does not begin with a dot |
| `Pop3Text.TopRoundTrip` | internal/pop3/server.go:386-390 | the receiver of TOP recovers headers, two empty lines and body, if and only if neither part begins with a dot |
| `Pop3Text.TopAddsEmptyLine` | internal/pop3/server.go:386-390 | what is received is never the headers, an empty line and then the body, whatever the message |
| `Pop3.VisibleAscends` | internal/pop3/server.go:292-296 | listings are in the order of the message numbers |
| `Pop3.VisibleIsComplete` | internal/pop3/server.go:254-260 | a number is listed exactly if it is in the snapshot and not marked |
| `Pop3.MarksAreOfTheSnapshot` | internal/pop3/server.go:394-408 | on every run the marks are distinct ids of the login snapshot |
| `Pop3.NothingMarkedAllVisible` | internal/pop3/server.go:409-411 | after RSET every message is visible under its own number |
| `Pop3.ListingsAgree` | internal/pop3/server.go:262-332 | STAT and the head of LIST give the number and the sum of LIST's rows, and UIDL has the same numbers |
| `Pop3.ListingIsExact` | internal/pop3/server.go:292-296 | LIST shows exactly the unmarked messages of the snapshot, with their sizes |
| `Pop3.IdListingIsExact` | internal/pop3/server.go:325-330 | UIDL shows exactly the unmarked messages of the snapshot, with their ids |
| `Pop3.ListOfOneIsItsRow` | internal/pop3/server.go:273-298 | LIST with a number gives the row that the full listing has for it, and is refused if and only if there is none |
| `Pop3.UidlOfOneIsItsRow` | internal/pop3/server.go:299-332 | the same of UIDL, which is also refused for more than one argument |
| `Pop3.Client.CountVisible` | internal/pop3/server.go:264-271 | the count and total size of the unmarked messages |
| `Pop3.Client.ListVisible` | internal/pop3/server.go:292-296 | the rows of LIST |
| `Pop3.Client.ListIds` | internal/pop3/server.go:325-330 | the rows of UIDL |
| `Pop3.Client.HandleList` | internal/pop3/server.go:273-298 | LIST with and without a number, and its refusals |
| `Pop3.Client.HandleUidl` | internal/pop3/server.go:299-332 | UIDL with and without a number, and its refusals |
| `Pop3.RetrSendsTheMessage` | internal/pop3/server.go:333-357 | RETR sends a message exactly if its number is visible and it can be read, and the client recovers it exactly if it does not begin with a dot |
| `Pop3.TopSendsTheMessage` | internal/pop3/server.go:358-391 | TOP answers exactly for a visible number, a number of lines and a readable message, and the client recovers header section and body exactly if neither begins with a dot |
| `Pop3.DeleHidesOne` | internal/pop3/server.go:394-408 | DELE of a visible number hides that message and no other, and renumbers none |
| `Pop3.MarkedIsInvisible` | internal/pop3/server.go:255-260 | on every run, from its DELE to the next RSET a message is refused by every command that names its number |
| `Pop3.Client.HandleTransactionCommand` | internal/pop3/server.go:254-415 | every reply follows from the snapshot and the marks |
| `Pop3.LoginIsJustified` | internal/pop3/server.go:188-232 | a session has one login, with an accepted password after a USER that names somebody, and before it no command reaches a message |
| `Pop3.LoginSucceedsExactlyWhen` | internal/pop3/server.go:206-237 | PASS logs in if and only if nobody is, a user was named and the password is accepted; when it fails, when it ends the session and when it is refused |
| `Pop3.UserIsNamed` | internal/pop3/server.go:195-205 | the user of a login is the argument of the last USER before it that had exactly one |
| `Pop3.FailuresAreCounted` | internal/pop3/server.go:226-234 | the count that ends a session is the number of failed logins |
| `Pop3.ResetUnmarksAll` | internal/pop3/server.go:409-411 | after RSET nothing is marked, on every transcript |
| `Pop3.NothingAfterTheEnd` | internal/pop3/server.go:199-250 | nothing is answered after QUIT, after an error that ends the session, or after the fifth failed login |
| `Pop3.Client.Handle` | internal/pop3/server.go:178-250 | every command keeps the session in line with its transcript |
| `Pop3.Client.HandleClient` | internal/pop3/server.go:111-252 | the transcript is of the commands given, in order, to the first that ends the session; what is deleted is exactly the marks since the last RSET when that is QUIT, and nothing otherwise |
| `ArgsParser.Parse` | internal/tools/argsparser.go:6-32 | the loop computes the arguments that the lemmas below describe |
| `ArgsParser.ArgsAreClean` | internal/tools/argsparser.go:15-29 | no argument holds a quote, is empty or has white space around it |
| `ArgsParser.ArgsKeepLetters` | internal/tools/argsparser.go:6-32 | apart from white space and quotes, nothing is lost, added or reordered |
| `ArgsParser.WrittenOutRoundTrip` | internal/tools/argsparser.go:6-32 | quoting phrases, or the part of each after a key, and joining them with spaces is undone |
| `TextRuns.RunsOfSpaced` | internal/storage/utils.go:105-114 | taking a text apart into words undoes joining words by single spaces |
| `TextRuns.RunsKeep` | internal/storage/utils.go:105-114 | the words of a text keep every character that belongs to words, in order |
| `Like.EscapedIsLiteral` | internal/storage/utils.go:133-140 | an escaped word matches itself and nothing else, up to case |
| `Like.PatternMeansContains` | internal/storage/utils.go:133-140 | the pattern of an escaped word matches exactly the texts that contain the word up to case |
| `Like.JsonRoundTrip` | internal/storage/utils.go:142-153 | what is written as a JSON string is read as the same text, by section 7 of RFC 8259 |
| `Like.ContainedInJson` | internal/storage/utils.go:142-153 | if a text contains a word, its JSON form contains the word's |
| `Like.JsonSearchFinds` | internal/storage/utils.go:142-153 | no name that contains the word is missed, wherever it stands in the stored JSON |
| `Like.JsonSearchFindsTooMuch` | internal/storage/utils.go:142-153 | the converse fails: `u0026` is found in `&` |
| `Like.MatchIsGenuine` | internal/storage/utils.go:142-153 | a match of a word that can start inside no escape is a match of the word itself |
| `Like.FoundAfterBackslash` | internal/storage/utils.go:142-153 | every word that can follow the backslash of an escape is found in some text that does not contain it |
| `Like.FoundAtTheEndOfAnEscape` | internal/storage/utils.go:142-153 | and so is every word that can start with the last character of an escape |
| `Like.JsonSearchIsExactExactlyWhen` | internal/storage/utils.go:142-153 | the search for a word in JSON is exact for all texts if and only if the word can start inside no escape |
| `AddressJson.QuoteParts` | internal/storage/utils.go:142-153 | a word without a quote is found on one side of a quote or on the other, never across it |
| `AddressJson.MembersParts` | internal/storage/structs.go:120-127 | what is found in a stored address is found in its name, its address, a key or the punctuation, or in what stands around it |
| `AddressJson.EveryRecipientHasAName` | internal/storage/search.go:355-363 | the word `name` finds every list with an address |
| `AddressJson.ListSearchIsExactExactlyWhen` | internal/storage/search.go:324-363 | the search for a word in lists of addresses is exact for all lists if and only if the word can start inside no escape and occurs in no key and in no punctuation of the stored list |
| `AddressJson.ObjectSearchIsExactExactlyWhen` | internal/storage/search.go:364-372 | likewise for the sender, which is one object |
| `Search.CleansToNothing` | internal/storage/utils.go:105-114 | cleaning leaves nothing exactly of blank texts |
| `Search.CleanStringIs` | internal/storage/utils.go:105-114 | cleaning gives the words of the text, in order, in lower case and with single spaces between them |
| `Search.CleanStringIsClean` | internal/storage/utils.go:105-114 | nothing that is to be cleaned away is left, and no white space but single spaces inside |
| `Search.CleaningAgainChangesNothing` | internal/storage/utils.go:105-114 | cleaning what is clean changes nothing |
| `Search.SearchQueryBuilder` | internal/storage/search.go:310-524 | the loop adds, for each argument in turn, its condition if it has one |
| `Search.SelectionIsConjunction` | internal/storage/search.go:334-521 | a row is selected exactly if it satisfies every term |
| `Search.TermOrderIsIrrelevant` | internal/storage/search.go:334-521 | the order of the terms and their repetition do not matter |
| `Search.ExclusionComplements` | internal/storage/search.go:341-521 | the excluded term selects the complement; for dates both keep the very moment, for sizes both lose the very size |
| `Search.ExclusionIsIgnoredExactlyWhen` | internal/storage/search.go:335-521 | a term without a condition has none when excluded either, if and only if it is not blank |
| `Search.ExcludedBlankSelectsNothing` | internal/storage/search.go:335-346 | a blank term selects everything, and so its exclusion should, but that selects nothing |
| `Search.ExcludedCommaFindsNothing` | internal/storage/search.go:335-346 | a search that can be made, `-,`, finds no message, while `,` finds all |
| `SearchKeys.WordSearchMeaning` | internal/storage/search.go:513-520 | a term that starts with none of the keys and is no exclusion finds exactly the messages whose search text contains it |
| `SearchKeys.SubjectSearchMeaning` | internal/storage/search.go:410-418 | `subject:` in any case of letters finds exactly the messages whose subject contains the words as written |
| `SearchKeys.AddressSearchFinds` | internal/storage/search.go:355-399 | the key of a column finds every message with a name or address there that contains the words |
| `SearchKeys.AddressSearchIsExact` | internal/storage/search.go:355-399 | for words that can start inside no escape and do not occur in the syntax, the key of a column finds exactly the messages with a name or address there that contains the words |
| `SearchKeys.SenderSearchIsExact` | internal/storage/search.go:364-372 | likewise `from:` and the sender |
| `SearchKeys.AddressSearchMeaning` | internal/storage/search.go:355-399 | `to:`, `from:`, `cc:`, `bcc:` and `reply-to:`, in any case of letters, look into the column of that name and no other |
| `SearchKeys.AddressedSearchMeaning` | internal/storage/search.go:400-409 | `addressed:` looks into all five columns |
| `SearchKeys.MessageIdSearchMeaning` | internal/storage/search.go:419-427 | `message-id:` finds exactly the ids that contain the words |
| `SearchKeys.TagSearchMeaning` | internal/storage/search.go:428-436 | `tag:` finds exactly the messages with that tag |
| `SearchKeys.ReadSearchMeaning` | internal/storage/search.go:437-448 | `is:read` and `is:unread` find exactly the messages that are |
| `SearchKeys.TaggedSearchMeaning` | internal/storage/search.go:449-454 | `is:tagged` finds exactly the messages with a tag |
| `SearchKeys.InlineSearchMeaning` | internal/storage/search.go:455-460 | `has:inline` finds exactly the messages with inline parts |
| `SearchKeys.AttachmentSearchMeaning` | internal/storage/search.go:461-466 | `has:attachment` finds exactly the messages with attachments |
| `SearchKeys.AfterSearchMeaning` | internal/storage/search.go:467-481 | `after:` keeps exactly the messages from the date on, and is ignored without a date |
| `SearchKeys.BeforeSearchMeaning` | internal/storage/search.go:482-496 | `before:` keeps exactly the messages up to the date, and is ignored without a date |
| `SearchKeys.LargerSearchMeaning` | internal/storage/search.go:497-504 | `larger:` finds exactly the messages over the size, and without a size the term is words |
| `SearchKeys.SmallerSearchMeaning` | internal/storage/search.go:505-512 | `smaller:` finds exactly the messages under the size, and without a size the term is words |
| `Headers.CollectField` | internal/tools/headers.go:92-125 | the scan collects the text of the first field with the name, with its folded lines |
| `Headers.HasNameMeans` | internal/tools/headers.go:34 | a line has the name if and only if it begins with it and a colon, in any case of letters |
| `Headers.SetMessageHeader` | internal/tools/headers.go:84-137 | replaces that text, fails when it is not located, and puts a new field first |
| `Headers.RemoveMessageHeaders` | internal/tools/headers.go:21-79 | removes the first field of each name in turn, and stops at the first that is not located |
| `Headers.UnchangedExactlyWhen` | internal/tools/headers.go:92-133 | for every message with a located field: it is returned unchanged for every value, and by a removal, if and only if the collected text does not occur in it |
| `Headers.BareLineFeedsAreLeft` | internal/tools/headers.go:104-133 | a message without carriage returns is never changed although the field is located |
| `Headers.FieldIsLeft` | internal/tools/headers.go:38-75 | removing B from `B:1` and a line feed leaves it, without an error |
| `Headers.RemovalFailsExactlyWhen` | internal/tools/headers.go:69-73 | removing a name fails if and only if the parser has a value for it and no scanned line has the name |
| `HeaderFields.BlockOfMessage` | internal/tools/headers.go:93-103 | the lines scanned are those of the header section, no more and no fewer |
| `HeaderFields.ScanFindsField` | internal/tools/headers.go:104-125 | for every list of fields, whatever their line endings, the text collected is that of the first field with the name |
| `HeaderFields.FieldIsReplaced` | internal/tools/headers.go:133 | exactly that field is replaced, with all others, their order and the body kept, when its lines end with CR LF and its text first occurs at its own place |
| `HeaderFields.FieldIsAdded` | internal/tools/headers.go:136 | a header that is not there becomes the first field |
| `HeaderFields.NoOverlap` | internal/tools/headers.go:133 | an earlier occurrence of a field's text does not reach into the field |
| `HeaderFields.RewriteIsRightExactlyWhen` | internal/tools/headers.go:84-137 | for all messages, with any line endings: the replacement is right for every value if and only if all lines of the field end with CR LF and its text first occurs at its own place |
| `HeaderFields.WrongFieldIsRewritten` | internal/tools/headers.go:133 | with the fields `XB:1` and `B:1`, setting B rewrites the first |
| `HeaderFields.RemovalIsRightExactlyWhen` | internal/tools/headers.go:75 | for all messages, with any line endings: the removal is right if and only if all lines of the field end with CR LF and the message repeats itself from the first occurrence of its text to the field |
| `HeaderFields.FieldIsRemoved` | internal/tools/headers.go:75 | in particular when the text first occurs at its own place |
| `HeaderFields.NamesAreRemovedExactlyWhen` | internal/tools/headers.go:28-79 | for every list of names: after each of them exactly the first field of each so far is gone, or the first name that is no longer there is reported, if and only if every step is right where it is made |
| `HeaderFields.MissingNameIsReported` | internal/tools/headers.go:69-73 | a list that names a field more often than it occurs ends with that name reported as not located |
| `ShortUuid.Div64` | internal/shortuuid/shortuuid.go:50-51 | quotient and remainder of 128 by 64 bits, which fit when the high word is below the divisor |
| `ShortUuid.QuoRem64` | internal/shortuuid/shortuuid.go:47-53 | exact division of any 128-bit number, with the precondition of each step met |
| `ShortUuid.Pow62Values` | internal/shortuuid/shortuuid.go:14-17 | the divisor is 62 to the 10th, and 22 digits hold every 128-bit number |
| `ShortUuid.AlphabetDigit` | internal/shortuuid/shortuuid.go:13 | the alphabet lists the digits in order |
| `ShortUuid.WriteDigits` | internal/shortuuid/shortuuid.go:31-35 | writing ten digits keeps the number, and stopping at the buffer's start drops nothing |
| `ShortUuid.New` | internal/shortuuid/shortuuid.go:20-43 | 22 characters of the alphabet whose base-62 value is the number, in at most three rounds |
| `ShortUuid.OrderIsNumeric` | internal/shortuuid/shortuuid.go:20-43 | equal numbers have equal identifiers, and identifiers are ordered as the numbers are |
| `Orientation.FlipH` | internal/thumbnail/orientation.go:37-46 | the loops show the horizontal mirroring, for any origin |
| `Orientation.FlipV` | internal/thumbnail/orientation.go:48-57 | the vertical mirroring |
| `Orientation.Rotate90` | internal/thumbnail/orientation.go:59-68 | the quarter turn |
| `Orientation.Rotate180` | internal/thumbnail/orientation.go:70-79 | the half turn |
| `Orientation.Rotate270` | internal/thumbnail/orientation.go:81-90 | the quarter turn the other way |
| `Orientation.Transpose` | internal/thumbnail/orientation.go:92-101 | the mirroring on the main diagonal |
| `Orientation.Transverse` | internal/thumbnail/orientation.go:103-112 | the mirroring on the other diagonal |
| `Orientation.Set` | internal/thumbnail/orientation.go:37-46 | each step of the loops writes one target pixel, and none that was written before |
| `Orientation.OneTarget` | internal/thumbnail/orientation.go:37-112 | every source pixel has exactly one target pixel, inside the target |
| `Orientation.FixOrientation` | internal/thumbnail/orientation.go:10-31 | the transform that belongs to the tag, or the image as it is; what is then displayed is the scene, for every scene that a camera stored with the tag |
| `Orientation.ThenIsComposition` | internal/thumbnail/orientation.go:37-112 | doing two transforms is doing their composition |
| `Orientation.SymmetriesFormGroup` | internal/thumbnail/orientation.go:37-112 | the identity and the seven transforms are all there are, and form a group |
| `Orientation.DihedralRelations` | internal/thumbnail/orientation.go:37-112 | it is the dihedral group: the turns, the mirrorings, and the two products that the diagonals are |
| `Orientation.FixUndoesStorage` | internal/thumbnail/orientation.go:10-31 | the transform for a tag undoes the layout that section 8 of TIFF 6.0 gives the tag |
| `EnvelopeCache.Cache.GetCached` | internal/storage/envcache.go:46-69 | a lookup serves an entry within its time, else waits with the others for the parse in flight, else leads one |
| `EnvelopeCache.LookedUpKeeps` | internal/storage/envcache.go:46-69 | never a second parse of one id, and a lookup serves nothing that is gone |
| `EnvelopeCache.Cache.FinishFlight` | internal/storage/envcache.go:77-83 | the end of a parse: nothing is in flight any more and a success is cached; there never is an older entry to replace |
| `EnvelopeCache.WokenKeeps` | internal/storage/envcache.go:60-62 | a waiter is served the result of the parse it joined |
| `EnvelopeCache.Cache.FireTimer` | internal/storage/envcache.go:99-106 | a timer removes its own entry and no other |
| `EnvelopeCache.Cache.InvalidateEntry` | internal/storage/envcache.go:125-134 | the entry and its timer are gone, unless the timer has fired already |
| `EnvelopeCache.Cache.InvalidateAllEntries` | internal/storage/envcache.go:136-145 | likewise for all |
| `EnvelopeCache.StepKeeps` | internal/storage/envcache.go:46-145 | every step keeps the invariant: one parse per id, in flight and cached exclude each other, cached is as parsed, every entry has its timer; and it serves nothing that is gone |
| `EnvelopeCache.RunKeeps` | internal/storage/envcache.go:46-145 | in every interleaving what is served is the parse of that message, no entry past its time is served, and a message that is gone is not served |
| `EnvelopeCache.Cache.Run` | internal/storage/envcache.go:46-145 | the cache does what those runs say |
| `EnvelopeAnswers.LookupJoins` | internal/storage/envcache.go:46-69 | a lookup adds one waiter to the flight that it joins, and to no other, or one answer, or one flight |
| `EnvelopeAnswers.WakeAnswers` | internal/storage/envcache.go:59-63 | a waiter that wakes is given the message if the parse has succeeded, and waits no more |
| `EnvelopeAnswers.JoinsAreWakesAndWaiters` | internal/storage/envcache.go:46-88 | over every run: the lookups that have joined a flight are those that were woken from it and those that still wait |
| `EnvelopeAnswers.EverybodyIsAnswered` | internal/storage/envcache.go:59-88 | from every state, the remaining steps of a parse and its wakes give its caller and everybody who has joined exactly one answer each, and leave nobody waiting |
| `EnvelopeCache.ResultCanBeServed` | internal/storage/envcache.go:77-87 | a successful parse that is under way can still be served, to its caller, to the cache or to a waiter |
| `EnvelopeCache.NeverServedAgainExactlyWhen` | internal/storage/envcache.go:125-134 | after a deletion and the invalidation no run serves the message, if and only if no successful parse of it was under way |
| `EnvelopeCache.Cache.DeleteAndInvalidate` | internal/storage/messages.go:797-801 | for a message that was ever stored: after its deletion and the invalidation of its entry no later run serves it, if and only if no successful parse of it was under way |
| `EnvelopeCache.DeletedMessageIsServed` | internal/storage/envcache.go:46-134 | a run in which a deleted and invalidated message is served to its caller, is cached, and is found by a later lookup |
| `EnvelopeCache.OverdueEntryIsAboutToGo` | internal/storage/envcache.go:98-107 | an entry past its time has a timer that is due, and its firing removes the entry |
| `Throttle.RecencyAfterUse` | internal/linkcheck/throttle.go:62-65 | putting the domain just used in front keeps the order of recency |
| `Throttle.VictimIsLeastRecent` | internal/linkcheck/throttle.go:86-106 | the domain given up is the least recently used with a full bucket, or the least recently used when no bucket is full |
| `Throttle.LinkedWithout` | internal/linkcheck/throttle.go:91-94 | removing an entry from map and list keeps them matched, with every back-pointer right |
| `Throttle.Registry.EvictLocked` | internal/linkcheck/throttle.go:86-106 | the walk from the back finds that domain, and only it is removed |
| `Throttle.Registry.Get` | internal/linkcheck/throttle.go:58-79 | for every history and every state of the buckets: map and list match, the list is in order of recency, the cap holds; a known domain moves to the front, a new one is added after giving up one if full |
| `Throttle.ResultCache.Get` | internal/linkcheck/throttle.go:122-135 | the last result put under the address within the last minute, or none: sweeping never shows; what has expired is dropped |
| `Throttle.ResultCache.Put` | internal/linkcheck/throttle.go:137-151 | past the threshold only fresh results are kept |
| `WebsocketHub.Hub.OfferTo` | server/websockets/hub.go:69-77 | a client with room in its queue has the message, one without is removed, with its stretch of broadcasts ended |
| `WebsocketHub.Hub.Register` | server/websockets/hub.go:51-56 | a new client is counted, and its queue starts with the next broadcast |
| `WebsocketHub.Hub.Unregister` | server/websockets/hub.go:57-63 | the first request removes and closes, later ones do nothing |
| `WebsocketHub.Hub.BroadcastMessage` | server/websockets/hub.go:64-79 | every registered client has the message queued, except those with full queues, which are removed with their stretch ending before it; nothing changes for those removed earlier |
| `WebsocketHub.Hub.Take` | server/websockets/hub.go:48-81 | a step changes every client exactly as it should: a registration adds one, a removal closes one, a broadcast reaches or closes every open one, a receipt moves one message |
| `WebsocketHub.Hub.Run` | server/websockets/hub.go:48-81 | over every run the clients there have been, their queues, what they received and whether they are closed are as the steps say, the hub has registered exactly those that are open and counts them, and each is tied to the steps at which it came and was closed |
| `WebsocketHub.QueuedIsStretch` | server/websockets/hub.go:48-81 | for every client of every run: what it received and what is queued are together exactly the broadcasts from its registration to its removal, in order, and no more than the capacity are queued |
| `WebsocketHub.ComesWith` | server/websockets/hub.go:51-56 | on every run a registration brings one client, open and with nothing queued, whose stretch starts there |
| `WebsocketHub.ClientsAreJoins` | server/websockets/hub.go:51-56 | and nobody else comes |
| `WebsocketHub.ClosedExactlyWhen` | server/websockets/hub.go:57-79 | on every run a client is closed if and only if it has left or its queue was full at a broadcast, and there its stretch ends |
| `Tags.CleanTagIsValid` | internal/tools/tags.go:22-37 | a cleaned name is empty or a valid tag |
| `Tags.CleanTagIs` | internal/tools/tags.go:22-37 | the cleaned name is the first 100 characters of the text's runs of name characters, in order and with single spaces between them |
| `Tags.CleanTagIsEmptyExactlyWhen` | internal/tools/tags.go:22-37 | a name is cleaned away if and only if it has no name character |
| `Tags.CleanTagKeepsExactlyWhen` | internal/tools/tags.go:22-37 | a name is its own cleaned name if and only if it is empty or a valid tag without outer or double spaces |
| `Tags.CleanTags` | internal/storage/tags.go:24-38 | the cleaned names, each once whatever its case |
| `Tags.Dropped` | internal/storage/tags.go:67-73 | the names to take off are those not to be applied |
| `Tags.TagStore.AddMessageTag` | internal/storage/tags.go:89-128 | the message has the tag afterwards, and the name returned is the one the tag had before, or the given one if there was none; no other message changes |
| `Tags.TagStore.DeleteMessageTags` | internal/storage/tags.go:130-148 | exactly the named tags are taken off, whatever their case, and unused tags go |
| `Tags.TagStore.GetMessageTags` | internal/storage/tags.go:402-420 | the names of the message's tags |
| `Tags.TagStore.SetMessageTags` | internal/storage/tags.go:22-87 | the message's tags are exactly the cleaned names, which are the names themselves when they are tidy; no other message's tags change, and the names added are returned |
| `Tags.TagStore.RenameTag` | internal/storage/tags.go:202-241 | every message that had the old name has the new one instead; refused exactly for invalid, unknown and taken names |
| `Tags.TagStore.DeleteTag` | internal/storage/tags.go:243-273 | no message has the tag any more and nothing else changes |
| `Tags.TagStore.PruneUnusedTags` | internal/storage/tags.go:275-313 | exactly the tags without a message go, and no message's tags change |
| `Mailbox.TotalWithout` | internal/storage/settings.go:53-65 | the total size of a table does not depend on the order of its rows |
| `Mailbox.Chunks` | internal/storage/search.go:186-200 | the chunks are the ids in order, each at most 1000, none left out or repeated |
| `Mailbox.Store.StoreMessage` | internal/storage/messages.go:93-163 | a message is added to both tables with its size, and has exactly the cleaned tags |
| `Mailbox.Store.SumSizes` | internal/storage/messages.go:727-744 | the sum is what the table loses |
| `Mailbox.Store.RemoveAll` | internal/storage/messages.go:750-783 | the messages are gone from all tables, tags included, and are accounted for once in both counters |
| `Mailbox.Store.DeleteMessages` | internal/storage/messages.go:705-805 | the same for any list of ids, with unknown ids ignored and repeated ones counted once |
| `Mailbox.Store.DeleteSearch` | internal/storage/search.go:177-261 | the same for the messages of a search, deleted in chunks |
| `Mailbox.Store.SearchAndDelete` | internal/storage/search.go:148-261 | exactly the messages that satisfy every term of the search go, and are accounted for once |
| `Mailbox.Store.AddUnseen` | internal/storage/cron.go:107-117 | a message that is both too many and too old is taken and counted once |
| `Mailbox.Store.PruneMessages` | internal/storage/cron.go:58-192 | a message goes if and only if it comes after the first maximum, by age, within the reach of one pruning, or is listed as too old; without a maximum age and within that reach exactly the newest, as many as there may be, are left; none too old remain |
| `Mailbox.SurplusIsOldest` | internal/storage/cron.go:70-80 | the surplus given up is no newer than what is kept |
| `Mailbox.Store.VacuumDb` | internal/storage/cron.go:195-223 | the deleted size starts again from zero, at the size then stored |
| `Mailbox.Store.DeleteAllMessages` | internal/storage/messages.go:807-861 | all tables are empty, every message ever stored counts as deleted, and the deleted size starts again from zero |
| `Mailbox.Store.Take` | internal/storage/messages.go:98-861 | every operation changes the messages, their data, the tags of every message, the two counters and what they are compared with exactly as its step says |
| `Mailbox.Store.Run` | internal/storage/messages.go:98-861 | over every run each of the tables follows from the one before as its step says, tags included, the mailbox, the deleted size and the count of deleted messages are those of the steps, and the invariant holds |
| `Mailbox.CountsAreConserved` | internal/storage/settings.go:53-76 | on every run deleted and live messages are together those before and those stored; as long as nothing resets it, deleted size and live size are together the size before and the size stored |
| `Mailbox.ResetStartsAgain` | internal/storage/cron.go:195-223 | after a reset the deleted size is that of the steps since, from zero, whatever was before |
| `Mailbox.OneMessageCounted` | internal/storage/messages.go:705-805 | a message stored and deleted leaves its size and one message counted |

## Left out

- Parsing of SMTP command lines, addresses and parameters (regular expressions, trimming) is an arbitrary function of the line.
- Replies are modelled as events, not as texts; all refusals of the POP3 server are one reply.
- NOOP, XCLIENT, HELP, VRFY and EXPN have no effect on a transaction and are one command.
- The TLS handshake, the decoding of credentials, the chaos triggers and all handlers are arbitrary answers.
- Timeouts and other read errors: the end of the input stands for them, so they come between reads, not within one, and a timeout during AUTH ends the loop with the read after it.
- That EHLO is not required again after STARTTLS is how the code behaves and how it is modelled.
- A POP3 line that is too long is answered without a command and is not in the transcript.
- Dates, times of day and sizes in search terms are parsed by an arbitrary function.
- Rows with NULL columns.
- JSON escapes for invalid UTF-8, and letters outside ASCII that fold to ASCII ones.
- Snippets, read marks, attachments and the other columns that no counter and no search condition depends on.
- OverrideFromHeader, which repeats the scan of the two operations modelled.
- Header lines longer than the scanner's buffer: the buffer is as large as the header section.
- A panic while parsing an envelope: a parse succeeds or fails.
- Cancellation of the cache entry after a search deletes messages: the code does not do it, and an entry lives out its time.
- The concurrency limit of each domain in the link checker, and token refill: which buckets are full is given.
- Websocket pings, write errors and authentication; a broadcast that cannot be prepared is no broadcast; the check of the count before a broadcast is started.
- Notifications after deletions, including those of a search, which name the ids of the last chunk.
- Failed commits, rqlite, demo mode, compression and time zones.
- Where tags come from (headers, plus-addresses, filters) and their title case; deleteMessageTag, which is the deletion of a list of one.
- Reading the EXIF tag and converting colours.
- The random source of identifiers: the encoder is given the number.
- SMTP relay and forwarding, webhooks, the HTTP interface, configuration, and logging.
