# brev, modelled in Dafny

brev is a mail server written in Rust. It speaks IMAP4rev2 (RFC 9051) to
mail clients and SMTP (RFC 5321) to other servers and to submitting clients.
This project models what brev does on one connection and proves properties
of that model. On the IMAP side it covers:

- splitting the tag from a command line and parsing the command
  (`crates/imap-proto/src/command.rs`), including quoted and atom strings,
  sequence sets and FETCH items;
- the tolerant loop that reads commands and answers a BAD line without
  giving up (`crates/imap/src/server.rs`);
- the response encoders for tagged status lines, flags, parenthesised lists,
  LIST, SELECT, STATUS and CAPABILITY;
- the per-connection session state machine
  (`crates/imap/src/server/session.rs`), with its states NotAuthenticated,
  Authenticated, Selected and Logout;
- the SASL AUTHENTICATE challenge loop and PLAIN decoding
  (`crates/imap/src/authenticate.rs`, `crates/auth/src/sasl*.rs`).

On the SMTP side it covers:

- the command parser and the command-reading loop
  (`crates/smtp/src/command.rs`);
- the mail-transaction state machine of the session
  (`crates/smtp/src/server/session.rs`);
- the EHLO reply, both writing it and reading it back (`crates/smtp/src/ehlo.rs`);
- the end-of-data and dot-unstuffing automaton of DATA
  (`crates/smtp/src/message/data.rs`);
- the chunk framing of BDAT (`crates/smtp/src/message/bdat.rs`).

Two pieces are shared by both sides: the `flags!` name/bitset codec
(`crates/util/src/lib.rs`) and line reading (`crates/line/src/lib.rs`).

A connection is modelled as bytes in and a string log out. Input is a
`seq<byte>` that the readers consume. Output is a `string` that every write
appends to. Some operations depend on code outside the model: the credential
validator, the e-mail address check, base64 and the TLS configuration. Each
of these is a parameter of the operations that use it, and nothing is
assumed about it.

The project has one module per source file, named after it
(`ImapSession` for `server/session.rs`, `SmtpData` for `message/data.rs`).
Every parser comes with a printer and a round-trip lemma, or with an
independent reference definition and a lemma connecting the two.

- Session classes: the IMAP `Session`, the SMTP `Session`, the `DataReader`
  and the `BdatReader` are classes, because the source updates their fields
  in place. Each method is proved to have the effect that a pure function of
  the old state describes (`DispatchSpec`, `HandleSpec`, `PollSpec`). The
  promises of the protocol are then lemmas about those functions, in the
  `*_props` modules.
- Loops: the source's loops (`read_cmd`, the AUTHENTICATE challenge loop,
  the DATA and BDAT `poll_read`, `fmt_paren_list`, the EHLO and CAPABILITY writers) are methods
  with `while` loops. Each is proved against the recursive function that
  specifies it.

## Model

| member | source | states |
|---|---|---|
| FlagSet.NamesBelowOrder | crates/util/src/lib.rs:26-34 | walking the declared flags in order yields, for each set flag below the bound, its name, in increasing declaration order, each once |
| FlagSet.NamesOrder | crates/util/src/lib.rs:26-34 | `names()` lists the names of exactly the set flags, in declaration order |
| FlagSet.NamesMembership | crates/util/src/lib.rs:26-34 | with distinct declared names, a declared name is listed if and only if its flag is set |
| FlagSet.NamesDeclared | crates/util/src/lib.rs:28-33 | only declared names are ever listed |
| FlagSet.LookupDeclared | crates/util/src/lib.rs:45-50 | a declared name, matched exactly, selects its own flag and no other |
| FlagSet.FromNames | crates/util/src/lib.rs:36-51 | flag i is in the result if and only if its declared name is among the names given; unknown names add nothing |
| FlagSet.FromNamesNames | crates/util/src/lib.rs:26-51 | `from_names(names())` gives back every valid flag value |
| FlagSet.FromNamesSameNames | crates/util/src/lib.rs:43-51 | the fold depends only on which names occur, not on their order or repetition |
| FlagSet.NamesFromNames | crates/util/src/lib.rs:26-51 | printing a value parsed from names lists exactly the declared names among them |
| Line.KeptLength | crates/line/src/lib.rs:47-51 | the kept length ends before the trailing run of CR and LF bytes, and everything after it is CR or LF |
| Line.TrimNewlines | crates/line/src/lib.rs:47-52 | the line is a prefix of the bytes read, does not end in CR or LF, and only CR and LF were cut off |
| Line.TrimNewlinesFacts | crates/line/src/lib.rs:47-52 | trimming removes only CR and LF, all the trailing ones, and is idempotent |
| Line.TrimTerminators | crates/line/src/lib.rs:41-52 | a line sent with CRLF, with LF or with nothing reads back as the same line |
| Line.EmptyLine | crates/line/src/lib.rs:41-52 | a bare CRLF is an empty line, not the end of the input |
| Line.LineThenRest | crates/line/src/lib.rs:41-52 | a CRLF-ended line followed by more input reads as that line and leaves the rest unread |
| Line.NextLine | crates/line/src/lib.rs:41 | `read_until(b'\n')` takes a prefix of the input |
| Line.NextLineShape | crates/line/src/lib.rs:41-43 | the bytes taken are a prefix, nonempty if the input is, ending at the first LF or else the whole input |
| Line.Connection.constructor | crates/line/src/lib.rs:62-66 | a new connection has nothing buffered, nothing written, and reads exactly the bytes the peer sends |
| Line.Connection.ReadUntilNewline | crates/line/src/lib.rs:41 | refilling the buffer chunk by chunk, it takes exactly `NextLine` of what remains and leaves the rest |
| Line.Connection.ReadLine | crates/line/src/lib.rs:35-55 | `Eof` exactly when nothing is left; otherwise the next line without its trailing CR and LF, the rest left to read |
| Line.Connection.ReadUntilLimit | crates/smtp/src/ehlo.rs:188-192 | as `ReadUntilNewline` through `take(limit)`: never more than `limit` bytes |
| Line.Connection.ReadLineLimit | crates/smtp/src/command.rs:131 | a line of at most `limit` bytes; the end of the input exactly when nothing was taken |
| Line.Connection.ReadTake | crates/smtp/src/message/bdat.rs:30-37 | `take(n)` read to its end: the next `n` bytes, or all that are left |
| Line.Connection.ReadByte | crates/smtp/src/message/data.rs:102 | the next byte, or nothing at the end of the input |
| Line.Connection.Write | crates/line/src/lib.rs:72-78 | the text is appended to the output; nothing else changes |
| Line.Connection.Upgrade | crates/line/src/lib.rs:80-83 | the upgrade succeeds exactly when the read buffer is empty, and then the connection is TLS |
| Line.Connection.Shutdown | crates/smtp/src/io.rs:8 | the connection is closed; nothing else changes |
| Text.Upper | crates/smtp/src/command.rs:73-75 | `to_ascii_uppercase` keeps the length and upper-cases every character on its own |
| Text.SplitOnceOr | crates/smtp/src/command.rs:73 | `split_once(c).unwrap_or((s, ""))`: the text before the first `c` and after it, or all of it |
| Text.SplitOnceOrJoined | crates/smtp/src/command.rs:73 | splitting `a + c + b`, with no `c` in `a`, gives back `a` and `b` |
| Text.SplitJoin | crates/smtp/src/ehlo.rs:225 | splitting a join of pieces free of the separator gives the pieces |
| Text.JoinSplit | crates/smtp/src/ehlo.rs:225 | joining the pieces of a split gives the text |
| Text.ParseUnsigned | crates/smtp/src/command.rs:92-106 | `u64::from_str`: a result never exceeds the type's largest value |
| Text.ParseNatToString | crates/smtp/src/ehlo.rs:221 | a printed number reads back as itself |
| Text.TrimEnd | crates/smtp/src/ehlo.rs:205-207 | `trim_end` cuts exactly the trailing white space |
| Utf8.DecodeEncode | crates/smtp/src/ehlo.rs:205-206 | `from_utf8` of the bytes of any text is that text |
| Utf8.EncodeAscii | crates/smtp/src/ehlo.rs:187-203 | ASCII text is one byte per character |
| Sasl.ParseMechanismCases | crates/auth/src/sasl.rs:12-21 | a mechanism name is accepted exactly when it spells PLAIN in some ASCII case |
| SaslPlain.DecodeMessage | crates/auth/src/sasl/plain.rs:43-52 | decoding `authzid NUL user NUL password` gives the user and password back, whatever the authorization identity, with NULs in the password kept |
| SaslPlain.DecodeMissingParts | crates/auth/src/sasl/plain.rs:43-52 | well-formed UTF-8 is `MissingParts` exactly when it holds fewer than two NULs, and decodes whenever it holds two |
| ImapCapability.DeclDistinct | crates/imap-proto/src/command/capability.rs:6-16 | the seven capability names are distinct, hold no space, and none is `CAPABILITY` |
| ImapCapability.AuthCapability | crates/imap-proto/src/command/capability.rs:18-25 | PLAIN is advertised as `AUTH=PLAIN` |
| ImapCapability.FmtCapabilities | crates/imap-proto/src/command/capability.rs:27-35 | the loop writes `CAPABILITY`, then a space and each capability held, in declaration order |
| ImapCapability.CapabilityTextRoundTrip | crates/imap-proto/src/command/capability.rs:49-58 | splitting the printed line at spaces and collecting the words gives back the set, for every set |
| ImapCapability.Imap4First | crates/imap-proto/src/command/capability.rs:8 | `IMAP4`, when held, is the first capability printed |
| ImapCapability.AllText | crates/imap-proto/src/command/capability.rs:41-47 | the full set prints every capability in declaration order |
| ImapCapability.TwoText | crates/imap-proto/src/command/capability.rs:27-35 | two capabilities print in declaration order whatever order they were named in |
| ImapProto.FmtParenList | crates/imap-proto/src/lib.rs:34-47 | the loop writes `(`, the items with single spaces between them, and `)` |
| ImapProto.ParenListSplit | crates/imap-proto/src/lib.rs:16-33 | the items of a list whose items hold no space are read back by splitting between the parentheses |
| ImapProto.ParenListExamples | crates/imap-proto/src/lib.rs:20-47 | `[1, 2, 3]` prints as `(1 2 3)` and the empty list as `()` |
| ImapResponse.NiceExample | crates/imap-proto/src/response.rs:94-105 | the response OK "Nice" tagged A0001 prints as `A0001 OK Nice` and CRLF |
| ImapResponse.ParseTaggedTextRoundTrip | crates/imap-proto/src/response.rs:66-70 | every tagged response whose tag holds no space is read back from the line it prints as |
| ImapResponse.TaggedTextParts | crates/imap-proto/src/response.rs:94-105 | the line is the tag, a space, the status word, a space, the text and CRLF |
| ImapResponse.FromMechanismStatus | crates/imap-proto/src/response.rs:72-88 | only rejected credentials are answered NO; every other authentication failure is BAD and none is OK |
| ImapStatus.DeclDistinct | crates/imap-proto/src/command/status.rs:5-20 | the six status item names are distinct |
| ImapStatus.FmtStatus | crates/imap-proto/src/command/status.rs:39-80 | the loop writes `STATUS`, the mailbox and the present items, a space before every item but the first, inside parentheses |
| ImapStatus.PresentOrder | crates/imap-proto/src/command/status.rs:43-75 | exactly the fields that have a value are printed, once each, in declaration order, each as its value then its name |
| ImapStatus.EmptyStatus | crates/imap-proto/src/command/status.rs:67-76 | with no field present the response is `STATUS <mailbox> ()` |
| ImapStatus.UnseenDeletedExample | crates/imap-proto/src/command/status.rs:84-96 | UNSEEN 3 and DELETED 1 print as `STATUS INBOX (3 UNSEEN 1 DELETED)` |
| ImapStatus.ParseItems | crates/imap-proto/src/command.rs:527 | an item is read exactly when its name is one of the space-separated words; unknown words are ignored |
| ImapFlags.FlagTextParseFlag | crates/imap-proto/src/flags.rs:19-57 | printing what was parsed gives back the text, for every text |
| ImapFlags.ParseFlagText | crates/imap-proto/src/flags.rs:19-57 | every flag other than a keyword spelled like a known flag parses back from its text |
| ImapFlags.ParseFlagKeyword | crates/imap-proto/src/flags.rs:41-56 | a text parses as a keyword exactly when it is none of the eleven known texts |
| ImapFlags.FlagsResponseExample | crates/imap-proto/src/flags.rs:72-87 | seven flags print as `FLAGS (\Seen \Answered \Flagged \Deleted \Draft \Recent $Forwarded)` |
| ImapSelect.SelectShape | crates/imap-proto/src/command/select.rs:17-35 | six CRLF-ended lines, the first five untagged and the last the tagged completion |
| ImapSelect.AccessLine | crates/imap-proto/src/command/select.rs:24-33 | the completion says READ-ONLY exactly when the mailbox is read-only and READ-WRITE exactly when it is not |
| ImapSelect.UidValidityReadBack | crates/imap-proto/src/command/select.rs:21 | the UIDVALIDITY value is read back in decimal from its line |
| ImapSelect.UidNextReadBack | crates/imap-proto/src/command/select.rs:22 | the UIDNEXT value is read back in decimal from its line |
| ImapList.DeclDistinct | crates/imap/src/protocol/list.rs:7-27 | the sixteen attribute names are distinct and hold no space |
| ImapList.AttributesRoundTrip | crates/imap/src/protocol/list.rs:29-33 | the words between the parentheses read back as the attribute set, the empty set included |
| ImapList.FmtList | crates/imap/src/protocol/list.rs:78-85 | the loop writes each item's line in turn |
| ImapList.ListTextAppend | crates/imap/src/protocol/list.rs:78-85 | the response for two lists of items is the first's followed by the second's |
| ImapList.ListItemLine | crates/imap/src/protocol/list.rs:62-72 | every item line starts with `* LIST ` and ends with CRLF |
| ImapList.ListItemRoundTrip | crates/imap/src/protocol/list.rs:41-72 | every item line reads back as its item: the attributes, the delimiter (`NIL` or quoted) and the name, whatever characters the name holds |
| ImapList.DraftsItemText | crates/imap/src/protocol/list.rs:92-101 | the `\Drafts` mailbox with delimiter `/` prints as in the source's test |
| ImapList.NoselectNoinferiorsText | crates/imap/src/protocol/list.rs:103-111 | `\Noselect` and `\Noinferiors` print in declaration order |
| ImapFetch.ParseAttributeNameIff | crates/imap/src/protocol/fetch.rs:22-35 | a name is accepted exactly when it is the exact, case-sensitive name of the attribute it yields |
| ImapFetch.MacroRelations | crates/imap/src/protocol/fetch.rs:45-70 | FAST is ALL without ENVELOPE, FULL is ALL with BODY, and a list stands for itself in order |
| ImapFetch.ParseAttribute | crates/imap/src/protocol/fetch.rs:72-78 | a successful attribute parse consumes input |
| ImapFetch.ParseListText | crates/imap/src/protocol/fetch.rs:80-97 | the printed parenthesized list of any nonempty sequence of attributes reads back, whatever follows it |
| ImapFetch.ParseBareAttribute | crates/imap/src/protocol/fetch.rs:94 | a bare attribute name is a one-element list |
| ImapFetch.MacroPrefixes | crates/imap/src/protocol/fetch.rs:83-85 | no attribute name starts like a macro, so the prefix matches never capture one |
| ImapFetch.EmptyListRejected | crates/imap/src/protocol/fetch.rs:86-93 | `()` is not accepted: the list needs one attribute |
| ImapFetch.AllEqualsList | crates/imap/src/protocol/fetch.rs:103-112 | `ALL` and the list of the attributes it stands for select the same attributes |
| ImapSequence.FmtSequenceSet | crates/imap/src/sequence.rs:122-133 | the loop writes each range and a comma between ranges |
| ImapSequence.Digit1 | crates/imap/src/sequence.rs:72-74 | the longest nonempty run of digits, failing exactly when the text does not start with a digit |
| ImapSequence.ParseBoundText | crates/imap/src/sequence.rs:42-83 | every printed bound reads back |
| ImapSequence.ParseBoundRejects | crates/imap/src/sequence.rs:72-74 | zero and numbers above the `u32` range are not bounds |
| ImapSequence.RangeTextParse | crates/imap/src/sequence.rs:85-96 | a printed `lo:hi` range reads back |
| ImapSequence.ElementText | crates/imap/src/sequence.rs:63-108 | a printed element reads back, except `*` under the parser as written |
| ImapSequence.ParseSetTextAsWritten | crates/imap/src/sequence.rs:115-120 | display then parse gives the set back when no range is `*:*` |
| ImapSequence.ParseSetFixedText | crates/imap/src/sequence.rs:115-133 | with `*` accepted as an element, display then parse gives every set back |
| ImapSequence.LoneStarRejected | crates/imap/src/sequence.rs:98-108 | the set `*` prints as `*`, which the parser as written reads as the empty set, leaving `*` unread |
| ImapSequence.StarNotRead | crates/imap/src/sequence.rs:98-108 | any text starting with a `*` that opens no range is read as the empty set, with nothing consumed |
| ImapSequence.RangeKeptAsWritten | crates/imap/src/sequence.rs:85-96 | range bounds are kept in the order written |
| ImapSequence.Example | crates/imap/src/sequence.rs:139-145 | `1:3,5,6:*` parses and prints back as written |
| ImapArgs.UnescapeEscape | crates/imap-proto/src/command.rs:460-473 | reading an escaped body stops at the closing quote and gives the text back |
| ImapArgs.QuoteRoundTrip | crates/imap-proto/src/command.rs:460-480 | a quoted nonempty string reads back, whatever follows it |
| ImapArgs.EmptyQuoted | crates/imap-proto/src/command.rs:462-480 | `""` is not a quoted string and is read as a bare word of two quote characters |
| ImapArgs.AtomRoundTrip | crates/imap-proto/src/command.rs:478 | a bare word not starting with `"` reads back up to the first space, tab, CR or LF |
| ImapArgs.DquoteQuote | crates/imap-proto/src/command.rs:465-468 | `\"` stands for a quote |
| ImapArgs.DquoteBackslash | crates/imap-proto/src/command.rs:465-468 | `\\` stands for a backslash |
| ImapArgs.StrAtom | crates/imap-proto/src/command.rs:478 | a bare word stops at the space |
| ImapArgs.StrQuoted | crates/imap-proto/src/command.rs:477 | a quoted string keeps its space |
| ImapArgs.ArgStringQuoted | crates/imap-proto/src/command.rs:495-506 | a quoted argument reads back, with or without a blank in front |
| ImapArgs.ArgOptString | crates/imap-proto/src/command.rs:488-493 | never fails, and is empty exactly when no string follows the blanks |
| ImapArgs.ArgMechanism | crates/imap-proto/src/command.rs:508-513 | succeeds exactly when a string follows the blanks and names a SASL mechanism |
| ImapArgs.ArgCapabilities | crates/imap-proto/src/command.rs:515-520 | consumes everything and holds exactly the declared capabilities among the space-separated words |
| ImapArgs.ArgStatusItemsText | crates/imap-proto/src/command.rs:522-529 | the parenthesized words read back as the items they name, and parsing stops after the `)` |
| ImapCommand.Single | crates/imap-proto/src/command.rs:147-174 | a one-mailbox command has the verb's name and no UID form |
| ImapCommand.Pair | crates/imap-proto/src/command.rs:163-179 | a two-string command has the verb's name and no UID form |
| ImapCommand.OneString | crates/imap-proto/src/command.rs:106-120 | succeeds exactly when a string argument is there; otherwise the verb's syntax error |
| ImapCommand.TwoStrings | crates/imap-proto/src/command.rs:106-120 | succeeds exactly when two string arguments follow one another; otherwise the verb's syntax error |
| ImapCommand.NoArgs | crates/imap-proto/src/command.rs:373-399 | the command of an argument-free verb carries the UID form exactly when asked for and the verb has one |
| ImapCommand.ParseAuthenticate | crates/imap-proto/src/command.rs:124-127 | succeeds exactly when a mechanism is named; otherwise the AUTHENTICATE syntax error |
| ImapCommand.AuthenticateAfter | crates/imap-proto/src/command.rs:109-119 | the mechanism read is the one kept, and only a missing mechanism fails |
| ImapCommand.ParseEnable | crates/imap-proto/src/command.rs:143-145 | always succeeds, with exactly the capabilities named |
| ImapCommand.ParseStatus | crates/imap-proto/src/command.rs:199-202 | succeeds exactly when a mailbox and a parenthesized item list are read; otherwise the STATUS syntax error |
| ImapCommand.StatusAfter | crates/imap-proto/src/command.rs:109-119 | the rest of STATUS fails exactly when the mailbox or the item list is missing |
| ImapCommand.ParseFetch | crates/imap-proto/src/command.rs:224-243 | the set is read with the set parser as written; the result is Ok exactly when blanks follow the set and the data items read after them, and then holds that set and those items in the UID form asked for; otherwise it is the FETCH syntax error |
| ImapCommand.FetchAfterSet | crates/imap-proto/src/command.rs:231-241 | Ok exactly when a set was read, blanks follow it and the data items are read; the set and items read are the ones kept |
| ImapCommand.WithArgs | crates/imap-proto/src/command.rs:377-396 | a command of the verb, UID form exactly when asked for and allowed, or its syntax error |
| ImapCommand.ParseArgs | crates/imap-proto/src/command.rs:253-268 | a command of the verb, or a syntax error of that verb, which only verbs with arguments give |
| ImapCommand.ReplyReadBack | crates/imap-proto/src/command.rs:49-55 | the reply line carries the request's tag, read back by a status-line reader |
| ImapCommand.InvalidUtf8Iff | crates/imap-proto/src/command.rs:437-447 | only bytes that are not UTF-8 give InvalidUtf8; every decoded line gives a command or a tagged BAD |
| ImapCommand.TaggedLine | crates/imap-proto/src/command.rs:443-457 | the tag is the text before the first space; a command that does not parse is answered BAD with that tag and the error's message |
| ImapCommand.TagOnly | crates/imap-proto/src/command.rs:449 | a line without a space is all tag and the empty command is not recognised |
| ImapCommand.EmptyUnrecognized | crates/imap-proto/src/command.rs:370-400 | the empty line is not a command |
| ImapCommand.NameTextShape | crates/imap-proto/src/command.rs:373-399 | every verb is an upper-case word of at least four letters |
| ImapCommand.ParseVerbIff | crates/imap-proto/src/command.rs:372-400 | an upper-cased verb is recognised exactly when it is the verb of a command, and names that command |
| ImapCommand.ParseCommandVerb | crates/imap-proto/src/command.rs:371 | the arguments are read from the text after the first space, or from nothing |
| ImapCommand.ParseCommandOutcome | crates/imap-proto/src/command.rs:370-402 | for every line: a command named by the upper-cased first word, an unrecognised command exactly when no command (or UID command) has that verb, otherwise that verb's syntax error |
| ImapCommand.VerbCase | crates/imap-proto/src/command.rs:372 | the verb is matched without regard to ASCII case |
| ImapCommandRender.RenderRoundTrip | crates/imap-proto/src/command.rs:370-413 | every printable command is read back from its line, FETCH sets read by the parser as written (so no range may be `*:*`) |
| ImapCommandRender.UidOnlyForUidVerbs | crates/imap-proto/src/command.rs:394-399 | only the six UID verbs come in a UID form |
| ImapCommandRender.UidPrefix | crates/imap-proto/src/command.rs:407-413 | a line is read in the UID form exactly when it starts with `UID ` |
| ImapCommandRender.ArgsRoundTrip | crates/imap-proto/src/command.rs:106-120 | the printed arguments of every verb read back, a FETCH set holding no `*:*` range |
| ImapCommandRender.MechanismRead | crates/imap-proto/src/command.rs:508-513 | a printed mechanism name reads back |
| ImapCommandRender.EnableRoundTrip | crates/imap-proto/src/command.rs:515-520 | the joined names of a capability set read back as the set |
| ImapCommandRender.StatusRoundTrip | crates/imap-proto/src/command.rs:522-529 | a printed STATUS mailbox and item set read back |
| ImapCommandRender.FetchRoundTrip | crates/imap-proto/src/command.rs:224-243 | a printed FETCH sequence set with no `*:*` range and printed data items read back, in either UID form, under the set parser as written |
| ImapCommandRender.ItemsRead | crates/imap/src/protocol/fetch.rs:80-97 | the printed data items read back |
| ImapCommandExamples.TwoStringsLine | crates/imap-proto/src/command.rs:378-387 | LOGIN, RENAME and LIST in any case with an atom and a quoted string read both strings |
| ImapCommandExamples.OneOfTwoStrings | crates/imap-proto/src/command.rs:253-264 | the same verbs with one atom give the verb's syntax error |
| ImapCommandExamples.LongWordUnrecognized | crates/imap-proto/src/command.rs:372-400 | a word longer than every verb is not a command |
| ImapCommandExamples.UidOfPlainVerb | crates/imap-proto/src/command.rs:372-413 | `UID` before a verb with no UID form is not a command |
| ImapCommandExamples.OneStringLeftover | crates/imap-proto/src/command.rs:255 | text left after a one-mailbox verb's argument is dropped |
| ImapCommandExamples.StatusLine | crates/imap-proto/src/command.rs:522-529 | STATUS in any case with a quoted mailbox and words asks for the items the words name |
| ImapCommandExamples.LoginAlice | crates/imap-proto/src/command.rs:592-601 | `login alice "hunter 2"` is LOGIN alice with password `hunter 2` |
| ImapCommandExamples.LoginBob | crates/imap-proto/src/command.rs:603-616 | `login bob` gives `Syntax: LOGIN <username> <password>` |
| ImapCommandExamples.UnknownCommand | crates/imap-proto/src/command.rs:603-616 | `unrecognizedcommand` is not recognised |
| ImapCommandExamples.StatusInbox | crates/imap-proto/src/command.rs:618-626 | `status "INBOX" (MESSAGES UNSEEN)` asks INBOX for MESSAGES and UNSEEN |
| ImapCommandExamples.StatusEmpty | crates/imap-proto/src/command.rs:628 | `status INBOX ()` is accepted, with no item |
| ImapCommandExamples.FetchLoneStar | crates/imap-proto/src/command.rs:230-232 | `FETCH * FLAGS` is FETCH's syntax error, because the set parser leaves the `*` and no blank follows |
| ImapArgs.DquoteHello | crates/imap-proto/src/command.rs:566-578 | `"Hello"` reads as Hello |
| ImapArgs.DquoteHelloWorld | crates/imap-proto/src/command.rs:566-578 | a quoted string with a space, followed by more text |
| ImapServer.ReadCmdSpec | crates/imap/src/server.rs:49-71 | a returned command consumed input; the rest is never longer than the input |
| ImapServer.ReadCmd | crates/imap/src/server.rs:49-71 | the loop returns, writes and leaves unread what the line-by-line reading does for the bytes still to be read, each line parsed as a tagged command |
| ImapServer.SpecStep | crates/imap/src/server.rs:57-64 | a parsed line is returned, a BAD line is answered and skipped, a line that is not UTF-8 is skipped |
| ImapServer.ReadCmdEof | crates/imap/src/server.rs:65 | at the end of the input there is no command and nothing is written |
| ImapServer.ReadCmdGood | crates/imap/src/server.rs:58-59 | a line that parses is returned at once and the input after it is left unread |
| ImapServer.ReadCmdBad | crates/imap/src/server.rs:60-62 | a line answered BAD is written before anything later and reading goes on |
| ImapServer.ReadCmdInvalid | crates/imap/src/server.rs:63 | a line rejected as not UTF-8 gets no answer and is skipped |
| ImapServer.ReadCmdNotUtf8 | crates/imap/src/server.rs:58-63 | with the real parser, bytes that are not UTF-8 are skipped |
| ImapServer.ReadCmdAnswer | crates/imap/src/server.rs:60-62 | with the real parser, a line that does not parse is answered BAD with its own tag |
| ImapServer.ReadCmdEnds | crates/imap/src/server.rs:56-70 | the result is a command or the input has run out |
| ImapServer.ReadCmdSilent | crates/imap/src/server.rs:56-70 | input made only of lines that are not UTF-8 is read to its end in silence |
| ImapAuthenticate.Exchange | crates/imap/src/authenticate.rs:83-106 | the exchange never reads more than its input |
| ImapAuthenticate.Authenticate | crates/imap/src/authenticate.rs:71-107 | the loop writes, reads and returns what the challenge-answer exchange does with the bytes still to be read |
| ImapAuthenticate.ChallengeStep | crates/imap/src/authenticate.rs:84-105 | one challenge line `+ <base64>` CRLF, one answer line, then success, failure or the next challenge |
| ImapAuthenticate.ExchangeEof | crates/imap/src/authenticate.rs:62-94 | the exchange fails with UnexpectedEof only when it has read all of its input |
| ImapAuthenticate.EqualsIsEmpty | crates/imap/src/authenticate.rs:39-41 | a lone `=` is the empty answer, which PLAIN rejects as a decode error |
| ImapAuthenticate.EatTrims | crates/imap/src/authenticate.rs:31-37 | trailing CR and LF are not part of the answer |
| ImapAuthenticate.NotBase64 | crates/imap/src/authenticate.rs:42-45 | an answer that is not base64 is a decode error |
| ImapAuthenticate.PlainNeverProceeds | crates/imap/src/authenticate.rs:48-50 | PLAIN never asks for a second round |
| ImapAuthenticate.InitialResponseSilent | crates/imap/src/authenticate.rs:84-86 | with an initial response no challenge is sent and no input is read |
| ImapAuthenticate.EofAfterChallenge | crates/imap/src/authenticate.rs:87-94 | without one, the empty PLAIN challenge is sent, and at the end of input the exchange fails with UnexpectedEof |
| ImapAuthenticate.EatPlainMessage | crates/imap/src/authenticate.rs:42-49 | a base64 PLAIN message is decoded and its credentials validated |
| ImapAuthenticate.PlainLogin | crates/imap/src/authenticate.rs:71-107 | a client answering the challenge with a base64 PLAIN message is authenticated as the validator decides after one challenge line, the rest left unread |
| ImapSession.CapabilitySet | crates/imap/src/server/session.rs:79-91 | the capabilities advertised are declared ones |
| ImapSession.StarttlsReply | crates/imap/src/server/session.rs:141 | the corrected STARTTLS reply: tagged OK "Begin TLS negotiation" |
| ImapSession.StarttlsSpec | crates/imap/src/server/session.rs:127-145 | the state is kept and TLS starts only on a plaintext connection with TLS configured and nothing read ahead |
| ImapSession.AuthenticateSpec | crates/imap/src/server/session.rs:153-179 | the exchange reads no more than the input, never logs out, and the state only advances |
| ImapSession.LoginSpec | crates/imap/src/server/session.rs:181-195 | never logs out and the state only advances |
| ImapSession.SelectSpec | crates/imap/src/server/session.rs:289-300 | SELECT keeps the state and the connection |
| ImapSession.FetchSpec | crates/imap/src/server/session.rs:316-324 | a FETCH operation carries the selected state |
| ImapSession.DispatchSpec | crates/imap/src/server/session.rs:278-328 | every command only advances the state, logs out and shuts the connection exactly when it is LOGOUT, and changes TLS only as STARTTLS allows |
| ImapSession.DispatchAuthenticate | crates/imap/src/server/session.rs:162-177 | AUTHENTICATE from NotAuthenticated: success logs in, end of input stops, a mechanism error is answered with its tagged status |
| ImapSession.SelectWithTag | crates/imap/src/server/session.rs:222 | the tagged SELECT response keeps the result's mailbox and access |
| ImapSession.Session.constructor | crates/imap/src/server/session.rs:58-69 | a new session is not authenticated and not greeted, over the client's bytes |
| ImapSession.Session.Greet | crates/imap/src/server/session.rs:71-77 | writes `* OK [CAPABILITY …] Server ready` with the connection's capabilities |
| ImapSession.Session.Execute | crates/imap/src/server/session.rs:278-328 | one command has the effect DispatchSpec gives it |
| ImapSession.Session.HandleCapability | crates/imap/src/server/session.rs:111-114 | the capability line, then OK |
| ImapSession.Session.HandleNoop | crates/imap/src/server/session.rs:116-118 | OK "NOOP completed" |
| ImapSession.Session.HandleLogout | crates/imap/src/server/session.rs:120-125 | the state becomes Logout, BYE and OK are written, the connection is shut |
| ImapSession.Session.HandleStarttls | crates/imap/src/server/session.rs:127-145 | the effect StarttlsSpec gives |
| ImapSession.Session.HandleAuthenticate | crates/imap/src/server/session.rs:153-179 | the effect AuthenticateSpec gives |
| ImapSession.Session.HandleLogin | crates/imap/src/server/session.rs:181-195 | the effect LoginSpec gives |
| ImapSession.Session.HandleEnable | crates/imap/src/server/session.rs:197-203 | always BAD, "No capabilities specified" for an empty list |
| ImapSession.Session.HandleSelect | crates/imap/src/server/session.rs:289-300 | the effect SelectSpec gives |
| ImapSession.Session.HandleOther | crates/imap/src/server/session.rs:301-327 | EXAMINE and LIST are handed on; the `todo!()` arms stop the session |
| ImapSession.Session.HandleFetch | crates/imap/src/server/session.rs:316-324 | the effect FetchSpec gives |
| ImapSession.Session.ConsumeReady | crates/imap/src/server/session.rs:205-239 | the new state and output are those ConsumeSpec gives |
| ImapSession.Session.NextCmd | crates/imap/src/server/session.rs:241-256 | the next command read, or UnexpectedEof once the input has ended |
| ImapSession.TurnSpec | crates/imap/src/server/session.rs:271-329 | one pass of the loop as a function of the unread bytes: UnexpectedEof when `read_cmd` finds no command, otherwise the command's DispatchSpec effect after what `read_cmd` wrote; it only advances the state |
| ImapSession.Session.Turn | crates/imap/src/server/session.rs:271-329 | the new state, the output, TLS, the open flag and the unread bytes are those TurnSpec gives for the bytes unread before, for the read buffer as it is once the command has been read; one pass reads input or stops |
| ImapSession.Session.NextOp | crates/imap/src/server/session.rs:258-330 | greets once first, only advances the state, returns nothing exactly after logout, and a FETCH operation carries the selection |
| ImapSessionProps.LoginRefusedOnceAuthenticated | crates/imap/src/server/session.rs:181-184 | LOGIN once authenticated is BAD "Already authenticated" and changes nothing |
| ImapSessionProps.AuthenticateRefusedOnceAuthenticated | crates/imap/src/server/session.rs:157-159 | AUTHENTICATE once authenticated is refused the same way, reading nothing |
| ImapSessionProps.SelectNeedsLogin | crates/imap/src/server/session.rs:291-295 | SELECT before logging in is BAD "not authenticated" |
| ImapSessionProps.FetchNeedsSelection | crates/imap/src/server/session.rs:316-324 | FETCH is handed on exactly when a mailbox is selected, otherwise BAD "not in selected state" |
| ImapSessionProps.ExamineAndListAnyState | crates/imap/src/server/session.rs:301-307 | EXAMINE and LIST are handed on in every state with nothing written |
| ImapSessionProps.LoginOutcome | crates/imap/src/server/session.rs:181-195 | accepted credentials log in with OK "Logged in"; wrong ones NO, an unknown identity BAD, the state kept |
| ImapSessionProps.LoggedInOnlyByLogin | crates/imap/src/server/session.rs:147-151 | only an accepted LOGIN or AUTHENTICATE from NotAuthenticated authenticates |
| ImapSessionProps.LogoutAnyState | crates/imap/src/server/session.rs:120-125 | LOGOUT from any state: BYE, OK "Logged out", state Logout, connection shut |
| ImapSessionProps.StarttlsOutcome | crates/imap/src/server/session.rs:127-145 | each STARTTLS branch, with the corrected OK reply |
| ImapSessionProps.StarttlsReplyStatus | crates/imap/src/server/session.rs:141 | the reply as written is tagged BAD, the corrected one OK, with the same text |
| ImapSessionProps.EnableAlwaysBad | crates/imap/src/server/session.rs:197-203 | ENABLE is always BAD and changes nothing |
| ImapSessionProps.CapabilitiesByConnection | crates/imap/src/server/session.rs:79-91 | every connection advertises IMAP4rev1, IMAP4rev2, AUTH=PLAIN and SASL-IR; LOGINDISABLED exactly on plaintext; STARTTLS exactly on plaintext with TLS configured |
| ImapSessionProps.CapabilityReply | crates/imap/src/server/session.rs:111-114 | the capability line splits back into exactly the connection's capabilities, then OK |
| ImapSessionProps.SelectResultSelects | crates/imap/src/server/session.rs:210-223 | a SELECT result in Authenticated selects the mailbox for that identity and writes the tagged response; elsewhere it is the unreachable case |
| ImapSessionProps.OtherResultsKeepState | crates/imap/src/server/session.rs:224-235 | every other result keeps the state; a failed operation is answered under its tag |
| SmtpCommand.Mailbox | crates/smtp/src/command.rs:168-184 | a mailbox is the text between the first `<` and the next `>` that the address check accepts |
| SmtpCommand.ParseArgs | crates/smtp/src/command.rs:75-120 | a parsed command always has the verb it was parsed for |
| SmtpCommand.MailArgs | crates/smtp/src/command.rs:82-84 | MAIL gives the mailbox or the usage error `MAIL FROM:<address>` |
| SmtpCommand.RcptArgs | crates/smtp/src/command.rs:85-87 | RCPT gives the mailbox or the usage error `RCPT TO:<address>` |
| SmtpCommand.BdatArgs | crates/smtp/src/command.rs:92-106 | the size is the first word as a `u64`, else the usage error; the chunk is last exactly when the remainder is LAST in any case |
| SmtpCommand.AuthArgs | crates/smtp/src/command.rs:108-118 | the mechanism is the first word, the initial response the rest of the line when there is one |
| SmtpCommand.Parse | crates/smtp/src/command.rs:73-122 | the verb is the text before the first space, matched after ASCII upper-casing; unknown verbs are `UnrecognizedCommand` |
| SmtpCommand.TryFrom | crates/smtp/src/command.rs:67-72 | bytes that are not UTF-8 are `InvalidUtf8`; anything else is parsed as text |
| SmtpCommand.ReadCmdSpec | crates/smtp/src/command.rs:126-150 | a command found is read from a line that was consumed, so the input shrinks |
| SmtpCommand.ReadCmd | crates/smtp/src/command.rs:126-150 | the loop, clearing its buffer after each rejected line, returns what `ReadCmdSpec` gives, writes its replies and leaves its rest unread |
| SmtpCommand.SpecStep | crates/smtp/src/command.rs:131-148 | one line: a command ends the read, anything else is answered and reading goes on |
| SmtpCommand.ParseLine | crates/smtp/src/command.rs:73-75 | a verb without spaces and its arguments are parsed for the verb the upper-cased word names |
| SmtpCommand.VerbOfName | crates/smtp/src/command.rs:75-119 | each verb's name names it and is already upper case |
| SmtpCommand.ParsedByVerb | crates/smtp/src/command.rs:75-120 | every parsed command was named by its verb; a word naming no verb is `UnrecognizedCommand` whatever follows |
| SmtpCommand.VerbAnyCase | crates/smtp/src/command.rs:75 | the verb matches in any ASCII case |
| SmtpCommand.VerbAlone | crates/smtp/src/command.rs:73 | a word alone on its line is a verb with no arguments |
| SmtpCommand.HeloDomain | crates/smtp/src/command.rs:73-81 | HELO and EHLO take everything after the first space as the domain, spaces included, or `""` |
| SmtpCommand.MailboxOf | crates/smtp/src/command.rs:168-207 | the text between the first `<` and the next `>` is the mailbox when the check accepts it; what follows is ignored |
| SmtpCommand.NoMailbox | crates/smtp/src/command.rs:168-174 | without a `<`, or without a `>` after it, there is no mailbox |
| SmtpCommand.MailAndRcptArgs | crates/smtp/src/command.rs:82-87 | MAIL and RCPT give the address, or their usage texts |
| SmtpCommand.BdatArgsSize | crates/smtp/src/command.rs:95-101 | every `u64` size is read back as a non-last chunk; a larger one is `BDAT <size>` |
| SmtpCommand.BdatArgsLast | crates/smtp/src/command.rs:102-104 | the chunk is last exactly when the rest of the line upper-cases to LAST |
| SmtpCommand.AuthArgsOf | crates/smtp/src/command.rs:108-118 | PLAIN in any case, with the rest of the line as the initial response |
| SmtpCommand.LineWithin | crates/smtp/src/command.rs:131 | a CRLF-ended line within the limit is read whole |
| SmtpCommand.LongLineSplits | crates/smtp/src/command.rs:131 | a line longer than the limit is cut there and its remainder read as the next line |
| SmtpCommand.ReadCmdEof | crates/smtp/src/command.rs:133 | at the end of the input there is no command and nothing is written |
| SmtpCommand.ReadCmdLine | crates/smtp/src/command.rs:137-148 | a line that parses is returned at once; one that does not is answered and reading goes on |
| SmtpCommand.ReadCmdEnds | crates/smtp/src/command.rs:130-149 | with a positive limit, the read gives a command or consumes the whole input |
| SmtpCommand.TryFromAscii | crates/smtp/src/command.rs:71 | an ASCII line reads as its own text |
| SmtpCommand.HeloThenQuit | crates/smtp/src/command.rs:209-244 | `HELO world`, `QUIT`, then the end of the input give `Helo(world)`, `Quit`, then nothing, with nothing written |
| SmtpEhlo.DeclsWellFormed | crates/smtp/src/ehlo.rs:60-99 | the AUTH and extension names are each declared once, hold no space, and no extension is called SIZE or AUTH |
| SmtpEhlo.FmtAuth | crates/smtp/src/ehlo.rs:68-76 | the loop writes `AUTH`, then a space and the name of each mechanism held, in declaration order |
| SmtpEhlo.ExtensionLines | crates/smtp/src/ehlo.rs:104-110 | after the domain come the extension names in declaration order, then `SIZE n` when a size is given, and the AUTH line always last |
| SmtpEhlo.Prefixed | crates/smtp/src/ehlo.rs:112-118 | one reply line per text; every line but the last is marked as followed by more |
| SmtpEhlo.AllLines | crates/smtp/src/ehlo.rs:103-110 | the domain line comes first and at least one line follows it |
| SmtpEhlo.FmtResponse | crates/smtp/src/ehlo.rs:101-122 | the writer produces the domain line, the extension lines, the SIZE line and the AUTH line as reply lines |
| SmtpEhlo.FmtLines | crates/smtp/src/ehlo.rs:112-118 | the peekable loop writes `250-` while another line follows and `250 ` on the last |
| SmtpEhlo.ResponseLines | crates/smtp/src/ehlo.rs:101-122 | the first line is `250-` and the domain, the last is `250 ` and the AUTH line, every other starts `250-`, all end in CRLF |
| SmtpEhlo.Absorb | crates/smtp/src/ehlo.rs:209-230 | the first text becomes the domain; after it, only a SIZE that is not a `u64` is an error |
| SmtpEhlo.Finish | crates/smtp/src/ehlo.rs:178-185 | the reply is accepted exactly when a domain was read |
| SmtpEhlo.ReadFrom | crates/smtp/src/ehlo.rs:177-231 | reading consumes only bytes of the input |
| SmtpEhlo.Read | crates/smtp/src/ehlo.rs:167-232 | the loop over `domain`, `size`, `eol`, `extensions` and `auth` returns what `ReadFrom` gives and leaves the same bytes unread |
| SmtpEhlo.FirstLineChecked | crates/smtp/src/ehlo.rs:187-207 | a reply is accepted only if its first line has at least 5 bytes, `-` or a space as its fourth byte, and UTF-8 text; the end of the input is a syntax error |
| SmtpEhlo.UnknownKeywordIgnored | crates/smtp/src/ehlo.rs:228 | after the domain, an unknown keyword changes nothing |
| SmtpEhlo.SizeMustFit | crates/smtp/src/ehlo.rs:220-223 | a SIZE line is a syntax error exactly when its argument is not a `u64`; otherwise it sets the size and nothing else |
| SmtpEhlo.LineReadBack | crates/smtp/src/ehlo.rs:187-207 | one written reply line reads back as its text; a line marked last ends the reply |
| SmtpEhlo.ReadWritten | crates/smtp/src/ehlo.rs:177-231 | reading written lines absorbs their texts in order and stops after the last one, leaving the rest |
| SmtpEhlo.AbsorbNames | crates/smtp/src/ehlo.rs:214-219 | extension keywords add exactly their flags |
| SmtpEhlo.NamesAbsorbed | crates/smtp/src/ehlo.rs:214-219 | the keywords an extension set prints set exactly that set |
| SmtpEhlo.AbsorbAuth | crates/smtp/src/ehlo.rs:224-227 | the AUTH line a mechanism set prints sets exactly that set |
| SmtpEhlo.AbsorbSize | crates/smtp/src/ehlo.rs:220-223 | the SIZE line of a `u64` sets exactly that size |
| SmtpEhlo.AbsorbLines | crates/smtp/src/ehlo.rs:209-230 | absorbing the texts of a response's lines rebuilds the response |
| SmtpEhlo.AuthTexts | crates/smtp/src/ehlo.rs:68-76 | the AUTH line is one of `AUTH`, `AUTH LOGIN`, `AUTH PLAIN`, `AUTH LOGIN PLAIN` |
| SmtpEhlo.LinesReadable | crates/smtp/src/ehlo.rs:187-195 | every line a response writes fits in `LINE_LIMIT` and survives `trim_end` |
| SmtpEhlo.RoundTrip | crates/smtp/src/ehlo.rs:298-309 | reading what `Display` writes gives back the same response and leaves the following bytes unread |
| SmtpEhlo.DocExample | crates/smtp/src/ehlo.rs:30-45 | the documented response prints as `250-mail.example.com`, `250-STARTTLS`, `250-SIZE 1024` and `250 AUTH PLAIN`, each ended by CRLF |
| SmtpData.Stuffed | crates/smtp/src/message/data.rs:154 | the client side of transparency: a line that starts with a dot gets one more dot in front |
| SmtpData.HeldBytes | crates/smtp/src/message/data.rs:23-33 | each pending state holds back exactly the CR, LF and dot bytes its name spells |
| SmtpData.Advance | crates/smtp/src/message/data.rs:35-65 | `advance`: the pattern states, the unstuffing of a lone `..` line, the end-of-data line, and a broken pattern giving back what it held before the byte is re-read from `Start` |
| SmtpData.AdvanceOutputBound | crates/smtp/src/message/data.rs:23-63 | one `advance` appends at most six bytes, six exactly when a held `CR LF . . CR` meets a byte other than CR or LF |
| SmtpData.Feed | crates/smtp/src/message/data.rs:96-115 | the loop as written, byte by byte: it stops at `Eof` or at the end of the input and uses no more bytes than it was given |
| SmtpData.FeedAppend | crates/smtp/src/message/data.rs:96-115 | feeding two pieces is feeding the first, then the second from where the first stopped |
| SmtpData.FeedPlain | crates/smtp/src/message/data.rs:37-41 | bytes without CR pass through `Start` unchanged and immediately |
| SmtpData.FeedFirstLine | crates/smtp/src/message/data.rs:37-42 | a first line not starting with a dot comes out unchanged, and its CRLF is held |
| SmtpData.FeedLineAfterFirst | crates/smtp/src/message/data.rs:42-59 | after a held CRLF, a line comes out with the CRLF before it, and a `..` line loses its extra dot |
| SmtpData.FeedBreaksCrLf | crates/smtp/src/message/data.rs:56-63 | a byte other than a dot or CR after a CRLF gives back the CRLF and the byte and returns to `Start` |
| SmtpData.FeedEnd | crates/smtp/src/message/data.rs:51-54 | the end-of-data line after a CRLF emits the CRLF and the reader stops, reading nothing that follows |
| SmtpData.AsWrittenRoundTrip | crates/smtp/src/message/data.rs:142-166 | the automaton as written gives back every message whose first line does not start with a dot and whose other lines start with a dot only when they are `.`, and stops right after the end-of-data line |
| SmtpData.AdvanceOverrunsRoomCheck | crates/smtp/src/message/data.rs:56-97 | a held `CR LF . . CR` broken by a plain byte appends six bytes, one more than the room checked for |
| SmtpData.FeedBreaksDotDot | crates/smtp/src/message/data.rs:45-63 | a byte other than CR after a held `CR LF . .` gives back all of it and returns to `Start` |
| SmtpData.DotLedLineKeepsBothDots | crates/smtp/src/message/data.rs:45-50 | a line starting with a dot and going on, sent stuffed, comes out with both dots |
| SmtpData.EmptyMessageNotEnded | crates/smtp/src/message/data.rs:75-80 | an empty message, sent as the single line `.`, is not recognised and the reader waits on |
| SmtpData.Step | crates/smtp/src/message/data.rs:35-65 | the corrected automaton: a dot that starts a line is dropped, a line holding only a dot ends the message, a CR waits for the next byte |
| SmtpData.StepWithinRoom | crates/smtp/src/message/data.rs:97 | every corrected step fits the room `poll_read` checks for |
| SmtpData.Run | crates/smtp/src/message/data.rs:96-115 | the corrected reader over the input stops at the end of the message or the input, using no more than it was given |
| SmtpData.RunAppend | crates/smtp/src/message/data.rs:96-115 | running over two pieces is running over the first, then the second |
| SmtpData.RunLine | crates/smtp/src/message/data.rs:44-50 | any line, stuffed and ended by CRLF, comes out as itself with its CRLF, the reader back at a line start |
| SmtpData.RunEnd | crates/smtp/src/message/data.rs:51-54 | the end-of-data line at a line start emits nothing and stops the reader |
| SmtpData.RoundTrip | crates/smtp/src/message/data.rs:142-166 | the corrected reader gives back every message, however its lines start, the empty one included, and stops right after the end-of-data line |
| SmtpData.CorrectedExamples | crates/smtp/src/message/data.rs:44-54 | the corrected reader turns `..x` into `.x` and ends the empty message |
| SmtpData.PollSpec | crates/smtp/src/message/data.rs:88-118 | a poll is pending exactly when the message has not ended and the room is under 5; a nonempty chunk means a byte was read |
| SmtpData.PollThenRun | crates/smtp/src/message/data.rs:88-118 | a ready poll delivers the next part of what `Run` delivers, and resumes from where it stopped |
| SmtpData.PollEmptyAtEnd | crates/smtp/src/message/data.rs:104-117 | a poll that appends nothing means the message or the input has ended |
| SmtpData.PollWithinRoom | crates/smtp/src/message/data.rs:97-110 | what a ready poll appends fits the room it checked for |
| SmtpData.DataReader.constructor | crates/smtp/src/message/data.rs:75-80 | a new reader starts at the beginning of a line |
| SmtpData.DataReader.PollRead | crates/smtp/src/message/data.rs:88-118 | the polling loop returns what `PollSpec` gives, consumes the bytes it read and writes nothing |
| SmtpData.DataReader.ReadToEnd | crates/smtp/src/message/data.rs:132-133 | polling until a poll appends nothing gives what `Run` delivers, and consumes what it used |
| SmtpData.ReadBackMessage | crates/smtp/src/message/data.rs:142-166 | a DATA body read to its end gives the message lines and leaves the input after the end-of-data line |
| SmtpBdat.AwaitBdat | crates/smtp/src/message/bdat.rs:53-72 | the wait ends with a BDAT's size and flag, or with an error after QUIT (answered `221 Bye`, connection shut), RSET or the end of the input; NOOP and other commands are answered and the wait goes on |
| SmtpBdat.NextBdatSpec | crates/smtp/src/message/bdat.rs:48-73 | the chunk is acknowledged with `250 ok` before the wait |
| SmtpBdat.AwaitStep | crates/smtp/src/message/bdat.rs:54-71 | one command read while waiting and how the wait goes on from it |
| SmtpBdat.NextBdat | crates/smtp/src/message/bdat.rs:48-73 | `next_bdat` returns what `NextBdatSpec` gives, writes its replies and leaves its rest unread |
| SmtpBdat.Await | crates/smtp/src/message/bdat.rs:53-72 | the loop returns what `AwaitBdat` gives |
| SmtpBdat.PollSpec | crates/smtp/src/message/bdat.rs:76-127 | a poll delivers as many bytes of the chunk as fit and have arrived, nothing at the end of the last chunk, runs the exchange at the end of any other chunk, and fails when the input ends inside a chunk; `BDAT 0 LAST` ends the body |
| SmtpBdat.PollSpecAsWritten | crates/smtp/src/message/bdat.rs:111-117 | as written, an exchange returning `BDAT 0 LAST` ends the body but leaves the spent exchange as the state |
| SmtpBdat.DrainSpec | crates/smtp/src/message/bdat.rs:145 | polling with the same room until a poll returns nothing or an error |
| SmtpBdat.BdatReader.constructor | crates/smtp/src/message/bdat.rs:30-37 | a new reader reads a first chunk of `size` bytes with the given flag |
| SmtpBdat.BdatReader.TakeStream | crates/smtp/src/message/bdat.rs:39-44 | the connection is returned only while a chunk is being read; the state is left empty either way |
| SmtpBdat.BdatReader.PollRead | crates/smtp/src/message/bdat.rs:76-127 | one poll returns, writes and consumes what `PollSpec` says, and moves to its state |
| SmtpBdat.BdatReader.ReadToEnd | crates/smtp/src/message/bdat.rs:145 | polling until nothing or an error gives what `DrainSpec` says |
| SmtpBdat.PayloadThenRest | crates/smtp/src/message/bdat.rs:83-90 | the rest of a chunk of `n` bytes is delivered as exactly those bytes, in polls of at most `room` bytes, with nothing written |
| SmtpBdat.LastChunkDone | crates/smtp/src/message/bdat.rs:92-95 | at the end of the last chunk the body ends, nothing read or written |
| SmtpBdat.NextChunk | crates/smtp/src/message/bdat.rs:96-122 | at the end of a non-last chunk the body goes on with the announced chunk, after what the exchange wrote |
| SmtpBdat.ChunkedBody | crates/smtp/src/message/bdat.rs:76-127 | a body sent in announced chunks is delivered as the chunks' bytes in order, each chunk but the last acknowledged with `250 ok`, and the input after the last chunk is left unread |
| SmtpBdat.ShortChunk | crates/smtp/src/message/bdat.rs:105-108 | input that ends inside a chunk: its bytes are delivered, then `UnexpectedEof` |
| SmtpBdat.AwaitAtEnd | crates/smtp/src/message/bdat.rs:63-65 | the end of the input while waiting is an error, with nothing written |
| SmtpBdat.BetweenChunks | crates/smtp/src/message/bdat.rs:53-72 | one command line while waiting: BDAT ends the wait; QUIT says `221 Bye`, shuts and fails; RSET fails; NOOP gets `250 ok`, anything else `503 expected BDAT` |
| SmtpBdat.BdatLine | crates/smtp/src/command.rs:92-106 | `BDAT n` and `BDAT n LAST` parse back to the chunk's size and flag for every `u64` size |
| SmtpBdat.EdelweissExample | crates/smtp/src/message/bdat.rs:136-162 | `Edel`, `BDAT 2`, `we`, `BDAT 2 LAST`, `i` and 0xDF give the body `Edelwei` and 0xDF, with `250 ok` written twice |
| SmtpBdat.AsWrittenDiffersOnlyInState | crates/smtp/src/message/bdat.rs:111-122 | the poll as written and the corrected one agree on what they return, write and leave unread; they differ only in the state after `BDAT 0 LAST` |
| SmtpBdat.ZeroLastLosesStream | crates/smtp/src/message/bdat.rs:115-117 | after a complete non-last chunk, `BDAT 0 LAST` as written leaves a state from which `take_stream` returns nothing; corrected, the connection is kept |
| SmtpIo.Bye | crates/smtp/src/io.rs:6-10 | `221 Bye` is written, then the connection is shut |
| SmtpSession.HandleKeeps | crates/smtp/src/server/session.rs:138-224 | every command keeps a transaction after HELO or EHLO, never sets an identity, hands over only an envelope with recipients while keeping none, and halts only when bytes were buffered at STARTTLS |
| SmtpSession.Session.constructor | crates/smtp/src/server/session.rs:29-41 | a new session has no envelope, no domain, no identity and has not greeted |
| SmtpSession.Session.ResetMailTxn | crates/smtp/src/server/session.rs:43-45 | only the envelope is dropped |
| SmtpSession.Session.Greet | crates/smtp/src/server/session.rs:48-52 | `220 <hostname>` is written; nothing else changes |
| SmtpSession.Session.TakeEnvelope | crates/smtp/src/server/session.rs:56-74 | returns, keeps and writes what `TakeEnvelopeSpec` says |
| SmtpSession.Session.Ehlo | crates/smtp/src/server/session.rs:76-98 | the effect `HandleSpec` gives EHLO: transaction dropped, domain recorded, the EHLO response written |
| SmtpSession.Session.Starttls | crates/smtp/src/server/session.rs:100-127 | the effect `HandleSpec` gives STARTTLS |
| SmtpSession.Session.Execute | crates/smtp/src/server/session.rs:143-225 | one command has exactly the effect `HandleSpec` gives it |
| SmtpSession.Session.NextMessage | crates/smtp/src/server/session.rs:130-227 | greets once; a transaction still follows HELO or EHLO; no identity appears; `Ok(None)` only once the input is used up; a handed-over envelope has recipients and the session keeps none |
| SmtpSessionProps.Run | crates/smtp/src/server/session.rs:138-226 | commands one after another, until one hands over a message or halts |
| SmtpSessionProps.HeloResets | crates/smtp/src/server/session.rs:145-150 | HELO and EHLO drop the transaction and record the domain; HELO answers `250 hello` |
| SmtpSessionProps.EhloAdvertises | crates/smtp/src/server/session.rs:81-97 | the EHLO reply reads back as the host name, 8BITMIME, SMTPUTF8, CHUNKING, STARTTLS exactly when TLS is configured and the connection plaintext, no SIZE, both AUTH mechanisms |
| SmtpSessionProps.MailOpens | crates/smtp/src/server/session.rs:152-165 | MAIL: 503 before HELO, 501 inside a transaction, otherwise a new envelope with no recipients and 250 |
| SmtpSessionProps.RcptAdds | crates/smtp/src/server/session.rs:166-176 | RCPT: 503 without a transaction, otherwise the recipient joins the set and 250 |
| SmtpSessionProps.RcptIdempotent | crates/smtp/src/server/session.rs:170-173 | naming a recipient twice leaves the same fields as naming it once |
| SmtpSessionProps.BodyHandsOver | crates/smtp/src/server/session.rs:177-197 | DATA and BDAT: 503 and no change without an envelope; 554 and the envelope kept without recipients; otherwise the envelope handed over, none kept, DATA writing 354 |
| SmtpSessionProps.RsetNoop | crates/smtp/src/server/session.rs:183-199 | RSET drops only the envelope, NOOP changes nothing, both answer 250 |
| SmtpSessionProps.QuitCloses | crates/smtp/src/server/session.rs:198 | QUIT writes `221 Bye`, shuts the connection, and the loop goes on |
| SmtpSessionProps.AuthAnswers | crates/smtp/src/server/session.rs:201-224 | AUTH changes no field: 503 in a transaction, 503 once authenticated, else 235 |
| SmtpSessionProps.StarttlsResets | crates/smtp/src/server/session.rs:100-127 | STARTTLS: 454 when TLS is on or not configured; otherwise 220, then TLS and a session with no domain, identity or envelope, or a halt when bytes were buffered |
| SmtpSessionProps.RunKeeps | crates/smtp/src/server/session.rs:138-226 | over any run of commands a transaction only follows HELO or EHLO, no identity is set, nothing halts, and a handed-over envelope has recipients |
| SmtpSessionProps.Transaction | crates/smtp/src/server/session.rs:145-182 | HELO, MAIL, RCPT twice with one address, DATA: one recipient is handed over, with `250 hello`, three `250 ok` and `354 go ahead` written |

## Left out

- Base64 decoding of AUTHENTICATE responses, the e-mail address check and the credential `Validator`: these are foreign code. Each is a function parameter, and nothing is assumed about it.
- I/O errors other than the end of the input: the model has none. A write always succeeds.
- The protocol gives no clock. So the SMTP command-read timeout in `crates/smtp/src/command.rs:153-166` is not modelled.
- `Poll`, `Waker` and `Pending`: the readers run to a result. One poll reads at most a `room` given by the caller, and the input decides how much of it arrives.
- SmtpData.DataReader.ReadToEnd and SmtpBdat.BdatReader.ReadToEnd: both poll with a fixed room. The source's buffer growth does not change what is read.
- SmtpIo.Bye: writes after the shutdown are recorded in the log. In the source they would be I/O errors.
- `crates/imap/src/server/queue.rs`: the response queue is concurrent code and is not part of this model. So ImapSession.Session.NextCmd does not drain a queue.
- `crates/imap/src/operations/*.rs` and `crates/smtp/src/message.rs` `accept`/`reject`: the operations return constants. The model ends at the operation handed out, or the message handed over.
- The TLS handshake itself: `upgrade` is modelled only by what it demands, an empty read buffer. When that demand fails, the source panics. The model ends the session with a `Halt` outcome instead.
- SmtpData.DataReader.PollRead: it runs the corrected end-of-data automaton (see Findings). The automaton as written is modelled beside it, as a function.
- SmtpBdat.BdatReader.PollRead: it follows the corrected poll (see Findings). The poll as written is modelled beside it, as a function.
- ImapSession.StarttlsSpec: it sends the corrected STARTTLS reply, a tagged OK (see Findings). The reply as written, a tagged BAD, is ImapSession.StarttlsReplyAsWritten, modelled beside it.
- ImapSession.Session.HandleStarttls: it writes the corrected tagged OK that StarttlsSpec gives, not the tagged BAD of the source (see Findings).
- ImapSession.Session.NextOp: stated by the invariants it keeps and by the greeting, not as a function of the input. Each pass of its loop is Session.Turn, which TurnSpec states exactly, but the read buffer seen at each STARTTLS depends on how the input was chunked.
- ImapCommandRender.RenderRoundTrip: a FETCH set holding the range `*:*` is excluded. That range prints as `*`, which the set parser as written does not read (see Findings), so such a line does not read back in the source either.
- ImapCommandRender.ArgsRoundTrip: excludes a FETCH set holding `*:*`, for the same reason.
- ImapCommandRender.FetchRoundTrip: excludes a set holding `*:*`, for the same reason.
- ImapSequence.ParseSetFixed: the corrected set parser is proved beside the parser as written, but FETCH reads its set with the parser as written, as the source does.
- SmtpSession.Session.NextMessage: stated by the invariants it keeps and by what each command does, not as a function of the input. The source reads as much as arrives, so whether the read buffer is empty at STARTTLS depends on how the input was chunked.
- ImapArgs.EmptyQuoted: nom's `escaped_transform` fails on an empty body, so `""` is read as a bare argument of two quote characters, not as the empty string. The model keeps this behaviour of the library.
- ImapSession.DispatchSpec: the session's `todo!()` arms become a `Stop(Todo)` outcome instead of a panic. These include SELECT in the Authenticated state and every command in the Selected state but the ones handled.
- The `StatusResponse::ok`, `no` and `bad` helpers are the datatype's constructors.
- The `u32` and `u64` widths are bounded only where a number is parsed. Nothing in the model does arithmetic on them.
- `crates/imap/src/server/exists.rs` is inlined into SELECT's response.
- APPEND's arguments are not parsed, matching the source, which builds `Command::Append` without them.
- LOGIN is accepted on a plaintext connection even though LOGINDISABLED is advertised, matching the source.

## Findings

| source | as written | input that shows it | evidently intended | confidence | as-written member | corrected member |
|---|---|---|---|---|---|---|
| crates/imap/src/server/session.rs:141 | a successful STARTTLS is answered with a tagged BAD `Begin TLS negotiation` | `a STARTTLS` on a plaintext connection with TLS configured | a tagged OK before the negotiation, as section 6.2.1 of RFC 9051 requires | not executed | ImapSessionProps.StarttlsReplyStatus | ImapSessionProps.StarttlsOutcome |
| crates/smtp/src/message/data.rs:97 | the poll stops when fewer than 5 bytes of room are left | held `CR LF . . CR` followed by a plain byte: one advance appends 6 bytes (data.rs:56-63) | the check should leave room for the longest output of one advance | not executed | SmtpData.AdvanceOverrunsRoomCheck | SmtpData.PollWithinRoom |
| crates/smtp/src/message/data.rs:44-50 | only a line that is exactly `..` loses a dot | the stuffed line `..x` arrives as `..x` | the first dot of every line that starts with a dot is deleted (section 4.5.2 of RFC 5321) | not executed | SmtpData.DotLedLineKeepsBothDots | SmtpData.RoundTrip |
| crates/smtp/src/message/data.rs:75-80 | the automaton starts in a state that has seen no line end | the empty message, `.` CR LF right after DATA, is not recognised as the end | the body starts at the beginning of a line, as after CR LF | not executed | SmtpData.EmptyMessageNotEnded | SmtpData.CorrectedExamples |
| crates/imap/src/sequence.rs:98-108 | a single set element must be a number | `*`: the range `*:*` prints as `*`, which does not read back | `*` is a sequence number (section 9 of RFC 9051) | not executed | ImapSequence.LoneStarRejected | ImapSequence.ParseSetFixedText |
| crates/smtp/src/message/bdat.rs:115-117 | `BDAT 0 LAST` after a non-last chunk ends the body but leaves the spent exchange as the state | a chunk `BDAT 3` then `BDAT 0 LAST`: `take_stream` returns nothing, so `accept` and `reject` panic | the body ends and the connection can be taken back | not executed | SmtpBdat.ZeroLastLosesStream | SmtpBdat.AsWrittenDiffersOnlyInState |
