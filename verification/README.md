# Verified models of the board's scripts

Dafny models of the logic that the repository's Python, PHP and JavaScript scripts carry, with proofs of
what each one is for. There is one module for each script or closely related group of scripts:

- **Mail fixture** (`scripts/dev-verification-mail.py`): `MailSession` is one SMTP session as a function of
  the bytes a client sends, `Mailbox` the locked `save` over whole runs, `MailServer` the threaded server over
  every interleaving of its accepting thread and the reads and saves of its handlers, with a KeyboardInterrupt
  between any two steps of the accepting thread, `MailSlots` its semaphore, `MailHandler` the handler's code over
  a stream.
- **GIF fixtures** (`scripts/extract-gd-gif-thumbnail-reference.py`): `GifEncoder` writes the degenerate LZW
  stream; `GifDecoder` is an independent reader of the GIF89a format (section 22 and Appendix F), with a growing
  code table and growing code widths, against which every file is proved.
- **Reference renaming** (`scripts/extract-thread-transfer-reference.py`): `ThreadTransfer` relates sequential
  substring replacement to renaming of tokens.
- **Windows CI check** (`scripts/check-windows-test-exits.py`): `PwshGuards` gives the commands an exit-code
  semantics, reads a run block as YAML does (line breaks; the indentation of the first line that is not blank),
  and proves what an empty list of findings means; `PwshSelfTest` is its self-test, for all shells and commands.
- **Navigation headers** (`scripts/extract-navigation-reference.py`): `HeaderClasses` is the event-driven stack
  machine against element trees, `RustLiteral` the printer of Rust string literals against a reader.
- **Word filter tables** (`scripts/extract-wordfilter-unicode-reference.php`): `UnicodeRanges`, the scan, its
  table, and the lookup in `crates/domain/src/wordfilter.rs` that uses the table.
- **Dependency check** (`scripts/check-media-parser-dependencies.py`): `Dependencies`, the worklist closure and
  its injected-edge control.
- **Retention** (`scripts/extract-sticky-retention-reference.py`, `scripts/extract-autoarchive-reference.py`):
  `Retention`, the rolling reply window and the archive threshold, together over runs.
- **COPY stream** (`scripts/ban-reference-sql.py`): `Json` (RFC 8259) and `CopyStream` (PostgreSQL COPY text
  format), printers with readers, and `Jsonb`, what the column makes of a JSON text.
- **Comment wrapping** (`scripts/extract-greentext-reference.py`): `Greentext`, with the steps that undo it.
- **Staff actions** (three `scripts/extract-staff-*-reference.py` scripts): `StaffAudit`, actions on one post and
  the audit log they leave.
- **EXIF toggles** (`assets/exif.js`): `Exif`, target syntax, listener mounting, the click handler.
- **Previews** (`scripts/extract-preview-policy-reference.py`): `Preview`.
- **Board titles** (`scripts/extract-board-reference.py`): `BoardTitles`, the guarded title migrations, read back
  by an SQL scanner and parser and executed on a table.

`Bytes`, `Decimals`, `FiniteSets`, `PyText` and `Wrappers` hold what several modules share.

Code that changes state is a class or a loop proved against a function; the laws are lemmas about that function.
The clock, random names, file-system faults, client bytes, event interleavings and the PCRE character classes are
parameters.

## Where the code and its description differ

Some properties one might expect are false of the code. For each there is a lemma at a failing input and the
exact condition.

- Sequential replacement is not an exact renaming of references. It acts on each reference on its own
  (`ThreadTransfer.RewriteActsOnTokens`) and is exact under the condition in `ThreadTransfer.RewriteExactIff`;
  `ThreadTransfer.CascadeIsNotExact` is one of the script's own cases.
- The Windows check does not read every block that YAML gives to pwsh. It reads a block whole exactly when the
  block is indented by ten spaces or more and has no blank line of one to nine (`PwshGuards.BodyIsScriptIff`);
  `PwshGuards.ShortBlankHidesFinding` and `PwshGuards.NineSpacesHideFinding` lose a failure unreported. Its lines
  are YAML's exactly when the step holds no other line break, such as U+2028 (`PwshGuards.LinesAgreeIff`,
  `PwshGuards.SeparatorHidesRest`).
- Slots and handlers are not always four together. A KeyboardInterrupt between the acquire and the try, or in the
  except clause before its release, loses a slot (`MailSlots.SlotLostIff`, `MailSlots.SlotLostOccurs`). One that
  leaves the try once the handler thread exists makes `process_request` release the slot that the thread releases
  too; the semaphore is released past its bound exactly when that has happened and then or later no handler is
  live (`MailSlots.OverReleasedIff`, `MailSlots.OverReleaseOccurs`). If the thread is done first, the ValueError
  takes the place of the KeyboardInterrupt and the server goes on serving, so this can recur without limit
  (`MailSlots.OverReleaseRepeats`). The count is four at every moment exactly when none of these events occurs
  (`MailSlots.FourAtEveryMomentIff`).
- A write that fails after its file was created (`Mailbox.OrphanArises`) leaves a file that is never owned,
  changed or removed (`Mailbox.OrphanStays`); the directory is the owned messages exactly when that has not
  happened (`Mailbox.DirectoryIsOwned`).
- Preview derivation depends on input order exactly when two reply ids are different numerals for one number
  (`Preview.OrderIndependentIff`), and its duplicate check lets "1" and "01" through (`Preview.EqualKeysAccepted`).

More hold only under a condition that the scripts' fixtures happen to meet: the wrapped comment is reversible
exactly when no 35-character chunk contains the break marker (`Greentext.RoundTripIff`); an audit log determines
the spoiler state exactly when the plain subject does not itself begin with the spoiler prefix
(`StaffAudit.ReplayNeedsPlainSubject`); and the COPY stream loads into its jsonb column exactly when no string
and no name of a case holds a NUL (`CopyStream.StreamHolds`).

## Model

| member | source | states |
|---|---|---|
| GifEncoder.Gif | scripts/extract-gd-gif-thumbnail-reference.py:11-24 | a file is produced exactly when every header field fits 16 bits and the frame has at most 339 pixels; a GIF89a reader then sees the intended canvas, palette, transparency and pixels, nothing but the trailer remains, and the size is exact; which error otherwise |
| GifEncoder.StreamDecodes | scripts/extract-gd-gif-thumbnail-reference.py:13-18 | for any two-bit pixels, the packed stream with a clear code before every pixel, whatever padding follows, LZW-decodes to those pixels from any three-bit state; codes never widen |
| GifEncoder.FileReads | scripts/extract-gd-gif-thumbnail-reference.py:19-24 | every file of the encoder's framing is read back as the frame it describes |
| GifEncoder.ControlReads | scripts/extract-gd-gif-thumbnail-reference.py:21-22 | the control bytes are read as "colour 1 is transparent" |
| GifEncoder.PackedFits | scripts/extract-gd-gif-thumbnail-reference.py:17-18 | the computed length always holds the packed number, so the conversion to bytes never overflows |
| GifEncoder.PackCodes | scripts/extract-gd-gif-thumbnail-reference.py:17-17 | the sum of shifted codes is the base-eight number of the codes |
| GifEncoder.BuildCodes | scripts/extract-gd-gif-thumbnail-reference.py:13-16 | the loop yields a clear code and the colour for each pixel, then the end code |
| Bytes.BitStreamOfToBytes | scripts/extract-gd-gif-thumbnail-reference.py:17-18 | little-endian bytes, read low bit first, hold the bits of the number in order |
| Bytes.SplitBits | scripts/extract-gd-gif-thumbnail-reference.py:17-17 | codes added at shifted positions keep their own bits |
| ThreadTransfer.ReplaceRenames | scripts/extract-thread-transfer-reference.py:82-83 | one replacement pass renames exactly the references whose digit run starts with the old id, and changes nothing else |
| ThreadTransfer.RewriteActsOnTokens | scripts/extract-thread-transfer-reference.py:81-83 | all passes together act on each reference's id alone; all text, and the number and places of references, are preserved |
| ThreadTransfer.TokensOfRender | scripts/extract-thread-transfer-reference.py:51-62 | after ids change, the text still reads as the same sequence of references and text: markup, entities and escapes never join or split a reference |
| ThreadTransfer.RenderTokens | scripts/extract-thread-transfer-reference.py:51-62 | tokenising loses nothing |
| ThreadTransfer.RewriteExactIff | scripts/extract-thread-transfer-reference.py:43-50 | a growing mapping renames exactly at every stage if and only if each pass is exact for each quoted id |
| ThreadTransfer.PrefixFreeIsExact | scripts/extract-thread-transfer-reference.py:44-50 | no old id a proper prefix of a quoted id and no later old id a prefix of an earlier new id is enough for an exact renaming |
| ThreadTransfer.CascadeIsNotExact | scripts/extract-thread-transfer-reference.py:44-44 | two references of the script's cascade case end as the case says, which is not the exact renaming |
| ThreadTransfer.IdIff | scripts/extract-thread-transfer-reference.py:78-79 | the id test accepts exactly the shortest decimals of 1 to 2^63 - 1 |
| ThreadTransfer.Validate | scripts/extract-thread-transfer-reference.py:75-84 | a case is accepted exactly when its ids are decimals of 1 to 2^63 - 1 and its expected text is the token-wise cascade of its input |
| MailSession.MessageIff | scripts/dev-verification-mail.py:59-96 | a message is handed over exactly when the bytes are EHLO, MAIL FROM, RCPT TO and DATA lines in that order, in any case, and a complete data phase, and it is what that phase received |
| MailSession.ClassifyIs | scripts/dev-verification-mail.py:65-96 | what the handler does with every line in every state, each verb letter taken in upper or lower case |
| MailSession.DialogueIs | scripts/dev-verification-mail.py:59-96 | all the replies of a session that opens correctly, for each answer of the mailbox, to its end |
| MailSession.StrayLineEnds | scripts/dev-verification-mail.py:65-66 | any other line ends the session: QUIT in any case is answered with closing, an acceptable line with invalid sequence, an unacceptable one not at all |
| MailSession.CaseIsIgnored | scripts/dev-verification-mail.py:67-76 | sessions that open correctly and go on alike, such as in upper and in lower case, get the same replies and deliver the same message |
| MailSession.DataIff | scripts/dev-verification-mail.py:78-87 | on any bytes, what the data phase receives: short CRLF lines up to the first lone dot, those with two leading dots without the first, at most 8192 bytes |
| MailSession.MessageIndependent | scripts/dev-verification-mail.py:88-90 | what is handed over does not depend on the mailbox's answer |
| MailSession.MessageBound | scripts/dev-verification-mail.py:85-87 | any message handed over has at most 8192 bytes, on any input |
| MailSession.ReadsSuffice | scripts/dev-verification-mail.py:63-63 | the bound of eight command reads is never what ends a session |
| MailSession.AcceptableIffLine | scripts/dev-verification-mail.py:64-66 | the reads that go on are exactly the CRLF lines of at most 1024 bytes with no inner LF |
| MailSession.StuffedRoundTrip | scripts/dev-verification-mail.py:78-87 | a dot-stuffed message (section 4.5.2 of RFC 5321) is received as exactly its original bytes when each stuffed line has at most 1024 bytes and the message at most 8192, and otherwise not at all |
| MailSession.SessionDelivers | scripts/dev-verification-mail.py:59-96 | a whole well-formed exchange delivers exactly the client's message, or nothing when a bound is passed |
| Mailbox.RunKeeps | scripts/dev-verification-mail.py:40-56 | over any run with a clock that never falls back: the owned entries are exactly the accepted messages younger than an hour, each in its file, never more than 100, and the other files are the orphans |
| Mailbox.HundredPerHour | scripts/dev-verification-mail.py:43-48 | accepted messages a hundred apart are at least 3600 seconds apart |
| Mailbox.WindowBound | scripts/dev-verification-mail.py:43-48 | at most 100 messages are accepted in any 3600-second window |
| Mailbox.RefusedIff | scripts/dev-verification-mail.py:47-48 | a save is refused exactly when the last 100 accepted messages are all younger than an hour |
| Mailbox.SaveIff | scripts/dev-verification-mail.py:40-56 | after any run, for any further save and fault: accepted exactly when nothing fails, the name is unused and fewer than 100 messages are younger than an hour; full and raised likewise; then exactly what is owned and which files exist, the young messages always kept |
| Mailbox.DirectoryIsOwned | scripts/dev-verification-mail.py:45-55 | the directory is the owned messages and the orphans; it is exactly the owned ones if and only if no write failed after its file was created |
| Mailbox.OrphanArises | scripts/dev-verification-mail.py:50-55 | one save whose write fails leaves its file and owns nothing |
| Mailbox.OrphanStays | scripts/dev-verification-mail.py:43-55 | no later save owns, overwrites or removes such a file |
| Mailbox.Fixture.Prune | scripts/dev-verification-mail.py:43-46 | the loop leaves exactly the entries and files that have not expired |
| Mailbox.Fixture.Save | scripts/dev-verification-mail.py:40-56 | the new mailbox and the answer are those of the specification, on every fault |
| MailSlots.FourSlots | scripts/dev-verification-mail.py:20-36 | in every interleaving at most four handlers run; without a KeyboardInterrupt free slots and held slots are always four and the bound is never passed |
| MailSlots.FourAtEveryMomentIff | scripts/dev-verification-mail.py:23-36 | free and held slots are four at every moment if and only if no interrupt comes between acquire and try or before the release of a slot no thread has, and `process_request` never releases the slot of a thread that exists while a handler is live |
| MailSlots.SlotLostIff | scripts/dev-verification-mail.py:24-31 | there are fewer than four exactly when one of those interrupts has come |
| MailSlots.SlotDoubledIff | scripts/dev-verification-mail.py:27-36 | there are more than four exactly when `process_request` has released the slot of a thread that exists and a handler has been live ever since |
| MailSlots.OverReleasedIff | scripts/dev-verification-mail.py:27-36 | the semaphore has been released past its bound exactly when `process_request` has released the slot of a thread that exists and then or later no handler was live |
| MailSlots.SlotLostOccurs | scripts/dev-verification-mail.py:24-27 | an interrupt right after the acquire leaves three slots |
| MailSlots.OverReleaseOccurs | scripts/dev-verification-mail.py:27-36 | an interrupt once the thread exists, then both releases: one past the bound |
| MailSlots.OverReleaseRepeats | scripts/dev-verification-mail.py:27-36 | with the thread's release first the server goes on serving, and any number of releases past the bound can occur in one run |
| MailSlots.InterruptsCounted | scripts/dev-verification-mail.py:23-36 | each release past the bound, and each wrong count, takes a KeyboardInterrupt of its own |
| MailServer.OneMessageEach | scripts/dev-verification-mail.py:59-96 | from the line-by-line steps of the handlers, in every interleaving: each connection saves at most once, exactly the message its own bytes spell, of at most 8192 bytes, and a handler that ends undisturbed has saved exactly when there is one |
| MailServer.ReadKeeps | scripts/dev-verification-mail.py:63-87 | one readline, of a command or of data, keeps what the rest of the session will deliver; after a save no line leads back to collecting |
| MailServer.MailboxBounded | scripts/dev-verification-mail.py:40-56 | in every interleaving the mailbox keeps its hourly bound and its capacity |
| MailSlots.Slots.ProcessRequest | scripts/dev-verification-mail.py:23-31 | the semaphore follows the state machine on every course: refused, started, start failed, interrupted before the try, in it with or without a thread, and again before the release, whatever handlers end meanwhile; which of them leave the server |
| MailSlots.Slots.ExceptClause | scripts/dev-verification-mail.py:29-31 | the except clause releases once, or not at all when interrupted, and raises on |
| MailSlots.Slots.ThreadEnds | scripts/dev-verification-mail.py:32-36 | a handler that returns or raises gives its slot back |
| MailHandler.Stream.Line | scripts/dev-verification-mail.py:64-64 | reads one line of at most 1025 bytes and leaves the rest |
| MailHandler.Stream.Receive | scripts/dev-verification-mail.py:78-87 | the inner loop receives exactly the data phase and leaves what follows it |
| MailHandler.Serve | scripts/dev-verification-mail.py:59-96 | the handler's replies and its effect on the mailbox are exactly those of the session its input spells; without a complete message the mailbox is untouched |
| PwshGuards.FaithfulIff | scripts/check-windows-test-exits.py:2-11 | a block exits with its first native failure, or 0, for all exit codes, if and only if a guard stands between any two of its native commands |
| PwshGuards.CheckIsSound | scripts/check-windows-test-exits.py:31-34 | no findings in a block implies that, for all exit codes |
| PwshGuards.CheckIsExact | scripts/check-windows-test-exits.py:31-34 | on blocks of native commands and guards alone, no findings is equivalent to it |
| PwshGuards.SplitCuts | scripts/check-windows-test-exits.py:17-17 | the pieces are, in order, the source cut exactly where a line begins with six spaces, a dash and a space |
| PwshGuards.SplitIff | scripts/check-windows-test-exits.py:17-17 | a piece is a slice of the source from one such line, or its start, to the next, or its end |
| PwshGuards.NativeIff | scripts/check-windows-test-exits.py:12-12 | a native command is one of nine names, then white space or nothing |
| PwshGuards.CommandOfLine | scripts/check-windows-test-exits.py:28-30 | a body line contributes its text without the white space around it, unless empty or a comment |
| PwshGuards.FindingsAre | scripts/check-windows-test-exits.py:31-34 | the findings are, in order, the native commands that have a later one and no guard next |
| PwshGuards.BodyIsScriptIff | scripts/check-windows-test-exits.py:24-30 | the checker reads the whole YAML block exactly when it is indented by at least ten spaces and has no blank line of one to nine, and nothing but the block exactly when no deeper line ends it |
| PwshGuards.ShallowIsUnread | scripts/check-windows-test-exits.py:26-27 | of a block indented by less than ten spaces the checker reads no command |
| PwshGuards.LinesAgreeIff | scripts/check-windows-test-exits.py:18-18 | the lines of a step are YAML's exactly when it holds no other line break |
| PwshGuards.SeparatorHidesRest | scripts/check-windows-test-exits.py:18-27 | a line separator inside a YAML line ends the block for the checker, whatever commands follow |
| PwshGuards.SourceIsSound | scripts/check-windows-test-exits.py:15-35 | a source without findings: in each step, from one step line to the next, with the pwsh shell line and plain line breaks, each run block, as YAML reads it, exits with its first failure, if it is empty, or indented by at least ten spaces without shorter blank lines |
| PwshGuards.ShortBlankHidesFinding | scripts/check-windows-test-exits.py:26-27 | with a short blank line between two native commands nothing is reported and the first failure is lost |
| PwshGuards.NineSpacesHideFinding | scripts/check-windows-test-exits.py:26-27 | so it is for the two commands in a block indented by nine spaces |
| PwshGuards.CheckDistributes | scripts/check-windows-test-exits.py:17-17 | the findings of two concatenated sources of whole steps are the findings of each, in order |
| PwshGuards.MissingGuards | scripts/check-windows-test-exits.py:15-35 | the loop over the steps collects exactly the findings of each step |
| PwshGuards.StepFindings | scripts/check-windows-test-exits.py:18-34 | a step that is not pwsh has none; otherwise every run line's block is checked |
| PwshGuards.BlockFindings | scripts/check-windows-test-exits.py:31-34 | exactly the native commands, but for the last, that no guard follows at once |
| PwshGuards.BlockCommands | scripts/check-windows-test-exits.py:24-30 | stripped, without blanks and comments, up to the first line that leaves the block |
| PwshSelfTest.SelfTest | scripts/check-windows-test-exits.py:38-49 | the self-test's block, for every shell and all commands of one line, yields exactly the findings of its commands under pwsh and none under another shell |
| HeaderClasses.ForestFeeds | scripts/extract-navigation-reference.py:70-84 | for any forest with void elements unclosed and end tags left out where the parent's own end closes the last child, feeding it from any stack adds just the elements left open and the rows of the tree's anchors under their true ancestors |
| HeaderClasses.UnclosedSwallows | scripts/extract-navigation-reference.py:80-84 | an end tag that only a later sibling implies is not supplied: the events are those of the tree in which everything later is inside the open element |
| HeaderClasses.DocumentRows | scripts/extract-navigation-reference.py:87-90 | with every end tag in place the stack returns to its start and the rows are the document's anchors in order |
| HeaderClasses.RowMeans | scripts/extract-navigation-reference.py:72-76 | an anchor gives a row exactly when the scan finds a boardList ancestor, its link is the row's slug between slashes, with the host before it or not, and its true parent's classes can be read; the flag is the parent's |
| HeaderClasses.NoRowMeans | scripts/extract-navigation-reference.py:72-76 | when there is no row, outside a boardList, and which exception when there is one |
| HeaderClasses.SlugIff | scripts/extract-navigation-reference.py:73-73 | the pattern matches exactly those links, with that slug |
| HeaderClasses.DictIsLast | scripts/extract-navigation-reference.py:71-71 | a repeated attribute has its last value |
| PyText.WordsIff | scripts/extract-navigation-reference.py:72-75 | a class is in the list exactly when it stands in the attribute between white space or the ends |
| HeaderClasses.InBoardListIff | scripts/extract-navigation-reference.py:72-72 | when the short-circuiting scan over the stack finds a boardList, when it finds none, and so when it raises |
| HeaderClasses.EndClosesElement | scripts/extract-navigation-reference.py:80-84 | an end tag closes the innermost element of its name together with everything left open in it |
| HeaderClasses.Parser.HandleStartTag | scripts/extract-navigation-reference.py:70-78 | the fields after a start tag, or an exception with the fields as they were |
| HeaderClasses.Parser.HandleEndTag | scripts/extract-navigation-reference.py:80-84 | the downward search leaves exactly the stack below the innermost element of that name, or the stack as it was |
| HeaderClasses.Parser.Run | scripts/extract-navigation-reference.py:87-90 | a whole event list |
| RustLiteral.LiteralRoundTrip | scripts/extract-navigation-reference.py:163-167 | a Rust lexer reads every printed literal back as the string and stops exactly at its end, whatever follows |
| RustLiteral.CharReads | scripts/extract-navigation-reference.py:165-167 | each printed character or escape is read as that character |
| RustLiteral.PrintsPlainly | scripts/extract-navigation-reference.py:165-167 | what needs no escape is printed as it is |
| RustLiteral.NoControls | scripts/extract-navigation-reference.py:166-166 | no control character appears in a literal |
| UnicodeRanges.TableIsExact | scripts/extract-wordfilter-unicode-reference.php:18-36 | for any class: no range is left open; the ranges are sorted, disjoint and not adjacent, hold exactly the class's scalars, and their sizes add up to the count |
| UnicodeRanges.TableAvoidsSurrogates | scripts/extract-wordfilter-unicode-reference.php:24-28 | no range meets the surrogate gap, and no other canonical table has the same members |
| UnicodeRanges.TableIsUnique | scripts/extract-wordfilter-unicode-reference.php:32-32 | a set of code points has one canonical table |
| UnicodeRanges.LookupIsMembership | crates/domain/src/wordfilter.rs:169-173 | on a canonical table the binary search decides membership |
| UnicodeRanges.LookupIsClass | crates/domain/src/wordfilter.rs:169-173 | the lookup in the generated table agrees with the pattern on every scalar |
| UnicodeRanges.ScanAll | scripts/extract-wordfilter-unicode-reference.php:18-36 | one scan builds the right table and count for all classes at once, and always counts 1,112,064 scalars |
| UnicodeRanges.StepInPlace | scripts/extract-wordfilter-unicode-reference.php:27-35 | one code point updates one class's entries in the three arrays and no other's |
| UnicodeRanges.ScalarsClosed | scripts/extract-wordfilter-unicode-reference.php:58-58 | the number of scalars below any point |
| Dependencies.Reachable | scripts/check-media-parser-dependencies.py:16-26 | terminates on every finite graph; returns exactly the packages on paths of normal or build edges, or fails exactly when one of them is missing |
| Dependencies.InjectedReach | scripts/check-media-parser-dependencies.py:46-49 | after the injected edge its source reaches exactly what either end reached before |
| Dependencies.Linked | scripts/check-media-parser-dependencies.py:38-38 | the names linked by one package, or a failed lookup |
| Dependencies.ControlLinks | scripts/check-media-parser-dependencies.py:48-50 | the same for the names linked |
| Dependencies.Check | scripts/check-media-parser-dependencies.py:37-51 | passes exactly when no runtime links a prohibited parser and the guest links its own; names the first runtime that does not, or the missing guest parser, exactly then; the control can never be missed |
| Retention.NewestIff | scripts/extract-sticky-retention-reference.py:56-56 | an id is in the descending LIMIT window exactly when fewer than that many ids are greater |
| Retention.SurvivorsAreNewest | scripts/extract-sticky-retention-reference.py:54-63 | the MIN-over-LIMIT query form keeps exactly the newest cap - 1 replies if and only if the window's oldest is above the OP or the window holds every reply |
| Retention.RepliesAboveOp | scripts/extract-sticky-retention-reference.py:54-63 | so it does for every thread whose replies are above the OP |
| Retention.RollingWindow | scripts/extract-sticky-retention-reference.py:54-67 | from any backlog, after any nonempty run of posts with increasing ids, the thread holds exactly the newest cap of all replies it ever had |
| Retention.AfterReply | scripts/extract-autoarchive-reference.py:33-39 | over any run of replies and flag changes, right after a reply: an unarchived ordinary thread is below the archive cap, a sticky+undead one within its window and not archived, and a reply that archives prunes nothing |
| Retention.ArchivedAtThreshold | scripts/extract-autoarchive-reference.py:37-39 | an ordinary thread is archived by exactly the reply that reaches the cap, with all replies kept |
| Retention.ArchivedIff | scripts/extract-autoarchive-reference.py:37-39 | over any run, a reply archives its thread exactly when neither flag is set, the board archives and the reply brings it to a cap that is not zero; and which replies it leaves |
| Retention.FlagsAndArchive | scripts/extract-autoarchive-reference.py:34-39 | the flags are those last set, setting them touches nothing else, and an archived thread takes no replies |
| Retention.Posts.Insert | scripts/extract-sticky-retention-reference.py:64-64 | a row is added, or the primary key refuses it and nothing changes |
| Retention.Ordered | scripts/extract-sticky-retention-reference.py:60-67 | ORDER BY no: strictly ascending, and exactly the ids |
| Retention.Posts.InsertReplies | scripts/extract-sticky-retention-reference.py:49-49 | all rows are added exactly when no two ids are equal |
| Retention.Posts.Prune | scripts/extract-sticky-retention-reference.py:53-63 | exactly the replies outside the window are deleted, and listed in ascending order; other threads and the OP stay |
| Retention.Witness | scripts/extract-sticky-retention-reference.py:46-78 | when the inserts succeed, and the ascending lists of what is pruned and what survives, with its length; with ids above the OP, exactly the newest cap of backlog and incoming reply |
| Json.ValueReads | scripts/ban-reference-sql.py:19-19 | a JSON reader reads every printed value back and stops at its end (RFC 8259), surrogate pairs included |
| Json.DumpPrintable | scripts/ban-reference-sql.py:19-19 | printed JSON is printable ASCII only: no raw tab, newline or control character |
| Json.PrintsPlainly | scripts/ban-reference-sql.py:19-19 | printable ASCII but for quote and backslash is printed as it is |
| Json.EscapeForms | scripts/ban-reference-sql.py:19-19 | seven short escapes, else four lower-case hexadecimal digits, twice beyond the BMP |
| CopyStream.FieldReads | scripts/ban-reference-sql.py:18-19 | doubling every backslash is undone by COPY's unescaping, whatever follows the line |
| CopyStream.DoublesOnly | scripts/ban-reference-sql.py:19-19 | only backslashes are touched |
| CopyStream.RowStart | scripts/ban-reference-sql.py:19-20 | no row can be taken for the terminator or for NULL |
| CopyStream.StreamRoundTrip | scripts/ban-reference-sql.py:17-20 | reading the stream as COPY data and its rows as JSON text gives exactly the original cases and leaves the statements after it untouched |
| CopyStream.StreamHolds | scripts/ban-reference-sql.py:15-20 | loading it into the jsonb column succeeds exactly when no string and no name holds a NUL, and then gives the jsonb value of each case |
| Jsonb.InputIff | scripts/ban-reference-sql.py:15-15 | jsonb input fails exactly on a NUL in some string or name |
| Jsonb.LastIsKept | scripts/ban-reference-sql.py:15-15 | an object keeps the last member of each name |
| Jsonb.KeptIsLast | scripts/ban-reference-sql.py:15-15 | and nothing else |
| Jsonb.InputKeeps | scripts/ban-reference-sql.py:15-15 | the stored value has the same scalars, lists and last members all the way down |
| CopyStream.Emit | scripts/ban-reference-sql.py:13-20 | a stream is emitted exactly for the expected number of cases; it reads as those cases, and loads into the column as their jsonb values under the same condition |
| Greentext.WrapIsChunks | scripts/extract-greentext-reference.py:39-39 | wrapping puts the marker between chunks of exactly 35 scalars, the last one shorter, that together are the word |
| Greentext.SequentialEscape | scripts/extract-greentext-reference.py:40-40 | the ampersand-first sequence of replacements is the character-wise escape |
| Greentext.UnescapeEscape | scripts/extract-greentext-reference.py:40-40 | and it is reversible |
| Greentext.RemoveEscape | scripts/extract-greentext-reference.py:39-40 | removing markers commutes with escaping |
| Greentext.RoundTripIff | scripts/extract-greentext-reference.py:35-42 | splitting on the line break, removing markers and unescaping gives a comment back if and only if no 35-character chunk of a word contains the marker |
| Greentext.RoundTrip | scripts/extract-greentext-reference.py:35-42 | in particular for every comment that does not contain the marker |
| Greentext.WrapWord | scripts/extract-greentext-reference.py:39-39 | the joined generator is the wrapped word |
| Greentext.FormatWords | scripts/extract-greentext-reference.py:37-41 | one line: words wrapped, escaped and joined |
| Greentext.Preformat | scripts/extract-greentext-reference.py:35-42 | the whole preformatted text |
| StaffAudit.LogIsHistory | scripts/extract-staff-action-snapshots-reference.py:146-173 | over any interleaved run, replaying the audit log gives the mask and the spoiler state; every row is a change and carries the true preimage, number, board, name, subject, comment and full file name; the subject is the original with or without one prefix; nothing else changes |
| StaffAudit.ReplayNeedsPlainSubject | scripts/extract-staff-action-snapshots-reference.py:169-173 | replay is right for all runs if and only if the plain subject does not begin with the prefix |
| StaffAudit.PermaageNeedsPermission | scripts/extract-staff-grouped-options-reference.py:160-162 | without a permitted grouped request no run changes permaage |
| StaffAudit.GroupedStores | scripts/extract-staff-grouped-options-reference.py:160-165 | the stored mask is the requested one but for an unpermitted permaage, and a row is written exactly when the mask changes |
| StaffAudit.FormRoundTrip | scripts/extract-staff-grouped-options-reference.py:62-64 | the form of a mask is parsed back to the mask |
| StaffAudit.IsolatedSets | scripts/extract-staff-isolated-options-reference.py:40-43 | after each isolated action its own flag is as the action says and the other four as they were |
| StaffAudit.IsolatedLogs | scripts/extract-staff-isolated-options-reference.py:39-43 | it writes a row, with both masks, exactly when that flag was in the other state |
| StaffAudit.IsolatedSiblings | scripts/extract-staff-isolated-options-reference.py:38-43 | its inverse undoes it exactly when the flag was clear |
| StaffAudit.SpoilerSets | scripts/extract-staff-action-snapshots-reference.py:146-173 | a spoiler request leaves the post in the requested state and writes its code exactly when it was in the other |
| StaffAudit.RowsOfRequests | scripts/extract-staff-action-snapshots-reference.py:150-165 | the rows come from the requests in order, each under its actor's name; the other requests changed nothing |
| StaffAudit.GroupedRefused | scripts/extract-staff-grouped-options-reference.py:168-170 | a form without a submit value, or with a rank outside 0 to 60 on a sticky thread, changes nothing |
| StaffAudit.DesiredIs | scripts/extract-staff-grouped-options-reference.py:83-92 | each requested bit is its own field's; an omitted field clears it |
| StaffAudit.Execute | scripts/extract-staff-action-snapshots-reference.py:146-168 | the loop yields the post and the log of the run |
| Exif.TargetIff | assets/exif.js:3-6 | a target is accepted exactly when it is exif or 3xif followed by the canonical decimal of a number from 1 to 2^53 - 1 |
| Exif.TargetIsPlain | assets/exif.js:17-17 | an accepted target is safe inside the quoted attribute selector |
| Exif.RunKeeps | assets/exif.js:7-27 | over any run of mounts and destroys each document has exactly the listener of its current mount, or none |
| Exif.MountMounts | assets/exif.js:7-28 | after any run a mount replaces the document's listener with a fresh one under the returned handle, or refuses a document without events; no other document changes |
| Exif.StaleDestroy | assets/exif.js:25-25 | a destroy of a handle that is not the current mount changes nothing; one that is clears that document only |
| Exif.HandlerIff | assets/exif.js:10-22 | exactly which clicks change anything, and what they change |
| Exif.ClickActsOnce | assets/exif.js:10-19 | however many listeners, a cancelable click acts at most once; one that is not acts once for each |
| Exif.ClickNeedsMount | assets/exif.js:7-27 | after any run a click acts exactly when its document is mounted, and then once, cancelable or not |
| Exif.ClickParity | assets/exif.js:20-22 | table and link always agree, and their state is the parity of the clicks |
| Exif.Registry.MountExif | assets/exif.js:7-28 | the map and the listeners after mounting; no handle for a document without events |
| Exif.Registry.DestroyHandle | assets/exif.js:25-25 | the listener is removed, and the map entry only if it is this handle's |
| Exif.Registry.Listen | assets/exif.js:24-24 | one listener is added to one document |
| Preview.OrderIndependentIff | scripts/extract-preview-policy-reference.py:76-102 | the result is the same for every order of the replies if and only if no two have the same numeric id |
| Preview.EqualKeysAccepted | scripts/extract-preview-policy-reference.py:76-77 | the ids "1" and "01" pass the duplicate check and have one numeric id |
| Preview.PreviewAccounts | scripts/extract-preview-policy-reference.py:78-102 | the configured number of replies is visible, one at most when sticky, or all if there are fewer; they are the end of the sorted thread; reply and image totals are visible plus omitted; the published difference, present exactly when something is omitted, is that difference; the catalog, index and full-thread entries agree |
| Preview.ImagesCount | scripts/extract-preview-policy-reference.py:63-64 | images are the places with a file that is not empty and not deleted |
| Preview.IntOfShown | scripts/extract-preview-policy-reference.py:76-76 | a decimal with or without sign and blanks around it counts as the number it shows |
| Preview.StickyIsSuffix | scripts/extract-preview-policy-reference.py:78-79 | the sticky selection has at most one reply and is a suffix of the ordinary one |
| Preview.SortIsStable | scripts/extract-preview-policy-reference.py:76-76 | rows of equal numeric id keep their input order |
| Preview.DistinctIdsCount | scripts/extract-preview-policy-reference.py:77-77 | comparing the sizes finds a duplicate id exactly when there is one |
| Preview.CountImages | scripts/extract-preview-policy-reference.py:82-83 | the number of rows whose file is not empty and not deleted |
| Preview.AcceptsIff | scripts/extract-preview-policy-reference.py:74-77 | accepted are exactly a limit of 0, 1, 3 or 5 and ids that are numerals and as many as the replies |
| Preview.Check | scripts/extract-preview-policy-reference.py:74-77 | the checks in order reject exactly the other inputs |
| Preview.DeriveThread | scripts/extract-preview-policy-reference.py:67-102 | the function body, with its errors, computes the specified result |
| BoardTitles.MigrationReads | scripts/extract-board-reference.py:199-221 | whatever the titles hold (quotes, line ends, comment marks, whole statements), the emitted SQL, comments included, reads as exactly the intended guarded updates |
| BoardTitles.LiteralReads | scripts/extract-board-reference.py:205-205 | a string constant with its quotes doubled is read back and ends where it should |
| BoardTitles.MigrationRetitles | scripts/extract-board-reference.py:199-221 | executing the text on any table gives each board its reference title exactly where the historical one was still in place; edited titles and other boards are untouched |
| BoardTitles.BoardTitleUpdates | scripts/extract-board-reference.py:199-209 | text is produced exactly when both lists name the same slugs in the same order; a disagreeing slug is reported before a length difference |
| BoardTitles.UpgradeMeans | scripts/extract-board-reference.py:212-221 | after both migrations a board that held either source title has the reference title, any other is as it was; an edited title is lost exactly when it was the intermediate spelling and that is not the reference title |
| BoardTitles.UpgradeTwice | scripts/extract-board-reference.py:212-221 | repeating the upgrade changes nothing |
| BoardTitles.OrderIff | scripts/extract-board-reference.py:357-359 | the two migrations commute on every table if and only if no board's title is changed by both |
| BoardTitles.EachMigrationItsOwn | scripts/extract-board-reference.py:87-96 | the title migration touches only s4s, the encoding migration only boards without a TITLE override |
| BoardTitles.MigrationsCommute | scripts/extract-board-reference.py:331-359 | so the two migrations of one checkout commute |
| BoardTitles.AfterPrefixIff | scripts/extract-board-reference.py:64-68 | the prefix is removed exactly when the pattern matches, with all the white space around the dash |
| BoardTitles.ShortTitleIs | scripts/extract-board-reference.py:64-68 | the short title is what follows the slug between slashes, or of s4s also the bracketed name, and a dash with its white space; without them it is the whole title |
| BoardTitles.ModesDifferIff | scripts/extract-board-reference.py:64-68 | the two extraction modes differ on exactly the s4s titles with the bracketed prefix |

## Left out

- The Rust application, the media guest, the monitors and the original PHP functions that the scripts run: other than the range lookup, they are not part of this model.
- Hash pinning, file reading and writing, subprocesses, resource limits and command lines.
- The product loops that only enumerate fixture cases, including the table of `extract-autoarchive-reference.py`; the predicate they evaluate is modelled.
- HTML tokenising: `HeaderClasses` starts from start and end events with lower-case names and decoded attributes.
- Socket timeouts and write failures end a handler early; `MailServer` lets a handler finish at any moment.
- Python's `socketserver` and `threading` are not part of this model; taken from them: an Exception from `process_request` is handled and serving goes on, a KeyboardInterrupt leaves `serve_forever`, only the accepting thread receives it, and a bounded semaphore refuses a release past its bound with a ValueError. An interrupt inside one acquire or release counts as before or after it.
- The texts of the SMTP replies: a reply is a name, not its bytes.
- File names of stored messages are natural numbers, and a name that already exists makes the create fail.
- The monotonic clock is a real number; its floating-point rounding is not modelled.
- YAML beyond literal run blocks in the checker's own spelling: folded or quoted scalars, indentation indicators and documents YAML rejects are not modelled.
- PowerShell beyond native commands and guards: any other command is taken to leave the exit code alone, and path lookup, pipelines and nested blocks are not modelled.
- PCRE matching: a character class is an arbitrary predicate on code points.
- JSON numbers are integers, since the cases hold no others; the limits of jsonb on size are not modelled.
- Lone surrogates: Dafny's characters are Unicode scalar values.
- A reader of Rust literals has no backslash-newline continuation, which the printer never emits.
- GIF interlacing and several images in one file: the reader refuses or ignores what the encoder never writes.
- SQL other than comments and guarded title updates, and the length constraint on stored titles.
- `html.unescape` is an arbitrary function on titles.
- The directory-name regular expression and the META_DESCRIPTION fallback for titles: a board's fallback title is given under both decodings.
- Staff forms with noncanonical values, duplicate fields or arrays; the permission to change permaage is an input.
- Preview.DeriveThread: of the numerals that Python's `int` takes, white space and digits beyond ASCII are ValueErrors here, and there is no limit on length.
- The DOM beyond listeners, the toggle's two attributes and the lookups of one click.
