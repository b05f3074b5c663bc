# KFCrash: verified models of the crash reporter's core

These Dafny modules model the parts of KFCrash whose correctness is hardest to see: the
JSON codec and what is built on it (splicing, the report fixer, the state file), the
arbitration of simultaneous exceptions, the lock-free monitor list, thread suspension,
copying from memory that may not be readable, the crash-safe mmap writer and its
recovery, buffered files, UTF-16 conversion, report IDs and pruning, and the
application-state monitor.

Two forms are used side by side. Code that works by changing things in place is a class
or a method with loops over arrays; its contract equates what it computes, or its new
state, with a specification function or a closed form. The properties of whole runs are
lemmas about those functions. A C `char` is a Dafny `char` with a value up to 255.

| file | what it models |
|---|---|
| `Numbers.dfy`, `JsonText.dfy`, `JsonEncoder.dfy`, `JsonDecoder.dfy` | arithmetic and text vocabulary; the encoder and the decoder as machines on values |
| `JsonEncodeContext.dfy`, `JsonDecodeContext.dfy` | the same code in place: level array, work buffers, cursor, recursion |
| `JsonRoundTrip.dfy`, `JsonDocument.dfy` | decoding undoes encoding; documents and trees |
| `JsonSpelling.dfy`, `JsonGrammar.dfy`, `JsonCut.dfy` | which strings and texts the decoder accepts, and as what, by a grammar; documents that break off |
| `JsonEvents.dfy`, `JsonWindow.dfy`, `JsonStale.dfy`, `JsonUnicode.dfy` | event shapes and failing callbacks; the file window and the stale bytes in it; `\u` escapes |
| `JsonBalance.dfy` | brackets and quotes of the output under failing calls |
| `JsonSplice.dfy`, `UserSection.dfy`, `JsonSpliceWitness.dfy` | splicing JSON into an open encoder, the user section; texts that derail it |
| `ReportFixer.dfy`, `ReportVersions.dfy`, `ReportFixerContext.dfy` | the fixer as a transformation and exactly when it has a result; versions and the unit of timestamps; its callbacks in place |
| `JsonSteps.dfy`, `ReportFixerWitness.dfy`, `TruncationWitness.dfy` | following concrete calls; reports that the fixer and the truncation marker do not treat as meant |
| `CrashMonitor.dfy`, `MonitorRegistry.dfy`, `RegistryCalls.dfy` | arbitration; the monitor list under interleavings and call by call |
| `MachineContext.dfy`, `SuspensionHistory.dfy` | suspension; suspend counts read off the history |
| `FaultTolerantMemory.dfy`, `MmapWriter.dfy`, `BufferedFiles.dfy`, `CrashReport.dfy`, `TruncationMarker.dfy` | memory probing, crash-safe output, buffered files, a report from encoder to recovery, where the truncation marker stands |
| `StringConversion.dfy`, `ReportStore.dfy`, `AppState.dfy` | UTF-16 to UTF-8, report IDs and pruning, application state |

The grammar is that of sections 2, 6 and 7 of RFC 8259; UTF-8 is section 3 of RFC 3629,
UTF-16 section 2 of RFC 2781.

Where the code does less than its documentation or its purpose promises, the model
follows the code, and a lemma says exactly when the promise holds:

- An integer on the way to a timestamp path (`{"report":7}`, given enough white space for
  the result to fit) is rewritten as a date too, and a timestamp above the signed 64-bit
  range is not: `ReportFixer.OnlyTimestampsRewritten`, witnesses
  `ReportFixerWitness.StrayIntegerIsRewritten` and `ReportFixerWitness.HugeTimestampIsKept`.
- A string on the way to a version path is taken for the version, which decides the unit
  of the timestamps: `ReportFixer.OnlyVersionsSaved`, witness
  `ReportFixerWitness.StrayStringIsSaved`.
- An integer inside a container at a timestamp path, or a string inside one at a version
  path, makes the fixer compare with a null pointer: `ReportFixer.PassUndefined`, witness
  `ReportFixerWitness.NullIsCompared`.
- A user section whose JSON does not leave exactly one container open where decoding stops
  changes the level of the rest of the report: `JsonSplice.UserSectionLevel`, witnesses
  `JsonSpliceWitness.RefusedStringStaysOpen` (legal JSON with a string that the encoder
  refuses) and `JsonSpliceWitness.NumberClosesReport` (`7`).
- A monitor already in the list is added again if a hole precedes it, although the
  interface promises to refuse it: `MonitorRegistry.DuplicateAccepted`, witness
  `MonitorRegistry.DuplicateWitness`.
- The exception that meets a table of exactly 200 handlers is not dropped and is given an
  index outside the table: `CrashMonitor.FullTableRun`, with a single handler under way.
- A blocked handler that outlived its two seconds would be given a context that another
  handler is using: `CrashMonitor.ResumedHandlerShares`, witness
  `CrashMonitor.ResumedHandlerWitness`.
- `isMemoryReadable` is right for every memory only up to 10240 bytes, and
  `ksmem_maxReadableBytes` can exceed its request: `FaultTolerantMemory.ReadableUpToBuffer`,
  `FaultTolerantMemory.AnswerWithinRequest`.
- The truncation marker closes the root object only if the brackets kept behind the
  overflow are exactly the closers of what was open at the cut:
  `TruncationMarker.MarkerClosesRoot`. Opening brackets behind the overflow are dropped and
  their closers kept, so a container begun there closes the root early and leaves the marker
  outside (`TruncationWitness.MarkerOutsideRoot`); a long array of numbers uses up the room
  and leaves text that is no JSON (`TruncationWitness.MarkerMissesRoot`).
- A file of JSON that breaks off is read on into stale bytes of the window:
  `JsonStale.FileReadsStaleBytes`, witness `JsonStale.NumberEndsInWindow`.
- A flush that the disk breaks off keeps the whole buffer, so that a retry writes the part
  already taken a second time: `BufferedFiles.BufferedWriter.Flush`.
- A surrogate pair in a `\u` escape is decoded 0x10000 too low: `JsonUnicode.PairEscapeFallsShort`. It
  is the only legal spelling of a character that is not read right: `JsonSpelling.LegalStringDecodes`.
- A document that breaks off just behind a minus sign is reported as malformed instead of
  incomplete: `JsonCut.CutDocument`.
- The decoder insists neither on commas between siblings nor on an item behind a comma:
  `JsonGrammar.NextExactly`.
- An addition to the monitor list may answer that the list is full although the monitor is in it,
  if another thread adds it meanwhile: `RegistryCalls.AnswersAreTrue`.
- The test for UTF-8 also accepts overlong and five- and six-byte forms:
  `StringConversion.AcceptsExactly`, witness `StringConversion.AcceptsMoreThanUtf8`.
- A notification that is not in life-cycle order falsifies the durations, unless no time has
  passed since the last noted transition: `AppState.OnlyOrderKeepsDurations`.

## Model

| member | source | states |
|---|---|---|
| JsonEncodeContext.FillWorkBuffer | Sources/KFCCore/KFCJSONCodec.c:118-171 | escaping a chunk of at most 256 characters succeeds exactly if no character is an unspellable control character, writes the character-by-character escaping and stays inside the 512-byte work buffer |
| JsonEncoder.ChunkedEscaping | Sources/KFCCore/KFCJSONCodec.c:183-197 | escaping in chunks appends exactly the escaping of the whole string; it reports an invalid character only if there is one, and fails otherwise only if the handler has no room for the whole text |
| JsonEncoder.CallEffect | Sources/KFCCore/KFCJSONCodec.c:329-531 | an encoder call that succeeds has appended separator, name and token once, and moved the container stack and the one shared comma flag; it succeeds exactly if its arguments can be spelled and the handler has room for the text |
| JsonEncodeContext.EncodeContext.AddEscapedString | Sources/KFCCore/KFCJSONCodec.c:183-197 | the chunk loop in place does what the encoder machine does, for every string and handler limit |
| JsonEncodeContext.EncodeContext.BeginElement | Sources/KFCCore/KFCJSONCodec.c:329-367 | comma, line break, indentation and name on the level array and the shared flag, including every failure on the way |
| JsonEncodeContext.EncodeContext.BeginContainer | Sources/KFCCore/KFCJSONCodec.c:483-511 | pushing a level in `isObject`, up to the last the array holds, is a push on the container stack |
| JsonEncodeContext.EncodeContext.EndContainer | Sources/KFCCore/KFCJSONCodec.c:513-531 | popping a level writes the closer of the innermost open container and is harmless at level 0 |
| JsonEncodeContext.EncodeContext.EndEncode | Sources/KFCCore/KFCJSONCodec.c:543-550 | the closing loop ends in the state of the machine's endEncode |
| JsonRoundTrip.UnescapeEscaped | Sources/KFCCore/KFCJSONCodec.c:747-841 | the string decoder undoes the escaping of every string |
| JsonDecoder.DecodeString | Sources/KFCCore/KFCJSONCodec.c:705-842 | for every input, a decoded string and its NUL never exceed the source length accepted, hence never the destination |
| JsonRoundTrip.DecodeQuoted | Sources/KFCCore/KFCJSONCodec.c:705-842 | a quoted, escaped string that fits the destination is decoded to itself and consumed exactly |
| JsonRoundTrip.DigitLoopExact | Sources/KFCCore/KFCJSONCodec.c:985-995 | the 64-bit digit loop flags overflow exactly if the decimal number exceeds 2^64-1, and otherwise computes it |
| JsonRoundTrip.IntegerDecodes | Sources/KFCCore/KFCJSONCodec.c:1003-1024 | every printed 64-bit integer, the most negative one included, is read back with its value, unsigned exactly above the signed range |
| JsonRoundTrip.CallDecodes | Sources/KFCCore/KFCJSONCodec.c:844-1057 | the text of one legal call is read by one decoder step, which reports that call and ends in the matching state |
| JsonRoundTrip.KeepsStep | Sources/KFCCore/KFCJSONCodec.c:844-1057 | a decoder reading what an encoder wrote keeps step with it over any legal call sequence, which nests at most the 199 containers that `isObject` holds |
| JsonDocument.EndEncodeCloses | Sources/KFCCore/KFCJSONCodec.c:543-550 | from any state endEncode makes exactly one endContainer call for every open container and closes all |
| JsonDocument.RoundTrip | Sources/KFCCore/KFCJSONCodec.c:329-1082 | for any legal call sequence (at most 199 containers deep), in either layout: encoding succeeds, endEncode completes the document, decoding fires exactly the calls and the closings, and commas separate siblings and never lead or trail |
| JsonDocument.UnfinishedDecodes | Sources/KFCCore/KFCJSONCodec.c:844-909 | before endEncode the text decodes to the calls made and then asks for more, so its open brackets are the container stack; a number written last is not reported yet, since digits could follow |
| JsonDocument.LayoutsAgree | Sources/KFCCore/KFCJSONCodec.c:340-347 | pretty and compact output of the same calls decode to the same events |
| JsonDocument.TreeRoundTrip | Sources/KFCCore/KFCJSONCodec.c:483-1082 | every container-rooted tree of objects, arrays and scalars, at most 199 containers deep, that fits the buffers comes back as its own events in order |
| JsonSpelling.DecodesExactly | Sources/KFCCore/KFCJSONCodec.c:705-842 | a string is decoded if and only if it is quoted, is made of raw bytes, the eight short escapes, `\u` escapes and surrogate pairs, and fits; the value is what each of these stands for (a pair 0x10000 too low), and the cursor ends behind the quote |
| JsonSpelling.LegalStringDecodes | Sources/KFCCore/KFCJSONCodec.c:747-841 | every string of section 7 of RFC 8259, whichever spelling each character has, is decoded; the value is the text meant, in UTF-8, if and only if no character is spelled as a surrogate pair |
| JsonGrammar.NextExactly | Sources/KFCCore/KFCJSONCodec.c:844-1057 | a step makes a callback and stops at a position if and only if an item of the grammar stands there that means this callback: white space, perhaps a comma, a name and colon in objects only, and a bracket, word, string or number; integers are exact up to 64 bits, other numbers keep their spelling |
| JsonGrammar.DecodedTexts | Sources/KFCCore/KFCJSONCodec.c:1059-1082 | a text is decoded with certain callbacks if and only if it starts with items of the grammar that make up one root element and mean these callbacks |
| JsonGrammar.ProperDocumentDecodes | Sources/KFCCore/KFCJSONCodec.c:844-1082 | every document of RFC 8259 with a container as its root that fits the buffers is decoded, with any white space, any spelling of strings and numbers, and anything behind it |
| JsonCut.CutDocument | Sources/KFCCore/KFCJSONCodec.c:844-1057 | a document that breaks off after any number of characters makes the callbacks of the items before the break, and the result is `Incomplete`, except just behind a minus sign, where it is `InvalidCharacter` |
| JsonDecodeContext.DecodeContext.DecodeString | Sources/KFCCore/KFCJSONCodec.c:705-842 | for every input, both copy paths yield the decoded string and its NUL inside the destination, or the machine's error |
| JsonDecodeContext.DecodeContext.ScanDigits | Sources/KFCCore/KFCJSONCodec.c:989-995 | the digit loop in place, with both overflow tests |
| JsonDecodeContext.DecodeContext.UpdateDecoder | Sources/KFCCore/KFCJSONCodec.c:1100-1124 | sliding and refilling the buffer in place is the machine's refill, stale bytes included |
| JsonDecodeContext.DecodeContext.DecodeElement | Sources/KFCCore/KFCJSONCodec.c:844-1057 | the recursive decoder makes the callbacks of the stack machine and leaves the cursor where the machine continues, or fails with its result |
| JsonDecodeContext.DecodeContext.Decode | Sources/KFCCore/KFCJSONCodec.c:1059-1082 | for every input and every behaviour of the callbacks: the machine's callbacks and result |
| JsonEvents.RunReports | Sources/KFCCore/KFCJSONCodec.c:844-1057 | for every input the callbacks are well nested, named exactly inside objects, and complete one root if decoding succeeds |
| JsonEvents.CallbacksSucceed | Sources/KFCCore/KFCJSONCodec.c:859-913 | decoding stops at the first callback that fails and returns its code; all earlier ones succeeded |
| JsonEvents.AcceptedIsLegal | Sources/KFCCore/KFCJSONCodec.c:329-531 | what an encoder accepted from a decoder's callbacks, at most 199 containers deep, is a legal call sequence, so it decodes again to itself |
| JsonEvents.AcceptedExactly | Sources/KFCCore/KFCJSONCodec.c:118-531 | an encoder accepts the events of a decoder exactly if it can spell every name and string and its handler takes the whole text |
| JsonWindow.NextLocal | Sources/KFCCore/KFCJSONCodec.c:844-1057 | what lies between two callbacks depends only on the bytes consumed and one more |
| JsonWindow.RefillHolds | Sources/KFCCore/KFCJSONCodec.c:1100-1124 | after every refill the window and the file together hold exactly the unconsumed rest, and half the window is unread unless the file has ended |
| JsonWindow.FileDecodesLikeMemory | Sources/KFCCore/KFCJSONCodec.c:1203-1257 | if no stretch between callbacks exceeds half the window, decoding through it gives the events and the result of decoding the whole file in memory |
| JsonWindow.FileAgreesUntilError | Sources/KFCCore/KFCJSONCodec.c:1203-1257 | for any file, malformed or not, the windowed decoder makes at least the in-memory callbacks before the first error, in order |
| JsonStale.NextSame | Sources/KFCCore/KFCJSONCodec.c:844-1057 | a step, failing or not, depends only on what lies ahead of the cursor |
| JsonStale.FileReadsStaleBytes | Sources/KFCCore/KFCJSONCodec.c:1100-1124 | for any file that may break off, the windowed run is the in-memory run over the file and the stale bytes behind it, NULs or an earlier stretch of its end; it differs from the run over the file exactly if that run fails in the decoder and the stale bytes change what is read there |
| JsonStale.NumberEndsInWindow | Sources/KFCCore/KFCJSONCodec.c:1100-1124 | the file `7` is incomplete in memory and a complete integer through the window |
| JsonUnicode.PlaneEscapeDecodes | Sources/KFCCore/KFCJSONCodec.c:779-832 | a `\u` escape of a character of the Basic Multilingual Plane, each hex digit in either case, becomes that character's UTF-8 |
| JsonUnicode.PairEscapeFallsShort | Sources/KFCCore/KFCJSONCodec.c:801-826 | a surrogate pair is decoded to the code point 0x10000 below the one it stands for, never to the right one |
| JsonUnicode.Utf8Inverts | Sources/KFCCore/KFCJSONCodec.c:669-703 | the UTF-8 written for a code point, read by the reference decoder, is that code point, in the shortest form, with continuation bytes behind the first |
| JsonBalance.CallBalanced | Sources/KFCCore/KFCJSONCodec.c:183-531 | a call, whether it succeeds or fails, keeps brackets and quotes matched and the open brackets equal to the container stack; one that fails leaves the stack |
| JsonBalance.BracketsMatch | Sources/KFCCore/KFCJSONCodec.c:329-550 | after any calls in any order, failed ones included, the open brackets of the text are exactly the container stack, every string is closed, and endEncode closes the rest |
| JsonSplice.ClosingSpliceRestores | Sources/KFCCore/KFCJSONCodec.c:1259-1306 | with closeLastContainer, any text, however it fails, leaves exactly the containers open that were open before, and the closings are endContainer calls |
| JsonSplice.ClosingFileSpliceRestores | Sources/KFCCore/KFCJSONCodec.c:1203-1257 | the same for any file, malformed or not, through the 1000-byte window |
| JsonSplice.ClosingSpliceDocument | Sources/KFCCore/KFCJSONCodec.c:1259-1306 | a closing splice of text that decodes, breaks off or turns malformed anywhere, with its callbacks accepted: the document that endEncode finishes decodes to the earlier calls, the callbacks made and the closings |
| JsonSplice.SpliceBalanced | Sources/KFCCore/KFCJSONCodec.c:1190-1306 | any splice of text or file, closing or not, however decoder or callbacks fail, keeps brackets and quotes matched |
| JsonSplice.SpliceMakesCalls | Sources/KFCCore/KFCJSONCodec.c:1190-1306 | splicing container-rooted text makes its events as calls; without closing, at level 1 exactly the root stays open and one endContainer completes it, and deeper the flag makes no difference |
| JsonSplice.SpliceAddsTree | Sources/KFCCore/KFCJSONCodec.c:1259-1306 | splicing a rendering of a tree adds the tree as direct calls would |
| JsonSplice.FileSpliceIsSplice | Sources/KFCCore/KFCJSONCodec.c:1203-1257 | splicing from a file through the 1000-byte window is splicing its text |
| JsonSplice.UserSectionLevel | Sources/KFCrash/KFCrashReportC.c:1696-1707 | for every user text, and every user callback that closes what it opens, the section ends as many levels deep as the text leaves containers open where decoding stops, at its end, at malformed text or at a string the encoder refuses; it ends where it began if and only if that is one container, as it is without user text |
| UserSection.TextTakenOver | Sources/KFCrash/KFCrashReportC.c:245-258 | with the encoder accepting its callbacks, user text that decodes to a container makes exactly its calls once the section is ended, and text that does not is followed by the error object |
| UserSection.UndecodableTextIsKept | Sources/KFCrash/KFCrashReportC.c:245-258 | a report with user text that does not decode is a legal document: it decodes to the earlier calls, the callbacks the text made, and an object with the error and the whole text |
| JsonSpliceWitness.RefusedStringStaysOpen | Sources/KFCrash/KFCrashReportC.c:245-258 | after legal JSON with a control character in an inner string the section ends one level too deep |
| JsonSpliceWitness.NumberClosesReport | Sources/KFCrash/KFCrashReportC.c:1698-1707 | after the user text `7` the end of the section closes the report itself |
| JsonSplice.ErrorObjectKeepsStack | Sources/KFCrash/KFCrashReportC.c:245-258 | the object that replaces undecodable text is closed again |
| ReportFixer.FixerTracks | Sources/KFCrash/KFCrashReportFixer.c:62-224 | the callbacks succeed exactly if the encoder accepts the transformed events and at most 100 containers nest; then the stored path is the list of open containers and the version the latest in document order |
| ReportFixer.PassUndefined | Sources/KFCrash/KFCrashReportFixer.c:85-110 | a pass compares with a null pointer if and only if the report has an integer inside a container at a timestamp path, or a string inside one at a version path, and everything before it can be rewritten |
| ReportFixer.PassSucceeds | Sources/KFCrash/KFCrashReportFixer.c:245-303 | a pass returns a report if and only if the text decodes, nothing in it makes it compare with a null pointer, its strings can be spelled, at most 100 containers nest and the new text is at most one and a half times as long; it is the text of the transformed events, and the version handed on is the document's last |
| ReportFixer.PassTransforms | Sources/KFCrash/KFCrashReportFixer.c:245-303 | the result of a pass over a container-rooted report decodes to the transformed events |
| ReportFixer.FixerSucceeds | Sources/KFCrash/KFCrashReportFixer.c:305-315 | the fixer returns a report exactly under these conditions for both passes, the second starting from the document's last version |
| ReportFixer.FixerTransforms | Sources/KFCrash/KFCrashReportFixer.c:305-315 | a fixed report's events are the input's, except that dated integers are date strings by the latest version before them, or by the document's last version if none precedes, which is what the first pass is for |
| ReportFixer.OnlyTimestampsRewritten | Sources/KFCrash/KFCrashReportFixer.c:85-169 | of the integers, signed and unsigned, exactly those at the two timestamp paths are rewritten if and only if no other signed integer sits at a proper prefix of one and none at one of them exceeds the signed range |
| ReportFixer.OnlyVersionsSaved | Sources/KFCrash/KFCrashReportFixer.c:85-131 | exactly the strings at the two version paths are taken as the version if and only if no other string sits at a proper prefix of one |
| ReportVersions.UnitOfDates | Sources/KFCrash/KFCrashReportFixer.c:112-121 | for every version, a timestamp is formatted from microseconds if and only if the version does not precede 3.3.0 in dictionary order, which for components below 1000 is the order of the numbers they are the digits of |
| ReportVersions.PrecedesOrders | Sources/KFCrash/KFCrashReportFixer.c:112-121 | that order is irreflexive, total and transitive |
| ReportVersions.TokensOfJoined | Sources/KFCrash/KFCrashReportFixer.c:182-192 | splitting a version text at its dots gives back the parts it was joined of, without the empty ones |
| ReportVersions.VersionParsed | Sources/KFCrash/KFCrashReportFixer.c:182-192 | the text of a version gives back its three components |
| ReportVersions.DatesOfReport | Sources/KFCrash/KFCrashReportFixer.c:145-194 | in a fixed report that gives one version, every timestamp has become a date string, from microseconds exactly if that version is 3.3.0 or later; without a version they are seconds; everything else but doubles is as before |
| ReportVersions.KnownVersions | Sources/KFCrash/KFCrashReportVersion.h:30-30 | the current version 3.6.0 is in microseconds, every 3.2 in seconds |
| ReportFixerWitness.StrayIntegerIsRewritten | Sources/KFCrash/KFCrashReportFixer.c:145-163 | the fixer turns `{"report":7}`, followed by 20 spaces, into a report with a date string in place of the 7 |
| ReportFixerWitness.HugeTimestampIsKept | Sources/KFCrash/KFCrashReportFixer.c:165-169 | `{"report":{"timestamp":9223372036854775808}}` comes back with its timestamp unchanged |
| ReportFixerWitness.NullIsCompared | Sources/KFCrash/KFCrashReportFixer.c:91-98 | `{"report":{"timestamp":{"x":1}}}` makes the fixer compare with a null pointer, whatever the version |
| ReportFixerWitness.StrayStringIsSaved | Sources/KFCrash/KFCrashReportFixer.c:177-194 | a report without a version but with `"recrash_report":"9"` has its timestamp read as microseconds |
| ReportFixerContext.FixupContext.CompareAPath | Sources/KFCrash/KFCrashReportFixer.c:85-110 | wherever they do not reach a null entry, the comparison loops over the depth stack decide path matching |
| ReportFixerContext.FixupContext.OnIntegerElement | Sources/KFCrash/KFCrashReportFixer.c:145-163 | the integer callback on the stored version array and path |
| ReportFixerContext.FixupContext.OnStringElement | Sources/KFCrash/KFCrashReportFixer.c:177-194 | the string callback overwrites all three version components exactly at a version path |
| ReportFixerContext.FixupContext.OnBeginContainer | Sources/KFCrash/KFCrashReportFixer.c:196-214 | beginning a container pushes its clipped name, and the 101st level fails |
| ReportFixerContext.FixupContext.OnEndContainer | Sources/KFCrash/KFCrashReportFixer.c:216-224 | ending a container pops the path and never underflows |
| MonitorRegistry.RunKeepsInv | Sources/KFCCore/KFCrashMonitorRegistry.c:36-95 | under any schedule of atomic operations without a removal of X: once X is in some slot it is never absent again, and no answer claims otherwise |
| MonitorRegistry.OneCopyRemains | Sources/KFCCore/KFCrashMonitorRegistry.c:36-80 | when all additions of X have returned it is stored at most once, and exactly once if it was there or any of them found or placed it; other monitors come and go freely |
| MonitorRegistry.CallReturns | Sources/KFCCore/KFCrashMonitorRegistry.c:36-95 | wait-freedom: a call returns within 400 of its own operations whatever the other threads do |
| MonitorRegistry.AloneOneCopy | Sources/KFCCore/KFCrashMonitorRegistry.c:36-80 | an undisturbed addition leaves exactly one copy if it adds, changes nothing if not, and never touches another monitor |
| RegistryCalls.CallAlone | Sources/KFCCore/KFCrashMonitorRegistry.c:36-95 | an undisturbed call, made operation by operation from any slots, leaves the slots of the list without interference, answers once and changes nothing else; an addition says whether it added and, if not, whether the monitor was there |
| RegistryCalls.AnswersAreTrue | Sources/KFCCore/KFCrashMonitorRegistry.c:36-95 | whatever other threads do during a call: `Full` means that every slot was found first without the monitor and later occupied, `AlreadyThere` that it was just seen, `Added` that this call turned a hole into it, and a removal has left every slot without it |
| MonitorRegistry.DuplicateAccepted | Sources/KFCCore/include/KFCrashMonitorRegistry.h:79-91 | a monitor already in the list is refused exactly if no hole precedes its first copy |
| MonitorRegistry.DuplicateWitness | Sources/KFCCore/KFCrashMonitorRegistry.c:36-95 | after adding two monitors to an empty list and removing the first, the second is in the list and is added again |
| MonitorRegistry.RemoveUndoesAdd | Sources/KFCCore/KFCrashMonitorRegistry.c:82-95 | removing a monitor undoes adding it |
| MonitorRegistry.MonitorList.AddMonitor | Sources/KFCCore/KFCrashMonitorRegistry.c:36-80 | both loops on the slot array: the answer and the whole list behind an undisturbed call |
| MonitorRegistry.MonitorList.RemoveMonitor | Sources/KFCCore/KFCrashMonitorRegistry.c:82-95 | every copy is removed and disabled once, everything else stays |
| CrashMonitor.StaticContextsNeverShared | Sources/KFCCore/KFCrashMonitor.c:146-169 | over every run in which no handler with an index outside the table finishes, at most one recrash context and at most two async-safe contexts are issued; no static context is issued twice, and exactly the async-safe handlers get one |
| CrashMonitor.ContextsAsRaised | Sources/KFCCore/KFCrashMonitor.c:247-271 | over every run a context has the requirements its monitor raised the exception with, unless it is a recrash; every recrash is fatal and async-safe and records no threads |
| CrashMonitor.RunKeepsTable | Sources/KFCCore/KFCrashMonitor.c:101-144 | every live handler owns a slot of its own below the index, every occupied slot has an owner, and the index is 0 exactly when no handler is live |
| CrashMonitor.DecisionTable | Sources/KFCCore/KFCrashMonitor.c:193-284 | over every run: exit, recrash, block or normal handling exactly as the documented table says, in terms of the handlers under way and the contexts issued |
| CrashMonitor.FullTableRun | Sources/KFCCore/KFCrashMonitor.c:114-245 | over any run every context issued refers to a slot of the table, as long as no exception meets a full table; in a run with one handler under way the 201st exception meets one and is issued index 200, and all later ones are dropped |
| CrashMonitor.ResumedHandlerWitness | Sources/KFCCore/KFCrashMonitor.c:259-271 | a run of a crash, its recrash and a blocked crash after which the blocked handler would share the first one's context |
| CrashMonitor.ResumedHandlerShares | Sources/KFCCore/KFCrashMonitor.c:259-264 | a blocked async-safe handler that resumed would be given a context that a handler under way is using, exactly if both static contexts were issued and the first is still in use |
| CrashMonitor.Monitor.NotifyException | Sources/KFCCore/KFCrashMonitor.c:193-284 | the global flags, slot array and indices after the call, and its verdict |
| CrashMonitor.Monitor.EndHandling | Sources/KFCCore/KFCrashMonitor.c:124-144 | the slot is cleared and the index reset exactly if the table is empty |
| MachineContext.SuspensionBalance | Sources/KFCCore/KFCMachineContext.c:173-268 | however handlers interleave and whether or not the report writer resumed early: when none is under way every suspend count is what it was and every thread list has been released exactly once; reserved threads are never suspended, and while threads are suspended for a handler it requires async safety |
| SuspensionHistory.SuspendedExactly | Sources/KFCCore/KFCrashMonitor.c:273-281 | at every point of every run each thread is suspended exactly as often as at the start plus, for each handler whose monitor asked for all threads, as often as the list taken at its notification names it, never the handler's own or a reserved thread, until that handler ends or, if its monitor did not ask for async safety, until its report |
| SuspensionHistory.OneCrash | Sources/KFCrash/KFCrashReportC.c:1717-1722 | for a single crash: every other thread is suspended once while it is recorded if all threads are asked for, and none otherwise; after the report it runs again unless the monitor asked for async safety, and at the end in any case |
| MachineContext.ResumeRestores | Sources/KFCCore/KFCMachineContext.c:244-252 | resuming restores every count if and only if the same threads of the list are eligible as at the suspension |
| MachineContext.TwiceIsOnce | Sources/KFCCore/KFCMachineContext.c:173-268 | suspending again while a list is held and resuming again without one have no effect: the list is applied once, and counts and list are given back once |
| MachineContext.AppliedAdds | Sources/KFCCore/KFCMachineContext.c:200-208 | suspending a list adds to each thread its number of occurrences, and nothing to the handler's or a reserved thread |
| MachineContext.Threads.SuspendEnvironment | Sources/KFCCore/KFCMachineContext.c:173-220 | the suspension loop, with the dirty-pointer and failure paths |
| MachineContext.Threads.ResumeEnvironment | Sources/KFCCore/KFCMachineContext.c:222-268 | the resumption loop, idempotent on an empty list |
| MachineContext.Threads.EarlyResume | Sources/KFCrash/KFCrashReportC.c:1717-1722 | the report writer resumes exactly if async safety was required by the suspension alone |
| FaultTolerantMemory.CopyMaxPossible | Sources/KFCCore/KFCMemory.c:45-83 | copies exactly the longest readable prefix of the range, terminates, and probes at most two times more than the binary logarithm of the length; the degenerate counts and the wrap-around |
| FaultTolerantMemory.LgIsLog | Sources/KFCCore/KFCMemory.c:63-81 | the bound is the least k with n <= 2^k |
| FaultTolerantMemory.MaxReadableBytes | Sources/KFCCore/KFCMemory.c:101-116 | the longest readable prefix of the request rounded up to whole buffers |
| FaultTolerantMemory.CutAnswerExact | Sources/KFCCore/KFCMemory.c:101-116 | cut back to the request, the answer is the longest readable prefix of the request |
| FaultTolerantMemory.AnswerWithinRequest | Sources/KFCCore/KFCMemory.c:114-115 | the answer never exceeds the request, whatever the memory, if and only if the request is a positive number of whole buffers |
| FaultTolerantMemory.ReadableUpToBuffer | Sources/KFCCore/KFCMemory.c:86-99 | isMemoryReadable is right about every memory if and only if at most 10240 bytes are asked for |
| MmapWriter.WriterClosedForm | Sources/KFCCore/KFCFileUtils.c:623-659 | over any writes: the stream while it fits, then its first size-128 bytes followed by the structural bytes of the chunks behind the overflowing one, up to the marker's room |
| MmapWriter.MarkerFits | Sources/KFCrash/KFCrashReportC.c:1431-1449 | the 22-byte marker always fits |
| MmapWriter.MarkerReplacesCloser | Sources/KFCrash/KFCrashReportC.c:1427-1449 | for any truncated stream that ends in a brace: the marker replaces that brace and ends the text if and only if the brace lies behind the overflowing chunk and all structural bytes behind it fit the 106 bytes of room |
| MmapWriter.OldBytesStay | Sources/KFCrash/KFCrashReportC.c:1431-1449 | if they do not fit and no brace is among those that do, the marker lands on earlier content and the last 84 bytes stay behind it |
| MmapWriter.RecoveryExact | Sources/KFCrash/KFCrashC.c:322-330 | trimming the zero fill returns exactly what was written if and only if that does not end in a NUL |
| MmapWriter.StreamRecovered | Sources/KFCrash/KFCrashC.c:310-332 | an untruncated stream is recovered as it was written |
| MmapWriter.ActualLength | Sources/KFCrash/KFCrashC.c:322-326 | the trimming loop finds the last byte that is not NUL |
| MmapWriter.Writer.WriteMmapWriter | Sources/KFCCore/KFCFileUtils.c:623-659 | the writer in place keeps its bounds and the zero fill, and writes what the closed form is about |
| MmapWriter.Writer.FileIsBuffer | Sources/KFCCore/KFCFileUtils.c:570-576 | what is read at the next launch is the zero-filled buffer and the byte that sized the file |
| MmapWriter.Writer.ApplyTruncationMarker | Sources/KFCrash/KFCrashReportC.c:1431-1449 | the marker replaces the last brace and what lies under it, inside the buffer, and nothing else changes |
| CrashReport.ReportSurvives | Sources/KFCrash/KFCrashReportC.c:1623-1736 | a report that fits the buffer, however it was cut into chunks, is recovered at the next launch as text that decodes to exactly the writer's calls |
| CrashReport.DocumentCloses | Sources/KFCCore/KFCJSONCodec.c:543-550 | a finished document ends in the bracket that closes its root, a brace exactly for an object |
| TruncationMarker.ClosedAtEndOnly | Sources/KFCCore/KFCJSONCodec.c:543-550 | a scan of the brackets finds a finished document closed at its end and its root open at every earlier point |
| TruncationMarker.MarkerClosesRoot | Sources/KFCrash/KFCrashReportC.c:1427-1449 | for any truncated report with an object as its root, in any chunks: the marker ends the text and stands directly in the root, which it closes, if and only if a brace is kept behind the overflow with fewer than 22 bytes behind it, the cut is not inside a string, and the brackets kept before that brace are exactly the closers of the containers open at the cut, innermost first, down to the root |
| TruncationMarker.MarkerAtLastBrace | Sources/KFCrash/KFCrashReportC.c:1427-1449 | where the marker replaces the brace that ends the stream, it closes the root if and only if the brackets kept before that brace close everything else |
| TruncationMarker.MarkerClosesPlainRest | Sources/KFCCore/KFCFileUtils.c:623-659 | it does if the overflow comes outside of strings, no container begins behind it, no string there and no lost part of the overflowing chunk holds a closing bracket, and the structural bytes fit |
| CrashReport.PiecesSpell | Sources/KFCCore/KFCJSONCodec.c:183-531 | the pieces in which the encoder hands its text to the data handler are the text, in order |
| TruncationWitness.MarkerMissesRoot | Sources/KFCCore/KFCFileUtils.c:623-651 | the encoder's own chunks of an object with an empty object and an array of 13 or more numbers, overflowing in the array: the marker lands on the inner brace, old bytes stay behind it, and the decoder rejects what is left |
| TruncationWitness.MarkerOutsideRoot | Sources/KFCCore/KFCFileUtils.c:623-637 | `{"a":1,"b":{}}` overflowing at its comma: all structural bytes fit and the last brace is replaced, but the marker stands behind the root, and the decoder reports success without it |
| BufferedFiles.BufferedWriter.WriteBytes | Sources/KFCCore/KFCFileUtils.c:191-204 | all bytes are written, however many each write takes, unless one is refused; then the file has gained a proper start of them |
| BufferedFiles.BufferedWriter.Write | Sources/KFCCore/KFCFileUtils.c:414-427 | file and buffer together are the stream of everything written; a write fails exactly if the descriptor refuses, and then the file is still a start of that stream |
| BufferedFiles.BufferedWriter.Flush | Sources/KFCCore/KFCFileUtils.c:429-438 | flushing moves bytes without changing the stream; one that fails keeps the buffer, and the stream is intact exactly if the file took nothing of it |
| BufferedFiles.BufferedReader.Read | Sources/KFCCore/KFCFileUtils.c:466-492 | the next bytes of the file in order, whatever the sizes of the reads below: as many as asked for or as there are, fewer only if a read fails, and then the others are still ahead |
| BufferedFiles.BufferedReader.FillReadBuffer | Sources/KFCCore/KFCFileUtils.c:442-464 | sliding and filling keeps the bytes ahead, also if the read fails, and otherwise leaves the buffer empty only at the end of the file |
| BufferedFiles.BufferedReader.ReadUntilChar | Sources/KFCCore/KFCFileUtils.c:494-530 | consecutive bytes in order, never past the first occurrence of the character; a positive answer means the bytes end in it or the room ran out first, a negative one that the room or the file ran out or a read failed |
| StringConversion.ConvertsLongestPrefix | Sources/KFCCore/KFCObjC.c:989-1066 | a well-formed string becomes the UTF-8 of the longest prefix of its code points that fits, never a split sequence |
| StringConversion.MalformedEmpties | Sources/KFCCore/KFCObjC.c:1002-1015 | a malformed sequence empties the whole output exactly if the conversion gets to it before the room runs out |
| StringConversion.DecodedExactly | Sources/KFCCore/KFCObjC.c:1002-1018 | a code point is decoded if and only if its UTF-16 stands there, and a sequence is taken as malformed exactly if no code point's UTF-16 does |
| StringConversion.FittingIsLongest | Sources/KFCCore/KFCObjC.c:1022-1060 | a prefix of the code points fits the room if and only if it is no longer than the one converted |
| StringConversion.CopyAndConvert | Sources/KFCCore/KFCObjC.c:989-1066 | the loop in place, for every input, terminates the output with a NUL inside the buffer and empties it for malformed input |
| StringConversion.AcceptsUtf8 | Sources/KFCCore/KFCString.c:64-88 | NUL-terminated UTF-8 is accepted if and only if all its characters are printable and it has the minimum length |
| StringConversion.AcceptsExactly | Sources/KFCCore/KFCString.c:64-88 | bytes are accepted if and only if printable ASCII and lead bytes with the one to five continuation bytes they announce stand there, with a NUL behind them no earlier than the minimum length |
| StringConversion.AcceptsMoreThanUtf8 | Sources/KFCCore/KFCString.c:41-62 | an overlong NUL is accepted, although no code point's UTF-8 is spelled so |
| StringConversion.ConvertedIsAccepted | Sources/KFCCore/KFCString.c:64-88 | what a conversion leaves in the buffer, before any stale bytes, is accepted under exactly that condition |
| StringConversion.IsNullTerminatedUtf8String | Sources/KFCCore/KFCString.c:64-88 | the acceptor's nested loops in place |
| JsonUnicode.Utf16Inverts | Sources/KFCCore/KFCObjC.c:1016-1018 | the UTF-16 of a scalar value combines to that value, as a pair exactly above the Basic Multilingual Plane |
| ReportStore.BaseOrdersTimes | Sources/KFCrash/KFCrashReportStoreC.c:154-158 | the mixed-radix base ID orders launches exactly as (year, day, hour, minute, second), leap seconds included |
| ReportStore.WrapBound | Sources/KFCrash/KFCrashReportStoreC.c:161-162 | the 32-bit counter wraps exactly when its room is used up, and never before the 2^23rd ID |
| ReportStore.IdsOrderReports | Sources/KFCrash/KFCrashReportStoreC.c:59-59 | the first 2^23 IDs of a launch increase strictly, all lie below those of any launch in a later second, and fit 64 bits |
| ReportStore.WrapTimes | Sources/KFCrash/KFCrashReportStoreC.c:148-163 | the ID behind 2^23 others is below the first if and only if the base of the launch time is 511 modulo 512 |
| ReportStore.WrapWitness | Sources/KFCrash/KFCrashReportStoreC.c:59-59 | the bound 2^23 is exact: there is such a time |
| ReportStore.Ids.GetNextUniqueID | Sources/KFCrash/KFCrashReportStoreC.c:59-59 | the ID handed out and the wrapping counter |
| ReportStore.OldestAreOutdated | Sources/KFCrash/KFCrashReportStoreC.c:132-146 | the smallest IDs of the sorted list are exactly the reports that have at least maxReportCount newer ones |
| ReportStore.PruningKeepsCount | Sources/KFCrash/KFCrashReportStoreC.c:132-146 | pruning leaves exactly maxReportCount reports, or all |
| ReportStore.NewestSurvive | Sources/KFCrash/KFCrashReportStoreC.c:132-163 | pruning never deletes a report and keeps one that came about before it |
| ReportStore.Store.GetReportIDs | Sources/KFCrash/KFCrashReportStoreC.c:99-123 | the first `count` reports of the directory, sorted together with whatever the array holds behind them |
| ReportStore.Store.PruneReports | Sources/KFCrash/KFCrashReportStoreC.c:132-146 | the directory keeps everything but the outdated reports, in order; a limit of 0 or less keeps all |
| AppState.DurationsExact | Sources/KFCrash/Monitors/KFCrashMonitor_AppState.c:292-419 | along any notifications in life-cycle order with snapshots anywhere, the durations are exactly the times spent active and in the background, without double counting |
| AppState.OnlyOrderKeepsDurations | Sources/KFCrash/Monitors/KFCrashMonitor_AppState.c:292-419 | any notification in any mode leaves the durations right if and only if it is in life-cycle order or no time has passed since the last noted transition |
| AppState.SessionsCounted | Sources/KFCrash/Monitors/KFCrashMonitor_AppState.c:329-399 | one session per launch and per return to the foreground; a crash restarts the counts and durations since the crash |
| AppState.LoadRestoresSave | Sources/KFCrash/Monitors/KFCrashMonitor_AppState.c:194-290 | the file saveState writes, decoded by loadState's callbacks, gives back that launch's crash flag, the counters, and the durations as the C library rereads them |
| AppState.DurationsCarriedOver | Sources/KFCrash/Monitors/KFCrashMonitor_AppState.c:379-419 | at every point of an ordered launch the next one would start from what was saved last, at a termination, a crash, a departure from the foreground, or the launch: exact durations until then as the C library rereads them, whether a crash came before, the sessions up to then, and the launches |
| AppState.LoadReads | Sources/KFCrash/Monitors/KFCrashMonitor_AppState.c:72-287 | for any state file: every field is what the file gives last before a format other than 1, a count that does not fit, or malformed text stops the loading, and stays as it was if the file does not give it; the result says which of these stopped it |
| AppState.LaunchesCounted | Sources/KFCrash/Monitors/KFCrashMonitor_AppState.c:315-351 | across launches with one enable each, launchesSinceLastCrash is at every point the number of launches since the last one that recorded a crash |
| AppState.CrashReported | Sources/KFCrash/Monitors/KFCrashMonitor_AppState.c:260-263 | crashedLastLaunch tells whether the launch before recorded a crash |
| AppState.Monitor.Receive | Sources/KFCrash/Monitors/KFCrashMonitor_AppState.c:362-456 | the global state and the file after each notification; none has an effect while disabled |
| AppState.Monitor.SetEnabled | Sources/KFCrash/Monitors/KFCrashMonitor_AppState.c:425-436 | only the change to enabled resets and saves |
| AppState.Monitor.InitializeState | Sources/KFCrash/Monitors/KFCrashMonitor_AppState.c:315-327 | a cleared state, overlaid with what the decoder's callbacks make of the file |

## Left out

- Floating point: a double is its spelling; formatting, parsing and rereading are parameters, and NaN and infinities have no value of their own. Durations and clock times are reals, and each notification reads the clock once.
- Calls that end in the kernel (reads, writes, mmap, msync, thread and task calls, opening files, directory listing): byte sequences, a readability predicate, suspend counts and lists of IDs stand for them. The JSON window sees what reads of the file deliver up to the first short or failed one, where the code stops reading.
- JsonDecodeContext.DecodeContext.Decode: the callbacks are a function of the history of callbacks, so the splice and the fixer pass attach their callbacks to the decoder through that function and not by calling their methods from inside the loop.
- JsonDecodeContext.DecodeContext.ReadScalar: a minus sign that is the last byte of the input is taken to be followed by the terminating NUL; the code reads that byte whatever it is.
- JsonDecodeContext.DecodeContext.ReadUnicodeEscape: only ASCII hex digits are considered; the code indexes its table with a sign-extended char for others.
- JsonEncodeContext.EncodeContext.BeginContainer: requires a level below 199, because the code, which does not check the level, writes behind the end of `isObject` at the 200th open container. The whole-document results say the same: legal calls and trees nest at most 199 containers, and a spliced text or its error object may not exceed that (the `Shallow` hypotheses).
- `errorOffset` of the decoder, which the code always sets to 0, and the raw, data and incremental string elements of the encoder.
- JsonStale.FileReadsStaleBytes: for files in which the decoder fails with half a window or more still ahead, only JsonWindow.FileAgreesUntilError relates the runs.
- ReportFixerContext.FixupContext.ComparePath: requires that the comparison does not reach a null entry, where the code's behaviour is undefined; ReportFixer.PassUndefined says for which reports it does, and the fixer then has no result in the model.
- ReportFixer.FixerTransforms: the returned text must fit the buffers it is decoded with; the calendar conversion of dates and atoi are parameters.
- JsonSplice.UserSectionLevel: the callback that may write more into the user section is assumed to leave the open containers as it finds them.
- MonitorRegistry: activating, enabling and iterating over the monitors, and adding a null pointer.
- CrashMonitor: beginning and ending a handler are one atomic step each, with the decision made in the first; a blocked handler stays until the process ends, and what it would do if it resumed is a separate function; the slot-table results are for runs in which the table never fills up, and no run goes on behind the end of a handler with an index outside the table, where the code writes behind the table. The event callback and contextual information are not modelled.
- MachineContext: kernel calls succeed, and the reserved list and a handler's thread stay the same from suspension to resumption.
- FaultTolerantMemory.CopySafely: a failed probe leaves the destination as it was up to where it stopped; only the counted bytes are specified.
- TruncationMarker.MarkerClosesRoot: an exact condition for a truncated report to be valid JSON, beyond its brackets. The commonest loss is an opening bracket behind the overflow, whose closer is kept; then come a cut inside a string or a name without its value, a bracket in the lost part of the overflowing chunk, and brackets that are kept out of string contents.
- BufferedFiles.BufferedWriter.WriteSome: a write takes at least one byte or is refused; opening and closing are not modelled.
- BufferedFiles.BufferedReader.ReadUntilChar: for NUL as the character, and for files that contain NUL, only the order of the delivered bytes is stated.
- StringConversion.CopyAndConvert: requires room for the NUL, and, behind a string that ends in a lead surrogate, one more readable unit, because the code reads it.
- ReportStore: two launches in the same second start from the same ID; file names other than the IDs they spell; a directory that lists an ID twice.
- AppState.LoadReads: a value without a name (an array element or a scalar root) is passed over; the code compares its name, a null pointer. The file is read whole, where the code reads at most 50000 bytes.
- AppState.LaunchesCounted: failures to write the state file, and more than 2^31 launches.
- Report sections, system information, registers, Objective-C introspection and tagged pointers, symbolication and image lists, breadcrumbs, custom keys, stack cursors, configuration, filters, sinks and the Swift layer: field plumbing or foreign layouts.
