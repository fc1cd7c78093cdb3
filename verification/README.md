# Verified models of the Windows CE HTTP, ASP and time services

The modules model six algorithmic parts of the servers under `PRIVATE/SERVERS` and prove what they
are for. Each part has a specification (functions on values), the source's own loops, in-place
updates and linked lists as methods and classes proved against it, and theorems about it.

- **ASP compiler** (`AspScript`, `AspSize`, `AspMeaning`, `AspState`): a sizing pass and a writing
  pass turn a page into a script. The script is read back by an independent evaluator of JScript and
  VBScript literals; sizes and line numbers are accounted for exactly.
- **ASP include files** (`Includes`, `IncludeProofs`, `AspState`): directives are scanned into a
  table, the page is merged, and merged line numbers are mapped back to files.
- **WebDAV lock manager** (`PathNames`, `LockTable`, `LockProofs`, `LockRuns`, `LockManager`): the
  two-level linked lists, spliced in place, refine a table, and the table refines a map; an invariant
  and safety hold over every run of requests. Each critical section is one step.
- **Lock tokens and the `If:` header** (`LockToken`, `IfHeader`, `IfHeaderProofs`, `IfHeaderScan`,
  `IfHeaderLocks`): tokens survive printing and parsing, and the header evaluator, with the
  terminators it patches into its text, accepts exactly its grammar with all conditions true; the ids
  it collects are tied to the locks of the run.
- **HTTP receive buffer and tokenizer** (`HttpBuffer`, `HttpHeaders`): bytes are conserved over
  keep-alive requests, and tokenizing in place is undone.
- **Virtual roots, clocks and Base64** (`VRoots`, `NtpTime`, `Base64`).

`Text` holds what several of them share. `dafny verify dfyconfig.toml` checks everything.

Things the code does that one would not expect, and that the model keeps:

- `MyStrStr` in the sizing pass starts at the opening delimiter, in the writing pass behind it, so
  `<%>` is a command for one and not for the other (yet enough is reserved); and a VBScript text
  block of 984 to 999 plain characters is written in two statements where the sizing pass reserves
  one. The model drops stores past the end of the allocation and keeps the cursor, and states exactly
  when the script fits. A `<%>` with no closing delimiter behind it is worse: the sizing pass accepts
  the page, and the writing pass goes on with a null end of command and crashes.
- The `If:` evaluator wants every list to hold, where section 9.4 of RFC 2518 asks for one; it takes
  an empty list `()` and an empty header, rejects a header of white space only, and may take a later
  slash for the end of a host name when a tag has no path. In a list without a tag any non-zero
  number under this server's GUID counts as a lock token, whether or not it was issued.
- A file in use has a flag and no count: the end of one MOVE or COPY frees it for all.
  `CopyNeedsToken` says exactly which events do.
- An error in a command in front of an include directive, on its line, is reported as the include's.
- A header's white space, up to seven bytes, is removed in front of a request, also from one that was
  carried over. When the URL of a request line is refused and a version follows, the blank
  between them stays patched over (`CutBytesDiffer`).
- An entry of the virtual-root table that redirects has no slashes counted. A name of one character,
  slash or not, takes every URL, and so does one of two that maps to the file system root.
  `EntryMeaning` says exactly which entries are routed as they should be.

## Model

| member | source | states |
|---|---|---|
| `AspState.MyStrStr` | PRIVATE/SERVERS/ASP/CORE/aspmain.h:188-204 | the lead-byte-aware search returns exactly `Find` |
| `AspScript.FindIsFirst` | PRIVATE/SERVERS/ASP/CORE/aspmain.h:188-204 | what `Find` returns is a match and no earlier offset matches, where a match is the pattern not preceded by a lead byte (except at the start of the search); it finds nothing only when there is no match |
| `AspScript.FindFromIsFirst` | PRIVATE/SERVERS/ASP/CORE/aspmain.h:188-204 | the same from every later offset of the search |
| `AspSize.ParsePartitions` | PRIVATE/SERVERS/ASP/CORE/parser.cpp:79-115 | the blocks the main loop walks over are the page, byte for byte, and no text block is empty |
| `AspSize.FindFromOpening` | PRIVATE/SERVERS/ASP/CORE/parser.cpp:88 | where the sizer's search for the closing delimiter, which starts at the opening one, differs from the writer's: exactly at `<%>` |
| `AspSize.PassesSeeSameBlocks` | PRIVATE/SERVERS/ASP/CORE/parser.cpp:338-394 | once the sizer accepts a page, both passes see the same blocks if and only if the walk meets no `<%>` |
| `AspState.SizeText` | PRIVATE/SERVERS/ASP/CORE/parser.cpp:381-392 | the loop over a text block adds up its quotes, line feeds and backslashes as `CharsExtra` counts them |
| `AspState.CalculateBufferSize` | PRIVATE/SERVERS/ASP/CORE/parser.cpp:323-397 | the sizing loop returns -1 exactly for an unterminated command, else the bytes reserved |
| `AspScript.WriteAdds` | PRIVATE/SERVERS/ASP/CORE/parser.cpp:333-334 | the two reserves are what one statement adds around its text, in either language |
| `AspSize.ScriptSize` | PRIVATE/SERVERS/ASP/CORE/parser.cpp:59-71 | conservation, for every page the writing pass accepts: script bytes plus surplus equal page bytes plus the bytes its blocks ask for; the script and its terminator fit the allocation if and only if the surplus makes up for what was asked for and not reserved |
| `AspSize.TextCatchesUp` | PRIVATE/SERVERS/ASP/CORE/parser.cpp:88 | text the sizing pass begins inside a command of the writing pass ends at a command inside it, right behind it, or where the next text block of the writing pass ends |
| `AspSize.SizerCatchesUp` | PRIVATE/SERVERS/ASP/CORE/parser.cpp:338-394 | a sizing pass inside a command of the writing pass meets that pass again behind it, having reserved no less than was asked for in between |
| `AspSize.ReservesEnough` | PRIVATE/SERVERS/ASP/CORE/parser.cpp:338-394 | although the passes see other blocks behind a `<%>`, the sizing pass reserves at least what the blocks of the writing pass ask for, on every page both accept |
| `AspSize.NullEndIsOpenBareClose` | PRIVATE/SERVERS/ASP/CORE/parser.cpp:88-92 | once the sizing pass accepts a page, the writing pass finds no closing delimiter for a command if and only if it walks onto a `<%>` with none behind it: the assertion in the source fails exactly there |
| `AspSize.NullEnd` | PRIVATE/SERVERS/ASP/CORE/parser.cpp:88-92 | the same for a whole page |
| `AspSize.LoneBareClose` | PRIVATE/SERVERS/ASP/CORE/parser.cpp:88-92 | the page `<%>` is accepted by the sizing pass and has no script |
| `AspSize.ScriptFits` | PRIVATE/SERVERS/ASP/CORE/parser.cpp:323-397 | every JScript page both passes accept fits, and every VBScript page in which each text block has 24*(chunks - 1 - len/1000) <= quotes + line feeds + carriage returns |
| `AspSize.PlainPageOverruns` | PRIVATE/SERVERS/ASP/CORE/parser.cpp:373-379 | a VBScript page of 984 to 999 plain letters needs 24 bytes more than were reserved |
| `AspSize.ChunkPayload` | PRIVATE/SERVERS/ASP/CORE/parser.cpp:162-215 | from any count of bytes already written below the limit, the rest of a chunk passes it by at most 18 |
| `AspSize.VbPayloadBound` | PRIVATE/SERVERS/ASP/CORE/parser.cpp:147-149 | the literal of every VBScript statement has at most 1001 bytes, below the documented 1022 |
| `AspState.CASPState.SkipWhiteWriteReturns` | PRIVATE/SERVERS/ASP/CORE/parser.cpp:288-300 | skips the longest run of white space, writes exactly its CRs and LFs, and tells whether there were any |
| `AspState.CASPState.SkipToEndWriteReturns` | PRIVATE/SERVERS/ASP/CORE/parser.cpp:304-312 | of the text up to the end, exactly the CRs and LFs are written |
| `AspState.CASPState.CopyScriptText` | PRIVATE/SERVERS/ASP/CORE/parser.cpp:242-280 | a command body becomes its line ends (directive), a Response.Write call around it (expression) or itself, after the line ends of its leading white space |
| `AspState.CASPState.PutEscaped` | PRIVATE/SERVERS/ASP/CORE/parser.cpp:171-209 | one text character is written as its escape |
| `AspState.CASPState.CopyChunk` | PRIVATE/SERVERS/ASP/CORE/parser.cpp:160-228 | one Response.Write statement holds the escapes of the longest chunk that starts here, and the line feeds in it are counted |
| `AspState.CASPState.CopyPlainText` | PRIVATE/SERVERS/ASP/CORE/parser.cpp:155-238 | a text block becomes its statements, chunk by chunk, followed by one CRLF for each line feed |
| `AspState.CASPState.CopyCommand` | PRIVATE/SERVERS/ASP/CORE/parser.cpp:81-105 | a command, its trailing white space and, when that had no line end, a separator of the language |
| `AspState.CASPState.WriteScript` | PRIVATE/SERVERS/ASP/CORE/parser.cpp:75-115 | the main loop writes exactly the bytes of `Script`, or stops where no closing delimiter follows |
| `AspState.CASPState.ConvertToScript` | PRIVATE/SERVERS/ASP/CORE/parser.cpp:46-140 | outcome by outcome: sizing failure; a null end of command, exactly when the writing pass meets a `<%>` with no closing delimiter behind it; or a script whose bytes are in the buffer with the terminator behind them exactly when the final cursor is inside the allocation |
| `AspMeaning.JsCharReads` | PRIVATE/SERVERS/ASP/CORE/parser.cpp:171-209 | the JScript reader, an evaluator of its own, reads back one escaped character as what is to be sent for it |
| `AspMeaning.JsStringReads` | PRIVATE/SERVERS/ASP/CORE/parser.cpp:169-215 | the same for a whole JScript literal |
| `AspMeaning.VbStringReads` | PRIVATE/SERVERS/ASP/CORE/parser.cpp:169-215 | the VBScript reader evaluates `"..."&chr(n)&"..."` back to the characters to be sent |
| `AspMeaning.StringReads` | PRIVATE/SERVERS/ASP/CORE/parser.cpp:169-215 | both languages: a written literal evaluates to the text with CR dropped and LF turned into CRLF |
| `AspMeaning.RunStatement` | PRIVATE/SERVERS/ASP/CORE/parser.cpp:160-228 | running one Response.Write statement sends its chunk and goes on with the rest |
| `AspMeaning.TextMeans` | PRIVATE/SERVERS/ASP/CORE/parser.cpp:155-238 | the script of a text block, over all its chunks, sends exactly the block (CR dropped, LF as CRLF) |
| `AspMeaning.CommandMeans` | PRIVATE/SERVERS/ASP/CORE/parser.cpp:242-280 | the script of a command evaluates its expression or runs its code verbatim |
| `AspMeaning.DirectiveMeans` | PRIVATE/SERVERS/ASP/CORE/parser.cpp:247-251 | the script of a directive does nothing |
| `AspMeaning.PageMeans` | PRIVATE/SERVERS/ASP/CORE/parser.cpp:73-115 | compiling preserves meaning: the script is made of pieces that send each text block, evaluate each expression and run each code block, in page order |
| `AspMeaning.BlockLines` | PRIVATE/SERVERS/ASP/CORE/parser.cpp:230-236 | every block has as many line feeds in the script as on the page |
| `AspMeaning.PageLines` | PRIVATE/SERVERS/ASP/CORE/parser.cpp:230-236 | the script has exactly as many line feeds as the page |
| `AspMeaning.CodeKeepsItsLine` | PRIVATE/SERVERS/ASP/CORE/parser.cpp:242-280 | every character of script code sits on the same line of page and script |
| `AspState.GetLineNumber` | PRIVATE/SERVERS/ASP/PARSEEXT/parseext.cpp:684-696 | the line of the end, counted in carriage returns from 1 |
| `AspState.ReadReference` | PRIVATE/SERVERS/ASP/PARSEEXT/parseext.cpp:145-187 | reads file or virtual, the equals sign and a quoted name, or fails as `ParseReference` does |
| `AspState.CASPState.TakeDirective` | PRIVATE/SERVERS/ASP/PARSEEXT/parseext.cpp:124-265 | one directive becomes a table entry, or one of the errors, in the order the code checks them |
| `AspState.CASPState.FindIncludeFiles` | PRIVATE/SERVERS/ASP/PARSEEXT/parseext.cpp:86-286 | the loop leaves exactly the table of `Scan`, and the bytes to add are the growth of the page |
| `AspState.CASPState.ReadIncludeFiles` | PRIVATE/SERVERS/ASP/PARSEEXT/parseext.cpp:290-375 | the page becomes the merged page, of the size announced, and every entry gets its lines in it |
| `AspState.CASPState.ParseIncludes` | PRIVATE/SERVERS/ASP/PARSEEXT/parseext.cpp:40-79 | on success: the page in which only quotes changed and the table are those of `Scan`, so checked, in order and with commands only below directives; the table is numbered, and the merged page is in place |
| `AspState.CASPState.GetIncErrorInfo` | PRIVATE/SERVERS/ASP/PARSEEXT/parseext.cpp:630-680 | the loop computes `ErrorInfo` |
| `IncludeProofs.ScanChecks` | PRIVATE/SERVERS/ASP/PARSEEXT/parseext.cpp:106-270 | every accepted table satisfies the checks of the scan, extends the table so far, and leaves a page changed in quotes only |
| `IncludeProofs.ScannedTable` | PRIVATE/SERVERS/ASP/PARSEEXT/parseext.cpp:126-134 | an accepted table is in page order with commands only below, and without line ends inside directives each directive has a line of its own |
| `IncludeProofs.ScanFindsAll` | PRIVATE/SERVERS/ASP/PARSEEXT/parseext.cpp:106-122 | no include directive is missed: each lies in an entry of the accepted table |
| `IncludeProofs.MergedSize` | PRIVATE/SERVERS/ASP/PARSEEXT/parseext.cpp:261-269 | the merged page has the page size plus the growth counted |
| `IncludeProofs.NumberedTable` | PRIVATE/SERVERS/ASP/PARSEEXT/parseext.cpp:315-365 | the incremental line count gives each entry the line its text starts on in the merged page |
| `IncludeProofs.EntryNumbers` | PRIVATE/SERVERS/ASP/PARSEEXT/parseext.cpp:315-365 | start and end line of an entry in terms of the merged page around it |
| `IncludeProofs.IncludeLineFound` | PRIVATE/SERVERS/ASP/PARSEEXT/parseext.cpp:630-680 | for every merged line inside an include, the lookup returns that file and the line in it |
| `IncludeProofs.PageLineFound` | PRIVATE/SERVERS/ASP/PARSEEXT/parseext.cpp:630-680 | for every merged line of page text, the lookup returns the page line less the lines earlier directives spanned, exactly when no include shares the merged line; else it names the include that does |
| `IncludeProofs.CommandNotAbove` | PRIVATE/SERVERS/ASP/PARSEEXT/parseext.cpp:252-259 | a command behind an include never shares its last line, so an error in it is not taken for the include |
| `IncludeProofs.MergedIsCrLf` | PRIVATE/SERVERS/ASP/PARSEEXT/parseext.cpp:315-365 | merging CRLF files into a CRLF page gives a CRLF page |
| `IncludeProofs.EngineLine` | PRIVATE/SERVERS/ASP/PARSEEXT/parseext.cpp:630-680 | with CRLF text, the line the script engine reports for a code character is its line on the merged page |
| `IncludeProofs.ErrorInInclude` | PRIVATE/SERVERS/ASP/PARSEEXT/parseext.cpp:630-680 | end to end: an error in code that came from an include is located in that file on its own line |
| `IncludeProofs.ErrorInPage` | PRIVATE/SERVERS/ASP/PARSEEXT/parseext.cpp:630-680 | end to end: an error in code of the page is located on the page line if and only if no include shares the merged line |
| `IncludeProofs.CommandAboveAccepted` | PRIVATE/SERVERS/ASP/PARSEEXT/parseext.cpp:86-286 | the page `<%x%><!--#include file="a"-->` is accepted |
| `IncludeProofs.CommandAboveMisplaced` | PRIVATE/SERVERS/ASP/PARSEEXT/parseext.cpp:630-680 | an error in its command, on line 1 of the page, is reported as line 1 of the file included |
| `PathNames.PathNameCompare` | PRIVATE/SERVERS/HTTP/EXTNS/extns.cpp:458-472 | zero if and only if the names are equal up to case and kind of slash, that is, have one canonical form: an equivalence of names |
| `LockManager.CWebDavLock.SetTimeout` | PRIVATE/SERVERS/HTTP/WEBDAV/davlock.cpp:905-912 | from then on the lock counts as expired exactly when more than the seconds given have passed, for every time the server uses (at most 2^32 - 1 milliseconds) |
| `LockManager.TimeoutIsExact` | PRIVATE/SERVERS/HTTP/WEBDAV/davlock.cpp:905-912 | the 32-bit milliseconds give the exact expiry if and only if the seconds are at most 4294967; a longer time expires early |
| `LockManager.CWebDavFileNode.HasLockId` | PRIVATE/SERVERS/HTTP/WEBDAV/davlock.cpp:1034-1050 | finds the first lock with the id, or none |
| `LockManager.CWebDavFileNode.HasLockIdInArray` | PRIVATE/SERVERS/HTTP/WEBDAV/davlock.cpp:1054-1063 | true exactly if some id presented is in the list |
| `LockManager.CWebDavFileNode.AddLock` | PRIVATE/SERVERS/HTTP/WEBDAV/davlock.cpp:952-966 | a new lock at the front of the list, everything else the same |
| `LockManager.CWebDavFileNode.DeleteLock` | PRIVATE/SERVERS/HTTP/WEBDAV/davlock.cpp:974-1000 | unless the file is busy, the lock is spliced out and the others keep their order |
| `LockManager.CWebDavFileNode.RemoveTimedOutLocks` | PRIVATE/SERVERS/HTTP/WEBDAV/davlock.cpp:1002-1031 | unless the file is busy, exactly the expired locks are spliced out, in place |
| `LockManager.CWebDavFileLockManager.GetNodeFromID` | PRIVATE/SERVERS/HTTP/WEBDAV/davlock.cpp:1157-1168 | the first node with a lock of that id, and that lock |
| `LockManager.CWebDavFileLockManager.GetNodeFromFileName` | PRIVATE/SERVERS/HTTP/WEBDAV/davlock.cpp:1170-1181 | the first node with an equal name |
| `LockManager.CWebDavFileLockManager.IsAssociated` | PRIVATE/SERVERS/HTTP/WEBDAV/davlock.cpp:1183-1200 | whether the file has a lock with that id |
| `LockManager.CWebDavFileLockManager.RemoveTimedOutLocks` | PRIVATE/SERVERS/HTTP/WEBDAV/davlock.cpp:1203-1237 | the two-level linked lists after the sweep are the lists of `LockTable.Sweep` |
| `LockManager.CWebDavFileLockManager.CreateLock` | PRIVATE/SERVERS/HTTP/WEBDAV/davlock.cpp:1245-1351 | the linked lists, the next id and the answer after a LOCK request are those of `LockTable.CreateLock`, on every branch |
| `LockManager.CWebDavFileLockManager.RefreshLock` | PRIVATE/SERVERS/HTTP/WEBDAV/davlock.cpp:82-96 | the lists after a refresh are those of `LockTable.RefreshLock` |
| `LockManager.CWebDavFileLockManager.CanPerformLockedOperation` | PRIVATE/SERVERS/HTTP/WEBDAV/davlock.cpp:1354-1399 | the answer of `LockTable.CanPerform`, with the nodes of both files |
| `LockManager.CWebDavFileLockManager.RemoveFileNodeFromLinkedList` | PRIVATE/SERVERS/HTTP/WEBDAV/davlock.cpp:1401-1419 | the node is spliced out, the others stay in order |
| `LockManager.CWebDavFileLockManager.DeleteLock` | PRIVATE/SERVERS/HTTP/WEBDAV/davlock.cpp:1421-1443 | the lists and the answer after an UNLOCK are those of `LockTable.DeleteLock`, the node going with its last lock |
| `LockManager.CWebDavFileLockManager.GetNextID` | PRIVATE/SERVERS/HTTP/WEBDAV/davlock.h:147 | hands out the next id once |
| `LockManager.CWebDavFileLockManager.DeleteLockedFile` | PRIVATE/SERVERS/HTTP/WEBDAV/davimpl.cpp:1052-1064 | the locked step of a DELETE leaves the lists of `LockTable.DeleteLockedFile` |
| `LockManager.CWebDavFileLockManager.SetBusyOf` | PRIVATE/SERVERS/HTTP/WEBDAV/davlock.h:102 | only the busy flag of the file changes, and every file is found where it was |
| `LockManager.CWebDavFileLockManager.BeginCopy` | PRIVATE/SERVERS/HTTP/WEBDAV/davimpl.cpp:843-882 | the first critical section of a MOVE or COPY with tokens leaves the lists of `LockTable.BeginCopy`, with the nodes for the second one |
| `LockManager.CWebDavFileLockManager.EndCopy` | PRIVATE/SERVERS/HTTP/WEBDAV/davimpl.cpp:897-917 | the second one, on those nodes, leaves the lists of `LockTable.EndCopy` |
| `LockProofs.UnexpiredFrom` | PRIVATE/SERVERS/HTTP/WEBDAV/davlock.cpp:1002-1031 | the swept list is the subsequence of exactly the locks that have not expired, in order |
| `LockProofs.SweptFrom` | PRIVATE/SERVERS/HTTP/WEBDAV/davlock.cpp:1203-1237 | the swept table is the subsequence of exactly the nodes that keep a lock, in order |
| `LockProofs.CreateKeepsInv` | PRIVATE/SERVERS/HTTP/WEBDAV/davlock.cpp:1274-1319 | CreateLock keeps the invariant: names pairwise different, every node locked, one lock on an exclusive node, ids distinct and below the next id |
| `LockProofs.DeleteKeepsInv` | PRIVATE/SERVERS/HTTP/WEBDAV/davlock.cpp:1421-1443 | DeleteLock keeps it |
| `LockProofs.RefreshKeepsInv` | PRIVATE/SERVERS/HTTP/WEBDAV/davlock.cpp:82-96 | a refresh keeps it |
| `LockProofs.SetBusyKeepsInv` | PRIVATE/SERVERS/HTTP/WEBDAV/davlock.h:102 | SetBusy keeps it |
| `LockProofs.SweepKeepsInv` | PRIVATE/SERVERS/HTTP/WEBDAV/davlock.cpp:1203-1237 | the sweep keeps it |
| `LockProofs.RemoveKeepsInv` | PRIVATE/SERVERS/HTTP/WEBDAV/davimpl.cpp:801-814 | dropping a node keeps it |
| `LockRuns.AbsMeaning` | PRIVATE/SERVERS/HTTP/WEBDAV/davlock.cpp:1170-1181 | the map from name to (mode, busy, id to expiry) that a table stands for has exactly its nodes |
| `LockRuns.CreateRefines` | PRIVATE/SERVERS/HTTP/WEBDAV/davlock.cpp:1245-1351 | on the map, CreateLock adds exactly one entry with an id never used, or changes nothing; it is refused exactly when the file is locked and either side wants it exclusively, and issues a lock exactly when it is not and the file and the objects can be had |
| `LockRuns.DeleteRefines` | PRIVATE/SERVERS/HTTP/WEBDAV/davlock.cpp:1421-1443 | on the map, DeleteLock removes exactly one id, and the file with its last one, or nothing |
| `LockRuns.RefreshRefines` | PRIVATE/SERVERS/HTTP/WEBDAV/davlock.cpp:82-96 | on the map, a refresh changes one expiry or nothing |
| `LockRuns.RemoveRefines` | PRIVATE/SERVERS/HTTP/WEBDAV/davimpl.cpp:801-814 | on the map, dropping a node removes exactly its file, or nothing |
| `LockRuns.DeleteLockedRefines` | PRIVATE/SERVERS/HTTP/WEBDAV/davimpl.cpp:1052-1064 | on the map, the locked delete succeeds exactly when an id presented is held on the file, and then removes exactly that file |
| `LockRuns.SweepRefines` | PRIVATE/SERVERS/HTTP/WEBDAV/davlock.cpp:1203-1237 | on the map, the sweep removes exactly the ids of files not busy with expiry before now, and the files so emptied |
| `LockRuns.BeginCopyRefines` | PRIVATE/SERVERS/HTTP/WEBDAV/davimpl.cpp:843-882 | on the map, a MOVE or COPY begins exactly when tokens were sent, it may proceed with both files and those not locked can be opened; it then marks the locked ones busy; if only the opening fails they are marked idle, else nothing changes |
| `LockRuns.EndCopyRefines` | PRIVATE/SERVERS/HTTP/WEBDAV/davimpl.cpp:897-917 | on the map, its end frees the files it found locked, and a MOVE removes exactly its source |
| `LockRuns.RunKeepsInv` | PRIVATE/SERVERS/HTTP/WEBDAV/davlock.cpp:1113-1134 | the invariant holds after every run of requests from the empty table |
| `LockRuns.LiveHasOrigin` | PRIVATE/SERVERS/HTTP/WEBDAV/davlock.cpp:1308 | over whole runs: every lock held was issued for an equal name earlier in the run and has been held ever since |
| `LockRuns.DeleteNeedsToken` | PRIVATE/SERVERS/HTTP/WEBDAV/davimpl.cpp:1052-1064 | over whole runs: the locked delete changes the table only if an id presented was issued for an equal name and has been held ever since; it then removes that file alone |
| `LockRuns.StepKeepsBusy` | PRIVATE/SERVERS/HTTP/WEBDAV/davlock.h:84 | a busy file stays busy over an event if and only if the event does not free it (a locked delete with a token of the file, a MOVE or COPY of it that its tokens allow but that cannot open its other file, or the end of one that had found it locked); it then keeps all its locks |
| `LockRuns.RunKeepsBusy` | PRIVATE/SERVERS/HTTP/WEBDAV/davlock.h:84 | over whole runs: it is busy after every further event if and only if none of them frees it; it then keeps all its locks throughout |
| `LockRuns.CopyNeedsToken` | PRIVATE/SERVERS/HTTP/WEBDAV/davimpl.cpp:843-917 | over whole runs: when a MOVE or COPY begins, for each of its files that is locked an id was presented that had been issued for an equal name earlier in the run and held ever since; from then on the file is busy throughout if and only if no event frees it, and then the id stays held on it |
| `LockRuns.SecondUserFreesFile` | PRIVATE/SERVERS/HTTP/WEBDAV/davimpl.cpp:902-906 | such an event: when another COPY of the same file ends, an UNLOCK takes the file from the first, which is still under way |
| `LockRuns.MayProceed` | PRIVATE/SERVERS/HTTP/WEBDAV/davlock.cpp:1354-1399 | for one or two files, when an operation may proceed, in terms of the map: no token needed and none sent, or every locked file has a presented id held on it |
| `LockRuns.RetiredForGood` | PRIVATE/SERVERS/HTTP/WEBDAV/davlock.h:147 | an id once issued and gone is never held again, whatever follows |
| `LockToken.ParseInt64` | PRIVATE/WINCEOS/COREOS/CORE/DLL/strings.c:891-912 | the loops of _atoi64 compute `Atoi64`, wrapping at 64 bits |
| `LockToken.DecimalRoundTrip` | PRIVATE/WINCEOS/COREOS/CORE/DLL/strings.c:891-912 | printing and parsing a number undo each other for every 64-bit integer, whatever follows that is no digit |
| `LockToken.WriteOpaqueLockToken` | PRIVATE/SERVERS/HTTP/WEBDAV/davlock.cpp:285-307 | the buffer holds the token text and a terminator; the count includes the terminator of a bracketed token only |
| `LockToken.TokenRoundTrip` | PRIVATE/SERVERS/HTTP/WEBDAV/davlock.cpp:285-337 | parsing a printed token gives its id back, for every 64-bit id, bracketed or not |
| `LockToken.TokensDiffer` | PRIVATE/SERVERS/HTTP/WEBDAV/davlock.cpp:285-307 | different ids have different tokens |
| `IfHeaderLocks.TokenPresents` | PRIVATE/SERVERS/HTTP/WEBDAV/davlock.cpp:593-612 | a token in a tagged list presents its id exactly when the file of the tag holds that lock, and else nothing |
| `IfHeaderLocks.OwnTokenUntagged` | PRIVATE/SERVERS/HTTP/WEBDAV/davlock.cpp:593-612 | a token of this server in a list without a tag presents its id, whatever 64-bit number it is, issued or not |
| `IfHeaderLocks.OwnTokenHolds` | PRIVATE/SERVERS/HTTP/WEBDAV/davlock.cpp:593-612 | the condition of a printed token holds exactly when the file of the tag, if there is one, holds that lock, with its Not polarity |
| `IfHeaderLocks.ListIdsHeld` | PRIVATE/SERVERS/HTTP/WEBDAV/davlock.cpp:506-566 | a list that holds collects only ids held on its file |
| `IfHeaderLocks.TaggedIdsHeldSince` | PRIVATE/SERVERS/HTTP/WEBDAV/davlock.cpp:399-586 | end to end over whole runs: in a header that passes, every id collected from a list tagged with a file was issued for an equal name in the run and has been held ever since |
| `IfHeaderLocks.OwnTokenPasses` | PRIVATE/SERVERS/HTTP/WEBDAV/davlock.cpp:399-586 | end to end: a header with the printed token of one lock passes and collects its id exactly when the file of the tag, if there is one, holds that lock; else the precondition fails |
| `IfHeaderLocks.TokenHeaderOk` | PRIVATE/SERVERS/HTTP/WEBDAV/davlock.cpp:285-307 | such a header is in the grammar of the evaluator |
| `IfHeaderScan.StrChr` | PRIVATE/SERVERS/HTTP/WEBDAV/davlock.cpp:464 | the first such character of the C string, or none |
| `IfHeaderScan.SkipHTTPPrefixAndHostName` | PRIVATE/SERVERS/HTTP/WEBDAV/davutil.cpp:22-38 | the end of scheme and host name as `HostEnd` has it, or none |
| `IfHeaderScan.CWebDav.CheckTokenExpression` | PRIVATE/SERVERS/HTTP/WEBDAV/davlock.cpp:593-612 | succeeds with exactly the lock id of the token, which it appends |
| `IfHeaderScan.CWebDav.CheckETagExpression` | PRIVATE/SERVERS/HTTP/WEBDAV/davlock.cpp:615-642 | compares the etag behind white space and a weakness prefix |
| `IfHeaderScan.CWebDav.CheckBracketed` | PRIVATE/SERVERS/HTTP/WEBDAV/davlock.cpp:525-550 | a token or etag is checked on text cut off by a terminator, and the buffer is the same afterwards |
| `IfHeaderScan.CWebDav.CheckCondition` | PRIVATE/SERVERS/HTTP/WEBDAV/davlock.cpp:513-565 | one round of the inner loop: its verdict, or what it leaves |
| `IfHeaderScan.CWebDav.CheckList` | PRIVATE/SERVERS/HTTP/WEBDAV/davlock.cpp:506-566 | the inner loop ends and gives the verdict on its list |
| `IfHeaderScan.CWebDav.CheckTag` | PRIVATE/SERVERS/HTTP/WEBDAV/davlock.cpp:459-489 | the tag in front of a list: the file it names and what follows, or unreadable |
| `IfHeaderScan.CWebDav.CheckGroup` | PRIVATE/SERVERS/HTTP/WEBDAV/davlock.cpp:438-573 | one round of the outer loop: its verdict, or what it leaves |
| `IfHeaderScan.CWebDav.CheckLockHeader` | PRIVATE/SERVERS/HTTP/WEBDAV/davlock.cpp:410-586 | the two loops end; success, ids appended and error status are the verdict on the header text |
| `IfHeaderProofs.HeaderMeans` | PRIVATE/SERVERS/HTTP/WEBDAV/davlock.cpp:399-586 | every header of the grammar, given as a syntax tree with its white space, passes exactly when every condition of every list holds, and then appends the ids of its un-negated tokens in order |
| `IfHeaderProofs.ReadHeader` | PRIVATE/SERVERS/HTTP/WEBDAV/davlock.cpp:399-586 | every header that passes is the text of such a tree |
| `IfHeaderProofs.IfHeaderMeaning` | PRIVATE/SERVERS/HTTP/WEBDAV/davlock.cpp:399-586 | the evaluator succeeds if and only if the text is in the grammar and every condition holds with its Not polarity; it then collects exactly the un-negated lock ids in order |
| `IfHeaderProofs.MalformedIsOutside` | PRIVATE/SERVERS/HTTP/WEBDAV/davlock.cpp:399-586 | a header of the grammar never fails as a bad request, and fails as a failed precondition exactly when some condition does not hold |
| `HttpBuffer.CBuffer.AllocMem` | PRIVATE/SERVERS/HTTP/PARSER/buffio.cpp:39-67 | room for the bytes asked for; bytes, cursors and waiting request unchanged |
| `HttpBuffer.CBuffer.TrimWhiteSpace` | PRIVATE/SERVERS/HTTP/PARSER/buffio.cpp:80-108 | white space in front is removed unless there is nothing else, or eight or more of it, which aborts |
| `HttpBuffer.CBuffer.RestoreCarry` | PRIVATE/SERVERS/HTTP/PARSER/buffio.cpp:165-179 | the waiting request becomes the front of the buffer, its first byte put back |
| `HttpBuffer.CBuffer.LookForEnd` | PRIVATE/SERVERS/HTTP/PARSER/buffio.cpp:224-242 | finds the end of the headers exactly when they are complete, resuming the search where it stopped |
| `HttpBuffer.CBuffer.Receive` | PRIVATE/SERVERS/HTTP/PARSER/buffio.cpp:264-330 | one round of the network: bytes appended, or the result for a timeout, an error or the end of the stream |
| `HttpBuffer.CBuffer.ReadHeaders` | PRIVATE/SERVERS/HTTP/PARSER/buffio.cpp:223-416 | the loop ends; the buffer holds what it started from and everything received, trimmed; it reports success only with complete headers or at the end of the stream |
| `HttpBuffer.CBuffer.RecvHeaders` | PRIVATE/SERVERS/HTTP/PARSER/buffio.cpp:123-431 | a read of headers starts from the waiting request if there is one |
| `HttpBuffer.CBuffer.SetAside` | PRIVATE/SERVERS/HTTP/PARSER/buffio.cpp:197-200 | what follows the body waits, byte for byte, as the next request |
| `HttpBuffer.CBuffer.CutBody` | PRIVATE/SERVERS/HTTP/PARSER/buffio.cpp:187-210 | a body that came with the headers is cut off; more than two bytes behind it wait as the next request |
| `HttpBuffer.CBuffer.RecvBody` | PRIVATE/SERVERS/HTTP/PARSER/buffio.cpp:187-431 | the body is exactly the bytes announced, those that came with the headers included; nothing behind it is read |
| `HttpBuffer.KeepAlive` | PRIVATE/SERVERS/HTTP/PARSER/buffio.cpp:165-210 | read of the body, Reset, read of headers: the next request is exactly the bytes behind the body, then what arrives, less white space in front |
| `HttpBuffer.CBuffer.Reset` | PRIVATE/SERVERS/HTTP/PARSER/buffio.h:69-71 | all cursors at the start; the waiting request stays |
| `HttpBuffer.CBuffer.InvalidateNextRequestIfAlreadyRead` | PRIVATE/SERVERS/HTTP/PARSER/buffio.h:53 | no request waits any more; the bytes are untouched |
| `HttpBuffer.CBuffer.NextToken` | PRIVATE/SERVERS/HTTP/PARSER/buffio.cpp:435-476 | the next token of the line, terminated in place; undone, the bytes are those received |
| `HttpBuffer.CBuffer.NextLine` | PRIVATE/SERVERS/HTTP/PARSER/buffio.cpp:479-498 | restores the saved byte and moves behind the next CRLF, or fails and stays |
| `HttpBuffer.CBuffer.AppendData` | PRIVATE/SERVERS/HTTP/PARSER/buffio.cpp:500-509 | the data behind the bytes, or no change without memory |
| `HttpHeaders.TokenInLine` | PRIVATE/SERVERS/HTTP/PARSER/buffio.cpp:435-476 | no token reaches over a line end |
| `HttpHeaders.ParseMethod` | PRIVATE/SERVERS/HTTP/PARSER/parser.cpp:371-415 | outcome, cursor and bytes for every request line: it succeeds if and only if there is a token, its URL is accepted and its version, if any, can be read; the bytes are those received, except for a terminator left at the last blank exactly when there is one and the URL in front of it is refused |
| `HttpHeaders.CutUrl` | PRIVATE/SERVERS/HTTP/PARSER/parser.cpp:378-408 | the blank behind the URL is put back exactly when the URL is accepted |
| `HttpHeaders.CutBytesDiffer` | PRIVATE/SERVERS/HTTP/PARSER/parser.cpp:378-408 | the bytes after parsing differ from those received if and only if a URL with a version behind it is refused |
| `HttpHeaders.ParseHeaders` | PRIVATE/SERVERS/HTTP/PARSER/parser.cpp:254-311 | the bytes are those received, on every outcome, except for the terminator behind a refused URL; on success the cursor is behind the first line without a header name, and one CRLF line was read per header, whatever the handlers do |
| `HttpHeaders.ParseLines` | PRIVATE/SERVERS/HTTP/PARSER/parser.cpp:277-306 | the loop over the header lines ends, one line per iteration |
| `HttpHeaders.CompleteHeadersEnd` | PRIVATE/SERVERS/HTTP/PARSER/parser.cpp:277-306 | from any line in front of an empty line, the parser finds an end no later than that empty line |
| `HttpHeaders.ReceivedIsParsable` | PRIVATE/SERVERS/HTTP/PARSER/buffio.cpp:233-241 | headers the receive loop takes for complete have an end for the parser |
| `VRoots.SortByLength` | PRIVATE/SERVERS/HTTP/CORE/vroots.hpp:361-374 | the bubble sort ends and leaves the entries in descending order of length, entries of equal length in their old order |
| `VRoots.SwapWeight` | PRIVATE/SERVERS/HTTP/CORE/vroots.hpp:366-370 | each swap lowers the sum of position times length by the difference of the two lengths, so the sort ends |
| `VRoots.SwapStable` | PRIVATE/SERVERS/HTTP/CORE/vroots.hpp:366-370 | each swap keeps, for every length, the sequence of entries of that length |
| `VRoots.SortIsUnique` | PRIVATE/SERVERS/HTTP/CORE/vroots.hpp:361-374 | there is only one stable descending order of a table |
| `VRoots.CountSignificantSlashesInURL` | PRIVATE/SERVERS/HTTP/CORE/vroots.hpp:54-63 | counts the slashes except a first and a last character |
| `VRoots.GetNextSlash` | PRIVATE/SERVERS/HTTP/CORE/vroots.hpp:104-107 | the next slash or the end, from a position not past the end |
| `VRoots.WalkSlashes` | PRIVATE/SERVERS/HTTP/CORE/vroots.hpp:161-172 | the walk over a URL with enough slashes never passes its end and stops at the end of as many segments |
| `VRoots.SegmentSlashes` | PRIVATE/SERVERS/HTTP/CORE/vroots.hpp:161-172 | in front of the end of k + 1 segments there are k slashes, fewer only at the end of the URL |
| `VRoots.MatchEntry` | PRIVATE/SERVERS/HTTP/CORE/vroots.hpp:126-192 | one entry is tried as `Hits` says |
| `VRoots.CVRoots.MatchVRoot` | PRIVATE/SERVERS/HTTP/CORE/vroots.hpp:114-195 | the first entry that hits, or none |
| `VRoots.EntryMeaning` | PRIVATE/SERVERS/HTTP/CORE/vroots.hpp:130-177 | an entry hits exactly the URLs it should serve (all for the root, else those it is a prefix of, on whole segments), for every URL, if and only if it is a slash when it has one character, and else its slashes are counted right, it does not end in a slash, and it is no two-character name of the file system root |
| `VRoots.BadUrl` | PRIVATE/SERVERS/HTTP/CORE/vroots.hpp:130-177 | for every other entry, a URL that goes wrong: its own name, `/`, or another character |
| `VRoots.TakesEveryUrl` | PRIVATE/SERVERS/HTTP/CORE/vroots.hpp:134-146 | an entry takes every URL if and only if it has one character, any one, or two and stands for the file system root |
| `VRoots.RoutingIsLongestMatch` | PRIVATE/SERVERS/HTTP/CORE/vroots.hpp:114-195 | on a sorted table of good entries the first hit serves the URL and no longer entry does; without a hit none serves it |
| `NtpTime.EndianSwapReverses` | PRIVATE/SERVERS/TIMESVC/timesvc.cxx:686-700 | EndianSwap reverses the eight bytes, and undoes itself |
| `NtpTime.ShiftWraps` | PRIVATE/SERVERS/TIMESVC/timesvc.cxx:728-730 | a left shift by 32 is the product modulo 2^64 |
| `NtpTime.NtTimeIsExact` | PRIVATE/SERVERS/TIMESVC/timesvc.cxx:702-714 | NTP to NT: floor((q*5^7 + 2^24)/2^25) plus the offset, for every stamp, without overflow |
| `NtpTime.NtpTimeIsExact` | PRIVATE/SERVERS/TIMESVC/timesvc.cxx:716-731 | NT to NTP, for every time: the top bit of d, the ticks since the era, is lost and the result is floor(d*2^25/5^7) modulo 2^64 of the rest |
| `NtpTime.NtpTimeIsWholeUpTo` | PRIVATE/SERVERS/TIMESVC/timesvc.cxx:716-731 | the result is floor(d*2^25/5^7) modulo 2^64 if and only if d is below 2^63 |
| `NtpTime.NtRoundTrip` | PRIVATE/SERVERS/TIMESVC/timesvc.cxx:702-731 | NT to NTP to NT is the identity for every time of the era |
| `NtpTime.NtpRoundTrip` | PRIVATE/SERVERS/TIMESVC/timesvc.cxx:702-731 | NTP to NT to NTP moves a stamp by at most 215 units, round the end of the era for its last values |
| `NtpTime.NtTimeIsMonotone` | PRIVATE/SERVERS/TIMESVC/timesvc.cxx:702-714 | later stamps are later times |
| `NtpTime.NtpTimeIsMonotone` | PRIVATE/SERVERS/TIMESVC/timesvc.cxx:716-731 | later times of one era have later stamps |
| `NtpTime.OffsetBound` | PRIVATE/SERVERS/TIMESVC/timesvc.cxx:1060-1068 | the wrapped, truncated offset misses the true one by at most (|a - b| + 1)/2 ticks, the conversions of all four stamps included (section 5 of RFC 2030) |
| `Base64.GroupRoundTrip` | PRIVATE/SERVERS/HTTP/CORE/httpmain.cpp:1125-1193 | three bytes survive; of a last group the first byte, or the first two, do whatever the other characters are |
| `Base64.RoundTrip` | PRIVATE/SERVERS/HTTP/CORE/httpmain.cpp:1114-1207 | decoding what was encoded gives the bytes back with the terminator exactly behind them, for all lengths and whatever bytes follow the data and the text |
| `Base64.DecodeUndoesEncode` | PRIVATE/SERVERS/HTTP/CORE/httpmain.cpp:1114-1207 | the same with blanks in front of the text and anything behind its terminator |
| `Base64.Base64Encode` | PRIVATE/SERVERS/HTTP/CORE/httpmain.cpp:1114-1149 | the loop over groups and its correction of the last one write `Encoded` and a terminator |
| `Base64.Base64Decode` | PRIVATE/SERVERS/HTTP/CORE/httpmain.cpp:1155-1207 | the loop over groups writes the decoded bytes, puts the terminator where `DecodedSize` says, and reports the size in whole groups |

## Left out

- Sockets, select, recv, the registry, files, COM and the script engine: receiving is a schedule of
  events, an include file and a file's etag are given by functions.
- The SSL branches of RecvToBuf, and SSLDecrypt.
- Code pages: characters are Dafny characters, isleadbyte is any predicate that is false on ASCII,
  towlower is any folding that keeps slashes and the terminator, and isspace and tolower are those of
  the C locale. In Base64 a character above 127, a negative index in the source, is outside the alphabet.
- Memory failure beyond what the models take as a parameter, and the clean-up after it.
- The width of buffer sizes, offsets and line numbers (int), which stay far below 2^31, and of the
  lock id counter (64 bits).
- AspState.CASPState.FindIncludeFiles: says nothing about the page and the table after an error,
  because no caller reads them then.
- AspState.CASPState.ParseIncludes: says nothing about the state after an error, for the same reason.
- AspState.CASPState.ConvertToScript: a store outside the allocation is dropped, where the source
  would overwrite other memory.
- LockManager.CWebDavFileLockManager.DeleteLockedFile: the file system's own answer, before and after
  the step, is not modelled.
- LockManager.CWebDavFileLockManager.BeginCopy: the attempt of MoveFile or CopyFile before it and the
  copying behind it are not modelled; opening the files that are not locked succeeds or fails by parameter.
- LockManager.CWebDavFileLockManager.EndCopy: requires the nodes it was left to be in the list still, on
  which the source relies although a locked delete or another MOVE may have dropped them; by
  LockRuns.CopyNeedsToken they are there unless one of the events named freed them.
- LockManager.CWebDavFileLockManager.CreateLock: the response, the owner text and the file handle are
  not modelled; opening the file and making the objects succeed or fail by parameter.
- IfHeaderScan.CWebDav.CheckLockHeader: the lock table does not change during one evaluation, URL
  canonicalization and mapping are one function, and memory does not run out.
- HttpHeaders.ParseHeaders: what the handlers do with a header is left out; they are arbitrary and only
  choose how many tokens to read.
- HttpBuffer.CBuffer.RecvBody: a waiting request is not protected against a later read by a filter,
  as the source says itself; reading needs the tokenizer's byte put back, as ParseHeaders leaves it.
- VRoots.CVRoots.MatchVRoot: an empty URL is not modelled, because the source reads behind it.
- CHeaderIter and the If-Match family of headers, ISAPI filters, CRequest::ReadData, cookies, logging,
  directory listings, and the service threads.
