# Verified model of Gufo Blob

Gufo Blob offers one key-to-bytes store over several backends: memory, SQLite, S3 and FTP. This project models the
parts of it that are state machines, parsers or order arguments, and proves what they promise. `dafny verify
dfyconfig.toml` checks everything.

## Guide

The flat key-to-bytes map of `Operations.dfy` is what every backend is measured against; `Agreement.dfy` states that
over whole runs. Below it, one file for each concern:

* **FTP.** `FtpReplies` reads replies off a stream that arrives in any pieces. `FtpTree` is the tree of a server and the
  flat map of its files, `FtpPaths` and `FtpCommon` the path names and text formats. `FtpServer` says what a server may do
  with each command (a server is any function that obeys it; `FtpReference` shows that there are some), and `FtpClient` is
  the client, from the bytes on the wire to the files. In *calm* runs the server conforms to RFC 959 and the control
  connection has no timeout or error; refusals, failed transfers, closed connections and replies broken off in the middle
  are part of them. What operations come to is stated for connections that are *in step*: those on which what the buffer
  held before and the greeting are one reply together, as after an empty buffer, and all command texts were one line. The
  server has a working directory: the tree stands at the configured root, a new connection starts at the top, and only a
  CWD that is answered with 250 leads to the root, so that a put or get without it would reach something else. In
  *smooth* runs, besides, nothing goes wrong. An *honest* server says 550 only of things that are not there; of one that is
  not, KeyError says only that the reply was 550. What is said of files holds of keys without `.` and `..` for names, which
  a server may take for anything, and under a configured root of keys that do not start with a slash, which lead out of it.
* **S3.** `S3Url` and `Percent` print and parse; `S3Requests` builds URLs and the text that is signed; `S3Xml` is the
  streaming reader; `S3Listing` is the listing document; `S3Store` has the operations and the pagination loop against a
  service with its own page sizes and opaque tokens.
* **SQLite.** `SqliteStore` has the table operations, `Utf8` and `Lexicographic` the order that the range query rests
  on, `SqliteConnection` the double-checked opening as interleaved steps.
* **Memory.** `MemoryStore` has the operations and limits, `MemoryThreads` the statements inside the lock interleaved
  over any number of threads, `ScanSnapshot` the scans. `aio/memory.py` is the same store under an asyncio lock.

The numbers, letters and words of the protocols are stated once more as such, apart from the code that uses them
(`FtpReplies.ReplyBytes`, `FtpCommon.ReplyCodes`, `FtpCommon.FactTexts`, `S3Listing.ListingFields`, `S3Store.StatusCodes`).

A string is a sequence of Unicode scalar values, a byte a number below 256. KeyError and BlobError are results. Where
something outside decides (a server, a socket, a scheduler), the model takes an arbitrary choice or an arbitrary list of
moves.

## Where the code differs from its documentation

* The docstring of the FTP `_scan` promises the keys that start with the prefix. The code walks only along the parts of
  the prefix and lists the last directory, without what lies below it, and finds no key whose name goes on where the
  prefix stops. `FtpTree.ScanIsFilterExactlyWhen` says, for every prefix text, when the two coincide.
* The FTP `exists` looks for the text `type=file` anywhere in the MLST reply, so a directory whose path name holds that
  text counts as a file. Its last resort, a scan, compares texts, so it misses a key that is not in its normal form, which
  SIZE and MLST find. Fact names are taken in lower case, as the code expects them.
* `_check_limits` treats the empty key as having no old value (`MemoryStore.EmptyKeyOverwriteRefused`).
* The upper bound of the SQLite scan leaves out keys that go on with U+10FFFF (`SqliteStore.ScanMissesLastPoint`).
* The unlocked path of the SQLite `connection` can return a connection that is not prepared, or None; a failed schema
  statement leaves its connection in place.
* A FEAT reply with a line of nothing but white space raises IndexError, not BlobError.
* A new connection does not clear `_response_buffer`. What a refused greeting or a broken-off reply has left there is read
  before the new greeting and together with it. Commands and replies are in step if and only if the two are one reply
  (`FtpClient.FtpClient.InStepExactlyWhen`). A greeting of 120 is refused; if the 220 behind it came in the same piece, it is
  left in the buffer, and the next connection takes its own greeting for the answer to USER
  (`FtpReference.StaleGreeting`). An unfinished `220 W` only makes the text of the next greeting longer
  (`FtpReference.BrokenGreeting`). On a connection that is not in step, the 250 read for CWD may have been meant for another
  command; then keys are not those under the root, and a put may change another key of the store than its own.

## Model

| member | source | states |
|---|---|---|
| FtpReplies.FramingRoundTrip | src/gufo/blob/sync/ftp.py:273-307 | Section 4.2 of RFC 959: any single-line reply, and any multi-line reply of which only the last line starts with the code and a space, is read back exactly in front of any bytes, and exactly the bytes behind it are left; lines between may start with the code and a hyphen |
| FtpReplies.MalformedLine | src/gufo/blob/sync/ftp.py:289-295 | A first line shorter than four bytes, or that does not start with a number from 0 to 999, is taken off and is no reply |
| FtpReplies.ReplyBytes | src/gufo/blob/sync/ftp.py:296-306 | The line end, the space, the hyphen and the three digits of a code, byte by byte |
| FtpReplies.NumberRead | src/gufo/blob/utils.py:12-29 | A number is read by its decimal value, with white space around it and a sign in front, up to 4300 digits |
| FtpReplies.UnderscoreRead | src/gufo/blob/utils.py:12-29 | A single underscore between digits does not change the number |
| FtpReplies.UnderscoreRefused | src/gufo/blob/utils.py:12-29 | Two underscores together, or one in front or behind, make it no number |
| FtpReplies.NumberLetters | src/gufo/blob/utils.py:12-29 | What is read as a number has a digit in it, and nothing but digits, signs, underscores and white space |
| FtpReplies.ChunkedRepliesRead | src/gufo/blob/sync/ftp.py:246-307 | For every list of replies and every cut of their bytes into non-empty pieces, also between CR and LF, the pieces are read back as exactly those replies |
| FtpReplies.ControlChannel.Receive | src/gufo/blob/sync/ftp.py:258-271 | One receive call takes the next event off the queue and nothing else |
| FtpReplies.ControlChannel.TakeLine | src/gufo/blob/sync/ftp.py:254-257 | The buffer is cut at its first CRLF; consumed bytes and buffer together stay the bytes received |
| FtpReplies.ControlChannel.ReadLine | src/gufo/blob/sync/ftp.py:246-271 | The next line of the stream, however the bytes arrive, or BlobError exactly when the connection ends or fails before a CRLF, with all that came kept in the buffer |
| FtpReplies.ControlChannel.ReadResponse | src/gufo/blob/sync/ftp.py:273-307 | What is read depends only on the stream: a whole reply, a malformed line taken off, or an error on an unfinished reply |
| FtpReplies.ControlChannel.ReadReplies | src/gufo/blob/sync/ftp.py:273-307 | Repeated reads return exactly the replies in the stream, in order, and leave exactly the bytes behind them |
| FtpReplies.CodeRead | src/gufo/blob/utils.py:12-56 | Three digits of a reply code are read back as that code through the integer and range checks |
| FtpReplies.RepliesRead | src/gufo/blob/sync/ftp.py:273-307 | Any number of printed replies followed by anything parse back to the same replies and leave what follows |
| FtpCommon.PasvRoundTrip | src/gufo/blob/common/ftp.py:84-106 | A PASV reply gives back the first address in it and the port high * 256 + low, whatever text stands around them, other parentheses included |
| FtpCommon.FoundIfHeld | src/gufo/blob/common/ftp.py:38 | The search succeeds if and only if six numbers in parentheses stand anywhere in the text |
| FtpCommon.PasvSound | src/gufo/blob/common/ftp.py:84-106 | An address is read only off six numbers in parentheses with commas between them, each at most 255: the first four are the host, the others the high and the low half of the port |
| FtpCommon.ReplyCodes | src/gufo/blob/common/ftp.py:20-33 | The reply codes as numbers; 125 and 150 open a transfer |
| FtpCommon.FeatureLine | src/gufo/blob/common/ftp.py:70-80 | A line advertises MLSD or SIZE exactly when its first word is that word in any mixture of capitals and small letters |
| FtpCommon.PermissionLetters | src/gufo/blob/common/ftp.py:39 | A LIST line starts with a hyphen or d and three groups of r, w, x or hyphens, letter by letter |
| FtpCommon.ListLineSound | src/gufo/blob/common/ftp.py:109-131 | A line is read only if it starts with permissions and its last word is UTF-8; that is the name, and the letter d makes it a directory |
| FtpCommon.FactTexts | src/gufo/blob/common/ftp.py:153 | The texts type=dir and type=file, letter by letter |
| FtpCommon.LineCut | src/gufo/blob/sync/ftp.py:602 | CR, LF and CRLF each end a line of a listing, and nothing else does |
| FtpCommon.MlsdNameRead | src/gufo/blob/common/ftp.py:147-149 | The name stands behind the last semicolon; spaces before it and slashes behind it do not count |
| FtpCommon.StrippedEnds | src/gufo/blob/common/ftp.py:167 | Exactly the slashes at both ends of a key are taken off before its directories are listed |
| FtpCommon.OctetRead | src/gufo/blob/utils.py:62-79 | A printed octet is read back as itself |
| FtpCommon.FromFeat | src/gufo/blob/common/ftp.py:57-81 | Each feature is set exactly when some line starts with its word in any case; MLST comes with MLSD; the parse fails exactly on a line of nothing but white space |
| FtpCommon.ListLineRead | src/gufo/blob/common/ftp.py:109-131 | A LIST line gives back any name without white space, and whether it is a directory |
| FtpCommon.MlsdLineRead | src/gufo/blob/common/ftp.py:134-154 | An MLSD line gives back any name without semicolon, slash or leading space, and is a directory exactly when one of its facts says so |
| FtpCommon.LinesRead | src/gufo/blob/sync/ftp.py:602 | Lines without line ends, each closed by CRLF, are split back into the same lines |
| FtpCommon.ParsedNameOneLine | src/gufo/blob/sync/ftp.py:602-604 | A name read off a listing never carries a line end into the next command |
| FtpCommon.IterParentDirs | src/gufo/blob/common/ftp.py:157-171 | Exactly the proper ancestors of the key, shortest first |
| FtpTree.CanonicalPath | src/gufo/blob/sync/ftp.py:84-86 | A key in normal form names one path, and that path names the key |
| FtpPaths.ParentPlaces | src/gufo/blob/common/ftp.py:157-171 | For any key, with empty parts or not, the directories asked for are proper ancestors of the place it names, each the one before or one level deeper |
| FtpPaths.LastPlace | src/gufo/blob/common/ftp.py:157-171 | The place that a key names lies directly in the last of them |
| FtpTree.AddDirsMakesAncestors | src/gufo/blob/sync/ftp.py:447-463 | With no file among the ancestors, MKD on each ancestor finds its parent: all of them become directories, nothing else changes, and the tree stays closed under parents |
| FtpTree.AddDirsStopsAtFile | src/gufo/blob/sync/ftp.py:447-463 | With a file among the ancestors no directory is made at all |
| FtpTree.PutRefinesUpdate | src/gufo/blob/sync/ftp.py:465-502 | The tree refines the flat map: a put has a place for its file if and only if no file is above the key and no directory at it; then exactly that key changes; otherwise the tree is as it was |
| FtpTree.GrewToStorable | src/gufo/blob/sync/ftp.py:478-484 | If, after any of the ancestors have been made, there is a place for the file, then all have been made and nothing stood in the way before |
| FtpTree.MkdKeepsFiles | src/gufo/blob/sync/ftp.py:447-463 | Making a directory changes no key of the flat map |
| FtpTree.DeleteRefinesRemoval | src/gufo/blob/sync/ftp.py:504-520 | Deleting a file removes its key from the flat map and nothing else |
| FtpTree.ScanCharacterised | src/gufo/blob/sync/ftp.py:596-614 | The walk in full: along a chain of directories the files directly in the last one; the first file met, alone; nothing when a part is missing |
| FtpTree.FoundIsNear | src/gufo/blob/sync/ftp.py:596-614 | The same as a set: exactly the stored keys on the way to the place that the prefix names, at it, or directly in it |
| FtpTree.ScanIsFilterExactlyWhen | src/gufo/blob/sync/ftp.py:568-614 | For every prefix text the walk equals the prefix filter of the flat map if and only if every stored key that starts with the text is the place it names or directly in it, no file stands on the way (nor at the place, if the text goes on behind its name), and a text not in normal form leads to no file |
| FtpTree.ScanMissesDeeperFiles | src/gufo/blob/sync/ftp.py:605-611 | A file two levels down is stored and in no scan of the root |
| FtpTree.ScanMissesPartialNames | src/gufo/blob/sync/ftp.py:605-611 | A stored key whose name goes on where the prefix stops is not scanned |
| FtpTree.WalkFindsKey | src/gufo/blob/sync/ftp.py:551 | A walk for any key text finds that text exactly when it is the key of a file, never for a directory |
| FtpTree.PrefixIsUnder | src/gufo/blob/sync/ftp.py:613 | A key starts with the name of a directory and a slash exactly when its path goes through the directory |
| FtpServer.EntryRead | src/gufo/blob/common/ftp.py:109-154 | Both listing formats give back the name and kind of an entry from one line |
| FtpServer.MlstTells | src/gufo/blob/sync/ftp.py:543-548 | The text test on an MLST reply is true exactly for a stored key or a directory whose path name holds the text; 550 from an honest server means that nothing is there |
| FtpServer.SizeTells | src/gufo/blob/sync/ftp.py:537-542 | 213 means that the key is stored, 550 from an honest server that it is not |
| FtpServer.DirectoryThatLooksLikeFile | src/gufo/blob/sync/ftp.py:546 | A valid key on which the text test is wrong when it names a directory |
| FtpServer.StoredFile | src/gufo/blob/sync/ftp.py:465-502 | Whatever the server answered to a put after some ancestors were made: only its own key can have changed; if confirmed, exactly that; if something stood in the way or the transfer was refused, no file |
| FtpServer.ListingTells | src/gufo/blob/sync/ftp.py:598-604 | A confirmed listing holds exactly the entries of the directory |
| FtpReference.ServerExists | src/gufo/blob/sync/ftp.py:62-82 | There is a server of which all that is supposed here holds, for any texts it shows and any features |
| FtpReplies.CutReplyIsUnfinished | src/gufo/blob/sync/ftp.py:266-268 | A reply broken off anywhere is read as an error, never as another reply |
| FtpReplies.ParseAlone | src/gufo/blob/sync/ftp.py:273-307 | The bytes that a reply was read from are read as that reply by themselves, whatever stood behind them |
| FtpReplies.LeftoverOfPieces | src/gufo/blob/sync/ftp.py:253-271 | What reading a reply leaves in the buffer: nothing exactly when some pieces together are that reply, else the rest of the piece in which it ends |
| FtpClient.FtpClient.ReadResponse | src/gufo/blob/sync/ftp.py:273-307 | Reads the oldest reply that is due and leaves the others due; the buffer is left with what the last piece brought beyond it |
| FtpClient.FtpClient.Exchanged | src/gufo/blob/sync/ftp.py:309-341 | Section 5.4 of RFC 959: what is read after a command is the first reply that the server sent for this very command |
| FtpClient.FtpClient.Expect | src/gufo/blob/sync/ftp.py:343-362 | Succeeds exactly when the reply due has the code; takes that reply either way |
| FtpClient.FtpClient.Login | src/gufo/blob/sync/ftp.py:220-244 | A first reply that is not 220 ends it at once; every reply of the login is taken; success means that USER, PASS exactly if the answer was 331, CWD if a root is configured, and TYPE were sent in this order and answered with 230, 250 and 200, and that the working directory is the root |
| FtpClient.FtpClient.SettleIn | src/gufo/blob/sync/ftp.py:235-244 | Success means that CWD was answered with 250, if a root is configured, then TYPE with 200, and that the working directory is the root |
| FtpClient.FtpClient.ReadGreeting | src/gufo/blob/sync/ftp.py:220-227 | The first reply is read from whatever the buffer held and the greeting behind it, and accepted exactly if its code is 220 |
| FtpClient.FtpClient.SignIn | src/gufo/blob/sync/ftp.py:228-234 | Success means that USER was answered with 230, or with 331 and then PASS with 230; nothing else is sent |
| FtpClient.FtpClient.EnsureConnection | src/gufo/blob/sync/ftp.py:170-190 | Succeeds exactly when a socket is set; what the server is sent on a new connection is the whole login and nothing else, and the working directory is the root afterwards; a failed login closes its socket; a new connection starts from the old buffer; whatever that held and however the greeting arrives, a refused greeting leaves there exactly what its last piece brought beyond the first reply, a broken-off one its unfinished line |
| FtpReference.StaleGreeting | src/gufo/blob/sync/ftp.py:183-189 | A greeting of 120 and 220 in one piece leaves the 220 in the buffer; it and the next greeting are not one reply, and the next connection takes it for its greeting; in two pieces it leaves nothing |
| FtpReference.BrokenGreeting | src/gufo/blob/sync/ftp.py:253-271 | A greeting broken off as `220 W` stays in the buffer; it and the next greeting of one line are one reply with a longer text, so that commands and replies are in step though the buffer was not empty |
| FtpClient.FtpClient.Cmd | src/gufo/blob/sync/ftp.py:309-341 | The same as Exchanged, with the login before it when there is no connection |
| FtpClient.FtpClient.Close | src/gufo/blob/sync/ftp.py:159-168 | Sends QUIT if there is a connection; no socket is open afterwards, whatever QUIT came to |
| FtpClient.FtpClient.InStepExactlyWhen | src/gufo/blob/sync/ftp.py:246-271 | In a calm run, between operations, on a connection whose command texts were one line each: the replies read after the first are exactly those sent after the greeting, and all other bytes taken or left are those of a reply broken off, if and only if what the buffer held and the greeting are together one reply and nothing else; an empty buffer is enough |
| FtpClient.FtpClient.GetPassiveSocket | src/gufo/blob/sync/ftp.py:364-386 | Opens exactly one data socket or none, to the address in the last line of the 227 reply to its own PASV; no reply is left due |
| FtpClient.FtpClient.PasvCmd | src/gufo/blob/sync/ftp.py:388-433 | Returns the received data if and only if the transfer was opened, its data connection closed properly and its end confirmed; KeyError if and only if its own reply was 550; the data socket is closed on every path, after the final reply |
| FtpClient.FtpClient.ReceiveData | src/gufo/blob/sync/ftp.py:411-426 | All data up to the close, and a failure exactly when the connection did not end properly |
| FtpClient.FtpClient.Get | src/gufo/blob/sync/ftp.py:435-445 | End to end, over any cut of the bytes and any abort: data only if it is the stored value; KeyError from an honest server only if there is none |
| FtpClient.FtpClient.EnsureParentDirs | src/gufo/blob/sync/ftp.py:447-463 | In every run only ancestors of the key are made; it succeeds if and only if MKD was sent for every one of them, shortest first, and each was answered with 257 or 550, and ends at the first that was not; when nothing goes wrong exactly those are made that there is a place for |
| FtpClient.FtpClient.Put | src/gufo/blob/sync/ftp.py:465-502 | Succeeds if and only if its own STOR was opened, the data sent and the end confirmed; then exactly its key has changed; whatever goes wrong no other key has, if the working directory is the configured root; STOR is sent only after all directories are there, and the data socket is closed before the confirmation is awaited; when nothing goes wrong it succeeds if and only if nothing stands in its way |
| FtpClient.FtpClient.Delete | src/gufo/blob/sync/ftp.py:504-520 | The verdict is the reply to its own DELE: done exactly on 250, and then exactly its key is gone; KeyError exactly on 550; nothing else goes, if the working directory is the configured root |
| FtpClient.FtpClient.Features | src/gufo/blob/sync/ftp.py:553-566 | The features given, or those that the reply to FEAT advertises; asked for once |
| FtpClient.FtpClient.AskSize | src/gufo/blob/sync/ftp.py:537-542 | True on 213 and false on 550 to its own SIZE; undecided otherwise |
| FtpClient.FtpClient.AskMlst | src/gufo/blob/sync/ftp.py:543-548 | Decided only by 250 or 550 to its own MLST |
| FtpClient.FtpClient.YieldEntry | src/gufo/blob/sync/ftp.py:602-611 | What one listed entry yields: itself, the walk below it, or nothing |
| FtpClient.FtpClient.ListDir | src/gufo/blob/sync/ftp.py:596-611 | In any order of the listings, keys of the walk only and each once, and all of them from an honest server, in at most one listing for each part left and one more, none of them after the first key |
| FtpClient.FtpClient.Scan | src/gufo/blob/sync/ftp.py:568-632 | Under MLSD and LIST alike, exactly the keys of the walk, each once, in at most parts + 1 listings, all before the first key: what a consumer does between its pulls comes after the last listing |
| FtpClient.FtpClient.Exists | src/gufo/blob/sync/ftp.py:522-551 | Under every feature set the answer is that of the flat map, but for MLST on a directory that looks like a file and for the walk on a key that is not in its normal form; when nothing goes wrong, exactly that |
| FtpClient.FtpClient.Run | src/gufo/blob/sync/ftp.py:150-190 | Over every run of calls whatsoever, pulls on open scans included: no data socket between operations, control sockets 1 exactly when the socket is set and 0 after close; in step if and only if what the buffer held and the greeting are one reply |
| S3Xml.FieldReader.StartElement | src/gufo/blob/common/s3.py:75-82 | Pushes the local name; the first field that the path ends in becomes active |
| S3Xml.FieldReader.CharacterData | src/gufo/blob/common/s3.py:84-86 | Text is kept while a field is active |
| S3Xml.FieldReader.EndElement | src/gufo/blob/common/s3.py:88-96 | The text of the active field is collected when its element ends; the path is popped |
| S3Xml.RunReads | src/gufo/blob/common/s3.py:75-103 | From any state of the reader, the events of any forest collect the innermost matching elements and leave the path as it was |
| S3Xml.DocumentRead | src/gufo/blob/common/s3.py:61-103 | A document from the start: the innermost matches, nothing active, an empty path stack |
| S3Xml.ParseFields | src/gufo/blob/common/s3.py:61-103 | The handlers run over the events of a document return the innermost matches of every field |
| S3Xml.StreamingIsQueryExactlyWhen | src/gufo/blob/common/s3.py:61-103 | The stream reader equals the tree query for every field if and only if no matching element holds another and no element ends in two of the fields; the path stack ends empty in every case |
| S3Xml.ChunkingDoesNotMatter | src/gufo/blob/common/s3.py:84-93 | The result is the same however the character data is cut |
| S3Listing.ListingFieldsNeverClash | src/gufo/blob/common/s3.py:122-125 | No element of any document ends in both fields of a listing |
| S3Listing.PageReadBack | src/gufo/blob/common/s3.py:109-135 | A listing page is read back as its keys in order, but for empty ones, and its token unless it is empty, in either order of the fields, any cut of its text and any namespace |
| S3Listing.ListingFields | src/gufo/blob/common/s3.py:122-125 | The two fields by name |
| S3Store.StatusCodes | src/gufo/blob/common/s3.py:33-36 | The status codes as numbers |
| S3Requests.S3Blob.UnderRawPrefix | src/gufo/blob/sync/s3.py:96-122 | Objects and listings lie under one raw prefix, and stripping takes it off again |
| S3Requests.S3Blob.ObjectNameReceived | src/gufo/blob/sync/s3.py:87-104 | The service reads from the URL the very object name meant, for every key and prefix |
| S3Requests.S3Blob.ListingReceived | src/gufo/blob/sync/s3.py:106-126 | The service reads from the URL the very prefix and token meant |
| S3Requests.SignedPathIsSentPath | src/gufo/blob/common/s3.py:238 | With a host-only endpoint the signed path is the sent path, byte for byte |
| S3Requests.SignedQueryIsSentQuery | src/gufo/blob/common/s3.py:239-246 | The signed query is the permutation of the sent parameters that ascends by code points |
| S3Requests.SignedListing | src/gufo/blob/common/s3.py:239-246 | The canonical query of a listing, letter by letter: the token, if there is one, then list-type=2, then the prefix |
| S3Requests.NoPathIsSlash | src/gufo/blob/common/s3.py:238 | A URL without a path is signed as the path of a single slash |
| S3Requests.SortedIsSortedPermutation | src/gufo/blob/common/s3.py:239-245 | Sorting keeps each parameter and lets them ascend by the code points of their names, and of their values under one name |
| S3Store.S3Store.Put | src/gufo/blob/sync/s3.py:161-179 | Stores exactly the object of the key, or BlobError and nothing changes |
| S3Store.S3Store.Get | src/gufo/blob/sync/s3.py:181-202 | The value, or KeyError exactly when there is no object; a healthy service never gives BlobError |
| S3Store.S3Store.Delete | src/gufo/blob/sync/s3.py:204-226 | HEAD decides on KeyError; only then DELETE removes exactly the object; a failed delete changes nothing |
| S3Store.S3Store.Exists | src/gufo/blob/sync/s3.py:228-249 | True exactly when the object is there |
| S3Store.S3Store.YieldPage | src/gufo/blob/sync/s3.py:273-277 | The keys of a page in order, without the configured prefix |
| S3Store.S3Store.ScanPage | src/gufo/blob/sync/s3.py:267-286 | One page is exactly its slice of the listing, and the token leads to the next slice or there is none |
| S3Store.S3Store.Scan | src/gufo/blob/sync/s3.py:251-286 | For every page size of at least 1 and any tokens the loop ends and yields the whole listing in order; a failing service can only cut it short |
| S3Store.ListingIsFilter | src/gufo/blob/sync/s3.py:251-305 | The listing with the configured prefix taken off is the flat map filtered by the scan prefix, each key once, ascending |
| S3Url.CollapseSlashes | src/gufo/blob/common/s3.py:198-200 | The replacing loop ends, leaves no two slashes together, and keeps the parts of the path |
| S3Url.ParseUrl | src/gufo/blob/common/s3.py:162-208 | The loop and the field extraction compute the parsed configuration; a parsed bucket is valid and a parsed prefix normalised |
| S3Url.ParsePrintedUrl | src/gufo/blob/common/s3.py:328-350 | Parsing a printed URL gives back bucket, endpoint, credentials and normalised prefix if and only if the bucket name is valid, for any prefix and credential text |
| S3Url.PlainUrlRecovered | src/gufo/blob/common/s3.py:328-350 | A prefix that does not start with a slash and has no two slashes together comes back as that very text, and so do the endpoint and the credentials |
| S3Url.PlainUrl | src/gufo/blob/common/s3.py:328-350 | The printed URL letter by letter, for texts that need no escapes |
| S3Url.DropSlashesLeading | src/gufo/blob/common/s3.py:198 | Exactly the slashes in front of a path are taken off |
| S3Url.BucketNames | src/gufo/blob/common/s3.py:44 | Which bucket names are valid, by code points |
| S3Url.OtherUrls | src/gufo/blob/common/s3.py:179-208 | Another scheme is refused, capitals in it are not; a region in the URL is taken, and nothing else is made up |
| Basics.TrimmedAtEnd | src/gufo/blob/sync/s3.py:96 | Exactly the slashes at the end of an endpoint are taken off |
| Basics.DecimalRead | src/gufo/blob/common/s3.py:328-336 | A port is printed by its decimal digits, without a zero in front |
| Percent.UnquoteQuote | src/gufo/blob/common/s3.py:337-346 | Section 2.1 of RFC 3986: unquoting a quoted text gives the text back |
| Percent.QuoteHides | src/gufo/blob/common/s3.py:337-346 | A character that is not kept as it is does not occur in a quoted text |
| Percent.QuotedByte | src/gufo/blob/common/s3.py:337-346 | Letters, digits and four marks stand as they are, and what is kept besides; every other byte is a percent sign and two upper-case digits |
| Percent.ObjectByte | src/gufo/blob/sync/s3.py:103-125 | Slashes stand as they are in object names and are escaped in listing prefixes and tokens |
| Percent.HexRead | src/gufo/blob/common/s3.py:198 | Escapes are read in both cases |
| Percent.ParsePrinted | src/gufo/blob/common/s3.py:188-192 | A printed query is read back parameter by parameter |
| Percent.PlusIsSpace | src/gufo/blob/common/s3.py:188 | A plus sign in a query is a space |
| Percent.OddPieces | src/gufo/blob/common/s3.py:188 | An empty piece of a query is no parameter; one without an equals sign has an empty value |
| Utf8.DecodeEncode | src/gufo/blob/common/ftp.py:126 | Strict and replacing decoding both undo encoding (section 3 of RFC 3629) |
| Utf8.StrictIsExact | src/gufo/blob/common/ftp.py:126 | Strict decoding accepts exactly the encodings: no overlong form, no surrogate, nothing cut short |
| Utf8.ReplaceMarks | src/gufo/blob/common/s3.py:198 | Replacing decoding agrees with strict decoding where that accepts, and marks what it refuses |
| Utf8.OrderPreserved | src/gufo/blob/sync/sqlite.py:269-271 | UTF-8 keeps lexicographic order, in both directions |
| Lexicographic.LessMeans | src/gufo/blob/sync/sqlite.py:269-271 | The order is decided where two texts first differ, or by the end of a beginning |
| SqliteStore.PointRange | src/gufo/blob/sync/sqlite.py:266-273 | Over code points the range is the prefix test less the keys that go on with U+10FFFF |
| SqliteStore.RangeIsPrefixTest | src/gufo/blob/sync/sqlite.py:266-274 | The same in the byte order that SQLite compares by |
| SqliteStore.ScanIsFilterExactlyWhen | src/gufo/blob/sync/sqlite.py:253-276 | The range query equals the prefix filter if and only if no stored key goes on with U+10FFFF after the prefix |
| SqliteStore.ScanMissesLastPoint | src/gufo/blob/sync/sqlite.py:273 | A key that get finds and a scan of its own prefix misses |
| SqliteStore.SQLiteBlob.Put | src/gufo/blob/sync/sqlite.py:171-190 | The table becomes the old one with exactly this key updated |
| SqliteStore.SQLiteBlob.Get | src/gufo/blob/sync/sqlite.py:192-211 | The value, or KeyError exactly when there is no row |
| SqliteStore.SQLiteBlob.Delete | src/gufo/blob/sync/sqlite.py:213-230 | Exactly this key goes; KeyError exactly when there was no row |
| SqliteStore.SQLiteBlob.Exists | src/gufo/blob/sync/sqlite.py:232-251 | True exactly when there is a row |
| SqliteStore.SQLiteBlob.Scan | src/gufo/blob/sync/sqlite.py:253-276 | Strictly ascending, exactly the keys with the prefix that do not go on with U+10FFFF |
| SqliteConnection.OneConnection | src/gufo/blob/sync/sqlite.py:126-160 | In every interleaving at most one connection is live, and opens minus closes is 1 exactly when it is set, but for the two steps in between |
| SqliteConnection.SchemaComplete | src/gufo/blob/sync/sqlite.py:144-149 | A connection that is set has run the whole schema list if and only if none of its own statements failed and no opener is still running them; while the lock is free, if and only if none failed |
| SqliteConnection.FastPathReturns | src/gufo/blob/sync/sqlite.py:133-134 | What the unlocked path returns: whatever is set at its second read; prepared if and only if none of its statements failed and no opener is inside the schema list |
| SqliteConnection.WaiterGetsConnection | src/gufo/blob/sync/sqlite.py:135-138 | In every run an opener that has waited for the lock and finds a connection set returns that very one, whatever the others do meanwhile; one that finds none connects |
| SqliteConnection.OpenAlone | src/gufo/blob/sync/sqlite.py:133-143 | An opener that is alone gets from the call to a stored connection, with no statement run yet |
| SqliteConnection.FinishOpening | src/gufo/blob/sync/sqlite.py:144-149 | Then it runs the statements that are left and returns that connection, with the lock free |
| SqliteConnection.CloseAlone | src/gufo/blob/sync/sqlite.py:155-160 | A closer that is alone closes and clears the connection that is set, once, and leaves the lock; without one it changes nothing |
| SqliteConnection.FastPathSeesUnpreparedConnection | src/gufo/blob/sync/sqlite.py:133-148 | A run in which a second opener gets the connection before any statement |
| SqliteConnection.FastPathReturnsNone | src/gufo/blob/sync/sqlite.py:133-160 | A run in which a closer clears the connection between test and return, and the opener gets None |
| SqliteConnection.FailedSchemaIsKept | src/gufo/blob/sync/sqlite.py:139-149 | A run in which a failed statement leaves a half-prepared connection that the next opener gets |
| MemoryStore.MemoryBlob.CheckLimits | src/gufo/blob/sync/memory.py:100-142 | Lets through exactly what the two limits admit, with its branches for a new and for an empty key |
| MemoryStore.MemoryBlob.Put | src/gufo/blob/sync/memory.py:144-165 | One step of the sequential store; the running size stays the sum of the stored lengths |
| MemoryStore.MemoryBlob.Get | src/gufo/blob/sync/memory.py:167-181 | The value or KeyError of the sequential store |
| MemoryStore.MemoryBlob.Delete | src/gufo/blob/sync/memory.py:183-199 | One step of the sequential store; the running size stays the sum |
| MemoryStore.MemoryBlob.Exists | src/gufo/blob/sync/memory.py:201-215 | The answer of the sequential store |
| MemoryStore.MemoryBlob.Scan | src/gufo/blob/sync/memory.py:217-232 | The matching keys in insertion order |
| MemoryStore.RefinesFlatMap | src/gufo/blob/sync/memory.py:144-232 | Every answer is the flat map's, or a refused put that changes nothing |
| MemoryStore.AdmitsExactlyWhatFits | src/gufo/blob/sync/memory.py:124-142 | A put on a non-empty key succeeds if and only if the resulting store is within the limits; on the empty key exactly when there is also room for old and new together |
| MemoryStore.ShrinkingOverwriteAdmitted | src/gufo/blob/sync/memory.py:134-142 | An overwrite that does not grow is never refused |
| MemoryStore.EmptyKeyOverwriteRefused | src/gufo/blob/sync/memory.py:137 | The same overwrite on the empty key can be refused |
| MemoryStore.ReachableWithinLimits | src/gufo/blob/sync/memory.py:100-165 | With non-negative limits every reachable store is within both |
| MemoryStore.InsertionOrder | src/gufo/blob/sync/memory.py:165 | A new key goes last in every scan, an old one keeps its place |
| MemoryThreads.EveryRunIsSequential | src/gufo/blob/sync/memory.py:157-215 | Under every interleaving: whenever the lock is free the size is the sum of the stored lengths; every answer is that of the sequential store in lock order |
| MemoryThreads.SequentialIsReplay | src/gufo/blob/sync/memory.py:157-215 | The store in lock order is the store of a plain run |
| MemoryThreads.LimitsHoldWhenFree | src/gufo/blob/sync/memory.py:157-165 | No interleaving leaves the lock with a store beyond its limits |
| MemoryThreads.AloneFinishes | src/gufo/blob/sync/memory.py:157-215 | After every run with the lock free, an operation that meets nobody else ends with the store and the answer of the sequential one, and frees the lock |
| ScanSnapshot.AsyncIterWrapper.Next | src/gufo/blob/aio/_wrapper.py:76-83 | The first pull lists the keys; later pulls go through that list |
| ScanSnapshot.ScanIsSnapshot | src/gufo/blob/aio/memory.py:218-237 | For any operations before and between the pulls the consumer gets exactly the matching keys present at the first pull, in insertion order, and then the end |
| ScanSnapshot.SnapshotIsMatching | src/gufo/blob/sync/memory.py:230-232 | In every reachable store those are the keys of the map with the prefix, each once |
| Agreement.AllowedAgree | src/gufo/blob/sync/memory.py:144-232 | The flat map leaves nothing open but the order in a scan: any two stores that refine it agree |
| Agreement.RunMemory | src/gufo/blob/sync/memory.py:144-232 | Over every run the unlimited memory store is the flat map and gives its answers |
| Agreement.RunTable | src/gufo/blob/sync/sqlite.py:171-276 | The same of SQLite, for keys without U+10FFFF |
| Agreement.RunBucket | src/gufo/blob/sync/s3.py:161-305 | The same of S3 under its configured prefix, for non-empty keys |
| Agreement.RunAll | src/gufo/blob/sync/s3.py:161-305 | Over every run with non-empty keys and no U+10FFFF, memory, SQLite and S3 give the same values, KeyErrors, booleans and scan sets |
| FtpAgreement.NeverBlocked | src/gufo/blob/sync/ftp.py:447-463 | When no stored key lies below another, no put is ever blocked |
| FtpAgreement.RunCalm | src/gufo/blob/sync/ftp.py:435-632 | Over every calm run with closes and new connections in between, any refusals, aborted transfers, broken-off replies and closed connections: on a connection that is in step, as every one that was opened with an empty buffer, each operation fails or answers as the flat map does, scans as FtpTree.FoundIsNear says; on any connection that works in the configured root it changes its own key at most; one that is in step does |
| FtpAgreement.RunSmooth | src/gufo/blob/sync/ftp.py:435-632 | Over every run in which nothing goes wrong and no stored key lies below another, the files are the flat map and put, get, delete and exists give its answers |

## Left out

- The hash, HMAC and date of `sign_request`: only the canonical path and query are modelled; the headers hold no key text.
- Malformed XML, and the texts of error messages (`S3Error`): an error response is a status.
- Connection retries, jitter and the sizes of receive calls; `_connect` succeeds or fails.
- The HTTP client, and any normalisation of `.` and `..` that it might do in object URLs.
- `urlsplit` on URLs that the code does not build: control characters, brackets, ports and user names in S3 URLs.
- Lone surrogates in Python strings: a key that UTF-8 cannot encode is not a string of the model.
- FtpClient.FtpClient.Run: the step property leaves out timeouts and errors of the control connection, and servers that send what no command asked for, as an unsolicited 421; the socket property covers them.
- FtpClient.FtpClient.Put: a transfer that is not confirmed leaves some data under its own key, or the old state; a server that then removes an old file is not covered.
- FtpClient.FtpClient.Login: without a configured root the directory that the server starts in is taken to be its top, and one of a CWD whose 250 is lost to be unchanged.
- FtpClient.FtpClient.Scan: what is found is stated for trees whose names the listing format in use gives back; `cdir` and `pdir` entries and facts in upper case are not listed.
- FtpClient.FtpClient.Exists: the walk is covered for such trees only, and its agreement with FEAT for clients that take the server to support no more than it does.
- FtpAgreement.RunSmooth: FTP scans are not compared with the prefix filter, which they are not; FtpTree.ScanIsFilterExactlyWhen says when they are.
- S3Store.S3Store.Put: an empty key without a configured prefix, which makes a bucket request of an object request.
- S3Store.S3Store.Get: the same.
- S3Store.S3Store.Delete: the same.
- S3Store.S3Store.Exists: the same.
- Simultaneous operations on one FTP client, which does not lock its control channel; simultaneous pulls on one AsyncIterWrapper.
- The async twins of the FTP and S3 clients, and the lifecycle of the former, whose `close` clears its connection before it sends QUIT.
- `FileBlob`, `AsyncWrapper`, `open_blob`, the loader and the dict interface, which mostly pass calls on.
- SQLite itself and its busy timeouts: a table is a list of rows in key order, and a statement is one step.
