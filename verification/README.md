# Verified models of the Reach edukit core

Dafny models of five parts of the edukit sources, with the laws these parts are written for proved for all inputs, all
runs or all reachable states. `dafny verify dfyconfig.toml` checks everything.

## What is modelled

**The CGI form decoder** (`cgic.c`, and its copy for the encoder, which differs only in the buffer size, a parameter
`space` here). `MultipartStream` is the ring buffer with put-back in front of the request body, `BoundarySearch` the
byte search for the next delimiter, `OpeningSearch` the case of the first one, `HeaderLines` and `HeaderValues` the
header reader and the parameter splitter, `Multipart` the parse loop, `ContentType` the part of `main` that cuts out
the boundary. The central results: although put-back appends *behind* what is still queued, the search for CR LF
`--boundary` returns exactly the bytes before the leftmost occurrence (`NextDelimiterIsLeftmost`), while for the
opening delimiter, which may match inside itself, `OpeningReordersIff` says exactly when bytes are reordered. Hence
the imperative parser computes a function of the plain byte sequence, with no ring in it, unless the body has a false
start before its first delimiter (`ParsePostMultipart`), and the ring never fills. `HeaderRoundTrip` and `HeaderBlock`
say what a header line, a parameter and a header block are worth, whatever they look like, so that rendering a form,
with any header lines in any order and spelling, and parsing it gives the form back (`MultipartRoundTrip.RoundTrip`,
`ContentType.RequestRoundTrip`). `UrlForm`, `UrlRoundTrip`, `FormString` with `FormLines`, and `Environment` do the
same for URL-encoded data, for reading a value with its line ends normalised, and for saving and restoring a whole
request; `SavedForm` follows a query through all of them.

**The course recorder** (`record.c`, `record_xml.c`). `RecorderThread` is the loop of one recorder thread; a run is a
sequence of the events it meets. `RecorderTiming` proves over all runs that stamps rise, that frames are written
exactly after an I-frame, and that stamps measure the active time; `RecorderSound` does for audio what it does for
video, and finds when audio drifts; `RecorderReports` counts from the events what a report says. `SplitProtocol` puts
any number of such threads, a FIFO queue that may lose reports, and the controller together as a transition system;
`SplitWhen` says exactly when a split happens, `SplitListing` what it lists. `BlueScreen`, `BlueReading`, `IndexFile`,
`PictureThread` and `SplitTimes` model the files and the accounting.

**MD5 and HMAC-MD5** (`our_md5.c`, `our_md5hl.c`, `md5lib.c`), for every compression function: section 3 of RFC 1321
and section 2 of RFC 2104 as one-shot functions, the contexts as classes that refine them. `Md5Rfc` ties the functions
to the words of the two documents.

**Chunked RSA and device registration** (`tools/rsa`), for every block cipher that inverts its own encryption and
spends 11 bytes of a block on padding, as in section 7.2.1 of RFC 8017.

**The pixel fill** (`screen.c`, `screen.h`): a pointer walk against an indexed pixel setter, with packed two-bit
pixels.

Properties that turned out false of the code have a lemma at a concrete input and a lemma that says exactly when they
hold:

| what fails | at this input | exactly when it holds |
|---|---|---|
| a header value comes back | `ColonDropped`, `EmptyValueSwallows` | `HeaderLineKept` |
| a content type comes back | `ParameterDropped` | `TypeKeptIff` |
| an announced boundary is found | `ParameterSwallowed`, `LongBoundaryCut` | `BoundaryFoundIff` |
| put-back is un-reading in the opening search | `OpeningSearchCanMiss` | `OpeningReordersIff` |
| an upload is restored | `DifferentLengthsLost`, `DuplicateNameLosesUpload` | `RestoredIffFindable` |
| a truncated file is noticed | `CutUnnoticed` | `TruncatedRestore` |
| an audio stamp is the sound recorded so far | `StaleSoundDrifts` | `AudioStampExactIff` |
| a split lists the files being recorded | `LeftoverListedAgain` | `ListedCurrentIff` |
| the index lists the pictures | `ShorterNameGarbled` | `IndexUndoesInfoIff` |
| streams are levelled to the shortest | `IdleFirstWipes` | `LevelsToShortestIff` |
| encrypted blocks stay inside the output | `EncryptTestAdmitsShortBuffer` | `BlocksInsideIff`, `TestImpliesRoomIff` |
| the server builds a key | `SetupTooLong` | `ServerRanges` |
| a refused block is noticed | `BrokenKeyAccepted` | `BrokenKeyUnnoticedIff`, `DamagedRegistration` |
| a fill draws what the pixel setter would | `UnalignedDiffers` | `FillIsPixelsIff` |

## Conventions

One `char` is one C `char`; a `string` is the contents of a buffer or, without NUL, a C string. Integers are unbounded
except where the width is the point: the 32-bit counts of MD5, the 32-bit reference ticks of the recorder, the
four-byte integers of saved environments and registration records. Files, queues and ciphers are sequences and
functions. The request body ends exactly at Content-Length (section 4.2 of RFC 3875).

## Model

| member | source | states |
|---|---|---|
| `MultipartStream.NextIsRemainder` | reach_edukit/src/backfs/cgi/cgic.c:347-348 | stepping to the next cell is the source's increment and remainder |
| `MultipartStream.RingPop` | reach_edukit/src/backfs/cgi/cgic.c:341-361 | taking the cell at the read position removes the oldest byte of the ring |
| `MultipartStream.RingPush` | reach_edukit/src/backfs/cgi/cgic.c:382-390 | storing at the write position appends behind the queued bytes, as long as one cell stays free |
| `MultipartStream.MpStream.Read` | reach_edukit/src/backfs/cgi/cgic.c:341-380 | a read returns everything asked for as long as it remains, ring first: the length guard, which only knows a lower bound of the position, withholds no declared byte |
| `MultipartStream.MpStream.ReadByte` | reach_edukit/src/backfs/cgi/cgic.c:341-380 | succeeds exactly when something remains, and takes the first remaining byte |
| `MultipartStream.MpStream.PutBack` | reach_edukit/src/backfs/cgi/cgic.c:382-390 | the bytes join the ring at its end, not at its front; nothing else moves |
| `BoundarySearch.FindIsLeftmost` | reach_edukit/src/backfs/cgi/cgic.c:683-695 | the reference: `Find` is the leftmost occurrence, and none means none anywhere |
| `BoundarySearch.FaithfulIsSplit` | reach_edukit/src/backfs/cgi/cgic.c:697-745 | from every state, a search in which nothing is put back behind queued bytes comes to the leftmost occurrence in the text ahead: no false partial match loses, repeats or reorders a byte |
| `BoundarySearch.NeverReorders` | reach_edukit/src/backfs/cgi/cgic.c:697-745 | a delimiter whose first byte does not recur in it is searched for without ever putting bytes back behind others |
| `BoundarySearch.NextDelimiterIsLeftmost` | reach_edukit/src/backfs/cgi/cgic.c:683-745 | for every CR-free boundary and ring of at most one byte, the search returns exactly the bytes before the leftmost CR LF -- boundary and leaves the stream just past it |
| `OpeningSearch.OpeningReordersIff` | reach_edukit/src/backfs/cgi/cgic.c:705-745 | the search for the opening delimiter puts bytes back behind others exactly when the leftmost text that looks like the delimiter up to the byte after its dashes turns out not to be the delimiter |
| `OpeningSearch.OpeningIsLeftmost` | reach_edukit/src/backfs/cgi/cgic.c:705-745 | otherwise the opening search, too, comes to the leftmost delimiter or reports that there is none |
| `OpeningSearch.OpeningDelimiter` | reach_edukit/src/backfs/cgi/cgic.c:705-745 | the opening delimiter is found behind every preamble without such a false start |
| `OpeningSearch.DashFreeHarmless` | reach_edukit/src/backfs/cgi/cgic.c:705-745 | an empty preamble and any without dashes have none |
| `OpeningSearch.OpeningSearchCanMiss` | reach_edukit/src/backfs/cgi/cgic.c:705-745 | with a false start the delimiter can be missed although it is there: `--ab` in `--a--ab` |
| `BoundarySearch.SkipToDelimiter` | reach_edukit/src/backfs/cgi/cgic.c:697-745 | the loop terminates and computes the search; the ring never holds as many bytes as the delimiter has |
| `BoundarySearch.PassLineEnd` | reach_edukit/src/backfs/cgi/cgic.c:746-759 | behind the delimiter a line end is consumed, a dash and the byte after it are left to be read again, two other bytes are dropped |
| `BoundarySearch.AfterNextBoundary` | reach_edukit/src/backfs/cgi/cgic.c:683-775 | the body found, the stream past the delimiter, input error exactly when the delimiter or two bytes after it are missing, at most max(2, delimiter length - 1) bytes in the ring |
| `HeaderLines.ReadHeaderLine` | reach_edukit/src/backfs/cgi/cgic.c:904-963 | reads the line a plain stream would give, leaving exactly what follows it |
| `HeaderValues.StrEqNc` | reach_edukit/src/backfs/cgi/cgic.c:2278-2299 | equality of the lower-case forms, although letters are only looked for in the first string |
| `HeaderValues.DecomposeValue` | reach_edukit/src/backfs/cgi/cgic.c:797-902 | main value and parameters, quoted or not, each cut to its buffer, by case-insensitive name; a parameter nobody asked for is a store through null when buffers were given |
| `Multipart.ReadHead` | reach_edukit/src/backfs/cgi/cgic.c:481-508 | the header block of a part, as a function of the plain stream |
| `Multipart.ReadBody` | reach_edukit/src/backfs/cgi/cgic.c:519-542 | the body is everything before the leftmost delimiter of the plain stream |
| `Multipart.ReadPart` | reach_edukit/src/backfs/cgi/cgic.c:455-589 | one turn: end of form, part that is no form data, entry, input error or fault, each exactly when the plain stream says so |
| `Multipart.FormIsPlain` | reach_edukit/src/backfs/cgi/cgic.c:434-589 | without a false start before the first delimiter, the ring's search changes nothing: the form is the one in the plain byte sequence |
| `Multipart.ParsePostMultipart` | reach_edukit/src/backfs/cgi/cgic.c:434-589 | the parser gives the form in the plain byte sequence unless there is a false start before its first delimiter; the parts behind the opening delimiter are always those of the plain sequence; and in every state the ring holds at most max(2, delimiter length - 1) bytes, below its capacity |
| `HeaderRoundTrip.HeaderLineKept` | reach_edukit/src/backfs/cgi/cgic.c:904-963 | a header line with any value is read back as written exactly when the value is not empty, starts with no white space, has no colon and no line end, and fits the buffer |
| `HeaderRoundTrip.ColonLost` | reach_edukit/src/backfs/cgi/cgic.c:904-963 | a value with one colon comes back as its two halves joined |
| `HeaderRoundTrip.EmptyValueGoesOn` | reach_edukit/src/backfs/cgi/cgic.c:932-939 | after an empty value the reader goes on behind all white space that follows, blank lines included |
| `HeaderRoundTrip.EmptyValueSwallows` | reach_edukit/src/backfs/cgi/cgic.c:932-939 | an empty value takes the first line of the body for its own |
| `HeaderRoundTrip.ColonDropped` | reach_edukit/src/backfs/cgi/cgic.c:904-963 | the value `a:b` comes back as `ab` |
| `HeaderRoundTrip.FieldRead` | reach_edukit/src/backfs/cgi/cgic.c:904-963 | a line of any length, with any line end of the three kinds, is read as its name without white space and its value without colons and the white space behind them, both cut to their buffers |
| `HeaderRoundTrip.LeadingColonKept` | reach_edukit/src/backfs/cgi/cgic.c:904-963 | a colon in front of the name is part of the name |
| `HeaderRoundTrip.TypeKeptIff` | reach_edukit/src/backfs/cgi/cgic.c:797-902 | a content type is kept whole exactly when it is empty, or starts with neither white space nor a quote, has no semicolon and fits the buffer |
| `HeaderRoundTrip.ParameterDropped` | reach_edukit/src/backfs/cgi/cgic.c:797-902 | `a/b; c` comes back as `a/b` |
| `HeaderRoundTrip.QuotedRead` | reach_edukit/src/backfs/cgi/cgic.c:818-834 | a quoted value ends at the second quote, and what stands between it and the next semicolon is dropped |
| `HeaderRoundTrip.ParameterRead` | reach_edukit/src/backfs/cgi/cgic.c:838-901 | a parameter in any spelling, its name in any letter case, white space around it, quoted or not, goes to its own buffer, cut to it; one nobody asked for is a store through null when there are buffers and is passed over when there are none |
| `HeaderRoundTrip.MalformedEnds` | reach_edukit/src/backfs/cgi/cgic.c:838-862 | text behind a semicolon that has no equals sign ends the reading of parameters |
| `HeaderBlock.LastValueIs` | reach_edukit/src/backfs/cgi/cgic.c:481-508 | the value of the last line with a name, letter case apart; none exactly when no line has it |
| `HeaderBlock.LinesRead` | reach_edukit/src/backfs/cgi/cgic.c:481-508 | for every list of header lines, in any order, letter case and form, and whatever follows: the head they leave depends on the last Content-Disposition and the last Content-Type only, and reading fails exactly when some disposition has a parameter nobody asked for |
| `HeaderBlock.HeadIsLast` | reach_edukit/src/backfs/cgi/cgic.c:481-508 | so is a whole header block, up to its blank line |
| `HeaderBlock.CutHead` | reach_edukit/src/backfs/cgi/cgic.c:481-508 | a stream that ends inside a header line: the lines before it count and nothing is left |
| `HeaderBlock.OtherLineIgnored` | reach_edukit/src/backfs/cgi/cgic.c:489-507 | a line of any other name, wherever it stands, makes no difference |
| `MultipartRoundTrip.DispositionRead` | reach_edukit/src/backfs/cgi/cgic.c:797-902 | the kind, the name and the file name come back from every wording: parameters in either order, names in any letter case, quoted or not, with white space around them |
| `MultipartRoundTrip.HeadRead` | reach_edukit/src/backfs/cgi/cgic.c:481-508 | name, file name and type come back from every header block whose last disposition and last type say them, whatever the other lines are |
| `MultipartRoundTrip.NoEarlierDelimiter` | reach_edukit/src/backfs/cgi/cgic.c:683-745 | no delimiter straddles the end of a body |
| `MultipartRoundTrip.BodyReadIff` | reach_edukit/src/backfs/cgi/cgic.c:683-775 | a body comes back exactly when it does not contain the delimiter |
| `MultipartRoundTrip.PartsRead` | reach_edukit/src/backfs/cgi/cgic.c:455-589 | every list of parts after a delimiter comes back, in order, in front of whatever follows them |
| `MultipartRoundTrip.RoundTrip` | reach_edukit/src/backfs/cgi/cgic.c:434-589 | parsing a rendered form, whatever its header lines and their order, letter case and spelling, yields the same names, file names, types and bodies in the same order, with the value length equal to the body length |
| `MultipartRoundTrip.UsualAnnounces` | reach_edukit/src/backfs/cgi/cgic.c:481-508 | the rendering with one line for the disposition and one for the type is among those covered |
| `MultipartRoundTrip.CutPartIff` | reach_edukit/src/backfs/cgi/cgic.c:519-542 | a part of form data is an input error exactly when no delimiter with two bytes behind it follows its header |
| `MultipartRoundTrip.CutForm` | reach_edukit/src/backfs/cgi/cgic.c:519-542 | a form cut off inside a body is an input error, with the entries before it |
| `MultipartRoundTrip.CutHeadFails` | reach_edukit/src/backfs/cgi/cgic.c:481-542 | a form cut off inside the header of a part of form data is an input error |
| `MultipartRoundTrip.UnaskedFaults` | reach_edukit/src/backfs/cgi/cgic.c:481-508 | a disposition with a parameter nobody asked for is a store through null, wherever it stands in the header |
| `MultipartRoundTrip.EndsEarly` | reach_edukit/src/backfs/cgi/cgic.c:470-479 | a form that ends right behind a delimiter is no error, with the entries before it |
| `MultipartRoundTrip.NoFormNoEntries` | reach_edukit/src/backfs/cgi/cgic.c:443-453 | a body in which no delimiter has two bytes behind it, and nothing else looks like the start of one, is an empty submission |
| `MultipartRoundTrip.OtherPartAddsNothing` | reach_edukit/src/backfs/cgi/cgic.c:509-512 | a part that is no form data adds nothing: reading goes on right behind its header lines |
| `MultipartRoundTrip.OtherPartEndsForm` | reach_edukit/src/backfs/cgi/cgic.c:455-512 | behind such a part with a body of one line without a colon the delimiter is taken for the end of the form, and what follows is lost |
| `MultipartRoundTrip.OtherPartPassed` | reach_edukit/src/backfs/cgi/cgic.c:455-512 | behind such a part with a body that looks like a header line the next part is read |
| `ContentType.FindBoundary` | reach_edukit/src/backfs/cgi/cgic.c:163-184 | the boundary has no white space and is at least ten bytes shorter than the content type |
| `ContentType.ParseRequest` | reach_edukit/src/backfs/cgi/cgic.c:144-184 | whatever the client sends as content type, the boundary meets the parser's conditions, so the ring stays below its capacity; without a false start the form is that of the plain body |
| `ContentType.BoundaryTaken` | reach_edukit/src/backfs/cgi/cgic.c:163-184 | the bytes up to white space behind the name of the boundary are taken, wherever it stands among the parameters and whatever the letter case of its name |
| `ContentType.BoundaryFoundIff` | reach_edukit/src/backfs/cgi/cgic.c:163-184 | a boundary announced behind any other parameters is found exactly when it has no white space and is followed by nothing or by white space |
| `ContentType.ParameterSwallowed` | reach_edukit/src/backfs/cgi/cgic.c:163-184 | a parameter right behind the boundary lends it its semicolon |
| `ContentType.LongBoundaryCut` | reach_edukit/src/backfs/cgi/cgic.c:144-154 | a content type that does not fit its buffer announces a shorter boundary |
| `ContentType.RequestRoundTrip` | reach_edukit/src/backfs/cgi/cgic.c:144-589 | a form rendered with a boundary and announced with it, behind any other parameters, in a content type that fits its buffer, comes back |
| `UrlForm.UnescapeChars` | reach_edukit/src/backfs/cgi/cgic.c:1081-1118 | the three-state machine, with every store inside the buffer of length + 1 bytes |
| `UrlForm.ScanName` | reach_edukit/src/backfs/cgi/cgic.c:987-1005 | the name up to the equals sign, or no pair |
| `UrlForm.ScanValue` | reach_edukit/src/backfs/cgi/cgic.c:1010-1027 | the value up to the ampersand or the end |
| `UrlForm.ParseFormInput` | reach_edukit/src/backfs/cgi/cgic.c:982-1077 | the entries of the query in order, unescaped, with the value's length and an empty file name and type |
| `UrlRoundTrip.MachineDecodes` | reach_edukit/src/backfs/cgi/cgic.c:1081-1118 | the machine undoes every encoding of a text, with hexadecimal digits of either case |
| `UrlRoundTrip.CutEscape` | reach_edukit/src/backfs/cgi/cgic.c:1081-1118 | a percent sign with fewer than two bytes behind it stands for nothing |
| `UrlRoundTrip.BadDigitsAreZero` | reach_edukit/src/backfs/cgi/cgic.c:1120-1147 | bytes that are no hexadecimal digits count as zero |
| `UrlRoundTrip.CutsQuery` | reach_edukit/src/backfs/cgi/cgic.c:982-1077 | cutting a joined query gives the pairs it was joined from, without a last name that has no equals sign |
| `UrlRoundTrip.QueryRead` | reach_edukit/src/backfs/cgi/cgic.c:982-1077 | every encoded list of pairs comes back in order, each text cut at its first NUL |
| `UrlRoundTrip.EntriesRead` | reach_edukit/src/backfs/cgi/cgic.c:1029-1077 | the entries of a query: attribute, value, the length of the value, and no upload |
| `UrlRoundTrip.RoundTrip` | reach_edukit/src/backfs/cgi/cgic.c:982-1118 | for every list of NUL-free pairs and every way to encode them, parsing returns the list in order |
| `UrlRoundTrip.EscapedEncodes` | reach_edukit/src/backfs/cgi/cgic.c:1120-1147 | every byte string has an encoding |
| `FormString.FromIsNormal` | reach_edukit/src/backfs/cgi/cgic.c:1437-1515 | the running counts of CR and LF replace every maximal burst by the larger count of line feeds, or by none |
| `FormString.NormalNoLonger` | reach_edukit/src/backfs/cgi/cgic.c:1437-1515 | normalising never lengthens |
| `FormString.NormalIdempotent` | reach_edukit/src/backfs/cgi/cgic.c:1437-1515 | normalising twice is normalising once, with line feeds kept and without |
| `FormLines.BurstNormal` | reach_edukit/src/backfs/cgi/cgic.c:1437-1500 | a burst of line ends becomes as many line feeds as it has carriage returns or line feeds, whichever are more, or none when newlines are dropped; what follows is normalised for itself |
| `FormLines.TextNormal` | reach_edukit/src/backfs/cgi/cgic.c:1437-1500 | text without line ends is kept as it is |
| `FormLines.LinesNormal` | reach_edukit/src/backfs/cgi/cgic.c:1437-1500 | lines joined by CR LF, by CR or by LF come back joined by LF, empty lines included |
| `FormLines.DroppedNormal` | reach_edukit/src/backfs/cgi/cgic.c:1437-1500 | without newlines exactly the line ends go |
| `FormLines.OneLineEnd` | reach_edukit/src/backfs/cgi/cgic.c:1437-1500 | a, CR, LF, b comes back with one line feed |
| `FormString.EntryString` | reach_edukit/src/backfs/cgi/cgic.c:1437-1515 | exactly the first max - 1 bytes of the normal form and a NUL; truncation reported exactly when the normal form is longer, emptiness exactly when it is empty |
| `FormString.StringMultiple` | reach_edukit/src/backfs/cgi/cgic.c:1361-1423 | the normal form of every value with the name, each read as a C string, in order, never truncated |
| `Environment.WriteEnvironment` | reach_edukit/src/backfs/cgi/cgic.c:1892-2036 | the saved text, upload bytes copied in pieces |
| `Environment.ReadEnvironment` | reach_edukit/src/backfs/cgi/cgic.c:2042-2276 | wrong version, short file and memory failure each where the source reports them, otherwise the environment, and which entries without upload keep an unset byte for their temporary name |
| `Environment.OpenFile` | reach_edukit/src/backfs/cgi/cgic.c:1296-1322 | the upload of the first entry with the name |
| `EnvironmentRoundTrip.RoundTrip` | reach_edukit/src/backfs/cgi/cgic.c:1892-2276 | reading a saved environment restores all twenty strings, the content length and every entry with its upload |
| `EnvironmentRoundTrip.OtherVersionRefused` | reach_edukit/src/backfs/cgi/cgic.c:2056-2065 | a file that starts with a string is refused as one of another version exactly when that string is not the version |
| `EnvironmentRoundTrip.DistinctNamesFindable` | reach_edukit/src/backfs/cgi/cgic.c:1967-2012 | with distinct names every upload is the one found under its name |
| `EnvironmentRoundTrip.LooseIff` | reach_edukit/src/backfs/cgi/cgic.c:2210-2216 | an entry without upload comes back as one exactly when the byte allocated for its temporary name happens to be NUL |
| `EnvironmentRoundTrip.RestoredIffFindable` | reach_edukit/src/backfs/cgi/cgic.c:1892-2276 | the environment comes back exactly when each upload is the one found under its entry's name and those bytes are NUL, provided an upload that differs from the one found is neither its prefix nor the other way round |
| `EnvironmentRoundTrip.DifferentLengthsLost` | reach_edukit/src/backfs/cgi/cgic.c:1967-2012 | two uploads of different lengths under one name are not restored |
| `EnvironmentRoundTrip.PrefixComesBack` | reach_edukit/src/backfs/cgi/cgic.c:1967-2012 | without that proviso the equivalence fails: `xy` and then `x` come back by chance |
| `EnvironmentRoundTrip.RestoredIsShadowed` | reach_edukit/src/backfs/cgi/cgic.c:1892-2276 | where the lengths match, every entry gets the upload of the first of its name |
| `EnvironmentRoundTrip.DuplicateNameLosesUpload` | reach_edukit/src/backfs/cgi/cgic.c:1967-2012 | two uploads of one length under one name: the second comes back with the bytes of the first |
| `EnvironmentRoundTrip.TruncatedRestore` | reach_edukit/src/backfs/cgi/cgic.c:2042-2276 | for every place to cut a saved file: input error in the head; unnoticed between entries and inside a name, keeping exactly the entries before; out of memory inside the fields behind a name; input error inside an upload |
| `EnvironmentRoundTrip.CutUnnoticed` | reach_edukit/src/backfs/cgi/cgic.c:2139-2144 | cut three bytes behind its head, a request with one field comes back with none |
| `SavedForm.QueryRestored` | reach_edukit/src/backfs/cgi/cgic.c:982-2276 | whatever the query and however often its names repeat, the entries parsed from it survive saving and restoring |
| `SavedForm.SubmittedValuesRead` | reach_edukit/src/backfs/cgi/cgic.c:982-1515 | what an application reads under a name is the normal forms of the values submitted under it, in order |
| `HostInts.LittleEndianSound` | reach_edukit/src/backfs/cgi/cgic.c:2031-2036 | four bytes, low byte first, represent every int |
| `RecorderThread.Recorder.Turn` | reach_edukit/src/room/rec/record.c:116-343 | one turn of the recorder loop: new state, frame written, report sent |
| `RecorderThread.RecordProcess` | reach_edukit/src/room/rec/record.c:79-350 | the loop writes and reports what the transition system does over the whole run |
| `RecorderReports.ReportSays` | reach_edukit/src/room/rec/record.c:279-326 | in every run a turn reports exactly when it writes video; the report has the stamp in whole seconds, or zero when the muxer took nothing, the bytes of all frames written so far, counted from the events, and the frame's flag |
| `RecorderReports.WriteSays` | reach_edukit/src/room/rec/record.c:221-283 | in every run a frame goes to its own track, audio and I-frames marked |
| `RecorderReports.ReportsListed` | reach_edukit/src/room/rec/record.c:312-343 | the reports that reach the queue are those of exactly the turns whose send succeeds, in order |
| `RecorderReports.WritesListed` | reach_edukit/src/room/rec/record.c:213-283 | the frames written are those of exactly the writing turns, in order |
| `RecorderTiming.StepMovesOn` | reach_edukit/src/room/rec/record.c:139-321 | every turn keeps both clocks consistent, never decreases sizes and moves a written track strictly on |
| `RecorderTiming.StampsIncrease` | reach_edukit/src/room/rec/record.c:213-277 | in every run the stamps of each track strictly increase, whatever the source clock does |
| `RecorderTiming.GateIsFlags` | reach_edukit/src/room/rec/record.c:116-211 | the two flags say exactly whether an I-frame has come since the last pause |
| `RecorderTiming.WrittenIffOpen` | reach_edukit/src/room/rec/record.c:116-214 | in every run a frame is written exactly when an I-frame has come since the start and the last observed pause |
| `RecorderTiming.FirstVideoIsIFrame` | reach_edukit/src/room/rec/record.c:116-214 | the first video frame written after the start or a pause is an I-frame |
| `RecorderTiming.RunBounded` | reach_edukit/src/room/rec/record.c:139-277 | the invariant that ties the thread's clock to the account of stretches and pauses |
| `RecorderTiming.StampMeasuresActiveTime` | reach_edukit/src/room/rec/record.c:139-277 | with rising video ticks a video stamp lies between the total active time and that total plus the number of observed pauses |
| `RecorderSound.RunKept` | reach_edukit/src/room/rec/record.c:139-277 | the invariant that ties the audio clock to the account of the sound recorded |
| `RecorderSound.AudioStampExactIff` | reach_edukit/src/room/rec/record.c:139-277 | with rising audio ticks an audio stamp is the sound recorded so far and the excess of stale stretches, and exactly that sound if and only if none was stale: no audio frame met between the stretch before and the opening I-frame, although sound had been recorded |
| `RecorderSound.StaleSoundDrifts` | reach_edukit/src/room/rec/record.c:139-277 | after a pause in which no frame is met, sound is stamped 6000 beside a picture stamped 1 |
| `SplitProtocol.Controller.OnReport` | reach_edukit/src/room/rec/record.c:1361-1411 | the report is stored, then the two size tests and the handshake variables; a split lists what is stored and clears it |
| `SplitProtocol.RecordSends` | reach_edukit/src/room/rec/record.c:296-343 | a turn puts a report into the queue exactly when it writes video and the send succeeds, with the stream, the segment and the bytes of the thread so far |
| `SplitProtocol.RecordKeeps` | reach_edukit/src/room/rec/record.c:241-343 | a recorder's turn keeps the queue ordered, sizes growing, each report placed in its segment |
| `SplitProtocol.ReceiveKeeps` | reach_edukit/src/room/rec/record.c:1398-1404 | receiving keeps the invariant, and at a split everything still queued by the stream that caused it is over the limit |
| `SplitProtocol.RestartKeeps` | reach_edukit/src/room/rec/record.c:1411-1440 | once all threads are joined, the restart keeps the invariant with the handshake cleared |
| `SplitProtocol.RunKeeps` | reach_edukit/src/room/rec/record.c:1201-1440 | the invariant holds in every state of every run |
| `SplitProtocol.SplitsAreCurrent` | reach_edukit/src/room/rec/record.c:1398-1440 | in every run, with any losses, every split is started by an over-limit report of the segment being recorded, never by a leftover of a closed one |
| `SplitProtocol.ArmedIff` | reach_edukit/src/room/rec/record.c:1398-1440 | the controller refuses to split exactly while no under-limit report of the stream that caused the last split has been received since the restart |
| `SplitWhen.SplitterRemembered` | reach_edukit/src/room/rec/record.c:1398-1440 | the controller remembers the stream whose report started the last split |
| `SplitWhen.SplitsIff` | reach_edukit/src/room/rec/record.c:1398-1440 | in every run a received report starts a split exactly when it is one of at least the limit on a recorder's file, from any stream, and there has been no split yet or an under-limit report has come from the stream that started the last one since the restart after it |
| `SplitListing.LatestIff` | reach_edukit/src/room/rec/record.c:1361-1411 | a stream's latest report is of the segment being recorded exactly when one of that segment has been received |
| `SplitListing.ListedCurrentIff` | reach_edukit/src/room/rec/record.c:1361-1411 | in every run a split lists a stream's current file exactly when a report of the current segment has been received from it; otherwise nothing, or a leftover of an earlier segment |
| `SplitListing.LeftoverListedAgain` | reach_edukit/src/room/rec/record.c:1361-1411 | a run in which one file is listed at two splits |
| `SplitTimes.CheckSplitTotalTime` | reach_edukit/src/room/rec/record.c:1184-1199 | every active stream gets the common time, in place, the others and what lies behind stay |
| `SplitTimes.LevelsToShortestIff` | reach_edukit/src/room/rec/record.c:1184-1199 | the common time is the shortest active one exactly when the first stream is active or none is; otherwise every time is wiped out |
| `SplitTimes.LevelledIs` | reach_edukit/src/room/rec/record.c:1184-1199 | with an active first stream every active stream gets the shortest active time, and an idle one stays idle |
| `SplitTimes.IdleFirstWipes` | reach_edukit/src/room/rec/record.c:1184-1199 | times 0 and 5 become 0 and 0 |
| `BlueScreen.RunsAppend` | reach_edukit/src/room/rec/record.c:1375-1394 | a report opens, extends or ends a maximal blue run and leaves earlier runs alone |
| `BlueScreen.Overwritten` | reach_edukit/src/room/rec/record_xml.c:207-211 | the final node, written where the provisional one begins, leaves no byte of it |
| `BlueScreen.EndKeeps` | reach_edukit/src/room/rec/record.c:1386-1393 | ending a run leaves the file a list of finished nodes |
| `BlueReading.NodeReadBack` | reach_edukit/src/room/rec/record_xml.c:15 | a node says when its interval starts and when it ends |
| `BlueReading.NodesReadBack` | reach_edukit/src/room/rec/record_xml.c:207-211 | reading the file back gives its intervals in order and nothing else |
| `BlueScreen.BlueTracker.OnReport` | reach_edukit/src/room/rec/record.c:1375-1394 | after every report the file is the list with one node per maximal blue run so far, the open one with end 0 |
| `BlueScreen.BlueTracker.OnClose` | reach_edukit/src/room/rec/record.c:1327-1337 | at close every run has its end |
| `Decimal.DigitsMonotone` | reach_edukit/src/room/rec/record_xml.c:13-19 | a larger number is never shorter in decimal |
| `IndexFile.NodeRead` | reach_edukit/src/room/rec/record_xml.c:13-19 | the scan format reads a written node: its time, and its name together with the closing tag |
| `IndexFile.SizesRead` | reach_edukit/src/room/rec/record_xml.c:13-14 | the scan format finds width and height in their places |
| `IndexFile.UnsizedLeftOut` | reach_edukit/src/room/rec/record_xml.c:197-205 | a report leaves no trace exactly when its width or its height is zero |
| `IndexFile.Info2Index` | reach_edukit/src/room/rec/record_xml.c:103-145 | the loop over the info file, with its stale name and image buffers |
| `IndexFile.InfoListed` | reach_edukit/src/room/rec/record_xml.c:103-145 | the index lists the written reports in order, each name laid over the image before it |
| `IndexFile.IndexUndoesInfoIff` | reach_edukit/src/room/rec/record_xml.c:103-205 | for names that fit the buffer and hold no white space, NUL or `<`: the index lists exactly the written nodes, same time and image, exactly when no name is shorter than the one before it |
| `IndexFile.ShorterNameGarbled` | reach_edukit/src/room/rec/record_xml.c:103-145 | `images/9.jpg` after `images/10.jpg` is listed as `images/9.jpgg` |
| `PictureThread.JpegRecordProcess` | reach_edukit/src/room/rec/record.c:481-658 | the loop numbers the pictures it takes and reports those the queue accepts |
| `PictureThread.NameOf` | reach_edukit/src/room/rec/record.c:585-637 | the reported name is a constant stem and the number, wherever the directory has its first images/ |
| `PictureThread.NumberIs` | reach_edukit/src/room/rec/record.c:533-614 | the next number is one more than the pictures met outside pauses, up to 513 |
| `PictureThread.PictureReported` | reach_edukit/src/room/rec/record.c:533-637 | a picture is reported exactly when it comes before the close and outside a pause, fewer than 512 came so before it and the queue takes it; with its size and time, and named by that count |
| `PictureThread.ReportsNumbered` | reach_edukit/src/room/rec/record.c:533-637 | in every run, whichever reports are lost, the reported numbers rise and stay below 513 |
| `PictureThread.RecorderIndexExact` | reach_edukit/src/room/rec/record.c:481-658 | in every run of the picture thread the index lists exactly the accepted pictures that have a size, in order, with their times and names |
| `Md5.CountAdds` | reach_edukit/src/room/rtsp/our_md5.c:257-261 | two 32-bit words with a carry count 8 times the bytes modulo 2^64 |
| `Md5.CountIndex` | reach_edukit/src/room/rtsp/our_md5.c:254-255 | the low word gives the position in the block |
| `Md5.FirstBlock` | reach_edukit/src/room/rtsp/our_md5.c:263-268 | the block completed by an update is the next one of the message |
| `Md5.Context.Update` | reach_edukit/src/room/rtsp/our_md5.c:249-281 | state, count and buffer describe the bytes fed so far: whole blocks folded, bit count modulo 2^64, tail at the front of the buffer |
| `Md5.Context.Final` | reach_edukit/src/room/rtsp/our_md5.c:293-318 | the digest of all bytes fed, and a wiped context |
| `Md5.EncodeWords` | reach_edukit/src/room/rtsp/our_md5.c:98-113 | little-endian bytes of every word |
| `Md5Rfc.EncodeAt` | reach_edukit/src/room/rtsp/our_md5.c:98-113 | byte j of word i of an encoding has weight 256^j |
| `Md5Rfc.InitialBytes` | reach_edukit/src/room/rtsp/our_md5.c:228-237 | the initial state is the bytes 01 23 45 67, 89 ab cd ef and these backwards |
| `Md5Rfc.PaddedIff` | reach_edukit/src/room/rtsp/our_md5.c:293-309 | the padded message is the only string that is the message, 80, zeros up to 56 modulo 64, and eight bytes whose little-endian value is the number of bits modulo 2^64 |
| `Md5.DigestOfChunks` | reach_edukit/src/room/rtsp/our_md5.c:228-318 | however a message is cut into updates, the digest is the one-shot digest of the concatenation |
| `Md5Rfc.ConcatAppend` | reach_edukit/src/room/rtsp/our_md5.c:249-281 | chunks are concatenated in the order they are fed |
| `Md5Rfc.ChainExists` | reach_edukit/src/room/rtsp/our_md5.c:249-281 | every padded message has its chain of states |
| `Md5Rfc.DigestIff` | reach_edukit/src/room/rtsp/our_md5.c:228-318 | the digest is exactly the 16 bytes whose four words, low byte first, are the state to which compressing the blocks of the padded message one after the other leads |
| `Md5Hex.ParsedRendered` | reach_edukit/src/room/rtsp/our_md5hl.c:19-36 | the hexadecimal text determines the digest |
| `Md5Hex.RenderedAt` | reach_edukit/src/room/rtsp/our_md5hl.c:19-36 | two characters a byte, that of the high half first, from the table of lower-case digits |
| `Md5Hex.End` | reach_edukit/src/room/rtsp/our_md5hl.c:19-36 | 32 digits of the digest and a NUL |
| `Md5Hex.File` | reach_edukit/src/room/rtsp/our_md5hl.c:38-55 | the digest of the file, whatever sizes the reads return |
| `Md5Hex.Data` | reach_edukit/src/room/rtsp/our_md5hl.c:57-64 | the digest of the data as text |
| `Hmac.FillPad` | reach_edukit/src/md5/md5lib.c:311-392 | the key, zero-filled to 64 bytes and combined with the pad byte |
| `Hmac.HmacMd5` | reach_edukit/src/md5/md5lib.c:311-392 | H(K xor opad, H(K xor ipad, text)) for every key length, longer keys replaced by their digest |
| `Md5Rfc.HmacIs` | reach_edukit/src/md5/md5lib.c:311-392 | with the zero-filled key, or its digest beyond 64 bytes, combined with 36 within and 5c without |
| `Hmac.FileKey` | reach_edukit/src/md5/md5lib.c:419-493 | the same over a file, whatever sizes the reads return |
| `Hmac.FileKeyLen` | reach_edukit/src/md5/md5lib.c:524-607 | the same over exactly the first min(uiLen, file length) bytes |
| `Rsa.ChunksRoundTrip` | reach_edukit/src/tools/rsa/rsa.c:106-207 | decrypting the chunked encryption returns the message |
| `Rsa.SizeIsBlocks` | reach_edukit/src/tools/rsa/rsa.c:106-146 | the encryption of n bytes has ceil(n / (k - 11)) blocks of k bytes |
| `Rsa.BlocksInsideIff` | reach_edukit/src/tools/rsa/rsa.c:106-142 | every block is written inside the output exactly when ceil(n / (k - 11)) blocks of k bytes fit it |
| `Rsa.TestImpliesRoomIff` | reach_edukit/src/tools/rsa/rsa.c:106-112 | the parameter test alone ensures that, for every output length, exactly when the encryption fits the 128 bytes the test insists on |
| `Rsa.EncryptTestAdmitsShortBuffer` | reach_edukit/src/tools/rsa/rsa.c:106-112 | 118 bytes need two blocks of 128, and a buffer of 128 is accepted |
| `Rsa.RoomIsAccepted` | reach_edukit/src/tools/rsa/rsa.c:106-112 | an output of at least 128 bytes with room for the encryption is never refused |
| `Rsa.RsaEncrypt` | reach_edukit/src/tools/rsa/rsa.c:83-146 | OpenSSL's code for a key that does not load, -1 exactly where the parameter test refuses, a write behind the output exactly where the blocks do not fit, otherwise the encryption and zeros |
| `Rsa.RoomForBlocks` | reach_edukit/src/tools/rsa/rsa.c:173-207 | the cross-multiplied test leaves room for every block of every input |
| `Rsa.FourfoldAccepted` | reach_edukit/src/tools/rsa/rsa.c:173-180 | the callers' outputs of four times the input are refused exactly when the input is less than a block |
| `Rsa.RsaDecrypt` | reach_edukit/src/tools/rsa/rsa.c:149-207 | -1 exactly where the parameter test refuses; after a refused block OpenSSL's code, the text before it and zeros, with the length not set; a read behind the input at a partial block; otherwise the plain text |
| `Registration.FrameFields` | reach_edukit/src/tools/rsa/srv_build_key.c:74-95 | where the fields of a framed record lie, whatever follows it in the buffer |
| `Registration.WriteClientReg` | reach_edukit/src/tools/rsa/cli_reg.c:59-128 | the registration file: refused, written past the buffer, or the encrypted record |
| `Registration.UnloadedKeyGivesZeros` | reach_edukit/src/tools/rsa/cli_reg.c:79-128 | with a key that cannot be loaded the registration file holds only zeros |
| `Registration.BuildDeviceKey` | reach_edukit/src/tools/rsa/srv_build_key.c:60-184 | the device key from whatever the decrypted buffer holds: only -1 stops the server, lengths are not tested, negative ones fail to allocate |
| `Registration.CheckHardware` | reach_edukit/src/tools/rsa/cli_verify.c:66-121 | the setup data from whatever the decrypted buffer holds: only -1 stops the client, the lengths must add up to the reported one, 256 bytes are compared |
| `Registration.Exchange` | reach_edukit/src/tools/rsa/cli_verify.c:9-121 | the client registers, the server builds, the client verifies: with room for both encryptions exactly the setup data on the same hardware and nothing on any other |
| `Registration.ClientBufferSuffices` | reach_edukit/src/tools/rsa/cli_reg.c:79-128 | four times the record's length holds its encryption |
| `Registration.ServerRanges` | reach_edukit/src/tools/rsa/srv_build_key.c:154-184 | for a 1024-bit pair: built exactly up to 204 bytes of setup data, refused exactly where the parameter test notices, written past the buffer in between |
| `Registration.ServerRangesOfKey` | reach_edukit/src/tools/rsa/srv_build_key.c:154-184 | with the 138 bytes of such a public key: built up to 204, past the buffer from 205 to 339, refused from 340 on |
| `Registration.SetupTooLong` | reach_edukit/src/tools/rsa/srv_build_key.c:154-184 | 205 and 340 bytes of setup data |
| `Registration.RoomForExchangeIff` | reach_edukit/src/tools/rsa/srv_build_key.c:154-184 | with such keys the exchange has its room exactly up to 204 bytes of setup data |
| `Registration.BrokenKeyUnnoticedIff` | reach_edukit/src/tools/rsa/cli_verify.c:73-121 | in every key with a refused block, the block goes unnoticed exactly when what came before it, filled up with zeros to four times the key's length, holds two lengths that add up to that size, the second of which allocates, and the right hardware |
| `Registration.BrokenKeyAccepted` | reach_edukit/src/tools/rsa/cli_verify.c:73-121 | such a key: lengths 256 and 1784 in three good blocks, the fourth refused |
| `Registration.DamagedKeyNoticed` | reach_edukit/src/tools/rsa/cli_verify.c:73-121 | in a key the server built, a refused block is always noticed |
| `Registration.DamagedRegistration` | reach_edukit/src/tools/rsa/srv_build_key.c:60-128 | in a registration a refused block is noticed exactly among the first three; after that the server goes on with a public key whose end is zeros |
| `Screen.WalkedIs` | reach_edukit/src/enc/text/screen.h:34-79 | from an aligned column the pointer steps reach every pixel's own byte |
| `Screen.FillIsPixelsIff` | reach_edukit/src/enc/text/screen.c:26-61 | on every buffer and rectangle the fill leaves what the pixel setter would, exactly when the start column is a multiple of four for two-bit pixels, even or with equal stripes otherwise, and 16-bit lines have even length |
| `Screen.UnalignedDiffers` | reach_edukit/src/enc/text/screen.c:26-61 | column 1 of a four-byte YUV422 buffer gets the even value instead of the odd one |
| `Screen.SetPixelPtr` | reach_edukit/src/enc/text/screen.h:134-178 | the bytes one store changes, two-bit packing included |
| `Screen.PixelSetIs` | reach_edukit/src/enc/text/screen.h:134-237 | which byte of a pixel lies where: the two halves of an 8-bit buffer, the low byte of a 16-bit pixel first, four two-bit pixels in a byte from the low end up |
| `Screen.StoredAt` | reach_edukit/src/enc/text/screen.h:134-178 | a store shows its value at its own pixel and leaves pixels apart from it alone |
| `Screen.ScreenFill` | reach_edukit/src/enc/text/screen.c:26-61 | the nested loops are the pointer walk over the rectangle |
| `Screen.FillIsPixels` | reach_edukit/src/enc/text/screen.h:184-237 | the walk equals the pixel setter applied to every pixel of the rectangle; with equal stripes, as when clearing, from any column of the 8- and 16-bit spaces |
| `Screen.FillShows` | reach_edukit/src/enc/text/screen.c:26-61 | after the fill every pixel of the rectangle shows its stripe and every other pixel is unchanged |

## Where code and documentation differ

- A comment in `main` calls the boundary "the one we're interested in" of the content type's parameters; parameters in
  front of it are skipped, and quotes around it become part of it. The model follows the code.
- A part that is not form data is not skipped to its end: reading goes on right behind its headers, so its body is
  read as header lines. `Multipart.PartsFrom` does the same; `OtherPartEndsForm` and `OtherPartPassed` say what
  becomes of the parts behind it.

## Left out

- OpeningIsLeftmost: one way. After a false start bytes do come out in another order (`OpeningReordersIff`), but the outcome can still agree by coincidence, for instance when the exchanged bytes are equal.
- RestoredIffFindable: has the proviso on prefixes; without it the equivalence is false (`PrefixComesBack`), because a longer upload found under the name can end with bytes that read as the end of the file.
- BuildDeviceKey: outcomes in which memory outside a buffer is read or written are named as such, and nothing is said about what follows.
- ParsePostMultipart: running out of memory, temporary files that cannot be created and write errors are not modelled; buffer doubling is a growing sequence.
- DecomposeValue: the store through null for an unknown parameter is an outcome of its own, after which nothing more is said.
- The entries whose temporary name keeps an unset byte other than NUL are listed; what cgiFormFileOpen then does with the memory behind that byte is not modelled.
- The characters' signedness: percent escapes above 127 are plain byte values, and `isspace` on negative values is not considered.
- The MD5 compression function and its `Decode` are any function on states and blocks; the digests of `md5lib.c` as text are left out (`our_md5hl.c` is in).
- Info2Index: the 128- and 256-byte buffers are large enough for the recorder's names, which `Scannable` bounds.
- A block that RSA decryption refuses is taken to leave the output untouched, and OpenSSL's error codes are taken to differ from -1.
- Failures to start a new recorder segment, preview images, the clock behind pictures' times, and the closing of a whole course beyond its blue files.
- Overlay pixel writes and colour conversion; only the plain store of the fill is modelled.
- Sizes, stamps and course times beyond 32 bits; byte totals are taken not to wrap.
- Key generation, hardware queries, key files, and the length in front of each key file.
- Sockets, tasks, semaphores, cookies, numeric form getters, HTML and XML output, which surround the modelled parts.
