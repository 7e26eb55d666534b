# XsgLib core in Dafny

XsgLib is a C# library that drives Agilent X-Series signal generators (MXG,
EXG) over SCPI through a VISA session. This project models three parts of it
and proves properties about them.

- **Class `Instrument`** (src/Instrument.cs). This is the session state: the
  data format and the `FORM:DATA` command that negotiates it, and the bus
  timeout with its raise-then-restore discipline in
  `WaitForOperationComplete(timeoutMs)` and `ReadString(timeoutMs)`. It also
  covers the choice between a plain-string write and an IEEE-block write in
  `ScpiCommand` and `ScpiQuery`, the read `ReadBlock` picks for each format,
  the `*IDN?` parser behind `DownloadHeader` (the query of section 10.14 of
  IEEE 488.2), and `CleanScpiQuery`.
- **Class `MXG`** (src/MXG.cs). This covers the catalog lookup `IsInCatalog`
  and the queries built on it (`HasWaveform`, `IsInVolatileMemory`,
  `IsInNonvolatileMemory`, `IsWaveformLoaded`), plus `LoadWaveform`,
  `GetMemoryCatalog` and the front end of `DownloadArbFile`.
- **`FileUtil.MergePath`** (src/FileUtil.cs). This is path joining with
  exactly one separator.

The VISA session is abstract, and it is the same in every file.
- Every call the library makes into the formatted-I/O object is appended to
  the instrument's `log` as an `IoEvent`. The event records the operation and
  the timeout in force while it ran.
- The device's answers are a script of `Reply` values in `replies`. A read gets
  the first queued answer when that answer's latency is within the timeout.
  Otherwise it fails with a bus timeout and consumes nothing.
- A write or read on an instrument that was never connected fails with
  `NotConnected`, as the source's null `io` would.
- Exceptions become `Outcome`/`Result` values. The `Error` datatype names the
  exception kinds the code can raise.

Module layout:
- `outcomes.dfy`: the error, result and option datatypes.
- `strings.dfy`: the .NET string operations the code calls, with their
  characterising lemmas. These are `Trim`, `TrimStart`, `TrimEnd`, `Split`
  (with `RemoveEmptyEntries`), `Replace`, `Contains`, `IndexOf`, `ToLower`,
  `ToUpper`, `long.Parse` and `Length`, which counts UTF-16 code units.
- `transport.dfy`: the abstract VISA session.
- `instrument.dfy`: class `Instrument`.
- `mxg.dfy`: the MXG operations, as methods taking the `Instrument` they act on.
- `fileutil.dfy`: `MergePath`.

Three behaviours of the code are kept as written, although a reader might expect otherwise:
- `WaitForOperationComplete(timeoutMs)` and `ReadString(timeoutMs)` have no
  try/finally. After a failed read the raised timeout stays in force. The
  contracts say so: the old timeout comes back only on success.
- `DownloadHeader` assigns the four `IDN` fields one after another. An answer
  with two or three fields therefore updates the first fields before the index
  error. `idn == AssignIdn(old(idn), IdnFields(reply))` states exactly which
  fields change.
- The `DataFormat` setter stores the new format before sending the command.
  It is stored even when the send fails.

## Model

| member | source | states |
|---|---|---|
| Instruments.Instrument.constructor | src/Instrument.cs:58 | A new instrument is not connected, its format is ASCII, its identification is empty, and it has made no call yet |
| Instruments.Instrument.Connect | src/Instrument.cs:86-102 | The address is always stored. When the address opens, the session is open and the timeout is 2000 ms. Otherwise the result is the connect error carrying the address, and the timeout is unchanged |
| Instruments.Instrument.GetTimeout | src/Instrument.cs:33-48 | The getter returns the session timeout, or fails when no session is attached |
| Instruments.Instrument.SetTimeout | src/Instrument.cs:39-42 | The setter changes only the timeout, and only on an attached session |
| Instruments.Instrument.SetDataFormat | src/Instrument.cs:58-68 | The format is stored whatever happens, then exactly one plain write of `FormatCommand(value)` is made, under the current timeout |
| Instruments.FormatArgumentOfName | src/Instrument.cs:65 | Replacing `_` with `,` in the enum names gives ASCII, INT,32, REAL,32 and REAL,64 |
| Instruments.FormatCommand | src/Instrument.cs:65-66 | The command built from the enum name is `FORM:DATA ` followed by the argument that selects that format (proved from FormatArgumentOfName). FormatCommandInjective shows no two formats share a command |
| Instruments.FormatArgumentInjective | src/Instrument.cs:65 | Distinct formats have distinct arguments, the step FormatCommandInjective needs so that the generator can tell the requested formats apart |
| Instruments.FormatCommandInjective | src/Instrument.cs:64-66 | Two formats send the same command if and only if they are the same format |
| Instruments.WriteOp | src/Instrument.cs:200-206 | The write carries the command. It is a block write exactly when data is present, and then it carries exactly the given bytes |
| Instruments.QueryRead | src/Instrument.cs:218-224 | The read after a query's write: a string read exactly when there is no data or the format is ASCII, and with data the read ReadBlock makes |
| Instruments.Instrument.Send | src/Instrument.cs:200-206 | The `io.WriteString`/`io.WriteIEEEBlock` call: on an open session it passes and appends exactly that write, under the current timeout, to the log. On a closed one it fails with NotConnected and logs nothing |
| Instruments.Instrument.ScpiCommand | src/Instrument.cs:200-206 | One write, a block exactly when there is data, appended to the log. Nothing else changes |
| Instruments.Instrument.ScpiWriteString | src/Instrument.cs:208-211 | One plain-string write of the command |
| Instruments.Instrument.ScpiWriteIeeeBlock | src/Instrument.cs:213-216 | One block write of the command and its bytes |
| Instruments.ReadResult | src/Instrument.cs:252-279 | A read fails with NotConnected on a closed session. On an open one it succeeds exactly when an answer arrives within the timeout |
| Instruments.ReadsFollowFormat | src/Instrument.cs:252-274 | ReadBlock and ReadBinary make a string read only in ASCII. Otherwise they read the same element type: I4, R4 or R8 |
| Instruments.BlockRead | src/Instrument.cs:254-261 | The read ReadBlock makes per format. ReadsFollowFormat shows it is a string read exactly in ASCII and a block of the format's element type otherwise |
| Instruments.NumberRead | src/Instrument.cs:266-273 | The read ReadBinary makes per format. ReadsFollowFormat shows it is a string read exactly in ASCII and a number read of the element type BlockRead uses otherwise |
| Instruments.Instrument.ReadBlock | src/Instrument.cs:252-262 | Exactly one read, of the kind `BlockRead(dataFormat)` picks: I4, R4 or R8 blocks, or a string in ASCII. The format and the timeout are untouched |
| Instruments.Instrument.ReadBinary | src/Instrument.cs:264-274 | Exactly one number read of the kind the format picks, or a string read in ASCII |
| Instruments.Instrument.Fetch | src/Instrument.cs:276-279 | The `io.ReadString` call and its kin: on an open session it logs the read and returns what Receive gives, consuming the answer Remaining says. On a closed one it fails with NotConnected and changes nothing |
| Instruments.Instrument.ReadString | src/Instrument.cs:276-279 | One string read that returns the first queued answer, or a bus timeout |
| Instruments.RaisedTimeout | src/Instrument.cs:189-192 | The timeout in force is the larger of the current and requested ones, so it is never lowered |
| Instruments.Instrument.ReadStringWithin | src/Instrument.cs:281-294 | Exactly one string read, under `max(old, timeoutMs)`, returning exactly what was read. The old timeout comes back after a successful read. The timeout never decreases |
| Instruments.Instrument.WaitForOperationComplete | src/Instrument.cs:181-185 | One `*OPC?` write, then one ReadBinary read under the same timeout. The result is a pass exactly when the answer arrives in time |
| Instruments.Instrument.WaitForOperationCompleteWithin | src/Instrument.cs:187-198 | Both calls run under `max(old, timeoutMs)`. The original timeout is restored on success and kept raised on failure. The timeout never decreases, and the only I/O is the `*OPC?` write and one read |
| Instruments.Instrument.ScpiQueryString | src/Instrument.cs:226-230 | One plain write, then one string read whose answer is returned |
| Instruments.Instrument.ScpiQueryIeeeBlock | src/Instrument.cs:232-240 | The write ScpiCommand would make, then exactly the read ReadBlock makes for the current format |
| Instruments.Instrument.ScpiQuery | src/Instrument.cs:218-224 | Without data: a string write and a string read. With data: a block write and ReadBlock's read, whose non-string answer fails the conversion to string. Exactly one read follows the write |
| Instruments.CleanScpiQuery | src/Instrument.cs:104-107 | The result is a contiguous piece of the input. Only quotes, spaces, line ends and white space are cut, and only from the two ends. The result neither starts nor ends with white space. CleanScpiQueryQuoted and CleanScpiQueryKeeps give the exact result when the text's own first and last characters are neither a quote, a space, a line end nor white space |
| Instruments.CleanScpiQueryQuoted | src/Instrument.cs:104-107 | A quoted answer followed by a newline comes back as the text between the quotes, when that text is non-empty and its first and last characters are neither a quote, a space, a line end nor white space |
| Instruments.CleanScpiQueryKeeps | src/Instrument.cs:104-107 | Non-empty text whose first and last characters are neither a quote, a space, a line end nor white space is unchanged |
| Instruments.IdnFields | src/Instrument.cs:132-137 | The answer yields one field more than it has commas |
| Instruments.IdnFieldArray | src/Instrument.cs:132-137 | The loop over the split array leaves field 0 as it is and removes every space from fields 1 onward, in place |
| Instruments.ParseIdn | src/Instrument.cs:132-142 | Identification succeeds exactly when the answer has at least three commas (four fields). Otherwise it is the index error. ParseIdnFields, ParseIdnOfFields and ParseIdnIgnoresExtraFields give the fields it yields |
| Instruments.ParseIdnFields | src/Instrument.cs:136-142 | Company is field 0 verbatim. Model, serial and firmware are fields 1 to 3 with every space removed and no other character changed |
| Instruments.AssignIdnWhole | src/Instrument.cs:139-142 | A successful parse replaces all four fields, whatever they held |
| Instruments.AssignIdn | src/Instrument.cs:139-142 | The four assignments in order, as far as the fields reach. AssignIdnWhole shows a parse that succeeds replaces all four fields, and DownloadHeader states which fields a short answer changes |
| Instruments.ParseIdnIgnoresExtraFields | src/Instrument.cs:132-142 | Fields after the fourth make no difference |
| Instruments.ParseIdnOfFields | src/Instrument.cs:132-142 | Four comma-free fields joined by commas parse back into those fields, spaces removed from the last three |
| Instruments.ParseIdnCommaSpace | src/Instrument.cs:123-127 | An answer in the `company, model, serial, firmware` layout, fields after ", " as an N5182A gives them, parses into exactly those four fields |
| Instruments.Instrument.DownloadHeader | src/Instrument.cs:120-143 | `*IDN?` is written, then one string read is made. The identification becomes the fields assigned in order as far as the answer reaches. The result passes exactly when the parse succeeds, and then the identification is the parsed header. Otherwise the result is the index error, and on a bus timeout the identification is unchanged |
| Mxg.DownloadArbFile | src/MXG.cs:29-45 | A name longer than 23 UTF-16 code units (the .NET `Length`) fails before anything else, and 23 is accepted. A missing file fails with no I/O. Otherwise there is one block write of the file bytes under `MEM:DATA "<catalog>:<name>",`, then `*OPC?` and its read under `max(timeout, timeoutMs)` (default 5000), and the old timeout is restored on success |
| Mxg.DownloadCommandTrailingColons | src/MXG.cs:39-41 | Trailing colons on the catalog make no difference to the command |
| Mxg.DownloadCommandOneColon | src/MXG.cs:39-41 | The command is the catalog with every trailing colon removed, one colon and the name, and the catalog part never ends in a colon |
| Mxg.DownloadCommand | src/MXG.cs:39-41 | The block-write header. DownloadCommandOneColon and DownloadCommandTrailingColons show it is the catalog without trailing colons, exactly one colon and the name |
| Mxg.LoadWaveform | src/MXG.cs:47-50 | One plain write of `MEM:COPY "SNVWFM:<name>", "SWFM1:<name>"` |
| Mxg.LoadCommandInjective | src/MXG.cs:49 | Different names give different copy commands, so the write in the log determines which waveform was loaded |
| Mxg.LoadCommand | src/MXG.cs:49 | The copy command of LoadWaveform. LoadCommandInjective shows distinct names give distinct commands |
| Mxg.GetMemoryCatalog | src/MXG.cs:52-55 | The query `MMEM:CAT? '<name>'` and one string read, whose answer is returned |
| Mxg.CatalogQueryInjective | src/MXG.cs:54 | Different catalogs are queried with different commands, so the log tells which memory HasWaveform consulted first |
| Mxg.CatalogQuery | src/MXG.cs:54 | The catalog query. CatalogQueryInjective shows distinct catalogs give distinct queries |
| Mxg.IsWaveformLoaded | src/MXG.cs:57-61 | One query of `WFM1`. The answer is whether the upper-cased name occurs anywhere in its text |
| Mxg.LoadedTestIgnoresCase | src/MXG.cs:60 | Names that differ only in case get the same answer |
| Mxg.LoadedTestMatchesPrefix | src/MXG.cs:60 | The test is a raw substring test: a loaded name that extends the given name makes it count as loaded |
| Mxg.HasWaveform | src/MXG.cs:63-67 | Volatile memory is queried first. Non-volatile memory is queried only when the first answer is false. The log and the consumed answers follow that short circuit |
| Mxg.WaveformAnswerIff | src/MXG.cs:63-67 | HasWaveform is true exactly when the name, in any case, is in SWFM1, or SWFM1 answers false and the name is in SNVWFM |
| Mxg.WaveformAnswer | src/MXG.cs:63-67 | HasWaveform's answer from the queued replies. WaveformAnswerIff gives when it is true, and HasWaveform is proved to return it |
| Mxg.CatalogAnswer | src/MXG.cs:88-91 | A catalog query's answer: a bus timeout, or CatalogLookup of the text read. IsInCatalog is proved to return it |
| Mxg.IsInVolatileMemory | src/MXG.cs:76-80 | IsInCatalog on `SWFM1` with no size filter |
| Mxg.IsInNonvolatileMemory | src/MXG.cs:82-86 | IsInCatalog on `SNVWFM` with no size filter |
| Mxg.IsInCatalog | src/MXG.cs:88-91 | One catalog query, then the lookup of the name in its answer |
| Mxg.FindInCatalog | src/MXG.cs:92-121 | Splitting, the in-place rewriting of the first and last tokens and the early-return loop compute exactly `CatalogLookup` |
| Mxg.CleanTokenEnds | src/MXG.cs:95-99 | `tokens[0]` is rewritten first, then the last token, and the middle tokens are kept |
| Mxg.ScanTokens | src/MXG.cs:100-121 | The foreach loop with its early returns computes `Scan` over the array |
| Mxg.AfterFirstQuote | src/MXG.cs:96 | A token without a quote is kept whole. Otherwise everything up to and including its first quote is dropped |
| Mxg.CleanEnds | src/MXG.cs:95-99 | The first token loses its header and the last token is cleaned (with one token, both happen to it). The token count is kept, as are all tokens in between |
| Mxg.CatalogTokens | src/MXG.cs:92-99 | The tokens of a catalog answer, or the index error of `tokens[0]` when no non-empty piece is left. CatalogTokensOfAnswer shows an answer in the generator's format yields exactly its entries, in order, and CatalogLookupEmpty gives the error for an empty answer |
| Mxg.CatalogTokensOfAnswer | src/MXG.cs:92-99 | An answer in the generator's format (a header without quotes, the entries quoted and separated by `","`, then a closing quote followed by any run of quotes, spaces and line ends, possibly none) yields exactly its entries, in order. The entries must be non-empty and free of quotes, and the first must not be a lone comma. The last entry's first and last characters must be neither a quote, a space, a line end nor white space |
| Mxg.SplitOfAnswer | src/MXG.cs:92-93 | Cutting such an answer at `","` gives the entries, the first still carrying the header and its quote and the last the closing quote and what follows it |
| Mxg.CleanEndsOfFramed | src/MXG.cs:95-99 | Cleaning the first and last of those pieces gives back exactly the entries |
| Mxg.CatalogLookupEmpty | src/MXG.cs:93-96 | An empty answer fails with the index error |
| Mxg.TwoEntryAnswer | src/MXG.cs:92-99 | An answer laid out as `header"a","b"`, ending right after the closing quote, yields exactly the entries a and b |
| Mxg.CatalogLookupOfAnswer | src/MXG.cs:92-121 | For an answer in the generator's format, with any such closing, whose entries all read `name,kind,size`, the lookup is true exactly when some entry matches the name, and the size when one is given |
| Mxg.ParseEntry | src/MXG.cs:102-105 | Fewer than three comma fields is an index error. Otherwise the entry exists exactly when field 2 parses as a 64-bit integer, and then it holds field 0 and that size, which lies in the 64-bit range. ParseEntryOfText shows a printed `name,kind,size` parses back to that name and size |
| Mxg.ParseEntryOfText | src/MXG.cs:102-105 | An entry printed as `name,kind,size`, with a comma-free name and kind and a 64-bit size, parses back to that name and size |
| Mxg.ScanOfParsed | src/MXG.cs:100-121 | When every token parses, the loop answers true exactly when some token matches |
| Mxg.ScanFalseIff | src/MXG.cs:100-121 | The lookup is false exactly when every token parses and none matches |
| Mxg.ScanTrueAt | src/MXG.cs:100-121 | A first match, with every earlier token parsing, makes the lookup true |
| Mxg.ScanTrueWitness | src/MXG.cs:100-121 | A true lookup has a first matching token, and every earlier token parses |
| Mxg.ScanTrueIff | src/MXG.cs:100-121 | The lookup is true exactly when some token is the first match |
| Mxg.Scan | src/MXG.cs:100-121 | The foreach loop as a function. ScanTrueIff, ScanFalseIff and ScanOfParsed give its answer in terms of the first match, and ScanAppend shows it stops at the first match or error |
| Mxg.Matches | src/MXG.cs:107-118 | The comparison inside the loop. ScanIgnoresCase, ScanNonPositiveSize and ScanSizeFilterNarrows give its case blindness and size filter |
| Mxg.CatalogLookup | src/MXG.cs:92-121 | What IsInCatalog answers for a text. CatalogLookupOfAnswer gives its answer for a well-formed catalog, CatalogLookupEmpty the error for an empty one, and FindInCatalog is proved to compute it |
| Mxg.ScanAppend | src/MXG.cs:100-121 | Tokens after a match or an error are never looked at. While nothing has matched, the scan goes on with the later tokens |
| Mxg.ScanIgnoresCase | src/MXG.cs:110-116 | Names equal after ToLower get the same answer |
| Mxg.ScanNonPositiveSize | src/MXG.cs:107-118 | A size of zero or below does not filter: it acts as the default -1 |
| Mxg.ScanSizeFilterNarrows | src/MXG.cs:107-118 | A match on name and size is also a match on the name alone |
| Mxg.CatalogLookupIgnoresCase | src/MXG.cs:65-66 | Upper-casing the name first, as HasWaveform does, does not change the answer |
| FileUtil.MergePath | src/FileUtil.cs:27-42 | The result is dir with its trailing separators removed, then one separator, then file with its leading separators removed. The separator is a backslash when either part holds one, a slash otherwise. So the length is the two trimmed lengths plus one |
| FileUtil.Separator | src/FileUtil.cs:30 | A backslash when either part holds one, a slash otherwise. MergePath joins with it and MergePathBackslashKeepsSlash shows only that separator is trimmed |
| FileUtil.MergePathUnique | src/FileUtil.cs:27-42 | That shape determines the result, so any string of that shape is MergePath's result |
| FileUtil.MergePathBackslashKeepsSlash | src/FileUtil.cs:30-34 | In backslash mode a slash is never trimmed: `MergePath("a/", "\b")` is `a/\b` |
| FileUtil.MergePathEmpty | src/FileUtil.cs:35-41 | Two empty parts give `/` |
| FileUtil.MergePathExtraSeparators | src/FileUtil.cs:30-41 | Extra separators at the end of dir or the start of file leave the result unchanged |
| Strings.TrimStart | src/FileUtil.cs:33 | The result is the suffix that starts at the first character outside the set |
| Strings.TrimEnd | src/MXG.cs:39 | The result is the prefix that ends at the last character outside the set |
| Strings.TrimStartUnique | src/FileUtil.cs:33-39 | Any suffix whose cut-away prefix lies in the set and whose first character does not is TrimStart's result |
| Strings.TrimEndUnique | src/FileUtil.cs:32-38 | Any prefix whose cut-away suffix lies in the set and whose last character does not is TrimEnd's result |
| Strings.TrimShape | src/Instrument.cs:106 | Trim keeps a contiguous piece and cuts only characters of the set, and only at the ends |
| Strings.TrimAt | src/Instrument.cs:106 | Trim keeps exactly the slice between the first and the last character outside the set |
| Strings.Trim | src/Instrument.cs:106 | TrimShape and TrimAt show it keeps exactly the slice between the first and the last character outside the set |
| Strings.TrimmedFromTwice | src/Instrument.cs:106 | Two trims in a row cut only characters of either set |
| Strings.TrimEndAppend | src/MXG.cs:39 | Appending characters of the set does not change what TrimEnd keeps |
| Strings.TrimStartPrepend | src/FileUtil.cs:33-39 | Prepending characters of the set does not change what TrimStart keeps |
| Strings.JoinSplit | src/Instrument.cs:132 | Joining the pieces of a split with the delimiter gives the input back |
| Strings.SplitCount | src/Instrument.cs:132 | Splitting on a character gives one piece more than it has occurrences |
| Strings.SplitWithout | src/Instrument.cs:132 | A string without the delimiter is one piece |
| Strings.SplitAppend | src/Instrument.cs:132 | Splitting distributes over a concatenation at the delimiter |
| Strings.Split | src/MXG.cs:93 | A left-to-right cut at every occurrence of the delimiter, empty pieces kept. JoinSplit makes the split undone by Join, and SplitJoin makes Join undone by the split |
| Strings.SplitNone | src/MXG.cs:93 | A text in which the delimiter never occurs is one piece |
| Strings.SplitAt | src/MXG.cs:93 | A first piece with no occurrence starting inside it, even one running into the delimiter after it, is cut off whole |
| Strings.SplitJoin | src/MXG.cs:93 | Pieces without such occurrences, joined by the delimiter, split back into exactly those pieces |
| Strings.NonEmpty | src/MXG.cs:93 | RemoveEmptyEntries keeps exactly the non-empty pieces |
| Strings.NonEmptyAppend | src/MXG.cs:93 | Dropping empty pieces distributes over concatenation, so the kept pieces stay in order |
| Strings.NonEmptyOne | src/MXG.cs:93 | One piece is kept exactly when it is non-empty |
| Strings.NonEmptyAllKept | src/MXG.cs:93 | Pieces that are all non-empty are kept unchanged |
| Strings.ReplaceChar | src/Instrument.cs:65 | Every occurrence of the character is replaced, and every other position is kept |
| Strings.ReplaceCharOnce | src/Instrument.cs:65 | Replacing the one occurrence changes that position only |
| Strings.RemoveChar | src/Instrument.cs:136 | All occurrences are deleted, every other character is kept, and the length drops by the count |
| Strings.RemoveCharAbsent | src/Instrument.cs:136 | Deleting a character that is absent changes nothing |
| Strings.RemoveCharAppend | src/Instrument.cs:136 | Deleting distributes over concatenation, so the kept characters stay in order |
| Strings.RemoveCharOne | src/Instrument.cs:136 | One character is deleted exactly when it is the given one |
| Strings.ContainsIff | src/MXG.cs:60 | Contains is true exactly when the text occurs at some position |
| Strings.Contains | src/MXG.cs:60 | ContainsIff shows it is true exactly when the text occurs at some position |
| Strings.IndexOf | src/MXG.cs:96 | The first position of the character, or -1 when it is absent |
| Strings.IndexOfFirst | src/MXG.cs:96 | A position holding the character, with no earlier one, is what IndexOf returns |
| Strings.Utf16Length | src/MXG.cs:32 | The .NET `Length`: between one and two code units per character |
| Strings.Utf16LengthOfBmp | src/MXG.cs:32 | Text inside the Basic Multilingual Plane has one code unit per character |
| Strings.Utf16LengthAppend | src/MXG.cs:32 | The code-unit length of a concatenation is the sum of the two lengths |
| Strings.ToLower | src/MXG.cs:110 | The result agrees with the input up to case and holds no upper-case ASCII letter |
| Strings.ToUpper | src/MXG.cs:65 | The result agrees with the input up to case and holds no lower-case ASCII letter |
| Strings.ToLowerEqualIff | src/MXG.cs:110-116 | Two names have equal lower-case forms exactly when they agree up to case |
| Strings.ToLowerOfUpper | src/MXG.cs:65-66 | Upper-casing first does not change the lower-case form |
| Strings.ToUpperOfSame | src/MXG.cs:60 | Names that agree up to case have the same upper-case form |
| Strings.ParseLong | src/MXG.cs:105 | A parsed value always lies in the 64-bit range |
| Strings.ParseMagnitude | src/MXG.cs:105 | The digits parse exactly when they are non-empty, all decimal and within the signed 64-bit range |
| Strings.ParseLongString | src/MXG.cs:105 | Every 64-bit integer, printed in decimal, parses back to itself |
| Strings.LongStringNoComma | src/MXG.cs:102-105 | A printed 64-bit integer holds no comma, so it stays one field of an entry |
| Transport.Receive | src/Instrument.cs:278 | A read gets an answer exactly when one is queued that arrives within the timeout. Otherwise it is a bus timeout |
| Transport.Remaining | src/Instrument.cs:278 | What remains is a suffix of the queue, one answer shorter exactly when Receive returned a value and unchanged when it timed out |

## Left out

- VISA and COM plumbing is not modelled. This covers `ResourceManager.Open`, `FormattedIO488`, `Close`, `InputBufferSize`, `getIO`, `ReadBytes`, `WriteByteArray`, `ReadI32Block` and `ReadR32Block`. These are foreign calls with no logic of the library's own. The session is the abstract trace of module Transport.
- IEEE 488.2 definite-length block framing (section 7.7.6 of IEEE 488.2) is not modelled. It happens inside the VISA library's `WriteIEEEBlock`/`ReadIEEEBlock`, so a block write carries the raw bytes. The unused `digits` of `DownloadArbFile` has no effect.
- Instruments.Instrument.ReadBinary: the conversion of the number read to `Int32` or `float` is not modelled (floating point). This includes the narrowing of a `REAL_64` answer to `float`. The raw answer text is returned, tagged with the read kind.
- Instruments.Instrument.ReadBlock: the decoding of a block into `int[]`, `float[]` or `double[]` happens in the VISA library and is not modelled. The raw answer is returned, tagged with the element type.
- Write failures other than a missing session are not modelled (device errors, a lost bus). Every write on an open session succeeds.
- Instruments.Instrument.Connect: the timeout of a session that failed to open is left as it was, and the session counts as not open. The COM objects the source creates before failing are not modelled.
- `Reset`, `ClearErrors` and the MXG setters `ArbOutput`, `ModulationOutput`, `RfOutput` and `SelectWaveform` are not modelled. They send fixed command strings with no logic.
- `Frequency` and `Power` are not modelled, because they format a `double`.
- The file system helpers of FileUtil are not modelled (`ReadBinaryFile`, `ReadFile`, `WriteFile`, `CopyFile`, `GetFileSize`, `FileExists`, `DirExists`, `CreateDirectoryIfNotExist`, and `GetAbsolutePath`, which depends on the executing assembly). In `DownloadArbFile` the file read is a lookup in a `files` map, and a missing path fails with `FileNotFound`.
- Strings.ToLower: only ASCII letters change case. Culture-dependent and non-ASCII case mappings of .NET are not modelled.
- Strings.ToUpper: only ASCII letters change case, for the same reason.
- Strings.ParseLong: models `NumberStyles.Integer` with the invariant culture (white space, one sign, decimal digits, the 64-bit range). .NET's acceptance of trailing NUL characters and culture-specific signs is not modelled.
- Mxg.IsInCatalog: `waveformSize` is an unbounded integer instead of a `long`. The callers pass -1, and a parsed size is always within the 64-bit range.
- Mxg.CatalogEntry: the kind field (field 1 of an entry) is never read by the source and is not kept.
- Instruments.Header: a field the source never assigned is `null` there. It is modelled as the empty string.
- Instruments.ParseIdnCommaSpace: the example identification strings in the source comments are covered in general form (any comma-free fields, in both layouts through ParseIdnOfFields), not as literal strings.
- Exceptions carry only their kind (and the message where the source builds one). Stack traces and inner exceptions are not modelled.
