# A verified model of trantor-cli's text, time and stream code

The project models four parts of the repository and proves what they promise.

* **URLs** (`components/basic-lib/Url.roc`). `Urls` holds the parser, printer,
  resolver and builders; `Component`, `Hosts`, `Ipv6`, `Decimal` and `Paths` hold
  the pieces they call, and `CanonicalPaths` shows that two of them commute.
  `Rfc3986` writes the generic syntax of RFC 3986 down as the standard does
  (appendix B, sections 3.1, 5.2.2 to 5.2.4 and 5.3), without looking at the code,
  with lemmas that its decomposition and recomposition undo each other.
  `UrlReading` proves that the code reads what the standard reads, `UrlRoundTrip`
  that printing and parsing undo each other and what resolving answers, and
  `UrlBuilding` what the builders do and that the invariant holds after any run.
  `UrlRoundTrip.SmallestIsValid` is a URL that has the invariant.
* **Transcoders and the calendar** (`interfaces/os-str/OsStr.roc`,
  `components/basic-cli-lib/Path.roc`, `components/basic-lib/InternalDateTime.roc`).
  `Transcode` works on 8, 16 and 32-bit words and compares them with the
  definitions of RFC 3629 and RFC 2781; `PathNames` uses it for the UTF-8 slicing
  of file names; `Calendar` counts days and compares the answer with the
  Gregorian rules.
* **Streams** (`components/cli-host/src/lib.rs`, `components/sync-io/src/lib.rs`,
  `components/host-shim/Host.roc`, `components/fs-core/src/lib.rs`). `Streams` says
  on values what a fill, a read, a delimited read and a read to the end do.
  `StdinHandles` keeps that state in objects: a source that delivers scripted
  chunks and errors, the process-global buffer, its lock, and any number of
  handles. Every method there is proved equal to the value form. `FileLines` is
  the capped line reader and `WriteStreams` the shared-cursor writers.
* **Confined paths** (`components/fs-core/src/lib.rs`, `components/fs-core/src/alias.rs`).
  `ConfinedPath` holds the byte loops and the rewriting of a path to one beneath
  the root, and `Alias` the walk that looks for the root under another spelling.

A `Str` is a sequence of bytes (`Text.Str`); the transcoders use `seq<bv8>` and
`seq<bv16>`. Roc's `Str.split_on` and `Str.join_with` are defined once, in `Text`,
and everything else is built on them; `Separators` says what they do on separators
of any length. Errors are values of a `Result` type, and a crash of the original
is `None`.

What comes from outside is a parameter, so that the theorems hold whatever it is:
what a read answers (`Streams.Event`), how much a write takes
(`WriteStreams.Outcome`), what resolving a path answers (`canonicalize`), and the
built-ins that read bytes as text (`text`, `utf8`).

Where the code and its comments differ, the model follows the code:

* The comment in `relative_to_root` says the trailing spelling is put back so that
  both backends act on the same name. For the root itself the answer is `.` and
  that spelling, so joining it to the root gives a path ending in `/.` whatever the
  candidate ended in: `ConfinedPath.RootIsSpelledDot` shows it for `/r/` beneath
  `/r`, and `ConfinedPath.JoinedIsCandidate` says exactly when the two spellings
  agree.
* The comment on `aliased_rest` says every prefix longer than one that does not
  resolve fails too. That is a property of the resolver and not of the walk;
  `Alias.WalkIsExhaustive` gives the exact condition for the early stop to lose
  nothing, and shows that the comment's assumption implies it.

## Model

| member | source | states |
|---|---|---|
| UrlReading.ParseReads | components/basic-lib/Url.roc:337-423 | On every input, parse answers what reading the five components of RFC 3986 gives: the path is the text's own without its dot segments, in canonical form, and each component's error comes in the order the code looks at them. |
| UrlReading.ParseText | components/basic-lib/Url.roc:337-566 | From the bytes: `http` or `https` in any case, `://`, an accepted host, a port or none and a rest with acceptable components parse, and only with such a rest; the answer has that scheme and host, and the port written unless it is 80 for http or 443 for https. |
| UrlReading.SchemeAgrees | components/basic-lib/Url.roc:762-776 | The scheme scan finds exactly the scheme of section 3.1, and nothing when the reference has none. |
| UrlReading.ParseAuthorityMeans | components/basic-lib/Url.roc:387-423 | An authority is accepted exactly when it is a host (dotted decimal, DNS name or bracketed IPv6 address) and an optional port; the answer is the one host and port it denotes. |
| UrlReading.ParseAuthorityRefuses | components/basic-lib/Url.roc:387-423 | A refused authority answers its first fault: of the brackets, of the address or of what follows them, and otherwise of the text before the last colon and then of the port. |
| UrlReading.ParseSuffixMeans | components/basic-lib/Url.roc:664-689 | What follows the authority is cut at the first `#` and then the first `?`, an empty path counts as `/`, and an accepted path is rooted. |
| UrlReading.ParseSuffixRefuses | components/basic-lib/Url.roc:664-689 | What follows the authority is refused, with its first byte, when that is none of the bytes that end an authority. |
| UrlRoundTrip.ResolveMeans | components/basic-lib/Url.roc:750-817 | Against a valid base, resolve answers the canonical form of the strict transform of section 5.2.2 of base and reference as they are given; it is parse on a reference with a scheme, refuses a network-path reference, and otherwise fails only as validation does. |
| CanonicalPaths.RemoveDotsCanon | components/basic-lib/Url.roc:702-863 | On every acceptable rooted path, removing dot segments and writing in canonical form give one result in either order, so an escaped dot is never taken for a dot segment. |
| UrlRoundTrip.PrintIsRecompose | components/basic-lib/Url.roc:875-914 | The printed text is the recomposition of section 5.3 of the URL's five components. |
| UrlRoundTrip.PrintedText | components/basic-lib/Url.roc:875-914 | The printed text, mark by mark: the scheme's name, `://`, the host, the port after a colon, the path, the query after `?` and the fragment after `#`. |
| UrlRoundTrip.PrintDecomposes | components/basic-lib/Url.roc:875-914 | The printed text of a valid URL cuts into exactly the URL's own components. |
| UrlRoundTrip.ParsePrint | components/basic-lib/Url.roc:337-358 | Parsing the printed text of a valid URL gives that URL, in all six fields. |
| UrlRoundTrip.UnchangedText | components/basic-lib/Url.roc:105-110 | A text comes out of parsing and printing unchanged exactly when the components the generic syntax finds in it are the answer's own. |
| UrlRoundTrip.ParseIsValid | components/basic-lib/Url.roc:337-358 | Whatever parse accepts satisfies the record's invariant: canonical host, no default port, canonical and normalized path, canonical query and fragment. |
| UrlRoundTrip.ResolveIsValid | components/basic-lib/Url.roc:750-817 | Resolving against a valid base keeps the invariant. |
| UrlRoundTrip.NormalizedIsCanonical | components/basic-lib/Url.roc:842-863 | Cutting a canonical path at `/`, dropping segments and joining the rest leaves it canonical and normalized. |
| UrlRoundTrip.QueryParamIsValid | components/basic-lib/Url.roc:212-229 | Appending a parameter with any key and value keeps the invariant. |
| UrlBuilding.StepKeepsValid | components/basic-lib/Url.roc:161-303 | Each of resolve, append_path_segments, append_query_param, with_query, with_fragment and without_fragment keeps the invariant and changes only the component it is about. |
| UrlBuilding.RunIsValid | components/basic-lib/Url.roc:161-303 | The invariant holds after parsing any text and making any sequence of calls. |
| UrlBuilding.ReachableRoundTrip | components/basic-lib/Url.roc:105-110 | The reachable URLs are exactly the valid ones, and each prints to text that parses back to it. |
| UrlBuilding.PrintIsInjective | components/basic-lib/Url.roc:116-118 | Two reachable URLs print alike exactly when all their fields are equal, so comparing text compares URLs. |
| UrlBuilding.AppendSegmentsMeans | components/basic-lib/Url.roc:201-206 | Appending fails exactly on a list with a dot segment and names the first; otherwise only the path changes, to the old segments (less a final empty one if items were given) and one new segment per item, its percent-encoded text, which decodes to the item. |
| UrlBuilding.AppendedPath | components/basic-lib/Url.roc:306-327 | The path built is already normalized: normalization removes no segment of it. |
| UrlBuilding.AppendParamMeans | components/basic-lib/Url.roc:212-248 | The query becomes the old one and `&`, if there is any, and the form-encoded pair; decoded it is the old pairs and then the given one; no other field changes. |
| UrlBuilding.BuiltQueryReadsBack | components/basic-lib/Url.roc:212-248 | Appending any list of pairs to a URL with no query and reading the query gives that list. |
| UrlBuilding.QueryPairsMean | components/basic-lib/Url.roc:233-248 | Each part between `&` gives one pair, in order: the form-decoded texts before and after its first `=`, or a name with an empty value. |
| UrlBuilding.ReplacingMeans | components/basic-lib/Url.roc:250-303 | with_query and with_fragment succeed exactly on acceptable text, change that component only, and keep its decoded bytes; without_fragment is with_fragment of none. |
| UrlBuilding.HostTextMeans | components/basic-lib/Url.roc:128-137 | The host is answered without brackets exactly when it is an IPv6 address, and answers differ for different hosts. |
| Paths.NormalizeIsRemoveDotSegments | components/basic-lib/Url.roc:837-863 | On every rooted path, empty segments included, segment-list normalization is the input-buffer and output-buffer rewriting of section 5.2.4. |
| Paths.NormalizeIsCanonical | components/basic-lib/Url.roc:842-863 | The result is rooted, non-empty and has no dot segment, and the paths left unchanged are exactly those in that form. |
| Paths.PathDirectoryMeans | components/basic-lib/Url.roc:865-873 | The directory of a rooted path is what section 5.2.3 keeps: everything up to its last `/`. |
| Component.ValidateMeans | components/basic-lib/Url.roc:702-746 | A component is accepted exactly when every escape is whole and no byte is forbidden; a refusal names the first bad position, and whether it is an escape or a byte. |
| Component.ForbiddenBytes | components/basic-lib/Url.roc:734-746 | Which bytes each kind of component refuses: controls, space, DEL and `"<>\` in all, `#` but in a fragment, `?` in a path. |
| Component.ValidateIsCanonical | components/basic-lib/Url.roc:702-746 | The answer decodes to the same bytes, is ASCII with upper-case escapes and no forbidden byte, and is a fixed point; exactly the canonical texts are left alone. |
| Component.PercentEncodeMeans | components/basic-lib/Url.roc:918-931 | Any bytes encode to canonical text without `/` that decodes to those bytes. |
| Component.EncodedTexts | components/basic-lib/Url.roc:918-948 | The texts both encoders write, byte by byte: an unescaped byte stands for itself, a space is a plus in a form, and every other byte is `%` and its two upper-case digits. |
| Ascii.HexTable | components/basic-lib/Url.roc:1027-1081 | The hexadecimal digits of both cases, read and written, and the folding of one case to the other. |
| Ascii.Classes | components/basic-lib/Url.roc:1035-1051 | Which bytes are digits, letters, hexadecimal digits, unreserved, and left alone in a form. |
| Ascii.LowerTable | components/basic-lib/Url.roc:1014-1025 | Folding takes each capital to its small letter and leaves every other byte. |
| Component.EncodedDots | components/basic-lib/Url.roc:329-333 | Encoding makes no dot segment and hides none: an item is `.`, `..` or empty exactly when its encoded form is. |
| Paths.DotSegments | components/basic-lib/Url.roc:329-333 | The dot segments are `.` and `..` and nothing else. |
| Component.FormRoundTrip | components/basic-lib/Url.roc:933-968 | Form decoding undoes form encoding byte for byte, and the encoded form is canonical query text without `&` or `=`. |
| Component.FormDecodeFromMeans | components/basic-lib/Url.roc:953-968 | The accumulating decoder computes the decoding defined unit by unit. |
| Text.JoinSplit | components/basic-lib/Url.roc:1142-1172 | Joining undoes splitting for every string and separator. |
| Separators.SplitJoinExactly | components/basic-lib/Url.roc:1142-1172 | For any separator, splitting undoes joining exactly for pieces that hold no separator, even together with the one that follows. |
| Separators.SplitFirstFinds | components/basic-lib/Url.roc:1148-1159 | split_first cuts at the first occurrence of any separator, and finds none exactly when there is none. |
| Separators.SplitLastFinds | components/basic-lib/Url.roc:1161-1172 | split_last cuts at the last of the occurrences that do not overlap, counted from the left: none follows it, and the pieces before it are those of the text before it; it finds none exactly when there is none. |
| Text.StartsWithMeans | components/basic-lib/Url.roc:1118-1127 | The split-based prefix test is the prefix test, for any prefix. |
| Separators.EndsWithExactly | components/basic-lib/Url.roc:1129-1140 | The split-based suffix test answers true of the empty suffix and of the empty string, and of every other string it is the suffix test exactly when the suffix does not overlap itself, as no single byte does. |
| Text.DropPrefixMeans | components/basic-lib/Url.roc:1142-1146 | Dropping a prefix that is there leaves exactly what follows it. |
| Hosts.ValidateHostMeans | components/basic-lib/Url.roc:425-480 | A host is accepted exactly when it is dotted decimal or a DNS name whose last label is no number, and answered in lower case; otherwise the refusal says whether it is empty, not ASCII, a number or no name. |
| Hosts.HostIsCanonical | components/basic-lib/Url.roc:425-481 | An accepted host is its own answer, and holds only letters, digits, `-` and `.`. |
| Hosts.LabelMeans | components/basic-lib/Url.roc:459-476 | A label is 1 to 63 letters, digits and `-`, with a letter or digit at both ends. |
| Hosts.EndsInNumberMeans | components/basic-lib/Url.roc:445-457 | A host ends in a number exactly when the text after its last dot is all digits, or `0x` or `0X` and hexadecimal digits only. |
| Hosts.ValidateIpv4Means | components/basic-lib/Url.roc:483-516 | Dotted decimal is accepted exactly as the IPv4address rule of RFC 3986 spells it, leading zeros refused, and is answered unchanged. |
| Hosts.ParsePortMeans | components/basic-lib/Url.roc:518-540 | A port is accepted exactly when it is digits worth at most 65535, and answered unless it is 80 for http or 443 for https; a refusal tells text that is no number from a number too large, and names that number exactly below the reader's cap. |
| Hosts.PortRoundTrip | components/basic-lib/Url.roc:518-540 | A printed port reads back as that port. |
| Decimal.ParseDecimalMeans | components/basic-lib/Url.roc:542-566 | On a digit run of any length the saturating reader is exact until its digits reach 4294967295 with one to come, and answers that cap from then on; its result type shows that no step leaves 64 bits. |
| Ipv6.ValidateIpv6Means | components/basic-lib/Url.roc:589-643 | Validation accepts exactly the full and the singly elided hexadecimal forms of section 2.2 of RFC 4291; the answer is the eight groups written out, and is its own answer; a refusal names the first part that is no group, or the whole text when its shape is wrong. |
| Ipv6.SameAddressSameText | components/basic-lib/Url.roc:589-643 | Two spellings get one answer exactly when they denote the same eight groups. |
| Ipv6.U16ToHexMeans | components/basic-lib/Url.roc:645-662 | A printed group is one to four lower-case digits without padding and denotes the number printed. |
| Transcode.Utf8RoundTrip | interfaces/os-str/OsStr.roc:125-182 | On all valid UTF-8 the decoder does not crash, writes the UTF-16 of the same text, and converting back gives the same bytes. |
| Transcode.Utf16RoundTrip | interfaces/os-str/OsStr.roc:125-182 | On all well-formed UTF-16 the encoder succeeds, writes the UTF-8 of the same text, and converting back gives the same units. |
| Transcode.Utf16ToUtf8Fails | interfaces/os-str/OsStr.roc:158-182 | Conversion fails exactly when a surrogate is unpaired and reports the index of the first; what succeeds is valid UTF-8, so utf16_to_str fails for no other reason. |
| Transcode.LossyMeans | interfaces/os-str/OsStr.roc:184-201 | The lossy form is the strict conversion of the text with each unpaired surrogate replaced by U+FFFD: always valid UTF-8, and the strict answer when there is one. |
| Transcode.EncodeUtf8Means | interfaces/os-str/OsStr.roc:203-219 | For every character number the octets written form one character of the grammar of RFC 3629 that stands for that number, so no narrowing loses a bit. |
| Transcode.EncodeOfUtf8 | interfaces/os-str/OsStr.roc:203-219 | Every character of that grammar is what is written for its number. |
| Transcode.EncodePair | interfaces/os-str/OsStr.roc:143-152 | Beyond U+FFFF the two units written are a surrogate pair that stands for the number, with no bit lost. |
| PathNames.ExtensionMeans | components/basic-cli-lib/Path.roc:315-367 | A path that ends in a separator is refused as a directory, any other that ends in two dots as that, and the rest have a file name: the longest tail without a separator; its extension is what follows the first dot past its first unit. |
| PathNames.CutAtAscii | components/basic-cli-lib/Path.roc:411-418 | Cutting UTF-8 at an ASCII byte leaves UTF-8 on both sides and cuts the text at that character. |
| PathNames.SlicingIsSafe | components/basic-cli-lib/Path.roc:315-367 | On a UTF-8 path neither the name nor the extension can reach the crash, both answers are UTF-8, and the name is the tail after the last `/`. |
| Calendar.EpochMillisMeans | components/basic-lib/InternalDateTime.roc:24-38 | The answer is a valid date and time whose second count is the input's, and the only one. |
| Calendar.CarryConserves | components/basic-lib/InternalDateTime.roc:66-88 | Each month carried out of the day count conserves the day number. |
| Calendar.NormalizeMeans | components/basic-lib/InternalDateTime.roc:66-88 | The recursion ends on a real date of the same day number and does not touch the time. |
| Calendar.NormalizeEnds | components/basic-lib/InternalDateTime.roc:66-110 | The recursion ends exactly on a month up to twelve or on day zero. |
| Calendar.LeapStep | components/basic-lib/InternalDateTime.roc:112-127 | The divisibility rule for leap years agrees with counting them by 4, 100 and 400. |
| Calendar.Monotone | components/basic-lib/InternalDateTime.roc:24-38 | A later instant never gives an earlier date. |
| Calendar.GregorianCycle | components/basic-lib/InternalDateTime.roc:24-127 | Adding 146097 days adds exactly 400 years and changes nothing else. |
| Calendar.EpochFits | components/basic-lib/InternalDateTime.roc:66-88 | On any 128-bit input no step of the recursion overflows. |
| Calendar.IsoSortsChronologically | components/basic-lib/InternalDateTime.roc:12-22 | For years below 10000 the ISO text sorts exactly as the instants do. |
| Calendar.IsoSortsExactly | components/basic-lib/InternalDateTime.roc:12-22 | The text orders all dates below a year bound exactly when the bound is at most 10000. |
| Calendar.IsoReadsBack | components/basic-lib/InternalDateTime.roc:12-64 | The text is the year in at least four digits, without leading zeros beyond, and the marks of section 5.6 of RFC 3339 in their places; every field reads back. |
| Streams.ReadOnceMeans | components/sync-io/src/lib.rs:40-61 | A read answers what is available, as far as it was asked for, and takes exactly what it answers; none of the bytes asked for only when the source had none; a failure takes nothing and is the source's next. |
| Streams.ReadUntilMeans | components/sync-io/src/lib.rs:68-84 | A delimited read takes a prefix with the delimiter at most as its last byte and within its cap; a success answers exactly that prefix, having made one empty source read if it ended at the end of input and none if it stopped at its delimiter or cap. |
| Streams.ReadUntilFails | components/sync-io/src/lib.rs:68-84 | A delimited read answers an error exactly when its source failed, with the first failure that is no interruption. |
| Streams.ReadUntilIsFirstPiece | components/sync-io/src/lib.rs:68-84 | On a source that only delivers, a delimited read answers the input through its first delimiter, cut at the cap, whatever the chunking, and takes that. |
| Streams.ReadToEndMeans | components/cli-host/src/lib.rs:112-128 | A read to the end takes a prefix of the unread input, answers exactly it on success, and makes one empty read. |
| Streams.RegularToEnd | components/cli-host/src/lib.rs:112-128 | On a source that only delivers, a read to the end answers all that is left. |
| StdinHandles.SharedStdin.FillBuf | components/cli-host/src/lib.rs:48-68 | A fill answers what the global buffer's fill answers and keeps the lock exactly when it answers bytes; the second fill reads nothing more. |
| StdinHandles.SharedStdin.Consume | components/cli-host/src/lib.rs:69-73 | Consuming takes the bytes from the global buffer when a fill is waiting, nothing otherwise, and leaves the lock free. |
| StdinHandles.SharedStdin.Read | components/cli-host/src/lib.rs:40-45 | A read gives up any lock the handle held, reads through the global buffer, and leaves the lock free. |
| StdinHandles.SharedStdin.ReadUntil | components/sync-io/src/lib.rs:70-74 | The library's fill and consume loop over a handle and a cap is the delimited read of module Streams, and the lock is free before and after. |
| StdinHandles.StripLine | components/cli-host/src/lib.rs:100-102 | A final newline is dropped, and one carriage return before it; any other line is kept whole. |
| StdinHandles.Stdin.ReadLine | components/cli-host/src/lib.rs:92-110 | A line is one delimited read of the same buffer; from a source that only delivers, the answer is the end of file, the text without its ending, or invalid data, by what the input holds through its first newline. |
| StdinHandles.ReadLineMeans | components/cli-host/src/lib.rs:92-110 | What is taken is the input through its first newline, or all of it; nothing is the end of file, text is answered without its ending, and anything else is invalid data. |
| StdinHandles.ReadLineFails | components/cli-host/src/lib.rs:92-110 | On any source a line read fails with what is no text, or with the first failure of its source that is no interruption, and otherwise answers for what it took. |
| StdinHandles.ReadCallTakes | components/sync-io/src/lib.rs:16-61 | A read call answers what is available, at most as many bytes as asked and at most 1048576. |
| StdinHandles.RunCalls | components/cli-host/src/lib.rs:29-128 | For any number of handles and any sequence of read, read_until, read_line and read_to_end, the lock is free between calls, so none blocks, and the answers are those of one reader. |
| StdinHandles.RunConserves | components/cli-host/src/lib.rs:29-128 | Over any run the calls take consecutive pieces of the input and lose nothing, and each answers for its own piece by its kind: the bytes within what was asked, the line without its ending, or the failure its source gave. |
| StdinHandles.DrainStep | components/cli-host/src/lib.rs:112-128 | What a read to the end answers does not depend on how its reads are sized. |
| FileLines.FileReader.FileReadLine | components/host-shim/Host.roc:156-165 | The call is one delimited read of max_line + 1 bytes and the length check on what it answers. |
| FileLines.ReadLineMeans | components/host-shim/Host.roc:144-165 | Whatever the chunking, the call takes the first line cut at the cap plus one byte; it answers LineTooLong exactly when more than the cap comes before any newline, and a success without a newline only at the end of the file. |
| FileLines.ReadLineFails | components/host-shim/Host.roc:156-165 | On any source an error is answered exactly when the source failed first, with its kind; otherwise the piece taken is the answer, or is the cap plus one byte with no newline at its end and is too long. |
| FileLines.ReadAllMeans | components/host-shim/Host.roc:144-165 | Repeated calls answer for pieces that depend on the file's contents only, and then an empty success. |
| FileLines.PiecesAreTheFile | components/host-shim/Host.roc:144-165 | The pieces the calls take concatenate to the file. |
| FileLines.ReadAllIsLines | components/host-shim/Host.roc:144-165 | When no line is longer than the cap, the calls answer the file split after each newline. |
| WriteStreams.OutputStream.WriteAll | components/sync-io/src/lib.rs:90-100 | The loop over short writes and interruptions is the whole write of the model. |
| WriteStreams.OutputStream.Write | components/fs-core/src/lib.rs:489-503 | One write: a seek to the end first for a seeking stream, tolerated on a pipe, and then a write at the shared cursor or the end. |
| WriteStreams.OpenFile.WriteViaStream | components/fs-core/src/lib.rs:475-487 | Making an offset stream sets the shared cursor once, tolerates a pipe, refuses an offset past the largest, and answers a stream at the cursor that records the descriptor. |
| WriteStreams.OpenFile.AppendViaStream | components/fs-core/src/lib.rs:510-524 | Making an append stream changes nothing; the stream seeks exactly when the file is not in append mode and records the descriptor exactly when it is. |
| WriteStreams.AppendKeepsContents | components/fs-core/src/lib.rs:489-524 | A write through an append stream of either kind, short and refused writes included, only adds a piece of the data to the end, and all of it on success. |
| WriteStreams.WriteLands | components/fs-core/src/lib.rs:475-524 | A write through any stream on any file, short and refused writes included, puts a first piece of the data at the end (append mode, a seeking stream, a pipe) or where the shared cursor was, which moves past it; on success that is all of the data. |
| WriteStreams.WriteWholeStops | components/sync-io/src/lib.rs:90-100 | A whole write fails exactly with the first thing that stops it for good, a refusal that is no interruption or a write of no bytes, and so succeeds whenever nothing does. |
| WriteStreams.OffsetStreamStep | components/fs-core/src/lib.rs:475-487 | The step that makes an offset stream sets its own description's cursor and nothing else, and the stream records exactly that description; an offset past the largest is refused. |
| WriteStreams.OffsetStreamWrites | components/fs-core/src/lib.rs:475-487 | A write through an offset stream just made, on a file with positions and not in append mode, puts a first piece of the data at the offset, all of it when nothing stops it, and leaves the cursor after it. |
| WriteStreams.AppendStreamStep | components/fs-core/src/lib.rs:505-524 | The step that makes an append stream changes nothing, and the stream records its description exactly in append mode. |
| WriteStreams.AppendStreamWrites | components/fs-core/src/lib.rs:505-524 | A write through an append stream just made puts a first piece of the data after the old contents, all of it when nothing stops it. |
| WriteStreams.SeekingIsNotRaw | components/fs-core/src/lib.rs:518-522 | A raw write does what a seek-to-end stream does in every state exactly when the file is not seekable: why such a stream records no descriptor. |
| WriteStreams.RunIsSafe | components/fs-core/src/lib.rs:463-524 | After any run of open, stream-making and write steps, every recorded descriptor does what its stream does in every state and no flags have changed; and however the run goes on, as long as it writes through append streams only, the contents stay a prefix. |
| WriteStreams.AppendStreamChangesNothing | components/fs-core/src/lib.rs:505-524 | Making an append stream anywhere in a run leaves every later write, at an offset or not, with the same file: only the numbers of the streams made after it change. |
| Alias.WalkIsExhaustive | components/fs-core/src/alias.rs:9-21 | The early-stopping walk answers what the exhaustive search answers exactly when no failing prefix is shorter than the match, which holds whenever failure is inherited by longer paths. |
| Alias.WalkAsksNoMore | components/fs-core/src/alias.rs:9-21 | The prefixes resolved are the first, the second and so on up to the first that matches or fails, and none after it. |
| ConfinedPath.StripPrefixMeans | components/fs-core/src/lib.rs:186-194 | Stripping succeeds exactly when the prefix's components come first, and leaves the others, unrooted and ending in a name. |
| ConfinedPath.TrailingSpelling | components/fs-core/src/lib.rs:231-250 | The byte loop answers the spelling of the trailing run of pieces that name nothing: `/.` if a `.` is among them, `/` if there are others, else nothing. |
| ConfinedPath.Spellings | components/fs-core/src/lib.rs:231-250 | The pieces that name nothing are the empty one and `.`, and the spellings of a run of them are `/.`, `/` and nothing. |
| ConfinedPath.NamesDirectoryMeans | components/fs-core/src/lib.rs:266-272 | A path names a directory exactly when it has a trailing spelling. |
| ConfinedPath.AliasedMeans | components/fs-core/src/lib.rs:210-229 | An aliased rest is the candidate's components after its first k, none of them `..`, whose one spelling with a slash before each resolves to the root, every shorter one resolving elsewhere; and there is none exactly when no k is such. |
| ConfinedPath.BeneathBranches | components/fs-core/src/lib.rs:184-200 | Which components are dropped: the root's as spelled, else the resolved root's, else those of the aliased prefix; and exactly when the path is refused, and how. |
| ConfinedPath.RelativeIsRelative | components/fs-core/src/lib.rs:184-208 | The rewriting succeeds exactly when the candidate is found beneath the root; every answer is non-empty and not absolute, its components are the last of the candidate's, and it has the candidate's trailing spelling, so it names a directory exactly when the candidate does. |
| ConfinedPath.JoinedIsCandidate | components/fs-core/src/lib.rs:184-208 | On all three branches the root that was found (as given, resolved, or under another spelling), joined with the answer, has its own components and then the candidate's remaining ones, which makes the candidate's when the root's come first in them; it has the candidate's spelling and directory answer exactly when the candidate is not the root itself or was spelled that way already. |
| ConfinedPath.RootIsSpelledDot | components/fs-core/src/lib.rs:195-208 | The input where they differ: beneath `/r`, the candidate `/r/` answers `./`, and the two joined end in `/.`. |
| ConfinedPath.SlashesStripped | components/fs-core/src/lib.rs:274-287 | Slashes are stripped exactly when the path ends in one, has no trailing `.` and ends in a name; then only slashes go and the components stay. |

## Left out

- Built-ins and libraries: Roc's string and list built-ins and Rust's `BufReader`, `Take`, `read_until`, `read_to_end`, `write_all` and path components are not part of this repository; they are modelled from their documented behaviour.
- `Str.from_utf8_lossy` in the URL code is the identity in the model. The bytes it is given there are ASCII, or a slice of a string at ASCII bytes, which leaves UTF-8 (PathNames.CutAtAscii). In form_decode, where it matters, it is the parameter `text`.
- UrlBuilding.AppendParamMeans: asks that reading the key and value as text leaves them alone, which is so for every Roc string, since those are UTF-8.
- UrlRoundTrip.ResolveMeans: asks for a valid base, which every reachable URL is (UrlBuilding.ReachableRoundTrip).
- Calendar.NormalizeEnds: counts months without a bound; from a month after December the original would carry until the 128-bit month overflows. No caller starts there.
- Calendar.IsoSortsChronologically: stops at year 9999, as section 5.1 of RFC 3339 does; Calendar.IsoSortsExactly shows that it must.
- FileLines.ReadLineMeans: is about a file read without errors other than interruptions, and with no empty read before its end. Reads with errors are covered by Streams.ReadUntilMeans.
- StdinHandles.RunCalls: one call runs at a time, as in the single-threaded host; interleaving is between calls.
- StdinHandles.Stdin.ReadLine: the UTF-8 test on a line is a parameter, and the error kinds are those the code tells apart (interrupted, invalid text, any other).
- Streams.ReadUntilMeans: a read that fails part-way loses what it had read, as in the original; what it took is still a prefix of the input.
- ConfinedPath.RelativeIsRelative: candidate and root are absolute, as the callers always send them, and the resolver answers absolute paths.
- WriteStreams.RunIsSafe: one file, one process; a failing `dup` or `F_GETFL` makes no stream and is not modelled, and a write is one step.
- Closed standard input (EBADF read as end of file) is not told apart from an empty one.
- `parse_err_to_str`, hashing, inspecting, and the JSON encoders and decoders of URLs: no property beyond their text.
- The filesystem operations, the confinement guarantee and `copy.rs`: they rest on the kernel and on cap-std, which are not part of this model.
- `ends_in_parent` as a claim about two backends, `open_flags`, locales, clocks, random numbers, environment access, the driver and the ABI plumbing.
