# apache-log in Dafny

A model of the parsing core of `apache-log`. This small Go command reads Apache
access logs in the "combined" format
(`%h %l %u %t "%r" %>s %O "%{Referer}i" "%{User-Agent}i"`). It counts the 404
responses per request URI and prints the URIs that were missed at least ten
times, most-missed first.

The model covers:

- `GoLib`: the few Go library routines the parser depends on. These are
  `bytes.IndexByte`, `bytes.Trim` with the one-byte cutset `"`,
  `strconv.Atoi`, and the token splitting of `fmt.Fscanf("%s %s %s")`.
  `Itoa` and `FormatInt` model `strconv.Itoa`. The program never calls it;
  the model uses it only to write log lines for the read-back proofs.
- `Seqs`: three general facts about sequences that the proofs share.
- `Extract`: the byte scanners `extractUntil` and `extractWrappedUntil`, and
  the `-` placeholder rule `transformNilLogItem`.
- `Parser`: the nine-state `AccessLog.Digest` loop and `Request.Digest`. Go's
  receiver-mutating methods become functions. Each takes the receiver's old
  value and the input, and returns the new value with an outcome: `Ok`,
  `Failed(error)` or `Panicked`. `Panicked` is Go's runtime panic on the slice
  `input[1:0]`. `extractWrappedUntil` reaches it only on a quote that is never
  closed and that is either the whole remaining input or followed directly by
  the space delimiter. An unclosed quote followed by any other byte is the
  error `NoDelimiter`.
- `LineFormat`: a writer for combined-format lines, and the proof that
  `Digest` reads back every field of any line written from `Writable` parts.
  It also covers every prefix of such a line that ends at a field boundary,
  and the example line in the doc comment of `access-log.go`.
- `Truncated`: lines that end early or break off inside a field.
- `Ranking`: `filterSort` and `rankByCount`. Each output is an ordering by
  non-increasing count of exactly the qualifying map entries.
- `Pipeline`: the line loop of `parseFile`, the fold that counts 404s per URI
  over the batches the file goroutines send, and one whole run.

Go's map iteration order is random, and `sort.Slice` is not stable. The rankers
are therefore methods that select entries in an arbitrary order (`:|`). Their
contracts speak only of membership, distinct keys, order by count and length.
Every output that meets those contracts has the same column of counts.

## Model

| member | source | states |
|---|---|---|
| GoLib.IndexByte | access-log.go:151 | the result is -1 exactly when the byte is absent; otherwise it is the position of the first occurrence |
| GoLib.Trim | access-log.go:124 | the result neither starts nor ends with the cut byte; it is the infix after the leading run, and only cut bytes follow it |
| GoLib.TrimSurrounded | access-log.go:124 | trimming runs of `"` from both sides of a value that neither starts nor ends with `"` gives that value back |
| GoLib.Atoi | access-log.go:97 | parsing succeeds exactly on an optional sign followed by at least one decimal digit |
| GoLib.AtoiFormatInt | access-log.go:97 | parsing the decimal text of any integer gives that integer back |
| GoLib.AtoiSigned | access-log.go:97 | any accepted text, written as an optional `+` or `-`, any number of leading zeros and the digits of n, parses to n, or to -n after `-` |
| GoLib.AtoiSignDigits | access-log.go:97 | a non-empty digit string of value n after no sign or `+` parses to n, and after `-` to -n |
| GoLib.DigitsValueZeros | access-log.go:97 | leading zeros do not change the value of a digit string |
| GoLib.Fields | access-log.go:140 | the tokens read by `%s` verbs are non-empty and hold no space |
| GoLib.FieldsJoin | access-log.go:140 | splitting space-joined tokens gives the tokens back |
| GoLib.FieldsSpread | access-log.go:140 | tokens separated by runs of one or more spaces, with any number of spaces before the first and after the last, split into exactly those tokens |
| GoLib.SpreadGaps | access-log.go:140 | every input is its own tokens laid out with the runs of spaces around them, so splitting drops nothing but spaces |
| GoLib.GapsFitFields | access-log.go:140 | between two tokens of any input there is at least one space |
| GoLib.FieldsIffSpread | access-log.go:140 | an input splits into a list of tokens exactly when it is those tokens separated by runs of one or more spaces, with any spaces at either end |
| Extract.ExtractUntil | access-log.go:150-157 | if the delimiter occurs, the token is the prefix before its first occurrence and the offset is token length + 1; otherwise the token is the whole input and the offset is its length; the offset never exceeds the length, is at least 1 on non-empty input, and the token never holds the delimiter |
| Extract.ExtractUntilRebuild | access-log.go:150-157 | token, delimiter (if any) and the rest from the offset rebuild the input |
| Extract.ExtractUntilToken | access-log.go:150-157 | a token free of the delimiter, followed by the delimiter, is cut exactly, and the rest is what followed |
| Extract.WrappedPanics | access-log.go:170-188 | Go panics on the slice `input[1:0]` exactly when the input opens with `left`, `left` equals `right`, no later byte is `right`, and the input is one byte long or its second byte is the delimiter |
| Extract.ExtractWrappedUntil | access-log.go:161-199 | bad start exactly when byte 0 is not `left`; missing end exactly when brackets are unclosed; an unclosed quote gives "not followed by delimiter"; on success the token is the bytes between `left` and the first later `right`, holds no `right`, and the offset is i+1 at end of input or i+2 after the delimiter; every input of that shape succeeds with that cut |
| Extract.ExtractWrappedToken | access-log.go:161-199 | a wrapped token followed by the delimiter does not panic and is cut with offset length + 3 |
| Extract.ExtractWrappedLast | access-log.go:186-189 | a wrapped token that ends the input does not panic and is cut with offset length + 2 |
| Extract.TransformNilLogItem | access-log.go:201-207 | the result is never `-`; it is the input or empty, and empty only for empty input or `-` |
| Extract.TransformNilChanges | access-log.go:201-207 | the input is changed exactly when it is the one-byte `-` |
| Extract.TransformNilIdempotent | access-log.go:201-207 | normalising twice equals normalising once |
| Parser.RequestDigest | access-log.go:133-146 | `-` keeps the request; otherwise success exactly when there are at least three tokens, which become method, URI and version; failure reports the raw line |
| Parser.RequestDigestJoin | access-log.go:133-146 | a request line of three space-separated tokens is read back exactly |
| Parser.RequestDigestSpread | access-log.go:133-146 | for tokens separated by runs of spaces, with any spaces at either end: three or more tokens give the first three as method, URI and version with no error; fewer give the request-line error, unless the line is `-`, after storing the tokens that were read as method and then URI, leaving the rest of the request as it was |
| Parser.DigestIdentity | access-log.go:60-73 | states 0 to 2 always continue on a strictly shorter suffix and change only their own field |
| Parser.DigestTime | access-log.go:75-81 | the time state continues on a strictly shorter suffix changing only the time, or fails with a time error leaving the entry unchanged |
| Parser.DigestRequest | access-log.go:83-93 | the request state changes only the request; it stops only with a panic or a request error |
| Parser.DigestNumber | access-log.go:95-112 | the status and bytes states set only their own field, and on a non-integer stop with the state's error and the entry unchanged |
| Parser.DigestReferer | access-log.go:114-120 | the referer state changes only the referer, or stops with a panic or a referer error leaving the entry unchanged |
| Parser.DigestTimeCases | access-log.go:75-81 | the time state stops exactly when the input does not start with a bracketed field followed by a space or the end; when it stops it reports the cause that extractWrappedUntil gives (no opening bracket, no closing bracket, or no space after it); otherwise it stores the bracketed text, placeholder-normalised, and continues after the field |
| Parser.DigestRequestCases | access-log.go:83-93 | the request state panics exactly in the `WrappedPanics` case; with no well-formed quoted field it stops leaving the entry unchanged and reports the cause that extractWrappedUntil gives; with one, the request becomes the result of Request.Digest on the quoted text, and it continues after the field exactly when that reports no error, else stops with that error |
| Parser.DigestIdentityCases | access-log.go:58-73 | the host, logname and user states always continue; they store the token before the first space, or the whole input when there is none, placeholder-normalised in their own field, and continue after that space or at the end |
| Parser.DigestNumberCases | access-log.go:95-112 | the status and bytes states stop exactly when the token before the first space is not a decimal integer, with that state's error naming the token; otherwise they store the token's value and continue after the space |
| Parser.DigestRefererCases | access-log.go:114-120 | the referer state panics exactly in the `WrappedPanics` case; it stops exactly when the input does not start with a quoted field followed by a space or the end, and a referer error carries the cause that extractWrappedUntil gives together with the whole remaining input; otherwise it stores the quoted text as written and continues after the field |
| Parser.DigestUserAgent | access-log.go:122-125 | the last state consumes all the input and sets only the user-agent, to the input with surrounding quotes trimmed |
| Parser.DigestStep | access-log.go:58-126 | one loop turn on non-empty input: it continues on a strictly shorter suffix changing only the current state's field, or stops with a non-Ok outcome raised in that state, panicking only in states 4 and 7 |
| Parser.DigestFrom | access-log.go:58-129 | the loop ends by state 9; empty input changes nothing; fields before the start state are untouched; on success every field from the final state on is untouched; on failure only fields up to the failing state may have changed, and only state 4 changes its own field before failing |
| Parser.Digest | access-log.go:55-130 | at most nine states run; empty input returns Ok and leaves the entry unchanged; fields the loop never reached keep the receiver's values; each error kind comes from its own state |
| LineFormat.StepIdentity | access-log.go:60-73 | an identity field followed by a space is read, placeholder-normalised, into its own field |
| LineFormat.StepTime | access-log.go:75-81 | a bracketed time is read, placeholder-normalised, into the time field |
| LineFormat.StepRequest | access-log.go:83-93 | a quoted three-token request line is read into method, URI and version |
| LineFormat.StepNumber | access-log.go:95-112 | the decimal text of any integer is read back into status or bytes |
| LineFormat.StepReferer | access-log.go:114-120 | a quoted referer is stored as written, `-` included |
| LineFormat.StepUserAgent | access-log.go:122-125 | a quoted user-agent is stored without its quotes |
| LineFormat.StepField | access-log.go:58-126 | field j of any line written from `Writable` parts, followed by the rest of the line, is read by state j into field j of the expected entry, and state j continues on that rest |
| LineFormat.DigestSegment | access-log.go:55-130 | states j to k on fields j to k of such a line fill exactly fields j to k from the expected entry and end in state k with no error |
| LineFormat.PrefixOfLine | access-log.go:50-51 | every written line is its first k fields followed by the remaining ones |
| LineFormat.DigestPrefix | access-log.go:55-130 | for every k from 0 to 9, the first k fields of a line written from `Writable` parts digest with no error and end in state k; fields below k come from the expected entry, the others keep the receiver's values |
| LineFormat.DigestCombinedLine | access-log.go:55-130 | for any receiver, any line written from `Writable` parts digests with no error through all nine states into exactly those parts; host, logname, user and time are nil-normalised, the referer is not |
| LineFormat.ExampleIsCombined | access-log.go:50-51 | the example line is the combined-format line of its parts |
| LineFormat.DigestExampleLine | access-log.go:50-51 | the example line parses to host `73.92.251.192`, empty logname and user, the time, `GET`, the URI, `HTTP/1.1`, status 200, 14687 bytes, the referer and the user-agent |
| Truncated.DigestHead | access-log.go:60-81 | a line's first four fields are read and state 4 runs on what follows them |
| Truncated.DigestHostOnly | access-log.go:58-73 | a line holding only a host stops after one state with no error, setting only the host |
| Truncated.DigestLastIdentity | access-log.go:58-73 | an identity state on a last token without a space stores the token placeholder-normalised in its own field, and Digest returns with no error |
| Truncated.DigestEndsInLogname | access-log.go:58-73 | a line that ends in the logname returns with no error after two states, storing host and logname placeholder-normalised |
| Truncated.DigestEndsInUser | access-log.go:58-73 | a line that ends in the user returns with no error after three states, storing host, logname and user placeholder-normalised |
| Truncated.DigestEndsAfterPlaceholderRequest | access-log.go:83-93 | a line ending after a `-` request succeeds: the request is the empty Request{} and the later fields keep the receiver's values |
| Truncated.DigestUnclosedRequestPanics | access-log.go:170-188 | an unclosed request quote followed by a space panics in state 4 |
| Truncated.DigestUnclosedRequestNoDelimiter | access-log.go:170-196 | an unclosed request quote followed by anything else fails with "not followed by delimiter" in state 4 |
| Truncated.DigestBadTime | access-log.go:60-81 | three identity fields followed by anything that does not start with `[` fail in state 3 with a bad-start time error, after the identity fields were stored |
| Truncated.DigestFromBadNumber | access-log.go:95-112 | a status or bytes token that is not a decimal integer ends the loop in that state with the state's error and the entry unchanged |
| Truncated.DigestBadStatus | access-log.go:95-100 | a non-integer status fails in state 5 with that token and leaves the status field as it was |
| Truncated.DigestBadBytes | access-log.go:105-110 | a non-integer bytes field after a valid status fails in state 6 with that token; the status is stored and the bytes field is left as it was |
| Ranking.SelectPairs | access-log.go:218-223 | the selected pairs are exactly the map entries the filter keeps, each key once |
| Ranking.Insert | access-log.go:225-227 | inserting into an ordering by non-increasing count keeps it ordered and adds exactly that pair |
| Ranking.SortByValue | access-log.go:225-227 | the result is ordered by non-increasing count and is a permutation of the input |
| Ranking.FilterSort | access-log.go:215-230 | the output holds exactly the entries with count >= min and (max <= 0 or count <= max), each key once, ordered by non-increasing count, no longer than the map |
| Ranking.RankByCount | main.go:139-154 | the output holds exactly the entries with count >= threshold, each key once, ordered by non-increasing count, no longer than the map |
| Ranking.SameMembersPermutation | access-log.go:225-227 | two duplicate-free sequences with the same members are permutations of each other |
| Ranking.RankByCountIsUnboundedFilterSort | main.go:139-154 | any rankByCount(m, t) output and any filterSort(m, t, max) output with max <= 0 hold the same pairs and are permutations of each other |
| Ranking.SortedPermutationsSameCounts | access-log.go:225-227 | two orderings by count of the same pairs have the same count at every position, so they differ only in tie order |
| Ranking.RankByCountSameCounts | main.go:149-151 | rankByCount(m, t) and filterSort(m, t, max <= 0) give the same column of counts |
| Ranking.FilterSortExample | access-log.go:215-230 | filterSort({a: 5, b: 20, c: 15}, 10, 0) can only be [(b, 20), (c, 15)] |
| Pipeline.ParseFile | main.go:113-123 | success exactly when every line digests; then there is one entry per line, entry k being line k digested into a zero entry; otherwise the status is that of the first failing line |
| Pipeline.Bump | main.go:76 | incrementing a missing key stores 1; other keys are unchanged |
| Pipeline.Tally | main.go:75-77 | an entry adds one to the count of its URI exactly when it is a 404 response, creating the key at 1; no other key changes |
| Pipeline.FoldEntries | main.go:74-78 | folding one batch loses no key and lowers no count; every new key is the URI of some 404 entry of the batch and has count at least 1 |
| Pipeline.FoldBatches | main.go:73-79 | folding the batches in arrival order loses no key and lowers no count; every new key is the URI of some 404 entry of some batch and has count at least 1 |
| Pipeline.CountNotFound | main.go:48-79 | every URI in the final map has count at least 1 and is the URI of some 404 entry |
| Pipeline.FoldEntriesCounts | main.go:74-78 | folding a batch adds, per URI, its number of 404 entries and adds no other key |
| Pipeline.FoldEntriesAppend | main.go:74-78 | folding two batches in turn equals folding their concatenation |
| Pipeline.FoldBatchesFlatten | main.go:73-79 | the nested loops equal one fold over all entries in arrival order |
| Pipeline.CountNotFoundSpec | main.go:73-79 | the map's keys are exactly the URIs with at least one 404, and each maps to its number of 404 entries over all batches |
| Pipeline.CountFlattenPermutation | main.go:73-79 | the per-URI 404 count over all batches is the same for every arrival order |
| Pipeline.CountNotFoundOrderIndependent | main.go:54-79 | the counting map is the same for any permutation of the batches |
| Pipeline.Run | main.go:54-83 | the run reports nothing exactly when some line of some file fails to digest; otherwise the batches are the digested lines, and the report holds exactly the URIs with at least ten 404s and their counts, each once, ordered by count |

## Left out

- Timing (`timing/`), flags, usage text, the verbose output and printing the report: these are clocks and I/O. `Run` returns the ranked pairs instead of writing `"%d: %s\n"` lines.
- Goroutines, the wait group and the channel: the batches are folded in one given order, and `CountNotFoundOrderIndependent` shows that the order does not matter.
- File handling in `parseFile` (open, stat, the capacity hint, `bufio.Scanner` line splitting and `scanner.Err()`): `ParseFile` takes the lines as given.
- `stderr.Fatalln` exiting the process is modelled as `Run` returning `None`; a panic in a file goroutine also ends the process, and counts the same way.
- The text of error messages: errors are tagged with the field and cause; the offsets returned alongside an error are not modelled.
- GoLib.Atoi: overflow is not modelled; integers are unbounded, and the model does not return Go's range error for values beyond 64 bits.
- GoLib.Fields: only the ASCII space separates tokens; `fmt.Fscanf` also skips tabs and other white space between tokens, and reports a newline inside the input as an error. The program never meets one, because `bufio.Scanner` never leaves a `\n` inside a line. Go's `%s` verb also reads runes: it rewrites each invalid UTF-8 byte as U+FFFD (bytes EF BF BD), while the model keeps the raw byte. So a URI holding a raw byte such as 0xFF is stored, and counted under a 404 key, differently from Go.
- Ranking.SortByValue: an insertion sort stands in for `sort.Slice`; only order by count and permutation are promised, not Go's tie order.
- `KVPairList` and its sort methods are unused by the program; the duplicated `KVPair` declaration is modelled once.
- Bytes are characters below 256, so that log lines can be written as string literals; no text encoding is modelled.
- Extract.ExtractWrappedUntil: the slice `input[1:0]` that panics in Go is excluded by the precondition `!WrappedPanics`; callers in `Parser` test `WrappedPanics` first and report `Panicked`.
