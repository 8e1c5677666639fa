# TestForge verification model

This project models TestForge, a C++ test runner, and proves properties of the
model with Dafny.  `dafny verify dfyconfig.toml` checks the whole project.

What is modelled:

* **JSON** - the cursor-based parser, the printer in compact and indented modes,
  and the value operations they use, against the grammar of sections 2 to 7 of
  RFC 8259 and the UTF-8 encoding of RFC 3629
  (`json_*.dfy`, `utf8.dfy`).
* **Test specifications** - their JSON form, the gate that validates generated
  ones, and the registry that takes them in (`spec_*.dfy`).
* **String scanners** - wildcard matching and the masking of secrets
  (`glob.dfy`, `redact*.dfy`, `text.dfy`).
* **HTTP bodies** - the chunked decoder and the loops that read headers and body
  (`chunked*.dfy`, `body_reader.dfy`).
* **URLs** - parsing, printing, joining, percent encoding, queries, and the request
  policy (`url*.dfy`).
* **Threads** - the worker pool, cancellation of a run, and the execution of one
  test body with its deadline, each as a state machine whose steps are what a
  thread does under a lock or between two visible actions (`pool.dfy`,
  `cancellation.dfy`, `bounded_body.dfy`).
* **Runs** - retries, fail-fast and exit codes, failure categories, statistics,
  test selection and test identifiers, and the machines above put together
  (`run.dfy`, `runner.dfy`, `classifier.dfy`, `stats.dfy`,
  `selector.dfy`, `ids.dfy`, `order.dfy`).

Conventions:

* A `string` stands for a C++ byte string, one char per byte; the C locale is
  assumed for character classes.  Where positions are 64 bits wide, texts are
  shorter than 2^63 bytes, as every std::string is.
* Code that works step by step is a method or a class, proved against a function;
  the properties are lemmas about the functions.  `Option` stands for exceptions
  and error returns.
* A double is an opaque literal, or not finite.  `formatDouble` and `strtod` are
  taken to round-trip on literals within the range of doubles; beyond it, from
  2^1024 - 2^970 on, `strtod` gives an infinity.  Converting a double to an integer is a
  parameter named `cast`.
* Some laws hold only under a condition.  They are stated as equivalences with that
  condition, and the code is kept as it is.  In particular: the wildcard loop tests
  equality before it tests for a star, so it is exact only on texts without a star;
  a host with a colon, an at sign or a leading bracket is printed in a way that
  does not parse back; a number beyond the range of doubles does not come back from
  being printed; two ways of splitting a long response into reads can differ in
  whether the body is truncated, and chunk sizes near 2^64 make the position of the
  chunked decoder overflow; a fail-fast trip does not reach running tests without a
  deadline; two pairs of suite and name can be hashed as one text; a retry that is
  skipped flags its test as flaky; and a run that was cancelled with an empty reason
  exits with 0.
* The comment in `src/core/StringUtils.cpp` calls each redaction rule idempotent;
  here the whole function is proved so, together with what later rules must not do
  to earlier ones.
* The documentation of `parseUrl` promises only http and https URLs; the code accepts
  any scheme, and the model follows the code.

## Model

| member | source | states |
|---|---|---|
| `Utf8.EncodeExact` | src/core/Json.cpp:17-36 | For every code point up to 0x10FFFF the appended bytes are one to four well-formed UTF-8 bytes that decode to exactly that code point; surrogates become U+FFFD |
| `JsonParser.Parser.SkipWhitespace` | src/core/Json.cpp:157-166 | Moves the cursor over exactly the leading whitespace |
| `JsonParser.Parser.ConsumeLiteral` | src/core/Json.cpp:175-180 | Accepts the literal at the cursor and nothing else |
| `JsonParser.Parser.ParseHex4` | src/core/Json.cpp:278-297 | Reads four hexadecimal digits as their value below 0x10000, or fails |
| `JsonParser.Parser.ParseUnicodeEscape` | src/core/Json.cpp:342-370 | One escape or a surrogate pair, with the look-ahead rolled back when no low surrogate follows |
| `JsonParser.Parser.ParseEscape` | src/core/Json.cpp:311-363 | A backslash and what follows it append exactly what the specification appends, and an unknown escape fails |
| `JsonParser.Parser.ParseString` | src/core/Json.cpp:299-371 | The cursor version of a string agrees with the specification on acceptance, content and end position |
| `JsonParser.Parser.ParseNumber` | src/core/Json.cpp:373-428 | Numbers of the JSON grammar; integers that do not fit 64 bits become doubles, and what is beyond the doubles becomes infinite |
| `JsonParser.Parser.ParseValue` | src/core/Json.cpp:182-208 | Dispatch on the first character, with the depth test first |
| `JsonParser.Parser.ParseArray` | src/core/Json.cpp:210-233 | The element loop equals the recursive specification |
| `JsonParser.Parser.ParseObject` | src/core/Json.cpp:235-276 | The member loop equals the recursive specification; a repeated key keeps its place and takes the last value |
| `JsonParser.Parser.ParseDocument` | src/core/Json.cpp:123-131 | The whole text is one value between whitespace, or the parse fails |
| `JsonParser.TryParse` | src/core/Json.cpp:827-846 | Length limit, then the document parser; no result stands for the exception |
| `JsonValue.Set` | src/core/Json.cpp:714-730 | Replaces the first member with the key or appends one |
| `JsonValue.FindAfterSet` | src/core/Json.cpp:658-730 | find after set returns the stored value, and every other key is undisturbed |
| `JsonParse.ParsedIsTidy` | src/core/Json.cpp:182-276 | Parsed values never repeat a key in an object and respect the depth limit |
| `JsonParse.ParseNumSound` | src/core/Json.cpp:373-428 | The number scanner consumes exactly one number of the grammar |
| `JsonGrammar.DocumentParses` | src/core/Json.cpp:119-433 | Completeness: every text derivable by the grammar of RFC 8259 sections 2 to 7 with nesting within the limit parses to its meaning |
| `JsonGrammar.DocumentSound` | src/core/Json.cpp:119-433 | Soundness: every accepted text has a derivation, which is constructed |
| `JsonGrammar.ParserIsExact` | src/core/Json.cpp:119-433 | The parser accepts exactly the derivable texts and returns the value of every derivation |
| `JsonGrammar.OneMeaning` | src/core/Json.cpp:119-433 | Two derivations of one text mean the same value |
| `JsonGrammar.LimitOnlyRejects` | src/core/Json.cpp:182-208 | A larger depth limit never changes the value of a text that already parsed |
| `JsonPrint.EscapeInto` | src/core/Json.cpp:38-80 | Appends the quoted, escaped text and nothing else |
| `JsonPrint.DumpInto` | src/core/Json.cpp:435-503 | The appending printer equals the recursive specification in compact and indented modes |
| `JsonPrint.DumpItemsInto` | src/core/Json.cpp:460-479 | The array loop of the printer, with separators and padding |
| `JsonPrint.DumpMembersInto` | src/core/Json.cpp:480-500 | The object loop of the printer |
| `JsonPrint.DumpSpelling` | src/core/Json.cpp:435-503 | Every printed text is a spelling of the derivation tree of the value, for every indentation |
| `JsonRoundTrip.PrintedTextParses` | src/core/Json.cpp:119-503 | Every printed value within the depth limit parses, to its canonical form |
| `JsonRoundTrip.RoundTripExact` | src/core/Json.cpp:119-503 | parse(dump(v)) == v exactly when no object repeats a key, all doubles are finite, and depth and length are within the limits |
| `JsonOverflow.FitsExactly` | src/core/Json.cpp:182-428 | The doubles of a parsed value are all finite exactly if no number in the text overflows, those in members that a later member with the same key replaces not counted |
| `JsonOverflow.NumValueKeeps` | src/core/Json.cpp:412-427 | A parsed number stands for the quantity that its literal stands for, as an integer or a double; only what is at least 2^1024 - 2^970 is lost |
| `JsonOverflow.ParsedIsCanonical` | src/core/Json.cpp:119-433 | A parsed value is canonical (distinct keys, finite doubles) exactly if no number that counts overflows |
| `JsonOverflow.ParsePrintParse` | src/core/Json.cpp:85-503 | Parsing, printing with any indentation and parsing again gives the same value exactly if no number that counts overflows |
| `JsonOverflow.HugeIsLost` | src/core/Json.cpp:85-88 | The failing input: 1e999 parses to an infinity, which prints as null |
| `JsonUtf8.CharsUtf8` | src/core/Json.cpp:299-371 | From well-formed input every string that the escape loop builds is well-formed UTF-8 |
| `JsonUtf8.DocumentUtf8` | src/core/Json.cpp:119-433 | From well-formed input every string and key of the parsed value is well-formed UTF-8 |
| `JsonEscapes.PairIsItsCodePoint` | src/core/Json.cpp:342-356 | For every code point beyond 0xFFFF the escapes of its two UTF-16 halves, in any spelling, are read as the bytes of that code point |
| `JsonEscapes.UnitIsItsCodePoint` | src/core/Json.cpp:342-358 | One escape is read as the character with its number, and half of a pair on its own as U+FFFD |
| `JsonEscapes.NoPairIsTwoCharacters` | src/core/Json.cpp:342-358 | Two escapes that are no pair are read one by one: the look-ahead takes nothing away |
| `JsonEscapes.ShortEscape` | src/core/Json.cpp:316-341 | What each of the eight two-character escapes stands for |
| `JsonEscapes.NoOtherEscape` | src/core/Json.cpp:359-360 | No other character may follow a backslash |
| `SpecJson.KindRoundTrip` | src/ai/TestSpec.cpp:33-50 | Each assertion kind reads back from its printed name, and no other kind does |
| `SpecJson.TestRoundTrip` | src/ai/TestSpec.cpp:145-269 | fromJson(toJson(test)) == test exactly when name and endpoint are trimmed and non-empty, the method is trimmed upper case, header keys differ, the budget is not negative and required targets are present |
| `SpecJson.ScalarsRead` | src/ai/TestSpec.cpp:190-247 | The scalar fields of every test that can be read, with the defaults GET, 200 and no budget and the other names path and expectedStatus |
| `SpecJson.ReadableExactly` | src/ai/TestSpec.cpp:190-258 | When a test can be read: an object with a name, an endpoint or path, and readable assertions |
| `SpecJson.SparseTest` | src/ai/TestSpec.cpp:190-269 | The test that is read from a name and a path alone |
| `SpecJson.SuiteRoundTrip` | src/ai/TestSpec.cpp:275-331 | The same for a suite: exactly when its name is trimmed and non-empty, it has tests, and all of them are stable |
| `SpecJsonProgram.TestToJson` | src/ai/TestSpec.cpp:145-188 | The object built by successive set calls is the specified one |
| `SpecJsonProgram.SuiteToJson` | src/ai/TestSpec.cpp:275-290 | The same for the object of a suite and its list of tests |
| `SpecJsonProgram.ReadTest` | src/ai/TestSpec.cpp:190-269 | Reading with early failure equals the specification |
| `SpecJsonProgram.ReadSuite` | src/ai/TestSpec.cpp:292-331 | The suite reader stops at the first unreadable test |
| `SpecJsonProgram.Parse` | src/ai/TestSpec.cpp:333-350 | Text to suite under the limits of depth 24 and 2 MiB |
| `SpecPipeline.PipelineExact` | src/ai/TestSpec.cpp:86-350 | A suite survives being written, printed with any indentation, parsed and read back exactly when it is stable, carries only printable values, and its document is within the limits |
| `Text.TrimExact` | src/core/StringUtils.cpp:36-46 | Trimming yields trimmed text and changes nothing exactly on trimmed text |
| `Text.ParseIntOfDecimalText` | src/core/StringUtils.cpp:441-454 | Reading back a printed non-negative 64-bit integer |
| `Text.ParseIntOfDigits` | src/core/StringUtils.cpp:441-454 | Every spelling of an integer with an optional sign is read as its value, or refused if 64 bits do not hold it |
| `Text.ParseIntOfGarbage` | src/core/StringUtils.cpp:441-454 | Anything else behind the digits makes the text no number |
| `Glob.GlobMatch` | src/core/StringUtils.cpp:175-202 | On texts without a star the greedy loop decides the recursive meaning of the pattern, within (|pattern|+1)*(|text|+1) steps |
| `Glob.LaterStarSuffices` | src/core/StringUtils.cpp:188-193 | Whatever an earlier star could match, the later star can match from its first place: backtracking to the last star is enough |
| `Glob.GlobExact` | src/core/StringUtils.cpp:175-202 | The loop agrees with the meaning of every pattern exactly on the texts that contain no star |
| `Glob.StarInTextMisleads` | src/core/StringUtils.cpp:184-190 | For every text with a star, a pattern that should match and is rejected |
| `RedactProgram.MaskNamed` | src/core/StringUtils.cpp:247-290 | The loop for one credential name equals the specified pass and terminates |
| `RedactProgram.MaskBearer` | src/core/StringUtils.cpp:292-316 | The loop for bearer tokens equals the specified pass and terminates |
| `RedactProgram.MaskPrefixed` | src/core/StringUtils.cpp:318-343 | The loop for one token prefix equals the specified pass and terminates |
| `RedactProgram.RedactSecrets` | src/core/StringUtils.cpp:225-346 | The whole function is the thirteen passes in order |
| `RedactStable.StepKeepsClean` | src/core/StringUtils.cpp:225-346 | Masking one value in a later pass never exposes a value that an earlier pass had dealt with |
| `RedactStable.PassCleans` | src/core/StringUtils.cpp:247-343 | After a pass, no occurrence of its word has a readable value |
| `RedactStable.NameInOutput` | src/core/StringUtils.cpp:247-290 | In the output, a listed name followed by a separator has an empty value or exactly the mask, character by character |
| `RedactReadable.NameInOutputExactly` | src/core/StringUtils.cpp:239-290 | A listed name in the output, in any case, has no value or exactly the mask, told character by character |
| `RedactReadable.BearerInOutput` | src/core/StringUtils.cpp:292-316 | The word bearer in the output is followed by no token, or by exactly the mask, told character by character |
| `RedactReadable.TokenInOutput` | src/core/StringUtils.cpp:318-343 | No listed token prefix in the output is followed by eight letters, digits, hyphens or underscores |
| `RedactReadable.TokenIsMasked` | src/core/StringUtils.cpp:318-343 | A token prefix with eight or more such characters never stays as it is |
| `RedactReadable.NameValueExactly` | src/core/StringUtils.cpp:256-275 | The value of a name is exactly what stands behind one separator with blanks and quotes around it, up to a character that ends values, less trailing blanks |
| `RedactReadable.PassReplacesValues` | src/core/StringUtils.cpp:247-343 | One pass replaces by the mask only whole values that its text has for the pass's word, in their order, and changes nothing else |
| `RedactReadable.RedactedByPasses` | src/core/StringUtils.cpp:225-346 | The function is thirteen such passes: seven names, bearer, five token prefixes |
| `RedactStable.FixedExactlyWhenClean` | src/core/StringUtils.cpp:225-346 | The texts that redaction leaves unchanged are exactly those with nothing to mask |
| `RedactStable.RedactIdempotent` | src/core/StringUtils.cpp:225-346 | Redacting twice is redacting once, for every text |
| `Chunked.ReadSize` | src/net/HttpClient.cpp:294-316 | The digit loop computes the 64-bit size, skips blanks, and rejects everything else |
| `Chunked.DecodeChunked` | src/net/HttpClient.cpp:283-329 | The decoding loop in 64-bit arithmetic, watched for any number of turns, is in the specified place with the specified output |
| `Chunked.RunsForever` | src/net/HttpClient.cpp:283-329 | The loop stops within one turn more than the buffer has bytes, or never |
| `Chunked.DecodedExactly` | src/net/HttpClient.cpp:283-329 | Unless a position overflows, the loop ends with the verdict of a decoder with unbounded positions; a framing that is complete or malformed for that one never makes a position overflow |
| `Chunked.DecodeExtends` | src/net/HttpClient.cpp:283-329 | As long as no position overflows, a longer buffer only extends the output, and complete and malformed verdicts are final |
| `Chunked.CompleteIsFinal` | src/net/HttpClient.cpp:283-329 | A complete verdict is final exactly if no position overflowed on the way |
| `ChunkedFraming.WrappedBody` | src/net/HttpClient.cpp:318-325 | The failing input: a chunk size of 2^64 - 2 gives a complete body with the framing in it, which grows with every further byte |
| `ChunkedFraming.EndlessLoop` | src/net/HttpClient.cpp:318-325 | A first chunk size of 2^64 - 20 sends the loop back to its start for ever |
| `ChunkedFraming.ShortSizesNeverWrap` | src/net/HttpClient.cpp:300-325 | As long as the size lines met have fewer than 16 hexadecimal digits, no position overflows |
| `ChunkedFraming.DecodesWire` | src/net/HttpClient.cpp:283-329 | Decoding inverts encoding for every list of chunks, however sizes are spelled, with anything behind the last size line |
| `ChunkedFraming.SizeExact` | src/net/HttpClient.cpp:294-316 | A size line is read as n exactly if what stands before its semicolon is hexadecimal digits and blanks, at least one character, that spell n up to multiples of 2^64 |
| `ChunkedFraming.DecodeExact` | src/net/HttpClient.cpp:283-329 | The decoder completes without an overflow on exactly the framed bodies, with exactly their payloads; the framing is defined without the decoder |
| `ChunkedRfc.RfcDecodes` | src/net/HttpClient.cpp:283-329 | Every chunked body of section 7.1 of RFC 9112, with extensions and trailer fields, is decoded to its data |
| `ChunkedRfc.RfcExactly` | src/net/HttpClient.cpp:283-329 | Which of the accepted texts are chunked bodies of the standard, and so which are accepted beyond it: other bytes than a line break behind data, blanks within sizes, multiples of 2^64, malformed extensions and trailers |
| `ChunkedRfc.AnyTwoBytesEndData` | src/net/HttpClient.cpp:321-325 | A whole family of texts that are accepted and are no chunked body of the standard |
| `ChunkedFraming.ChunkExists` | src/net/HttpClient.cpp:283-329 | Every non-empty piece of data has a chunk that frames it |
| `ChunkedFraming.ShortSizes` | src/net/HttpClient.cpp:300-316 | Sizes of fewer than 16 hexadecimal digits stay far from overflow |
| `BodyReader.ReadBody` | src/net/HttpClient.cpp:536-578 | The reading loop, with its end-of-file and size tests, equals the specified loop; a decoder that never stops is its own outcome |
| `BodyReader.CloseDelimited` | src/net/HttpClient.cpp:536-578 | A body that only the end of the stream delimits: all of it if the connection was closed, a failure if reading broke off, its first bytes if it is longer than the limit; for every split |
| `BodyReader.LengthDelimited` | src/net/HttpClient.cpp:550-571 | A body of announced length within the limit: its bytes as soon as they are there, what arrived if the connection was closed before, a failure if reading broke off before |
| `BodyReader.ChunksUnfinished` | src/net/HttpClient.cpp:540-563 | An unfinished chunked body: what arrived if the connection was closed, a failure if reading broke off |
| `BodyReader.ChunksMalformed` | src/net/HttpClient.cpp:540-545 | A malformed chunked body is refused, wherever the reads are cut |
| `BodyReader.ReadHeaders` | src/net/HttpClient.cpp:459-483 | The header loop stops at the first blank line, at the size limit, or at the end of the stream |
| `BodyReader.HeadersNotFound` | src/net/HttpClient.cpp:459-483 | Without a blank line: too many bytes are refused, a closed connection leaves the headers unfinished, a broken one is a failure; for every split |
| `BodyReader.SplitsAgreeExactly` | src/net/HttpClient.cpp:536-578 | If no position of the chunked decoder overflows, every way of splitting the bytes into reads gives the same body exactly when the body is known within maxResponseBytes + 1 bytes or not at all |
| `BodyReader.WrappedSplitsDisagree` | src/net/HttpClient.cpp:536-578 | Where a position did overflow in a complete body, reads that cut behind it and reads that do not give different bodies |
| `BodyReader.LateLengthIsCut` | src/net/HttpClient.cpp:550-571 | Inputs on which splits disagree: every body of maxResponseBytes + 2 announced bytes is whole in one read and truncated in two |
| `BodyReader.ShortResponsesSplitFreely` | src/net/HttpClient.cpp:536-578 | In particular for every response no longer than the limit in which no position overflows |
| `BodyReader.ChunkedResponse` | src/net/HttpClient.cpp:536-578 | A complete chunked response is read as its payload, however it arrives |
| `BodyReader.HeadersOfStream` | src/net/HttpClient.cpp:459-490 | The header block and the bytes behind it are those of the whole stream |
| `BodyReader.HeadersFoundExactly` | src/net/HttpClient.cpp:464-478 | Every split finds the headers exactly when their blank line ends within the limit and one byte |
| `BodyReader.LateHeadersDisagree` | src/net/HttpClient.cpp:464-476 | Inputs on which splits disagree: 64 KiB of header bytes before the blank line are found in one read and too long in two |
| `BodyReader.ResponseSplitsFreely` | src/net/HttpClient.cpp:459-578 | Headers and body together do not depend on the split, as long as no position overflows |
| `Url.ParseUrl` | src/net/Url.cpp:81-175 | The step-by-step parser equals the specification |
| `Url.AssembleUrl` | src/net/Url.cpp:101-172 | Fragment, authority, user information, host, port, path and query are cut in the order of the program |
| `Url.SplitHostPort` | src/net/Url.cpp:125-154 | Host and port, with bracketed hosts and the last colon |
| `Url.ParsedIsWellFormed` | src/net/Url.cpp:81-175 | Every parsed URL has lower-case scheme and host, a port up to 65535, a rooted path, and parts free of delimiters |
| `UrlParts.PartsReadBack` | src/net/Url.cpp:81-175 | Every text that is put together from the components of section 3 of RFC 3986 is parsed into them, user information dropped, defaults filled in |
| `UrlRoundTrip.PrintParse` | src/net/Url.cpp:56-175 | parseUrl(toString(u)) == u exactly when the host has no at sign, no leading bracket, and a colon only beside a printed port, and no blank ends the text |
| `UrlRoundTrip.ParsePrintParse` | src/net/Url.cpp:56-175 | The same for whatever parseUrl accepts |
| `UrlRoundTrip.BracketedHostIsLost` | src/net/Url.cpp:56-175 | The failing input: http://[::1]/ is printed without its brackets, which reads as the host : and the port 1 |
| `UrlRoundTrip.BlankEndOfPathIsLost` | src/net/Url.cpp:56-175 | The other failing input: the blank in http://h/ # is kept by the first parse and lost in the second |
| `UrlRoundTrip.PlainHostRoundTrip` | src/net/Url.cpp:56-175 | Plain hosts and targets without blanks always come back |
| `UrlJoin.JoinUrl` | src/net/Url.cpp:177-215 | The joining code, with its loop over trailing slashes, equals the specification |
| `UrlJoin.JoinStaysPut` | src/net/Url.cpp:177-215 | A joined URL re-parses with the scheme, host and port of the base if the base host is printable, and never with its host otherwise |
| `UrlJoin.BracketedBaseMoves` | src/net/Url.cpp:177-215 | The failing input: joining to http://[::1]/ gives a URL with another host and port |
| `UrlJoin.JoinReadsBack` | src/net/Url.cpp:177-215 | Without a fragment in the path the joined URL re-parses whole, exactly when no blank ends it |
| `UrlJoin.JoinedExactly` | src/net/Url.cpp:177-215 | The joined URL has the path of the base without the slashes at its end, one slash and the path given, and the query given alone |
| `UrlPolicy.IsIpv4Literal` | src/net/Url.cpp:24-52 | The scan recognises exactly four decimal numbers up to 255 between dots, and returns them |
| `UrlPolicy.DottedIsRecognised` | src/net/Url.cpp:24-52 | Every spelling of an address, leading zeros included, is recognised as that address |
| `UrlPolicy.LinkLocalRejected` | src/net/Url.cpp:303-316 | No dotted decimal spelling of a link-local address, leading zeros included, passes a policy that blocks them |
| `UrlPolicy.AddressAcceptedExactly` | src/net/Url.cpp:282-335 | Which dotted decimal addresses a policy without a host list accepts: the loopback, link-local and private ranges, by their numbers |
| `UrlEncoding.UrlEncode` | src/net/Url.cpp:217-232 | The encoding loop equals the specification |
| `UrlEncoding.UrlDecode` | src/net/Url.cpp:234-263 | The decoding loop, with its look-ahead, equals the specification |
| `UrlEncoding.DecodeEncode` | src/net/Url.cpp:217-263 | Decoding undoes encoding for every byte string |
| `UrlEncoding.DecodeFixedExactly` | src/net/Url.cpp:234-263 | Decoding leaves a text alone exactly if it holds no plus and no complete escape |
| `UrlEncoding.DecodeForm` | src/net/Url.cpp:234-263 | The encoding of forms, with plus signs for blanks and digits in lower case, is decoded as well |
| `UrlEncoding.EncodedIsPlain` | src/net/Url.cpp:217-232 | An encoding holds nothing that has a meaning of its own in a query or URL |
| `UrlEncoding.ReadQuery` | src/net/Url.cpp:265-276 | The pairs of a query, piece by piece |
| `UrlEncoding.QueryRoundTrip` | src/net/Url.cpp:217-276 | The query that spells a list of names and values reads back as that list |
| `SpecValidate.IsSafeName` | src/ai/SpecValidator.cpp:91-119 | The test of a name equals the rule |
| `SpecValidate.IsSafeEndpoint` | src/ai/SpecValidator.cpp:121-162 | The test of an endpoint equals the rule |
| `SpecValidate.ValidateOne` | src/ai/SpecValidator.cpp:164-277 | The findings on a test, in order, are the specified ones |
| `SpecGate.ProblemsExact` | src/ai/SpecValidator.cpp:164-277 | A test draws a fatal finding exactly when it breaks one of the rules |
| `SpecValidate.Validate` | src/ai/SpecValidator.cpp:279-337 | The loop over the suite, with truncation, duplicate names and counters, equals the specification |
| `SpecValidate.Conservation` | src/ai/SpecValidator.cpp:279-337 | Accepted plus rejected is the number of tests given; accepted is the number that remain; valid means that some remain |
| `SpecValidate.SurvivorsArePicked` | src/ai/SpecValidator.cpp:300-330 | The survivors are exactly the tests that meet the rules and have no earlier namesake, in their old order |
| `SpecValidate.SurvivorsAreGood` | src/ai/SpecValidator.cpp:300-330 | Survivors meet every rule and their names differ even in lower case |
| `SpecValidate.SurviveAll` | src/ai/SpecValidator.cpp:279-337 | Distinct tests all survive exactly when all meet the rules |
| `SpecRegistry.PermittedExactly` | src/testing/SpecTestCase.cpp:181-184 | Under the policy made from the base URL, safe endpoints are all permitted if the base is http or https with a printable host, and none otherwise |
| `SpecRegistry.Revalidated` | src/testing/SpecTestCase.cpp:174-190 | Validating survivors again rejects none under a usable base, and all under any other |
| `SpecRegistry.SchemeOfSurvivors` | src/testing/SpecTestCase.cpp:181-184 | When a default policy let something through, the base is usable exactly when its host is printable |
| `SpecRegistry.BracketedBaseIsUnusable` | src/testing/SpecTestCase.cpp:181-184 | The base http://[::1]/ parses and cannot be used, so all tests for it are refused |
| `SpecRegistry.TestRegistry.RegisterTest` | src/testing/TestRegistry.cpp:17-25 | A duplicate name is refused and changes nothing |
| `SpecRegistry.TestRegistry.RegisterOrReplace` | src/testing/TestRegistry.cpp:27-31 | Stores the entry under its qualified name |
| `SpecRegistry.TestRegistry.RemoveSuite` | src/testing/TestRegistry.cpp:33-45 | Erasing while iterating leaves exactly the other suites, and counts what went |
| `SpecRegistry.TestRegistry.RegisterSpecSuite` | src/testing/SpecTestCase.cpp:174-221 | Second validation, removal of the old suite, registration of the survivors; a refusal changes nothing |
| `SpecRegistry.RegisteredExactly` | src/testing/SpecTestCase.cpp:192-220 | Afterwards the suite holds exactly its tests, and every other entry is unchanged unless a test took its key |
| `SpecRegistry.RegisteredTags` | src/testing/SpecTestCase.cpp:199-209 | Generated tests carry the tags generated and the suite name besides their own |
| `SpecRegistry.SurvivorsAreRegistered` | src/testing/SpecTestCase.cpp:174-221 | From the first validation to the registry: under a usable base the suite holds exactly what the gate let through and every other entry is unchanged unless its key was taken; under any other base nothing is registered |
| `Pool.StepInv` | src/execution/ThreadPool.cpp:38-143 | Every step of every thread keeps the accounting, the wake-up and the shutdown invariants |
| `Pool.NoLostWakeup` | src/execution/ThreadPool.cpp:38-93 | In every reachable state: nobody sleeps in waitIdle while nothing is pending, a queued task has an awake worker or a notification on its way, and after an announced stop no worker sleeps |
| `Pool.WaitIdleWaited` | src/execution/ThreadPool.cpp:90-93 | Over every run: a call of waitIdle returns only by a look at the pool at which nothing was queued and no worker had a task, so that every task accepted until then had finished or been dropped |
| `Pool.IdleLookReturns` | src/execution/ThreadPool.cpp:90-93 | And a look at an idle pool lets its caller return |
| `Pool.FirstInFirstOut` | src/execution/ThreadPool.cpp:44-87 | pending is queued plus running; each accepted task is in one place; tasks start in the order of submission |
| `Pool.AfterShutdown` | src/execution/ThreadPool.cpp:100-143 | When shutdown has returned nothing is pending and every accepted task finished or was dropped; without shutdownNow all ran exactly once, in order |
| `Pool.DiscardStartsNothing` | src/execution/ThreadPool.cpp:54-64 | Behind a call of shutdownNow nothing is accepted or started, unless shutdown is called later, and the first worker to look drops what is queued |
| `Pool.WorkIsBounded` | src/execution/ThreadPool.cpp:38-88 | From a stopping state on, the workers take at most a computable number of steps, however the threads interleave |
| `Pool.StoppingNeverStalls` | src/execution/ThreadPool.cpp:38-118 | While stopping, as long as a worker has not left, some worker or announcement can go on |
| `Pool.PendingNeverStalls` | src/execution/ThreadPool.cpp:38-93 | While anything is pending, some worker can go on or a notification is under way |
| `Cancellation.CancellationSource.Cancel` | src/core/CancellationToken.cpp:59-71 | The first reason wins |
| `Cancellation.ActiveTests.RegisterActive` | src/execution/TestRunner.cpp:399-402 | Appends the source to those that a sweep reaches |
| `Cancellation.ActiveTests.UnregisterActive` | src/execution/TestRunner.cpp:404-408 | The erase-remove idiom removes exactly that source |
| `Cancellation.ActiveTests.CancelAllActive` | src/execution/TestRunner.cpp:410-415 | Every registered source ends up cancelled, and earlier reasons stay |
| `Cancellation.StepInv` | src/execution/TestRunner.cpp:399-566 | Every step of every thread keeps the registration, sweep and cancellation invariants |
| `Cancellation.SweepTouchesLiveSources` | src/execution/TestRunner.cpp:389-415 | The sweep only touches sources whose runOne is still under way |
| `Cancellation.NoCancellationLost` | src/execution/TestRunner.cpp:478-566 | For every interleaving, once requestCancellation has returned every running body has its source cancelled, and no body starts any more |
| `Cancellation.CancelledExactly` | src/execution/TestRunner.cpp:208-251 | For every interleaving, the source of a registered test is cancelled exactly when a sweep has passed it, its deadline was seen, or its poll has looked at a cancelled run |
| `Cancellation.FailFastReaches` | src/execution/TestRunner.cpp:208-225 | In a run that only fail-fast cancels, the source of an unbounded test is never cancelled, and that of a bounded one exactly when its poll has looked at the cancelled run or its deadline was seen |
| `Cancellation.FailFastReachesBounded` | src/execution/TestRunner.cpp:528-530 | The comment promises that a fail-fast trip reaches running tests: it can do so exactly for bounded tests, whose next poll does |
| `Cancellation.FailFastMissesUnbounded` | src/execution/TestRunner.cpp:714-719 | The failing run: an unbounded body runs to its end under a fail-fast trip and never hears of it |
| `Classifier.FindSignal` | src/execution/FailureClassifier.cpp:65-73 | The loop over the table of signals equals the specification |
| `Classifier.FirstSignalDecides` | src/execution/FailureClassifier.cpp:16-73 | The first signal in the table that occurs decides; without any, the message is unclassified |
| `Classifier.RefineCategory` | src/execution/FailureClassifier.cpp:151-188 | The step-by-step promotion equals the specification |
| `Classifier.RefineExactly` | src/execution/FailureClassifier.cpp:151-188 | The result is the first of the most specific categories among the base, a server error, the first signal of a transport error and a missing dependency; the hint decides exactly when that is Unknown and the hint says something |
| `Classifier.RefineCoversEvidence` | src/execution/FailureClassifier.cpp:151-188 | The result is at least as specific as the base and as every piece of evidence |
| `Classifier.RefineSharpens` | src/execution/FailureClassifier.cpp:151-188 | Refining never makes a diagnosis vaguer, keeps the most specific ones, and settles at once |
| `BoundedBody.StepInv` | src/execution/TestRunner.cpp:192-251 | Every step of worker, helper thread, clock and cancellation keeps the invariants |
| `BoundedBody.JoinedOrAdopted` | src/execution/TestRunner.cpp:238-248 | The helper thread is joined, or detached and adopted once; never both, never neither |
| `BoundedBody.ReadAfterJoin` | src/execution/TestRunner.cpp:591-627 | The shared bundle is only read after the body ended, on the bounded path after the join |
| `BoundedBody.FlagsOfRun` | src/execution/TestRunner.cpp:208-236 | The deadline flag, the run's flag and the test's own source say exactly which steps were taken before; none is ever taken back |
| `BoundedBody.JudgedVerdict` | src/execution/TestRunner.cpp:257-320 | The verdict on a judged body, told by the steps before: Timeout if the worker saw the deadline, otherwise Skipped without a category exactly if the cancellation of the run was passed on by a poll or a sweep, otherwise the body's own, refined |
| `BoundedBody.OwnVerdict` | src/execution/TestRunner.cpp:620-627 | The body's own verdict keeps its status, and a failure gets the category that base and evidence call for |
| `BoundedBody.CancelledThenPolled` | src/execution/TestRunner.cpp:222-226 | A run cancelled before a poll or a sweep has its cancellation passed on |
| `BoundedBody.PassedDeadlineTimesOut` | src/execution/TestRunner.cpp:208-236 | If the deadline passes before a look at the clock, the verdict at the end is Timeout, whatever happens in between |
| `BoundedBody.ExceededExactly` | src/execution/TestRunner.cpp:208-233 | The deadline counts as exceeded exactly if it had passed at some look at the clock: a body that ends within the last slice is not late |
| `BoundedBody.FinalVerdict` | src/execution/TestRunner.cpp:257-320 | At the end of every run: Timeout if the deadline was seen, abandoned tests included; skipped if the cancellation was passed on before the judgement; otherwise the status of the body with the category that base and evidence call for |
| `BoundedBody.WorkerNeverStalls` | src/execution/TestRunner.cpp:192-251 | The worker always has a next step |
| `BoundedBody.DeadlineEndsTheWait` | src/execution/TestRunner.cpp:208-240 | Once the deadline has passed, the worker is at most eight steps of its own from a verdict |
| `TestRun.ExecuteWithRetries` | src/execution/TestRunner.cpp:725-765 | The retry loop makes exactly the attempts of a valid log: at most 1 + retries, every one before the last a retryable failure |
| `TestRun.OneValidLog` | src/execution/TestRunner.cpp:725-765 | The answers determine the number of attempts |
| `TestRun.NothingStartsAfterStop` | src/execution/TestRunner.cpp:714-728 | Once fail-fast has stopped the scheduling, every test that is picked up is dropped and none is made to run |
| `TestRun.FailFastIsReported` | src/execution/TestRunner.cpp:714-719 | A run that fail-fast cancelled reports a reason, and an empty one only if it had been cancelled with an empty reason before |
| `TestRun.NothingIsDropped` | src/execution/TestRunner.cpp:694-801 | Without fail-fast every selected test has exactly one result, in name order, for every schedule and cancellation |
| `TestRun.ComputeExitCode` | src/core/TestResult.cpp:311-333 | The precedence of the exit codes |
| `TestRun.ExitCodesExactly` | src/core/TestResult.cpp:311-333 | When a run exits with 2, with 1 and with 4, and that there are no codes but these and 0 |
| `TestRun.StoppedRunFails` | src/core/TestResult.cpp:311-333 | A run that fail-fast has stopped exits with 1 or 2 |
| `TestRun.ExitZeroIsSuccess` | src/core/TestResult.cpp:311-333 | Exit code 0 means one non-failing result for each selected test, in name order, and no cancellation that gave a reason |
| `TestRun.SuccessIsExitZero` | src/core/TestResult.cpp:311-333 | And conversely: exit code 0 exactly then |
| `TestRun.CancelledForNoReason` | include/testforge/core/TestResult.hpp:123-125 | A concrete run that was cancelled with an empty reason and still exits with 0 |
| `Runner.SuccessIsGenuine` | src/execution/TestRunner.cpp:492-801 | The run, its attempts and their bodies together: with exit code 0 and no cancellation without a reason, every reported result is what the body of the last attempt, in time and undisturbed, reported itself, or belongs to a disabled test |
| `Runner.FlakyExactly` | src/execution/TestRunner.cpp:736-740 | The comment says that the flaky flag means passed only after a retry: it does exactly if the last attempt was not skipped behind failed ones |
| `Runner.FlakyInQuietRun` | src/execution/TestRunner.cpp:736-740 | In particular in a run that nobody cancels, for an enabled test whose body does not skip itself |
| `Runner.SkippedRetryIsFlagged` | src/execution/TestRunner.cpp:725-765 | The failing run: a failed attempt, a cancellation and a skipped retry flag a test that never passed |
| `Stats.Compute` | src/core/TestResult.cpp:167-218 | Counters, category map, sum, average, percentiles, longest and slowest agree with what they count |
| `Stats.PercentileIsNearestRank` | src/core/TestResult.cpp:42-50 | A percentile is an observed duration, at least ceil(f*n) are no longer, and no shorter one has that many |
| `Stats.StatusesAddUp` | src/core/TestResult.cpp:176-195 | The five status counts sum to the total |
| `Stats.LongestIsMaximum` | src/core/TestResult.cpp:201-207 | The maximum is at least zero, bounds all durations, and is reached by the named test when positive |
| `Stats.AverageIsTruncated` | src/core/TestResult.cpp:201-207 | The average is the sum divided by the number of results, without its fraction |
| `Stats.MedianBelowP95` | src/core/TestResult.cpp:209-216 | For non-negative durations: median <= p95 <= maximum |
| `Stats.OrderIrrelevant` | src/core/TestResult.cpp:167-218 | Rearranging the results changes no field but the name of the slowest test |
| `Ids.ComputeHash` | src/core/Ids.cpp:31-41 | The hash loop equals the specified fold |
| `Ids.StepKeepsHashesApart` | src/core/Ids.cpp:36-39 | A hash step is injective in the hash, by the inverse of the multiplier modulo 2^64 |
| `Ids.StepKeepsBytesApart` | src/core/Ids.cpp:36-39 | A hash step is injective in the byte |
| `Ids.OneByteApart` | src/core/Ids.cpp:31-41 | Texts of one length that differ in exactly one byte have different hashes |
| `Ids.ComputeTestId` | src/core/Ids.cpp:56-72 | The buffer filled from the last digit is the 16-digit rendering of the hash |
| `Ids.TestIdDecodes` | src/core/Ids.cpp:56-72 | The rendering decodes back to the hash |
| `Ids.TestIdsDiffer` | src/core/Ids.cpp:56-72 | Names that differ in exactly one byte have different identifiers |
| `Ids.CompositesAgreeExactly` | src/core/Ids.cpp:56-62 | Two pairs of suite and name are hashed as one text exactly if they are equal or differ in where the suite ends |
| `Ids.DotlessNamesDiffer` | src/core/Ids.cpp:56-62 | Names without a dot keep the hashed texts of different pairs apart |
| `Ids.TestIdsCollide` | src/core/Ids.cpp:56-62 | Pairs that differ in where the suite ends have one identifier |
| `Selector.FilterMatches` | src/testing/TestSelector.cpp:39-81 | The early returns equal the filter rule |
| `Selector.Select` | src/testing/TestSelector.cpp:109-147 | Filter, sort, shard and shuffle, as specified |
| `Selector.SelectsMatching` | src/testing/TestSelector.cpp:109-125 | Without shards exactly the matching tests are selected, in name order |
| `Selector.SelectedExactly` | src/testing/TestSelector.cpp:39-125 | Without shards exactly the candidates are selected that every list asks for and that are neither disabled nor excluded by suite or tag |
| `Selector.RuledOutIsNotSelected` | src/testing/TestSelector.cpp:39-141 | A disabled or excluded test is never selected, whatever else asks for it and whatever the shards |
| `Selector.ExclusionsOnlyRemove` | src/testing/TestSelector.cpp:39-141 | Adding exclusions only removes tests |
| `Selector.ShardsPartition` | src/testing/TestSelector.cpp:127-141 | Each matching test is in exactly one shard, which its own name decides |

## Left out

- Double values: how `formatDouble` and `strtod` compute is not part of this model; doubles are literals.
- `Value::operator==`, which compares integers and doubles numerically, and the dotted-path accessors.
- Error wording, line and column numbers of parse errors, log records and issue texts.
- Chunked.DecodeChunked: a loop that never stops also never stops appending; that memory runs out in the end is not modelled.
- Sockets, polling, timeouts of reads, redirects and header parsing in `HttpClient::perform`: a stream is a list of byte pieces and how it ends.
- Pool: threads, locks and condition variables are steps of a state machine on values, with sequentially consistent steps; the tasks themselves are only numbers.
- Cancellation.State: the protocol is a state machine on values; only the objects it uses are classes.
- BoundedBody.State: real time is the events that the deadline, a slice or the grace period is over; the reaper's own waiting at shutdown is not modelled.
- TestRun.State: what runOne answers is arbitrary; observers, persistence and diagnostics are taken not to throw, and the number of workers is not limited, which only adds interleavings.
- SpecValidate.Validate: returns the changed suite instead of changing it in place.
- Stats.Compute: sums are unbounded integers, and the fractions 0.5 and 0.95 are the rationals 1/2 and 19/20.
- Stats.Sorted: stands for `std::sort`; so does Selector.SortedByName.
- Selector.Shuffle: `std::shuffle` is any rearrangement of its input.
- `fromException`, which depends on dynamic types of exceptions; only the table of messages and `refine` are modelled.
- The HTTP server, the command line, the reporters, the database and the Python sidecar: wiring and formatting around what is modelled.
