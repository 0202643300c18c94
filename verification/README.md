# Verified core of the agent runtime

Dafny models of the parts of the agent runtime where text, streams and state are hardest to get
right, with proofs of what they promise. Every model follows the code named beside it: the same
branches, the same edge cases, the same constants. Loops and fields that the code updates in place
are methods, loops and classes here, proved against specification functions; the theorems about all
inputs and all runs are lemmas about those functions.

* **JSON out of noisy output.** `Json` is one decoder (RFC 8259, sections 2 to 7, with the liberties of
  Python's), `JsonSpelling` says without it in which ways a value can be written, `JsonRoundTrip` and
  `JsonGrammar` prove that the two agree, and `Lexing` is the theory of a string-aware bracket counter. On them stand the three scanners: `ObjectExtraction` and `CodeFences` (the
  first-object scan and the repair ladder of the execution adapter), `RowReframing` and
  `RowReframingFacts` (JSONL broken by physical newlines), `LabeledBlocks` (label lines and objects).
  Each recovers objects from any spelling of them, corrupted or surrounded by noise.
* **Byte-exact windows and streaming redaction.** `Utf8` (section 3 of RFC 3629), `RecentTextWindow`,
  `RedactionPatterns` (the three regular expressions, spelled out), `Redaction`, `StreamingRedaction`,
  `RedactionMeaning` (what is masked, told by the text) and `SecretExposure`.
* **Capture monitor and turn protocol.** `CaptureMonitor` is a state machine over the points where the
  coroutines give way, with a clock, and `CaptureVerdict` tells its outcome by the events of a run; `CaptureRegistry` one over registrations, finalisers and cancels;
  `TurnProtocol` the payload normaliser and its printer.
* **Stateful algorithms against a simple specification.** `ProviderStore` (with `StringOrder`) against a
  map, `LogQuota` against an eviction policy, `FencedBlock` against a CommonMark reader, `SnapshotDiff`
  against patch application. `Sorting` is the one stable sort that the first two and the redaction share.

Text is `seq<char>` of Unicode scalar values (`PyText`). Whitespace is the exact set of Python's
`str.isspace`. A parameter stands for what the interpreter's tables or environment decide, and every
theorem holds for all its values: `Words` (word characters beyond ASCII), `Py` (conversions of numbers
and of values that are no strings, and which floats are finite), and the answers of the file system.

Some promises turned out to need a condition. Each is stated with it, in both directions where it
is exact; a lemma named second is an input on which it fails:

* What a stream puts out depends on how it was cut. It is the redaction of the whole text exactly when no
  feed ends in a record that has outgrown the limit, for then it raises, and no Bearer match straddles a
  cut, because the `\s+` of that pattern takes newlines (`ChunkingTheorem`, `BearerOverNewlineLeaks`,
  `CutsDecideRaising`). A text raises under no cut exactly if every record in it is within the limit
  (`NoSplitRaisesExactly`). A feed that raises loses the records it completed (`RaisingLosesRecords`,
  `CompletedRecordLost`).
* A secret that holds a mask character can show up in its own redaction exactly if one of its ends is the
  mask of the other (`ExposedExactly`, `MaskCharacterExposes`). When other secrets are masked beside it,
  the absence of mask characters is what keeps it hidden (`SecretsAreHidden`, `ExposedBesideAnother`).
* A bare object read through the entry point of the labelled reader is taken as a whole JSON document
  (`RowsRoundTrip`, `BareObjectLost`).
* The registry is the set of live runs exactly while every capture that ended before it removed its entry,
  by a finaliser cancelled in its waits or by a setup that raised, was followed by another capture of its
  run (`RegistryIsLiveRuns`, `InterruptKeepsLease`); the lease is released exactly unless one of these
  happened or the supervisor raised (`OneReleaseEach`). Two live captures of one run share one entry, which
  is gone once either has removed it (`EntryExactly`, `SharedRunLosesEntry`).
* An ask_user turn comes back from its own payload with NaN and the infinities as null, so unchanged exactly
  if it holds none (`AskUserRoundTrip`, `InfinityBecomesNull`).
* An error turn keeps its reason exactly if it is the default one, a final turn survives exactly if its
  data does not read as a payload (`ErrorRoundTrip`, `FinalRoundTrip`).
* A rendered block is read back exactly if its language fits an info string (`BlockRoundTrip`).

`dafny verify dfyconfig.toml` checks the project.

## Model

| member | source | states |
|---|---|---|
| JsonFacts.ObjectAnywhere | server/engines/common/model_verbose_parser.py:53 | The decoder is self-delimiting: a text that is exactly one JSON object decodes to that object, and stops right behind it, wherever it stands in a larger text and whatever follows |
| JsonFacts.ValueShift | server/engines/common/model_verbose_parser.py:53 | The same for every value: decoding depends only on the characters of the value, plus one look ahead for a number |
| JsonRoundTrip.GlyphsDecode | server/runtime/adapter/base_execution_adapter.py:1385-1392 | Any spelling of any text between quotes decodes to that text: each character raw, by its letter escape, by a `\u` escape with digits of either case, or by a surrogate pair |
| JsonRoundTrip.WrittenDecodes | server/runtime/adapter/base_execution_adapter.py:1385-1392 | Any way to write a value, with any whitespace, escapes and number forms RFC 8259 allows, decodes to that value and is used up exactly |
| JsonGrammar.DecodesExactly | server/runtime/adapter/base_execution_adapter.py:1385-1392 | The decoder takes a text for a value if and only if the text is a way to write that value: it accepts every spelling and nothing else |
| JsonGrammar.LoadsExactly | server/runtime/adapter/base_execution_adapter.py:1385-1392 | `json.loads` gives a value if and only if the text is a way to write it with JSON whitespace around, and fails on every other text |
| JsonGrammar.ObjectTextExactly | server/engines/common/model_verbose_parser.py:53 | A text is exactly one JSON object if and only if it is a way to write that object |
| JsonRoundTrip.PrintDecodes | server/engines/common/model_verbose_parser.py:53 | Left inverse: for every JSON value and every legal separator spacing, decoding the printed text gives the value back and uses the text up exactly |
| JsonRoundTrip.LoadsOfPrint | server/runtime/adapter/base_execution_adapter.py:1385-1392 | `json.loads(json.dumps(v))` is `v` |
| JsonRoundTrip.PrintedObject | server/runtime/adapter/base_execution_adapter.py:1385-1392 | A printed object is an object text: a single object with nothing before or behind it |
| Lexing.ValueStays | server/runtime/adapter/base_execution_adapter.py:1409-1431 | The lexer-state lemma under all three scanners: over any decodable value, with any spacing and escapes, a string-aware bracket counter returns to the state it started in, never falls below its depth, meets that depth again only at the last bracket and, counting as the reframer does, meets no newline inside a string |
| ObjectExtraction.ExtractFirstJsonObject | server/runtime/adapter/base_execution_adapter.py:1404-1431 | The character loop returns what the span function says, for every text |
| ObjectExtraction.ExtractFindsSpan | server/runtime/adapter/base_execution_adapter.py:1404-1431 | Behind any quiet prefix (one that leaves no string and no brace open) and in front of any suffix, exactly the object text is extracted |
| ObjectExtraction.NoBraceNoQuoteIsQuiet | server/runtime/adapter/base_execution_adapter.py:1409-1424 | Every prefix without an opening brace and without a quote is quiet |
| ObjectExtraction.ClosedIsExtracted | server/runtime/adapter/base_execution_adapter.py:1421-1430 | A brace at depth zero whose bracket closes later is returned up to its partner |
| ObjectExtraction.ExtractedIsClosed | server/runtime/adapter/base_execution_adapter.py:1421-1430 | Conversely, whatever is returned starts with a brace met at depth zero and ends with the brace that closes it |
| ObjectExtraction.ExtractIgnoresAppended | server/runtime/adapter/base_execution_adapter.py:1404-1431 | After a success, appending any text changes nothing |
| ObjectExtraction.ExtractIdempotent | server/runtime/adapter/base_execution_adapter.py:1404-1431 | Extracting from an extracted text gives that text |
| ObjectExtraction.ExtractOfStrip | server/runtime/adapter/base_execution_adapter.py:1359-1380 | Extraction gives the same on `text` and `text.strip()`, for every text |
| ObjectExtraction.SpelledObjectRecovered | server/runtime/adapter/base_execution_adapter.py:1354-1431 | Behind any quiet prefix and in front of any suffix, any spelling of an object is extracted exactly, and the ladder (no fence candidates) gives that object, at level none exactly when only JSON whitespace surrounds it |
| ObjectExtraction.ParsesExactly | server/runtime/adapter/base_execution_adapter.py:1385-1392 | A text parses as an object if and only if it is a spelling of one with JSON whitespace around |
| ObjectExtraction.PrintedObjectRecovered | server/runtime/adapter/base_execution_adapter.py:1354-1431 | Prefix without brace and quote, printed object, any suffix: extraction gives exactly the printed object, and the ladder (no fence candidates) the object itself, at level none exactly when only JSON whitespace surrounds it |
| ObjectExtraction.WholeParsesWhenSpaced | server/runtime/adapter/base_execution_adapter.py:1354-1364 | The first rung succeeds on such a text if and only if prefix and suffix are JSON whitespace |
| ObjectExtraction.RepairIsSound | server/runtime/adapter/base_execution_adapter.py:1354-1383 | For any candidates that are pieces of the text, a returned object is the parse of a piece of the text |
| ObjectExtraction.LastRungRedundant | server/runtime/adapter/base_execution_adapter.py:1375-1383 | The last rung never succeeds where the rung before it failed; dropping it changes no result |
| ObjectExtraction.LevelExactly | server/runtime/adapter/base_execution_adapter.py:1354-1383 | The level is none if and only if the text parses as it stands or nothing helped |
| CodeFences.NoFenceNoCandidate | server/runtime/adapter/base_execution_adapter.py:1394-1402 | A text without three backticks in a row has no fence candidates |
| CodeFences.FencesAreInText | server/runtime/adapter/base_execution_adapter.py:1394-1402 | Every fence candidate is a piece of the text |
| CodeFences.LadderIsSound | server/runtime/adapter/base_execution_adapter.py:1354-1431 | For every text, what the whole ladder returns, fence patterns included, is an object that a piece of the text spells |
| CodeFences.LadderRecoversObject | server/runtime/adapter/base_execution_adapter.py:1354-1431 | Without a code fence, any spelling of an object behind a quiet prefix is recovered as that object, with the level that its surroundings call for |
| CodeFences.LadderRecoversPrinted | server/runtime/adapter/base_execution_adapter.py:1354-1431 | The same for every printed object: the ladder is a left inverse of the printer under noise |
| CodeFences.FencedObjectRecovered | server/runtime/adapter/base_execution_adapter.py:1366-1369 | Any spelling of an object in a tagged fence is recovered as that object behind any prose that holds no fence, ends in no backtick and does not begin like an object (inline code, braces and quotes allowed), and in front of any text, provided no brace inside the object is followed by a fence |
| CodeFences.FencedBlocksRecovered | server/runtime/adapter/base_execution_adapter.py:1366-1402 | Among any number of fences, with the tag or without, holding objects or not, the first tagged one with an object wins, wherever it stands, and without one the first fence with an object |
| CodeFences.CandidatesOfBlocks | server/runtime/adapter/base_execution_adapter.py:1394-1402 | The candidates of such a text are the bodies of its tagged fences in order, then the bodies of all its fences |
| RowReframing.ReframedJsonRows | artifacts/scripts/probe_codebuddy.py:130-199 | The loop over depth, quotes and escapes computes the rows and the whole report of their specification: text cut at row-ending newlines, in-string newlines rewritten, pieces stripped, blanks dropped, parsed; physical lines as `splitlines` counts them |
| RowReframing.ParseRows | artifacts/scripts/probe_codebuddy.py:183-192 | The second loop keeps exactly the objects and counts exactly the rows that do not parse |
| RowReframingFacts.RepairInvertsCorruption | artifacts/scripts/probe_codebuddy.py:130-199 | Any bracketed rows, one after the other, on one line each or pretty-printed over several, any subset of their newline escapes turned into physical newlines, with or without a final newline: the original texts come back, character for character, and the repairs counted are the escapes broken; the rows that spell an object give it, those that spell a list are passed over, those that spell nothing are counted |
| RowReframingFacts.BreakingShortens | artifacts/scripts/probe_codebuddy.py:153-156 | The repairs counted for a row are exactly the characters by which breaking its escapes shortened it |
| RowReframingFacts.SpelledRowsRestored | artifacts/scripts/probe_codebuddy.py:130-199 | Objects in any spelling, written, broken and reframed, come back, every one of them and no error |
| RowReframingFacts.UnquotedNameIsMalformed | artifacts/scripts/probe_codebuddy.py:183-189 | A row that opens a brace and goes on with neither a quote nor the closing brace is one that spells nothing |
| RowReframingFacts.BreakNothing | artifacts/scripts/probe_codebuddy.py:157-160 | Nothing broken is nothing changed and nothing counted, so valid JSONL passes unchanged |
| RowReframingFacts.ReframingConserves | artifacts/scripts/probe_codebuddy.py:146-181 | For every text, malformed ones included: undo the repairs, join the unstripped pieces with newlines, and the text is back, character for character |
| RowReframingFacts.ReportFits | artifacts/scripts/probe_codebuddy.py:193-199 | The figures of every report fit together: no more logical rows than physical lines, and rows and repairs together at most one more |
| RowReframingFacts.PhysicalLinesExactly | artifacts/scripts/probe_codebuddy.py:194 | The physical lines of a text are its lines by any of the breaks of `splitlines`, a carriage return with its newline as one break, the last line with or without a break |
| RowReframingFacts.ReframingIdempotent | artifacts/scripts/probe_codebuddy.py:138-181 | For every text, reframing the joined logical rows gives the same rows and repairs nothing |
| RowReframingFacts.CutJoined | artifacts/scripts/probe_codebuddy.py:146-171 | Pieces that scan from a fresh start and end their rows, joined by newlines, are cut apart again exactly |
| LabeledBlocks.ExtractLabeledJsonBlocks | server/engines/common/model_verbose_parser.py:27-59 | The nested loops compute the recursive specification on every text, terminate because every pass moves `position` forward, and fail exactly on a malformed object |
| LabeledBlocks.SkipSpaces | server/engines/common/model_verbose_parser.py:33-34 | The inner loops stop at the first character that is no whitespace |
| LabeledBlocks.BlocksRoundTrip | server/engines/common/model_verbose_parser.py:27-59 | Any list of objects, each in any spelling and behind any number of text lines with blank lines and padding between them, with more text lines behind the last one, reads as these objects in order, each labelled by the last line in front of it alone; lines are not blank and start with no brace |
| LabeledBlocks.MalformedRaises | server/engines/common/model_verbose_parser.py:51-55 | One object that spells nothing, behind a label or not, fails the whole reading, however many good blocks came before it |
| LabeledBlocks.DocumentRows | server/engines/common/model_verbose_parser.py:7-24 | A text that is one JSON document gives, without labels: of a list the objects in it, each in its place; of an object with a list of models the objects in that; of another object itself if its `id` or `model` is a string; of anything else nothing |
| LabeledBlocks.RowsRoundTrip | server/engines/common/model_verbose_parser.py:7-24 | Through the entry point, which first tries the whole text as JSON, the round trip holds if and only if the text is not one bare object with JSON whitespace behind it, or its `models` is no list and its `id` or `model` is a string |
| LabeledBlocks.ModelIsOwnRow | server/engines/common/model_verbose_parser.py:7-24 | The entry point answers an object by that object as its only row if and only if its `models` is no list and its `id` or `model` is a string |
| LabeledBlocks.RenderedLoads | server/engines/common/model_verbose_parser.py:19-24 | Rendered blocks are one JSON document exactly when they are a single unlabelled object with JSON whitespace behind it |
| LabeledBlocks.BareObjectLost | server/engines/common/model_verbose_parser.py:10-24 | The witness: `{}` is a block, but the entry point gives no row for it |
| Utf8.EncodedCharDecodes | server/runtime/adapter/base_execution_adapter.py:87-97 | Every scalar value's encoding decodes to it, and to its full length, wherever it stands in a byte string |
| Utf8.DecodeSuffix | server/runtime/adapter/base_execution_adapter.py:92-93 | Decoding from any byte offset of an encoded text, ignoring errors, gives exactly the characters that are whole from there on |
| Utf8.CutIsTight | server/runtime/adapter/base_execution_adapter.py:92-94 | The characters kept fit the bytes kept, and one more would not |
| RecentTextWindow.Window.constructor | server/runtime/adapter/base_execution_adapter.py:82-84 | An empty window with a limit of at least one byte, its invariant established |
| RecentTextWindow.Window.Append | server/runtime/adapter/base_execution_adapter.py:86-104 | Keeps the invariant (`_bytes` is the UTF-8 size of the chunks, at most the limit; the window ends the history; what stands before it would not have fitted), extends the history by the text, and leaves exactly the specified chunks |
| RecentTextWindow.Window.AppendEach | server/runtime/adapter/base_execution_adapter.py:86-104 | Any run of appends on the object leaves the chunks that the run function gives, the invariant kept |
| RecentTextWindow.Window.DropOldChunks | server/runtime/adapter/base_execution_adapter.py:102-104 | The eviction loop drops chunks from the left, only while the window is too large, and keeps the byte count right |
| RecentTextWindow.Window.Render | server/runtime/adapter/base_execution_adapter.py:106-107 | The rendered text is an exact suffix of everything appended, of size `_bytes`, within the limit |
| RecentTextWindow.TrimIsLongestSuffix | server/runtime/adapter/base_execution_adapter.py:90-99 | An oversize append keeps the longest suffix of whole characters that fits, at least `max_bytes - 3` bytes |
| RecentTextWindow.AppendEvictsLeast | server/runtime/adapter/base_execution_adapter.py:100-104 | Appending a text below the limit drops the least number of old chunks whose absence makes room, and never the text itself |
| RecentTextWindow.AppendedKeepsWindow | server/runtime/adapter/base_execution_adapter.py:86-104 | One append of any text keeps the window invariant, with a witness for the piece that did not fit |
| RecentTextWindow.WindowAfterRun | server/runtime/adapter/base_execution_adapter.py:86-104 | So does any sequence of appends |
| RecentTextWindow.WindowOfWholeRun | server/runtime/adapter/base_execution_adapter.py:76-107 | From outside: after any appends the window ends the whole text, lacks less than the piece before it, and holds the whole text if that fits |
| RecentTextWindow.WindowIsLongestRun | server/runtime/adapter/base_execution_adapter.py:86-104 | After any appends the window is the longest run of whole texts that fits among those since the last oversize one, what is left of that one counting as a text; the newest text below the limit is always in it |
| RedactionPatterns.MatchInPrefix | server/engines/codebuddy/secret_redaction.py:7-13 | The three patterns and a newline-free secret match inside a record the same whether or not more records follow; only a Bearer match can run on, and then the record alone has no match there |
| RedactionPatterns.MatchInSuffix | server/engines/codebuddy/secret_redaction.py:7-13 | They match a record the same whatever records came before it |
| Redaction.RedactText | server/engines/codebuddy/secret_redaction.py:21-41 | For any secrets, empty ones and repetitions included: they are arranged, the two loops compute the staged redaction, and the RuntimeError of the length check is never raised |
| Redaction.Arrange | server/engines/codebuddy/secret_redaction.py:24-28 | Whatever order the set yields its elements in, the result holds exactly the non-empty secrets, each once, longest first |
| Redaction.RedactionIsPointwise | server/engines/codebuddy/secret_redaction.py:16-41 | Through all stages every character is itself or the mask of its own UTF-8 width: equal length, equal width at each position, equal byte size |
| Redaction.SecretsAreHidden | server/engines/codebuddy/secret_redaction.py:21-41 | For any secrets and any such arrangement of them, no non-empty one free of the four mask characters occurs in the output, even after later stages ran over earlier masks |
| Redaction.MaskCharacterExposes | server/engines/codebuddy/secret_redaction.py:16-30 | A witness: the secret `a*` shows up in its own redaction of `aa*` |
| RedactionMeaning.SecretMasked | server/engines/codebuddy/secret_redaction.py:24-30 | An occurrence of a listed secret that no earlier one runs into is masked as a whole by its stage |
| RedactionMeaning.SecretOnly | server/engines/codebuddy/secret_redaction.py:24-30 | That stage masks nothing that is in no occurrence |
| RedactionMeaning.ParamHidden | server/engines/codebuddy/secret_redaction.py:10-36 | Behind `?` or `&`, one of the four names in any case and `=`, every character of a value without `&`, `#` and whitespace comes out as its mask, whatever the other stages do |
| RedactionMeaning.NameReadable | server/engines/codebuddy/secret_redaction.py:31-36 | The name behind `&` comes out readable, with its `=`, whatever the other stages do |
| RedactionMeaning.ParamStageExactly | server/engines/codebuddy/secret_redaction.py:10-12 | The parameter stage masks a character if and only if it is in the value of a parameter |
| RedactionMeaning.BearerHidden | server/engines/codebuddy/secret_redaction.py:8 | `Bearer` in any case at a word boundary, spaces of any kind and token characters come out masked from the word to the end of the token, unless an earlier such text runs into it |
| RedactionMeaning.BearerOnly | server/engines/codebuddy/secret_redaction.py:8 | The bearer stage masks nothing else |
| RedactionMeaning.DottedHidden | server/engines/codebuddy/secret_redaction.py:9 | `eyJ` and three dotted parts between word boundaries come out masked as a whole, unless an earlier such token runs into it |
| RedactionMeaning.DottedOnly | server/engines/codebuddy/secret_redaction.py:9 | The dotted-token stage masks nothing else |
| RedactionMeaning.PlainTextUntouched | server/engines/codebuddy/secret_redaction.py:21-41 | A text without a listed secret, `bearer` in any case, `eyJ`, `?` and `&` comes out unchanged |
| SecretExposure.ExposedExactly | server/engines/codebuddy/secret_redaction.py:16-30 | Some text shows a secret in its own redaction if and only if a stretch at one end of the secret is the mask of an equally long stretch at its other end |
| SecretExposure.InnerMasksAreHidden | server/engines/codebuddy/secret_redaction.py:16-30 | So a secret that neither begins nor ends with a mask character is hidden by its own stage in every text |
| SecretExposure.OtherSecretExposes | server/engines/codebuddy/secret_redaction.py:16-30 | Why the theorem about all stages asks for no mask character at all: with the secrets `a*b` and `x` the redaction of `axb` is `a*b` |
| SecretExposure.ExposedBesideAnother | server/engines/codebuddy/secret_redaction.py:24-30 | In general, any secret of two or more characters with a mask character in it is exposed beside a one-character secret which that masks and which it does not hold itself |
| StreamingRedaction.SecretRedactor.constructor | server/engines/codebuddy/secret_redaction.py:47-50 | Any secrets are taken; nothing pending, nothing taken out yet, a limit of at least one byte |
| StreamingRedaction.SecretRedactor.Feed | server/engines/codebuddy/secret_redaction.py:52-63 | The invariant is kept: what was fed is the records taken out plus what is pending, records end with a newline, nothing pending holds one; the output is the redaction of exactly the complete records; the feed raises if and only if the rest is over the limit, and then its complete records are marked as lost |
| StreamingRedaction.SecretRedactor.Flush | server/engines/codebuddy/secret_redaction.py:65-68 | The rest comes out redacted and the state is empty again |
| StreamingRedaction.SecretRedactor.Stream | server/engines/codebuddy/secret_redaction.py:52-68 | Feeding every chunk to the object and flushing gives the output, and raises, as the run functions say |
| StreamingRedaction.ChunkingTheorem | server/engines/codebuddy/secret_redaction.py:44-68 | However a text is split into feeds, the stream gives the one-shot redaction of the whole if and only if after every feed the text behind the last newline is within the limit and no Bearer match straddles a place where records were let go; it raises if and only if the first of these fails |
| StreamingRedaction.RestOfAppended | server/engines/codebuddy/secret_redaction.py:52-60 | What is pending depends only on the text fed so far, not on how it was fed |
| StreamingRedaction.RaisesExactly | server/engines/codebuddy/secret_redaction.py:52-72 | A stream raises if and only if some feed ends in a record that has outgrown the limit so far |
| StreamingRedaction.NoSplitRaisesExactly | server/engines/codebuddy/secret_redaction.py:52-72 | A text raises under no split if and only if every newline-free piece of it is within the limit |
| StreamingRedaction.CutsDecideRaising | server/engines/codebuddy/secret_redaction.py:52-72 | The witness that the split matters: with limit 1, one feed of `ab` and a newline does not raise, the two feeds of the same text do |
| StreamingRedaction.RaisingLosesRecords | server/engines/codebuddy/secret_redaction.py:57-63 | In every stream that raises, what comes out is the redaction of records that make up exactly the complete records of the feeds before the one that raised: the records this feed completed come out nowhere |
| StreamingRedaction.CompletedRecordLost | server/engines/codebuddy/secret_redaction.py:57-63 | A witness: a record within the limit is lost because of the longer one begun behind it in the same feed |
| StreamingRedaction.PartsEqualWhole | server/engines/codebuddy/secret_redaction.py:52-68 | The same for any list of records and a rest |
| StreamingRedaction.CutIsHarmless | server/engines/codebuddy/secret_redaction.py:21-41 | A cut behind a newline that no Bearer match straddles separates the redaction of all stages |
| StreamingRedaction.CutIsHarmful | server/engines/codebuddy/secret_redaction.py:8 | At a straddled cut the two differ, in the newline itself |
| StreamingRedaction.ExactStageIgnoresChunking | server/engines/codebuddy/secret_redaction.py:24-30 | The exact-secret stage never depends on the chunking |
| StreamingRedaction.StreamHidesSecrets | server/engines/codebuddy/secret_redaction.py:44-68 | Straddled or not, raising or not, nothing that a stream puts out shows a secret free of newlines and mask characters, however it was cut and however the secrets were listed |
| StreamingRedaction.BearerOverNewlineLeaks | server/engines/codebuddy/secret_redaction.py:8 | The witness that the condition can fail: `Bearer`, a newline, then the token in the next feed leaves the token readable |
| TurnProtocol.BuiltTurnIsWellFormed | server/runtime/adapter/base_execution_adapter.py:1467-1610 | For every payload: an interaction built has id >= 1, a trimmed non-blank prompt and policy, trimmed non-blank labels and field names; an error has a non-blank message; the level is passed on |
| TurnProtocol.BuildExactly | server/runtime/adapter/base_execution_adapter.py:1433-1610 | Which payload builds which turn, for every payload and every turn: outcome and kind names in any case and with any spaces around them, aliases, a question for a missing prompt, either place of the interaction, the older shape, the defaults, and each error with its message |
| TurnProtocol.AsksExactly | server/runtime/adapter/base_execution_adapter.py:1467-1532 | A payload is normalised to an interaction if and only if it asks for it, field by field |
| TurnProtocol.EnvelopeRoundTrip | server/runtime/adapter/base_execution_adapter.py:1547-1610 | Building the envelope of any well-formed turn, with its outcome and its parts, gives the turn: data that reads as a payload of its own, any failure reason, any values |
| TurnProtocol.InteractionRoundTrip | server/runtime/adapter/base_execution_adapter.py:1433-1532 | Dumping any well-formed interaction and normalising the dump gives it back, kind aliases and all fields included, with every NaN and infinity in its hints, context and option values as null; it is the same interaction if and only if there is none, at any depth |
| TurnProtocol.AskUserRoundTrip | server/runtime/adapter/base_execution_adapter.py:1547-1623 | Build, materialise, build again: the same ask_user turn with its NaNs and infinities as null, so the same turn if and only if its hints, context and option values hold none |
| TurnProtocol.AskUserSettles | server/runtime/adapter/base_execution_adapter.py:1547-1623 | A second round trip changes nothing more |
| TurnProtocol.EitherHalfRebuilds | server/runtime/adapter/base_execution_adapter.py:1613-1623 | The materialised ask_user payload says everything twice: its outcome with one copy of the interaction and its action with the other each build the turn alone |
| TurnProtocol.InfinityBecomesNull | server/runtime/adapter/base_execution_adapter.py:1616-1622 | The witness: an infinity in the hints of a payload comes back as null |
| TurnProtocol.LegacyReadsAsAskUser | server/runtime/adapter/base_execution_adapter.py:1588-1604 | A payload of a legacy shape without a recognised outcome builds the same turn as the same payload with its outcome spelled out |
| TurnProtocol.ErrorRoundTrip | server/runtime/adapter/base_execution_adapter.py:1453-1623 | An error is materialised with its code and message and keeps both; its reason falls back to the default, so the turn is the same if and only if that was its reason |
| TurnProtocol.FinalRoundTrip | server/runtime/adapter/base_execution_adapter.py:1547-1623 | A final turn survives if and only if its data carries no recognised outcome and no legacy ask_user marker |
| CaptureMonitor.Capture.ProbeAuthDetection | server/runtime/adapter/base_execution_adapter.py:829-865 | The probe's early returns and assignments are the specified state change |
| CaptureMonitor.Capture.MonitorPass | server/runtime/adapter/base_execution_adapter.py:1053-1094 | The body of the loop is the specified step, from its top to its sleep or exit |
| CaptureMonitor.Capture.Drive | server/runtime/adapter/base_execution_adapter.py:1053-1150 | Taking the events of a run one by one on the object reaches the state that the run function gives, or stops where that is undefined |
| CaptureMonitor.FlagsStay | server/runtime/adapter/base_execution_adapter.py:859-865 | Over every interleaving, arming and every verdict flag are never undone, and the clock never goes back |
| CaptureMonitor.ArmedBySomeProbe | server/runtime/adapter/base_execution_adapter.py:829-865 | Armed, or holding a high-confidence signal, only after a probe of this run that saw one; an armed capture holds a signal |
| CaptureMonitor.ArmedExactly | server/runtime/adapter/base_execution_adapter.py:829-865 | A capture is armed if and only if some probe of the run so far saw a high-confidence signal |
| CaptureMonitor.EarlyExitExactly | server/runtime/adapter/base_execution_adapter.py:1080-1093 | At a pass over a live process with working readers and time left, the monitor exits early if and only if a probe, at the latest this pass's, has seen a high-confidence signal and no chunk has arrived for the idle grace |
| CaptureMonitor.EarlyExitIsJustified | server/runtime/adapter/base_execution_adapter.py:1080-1093 | An early exit happened at a pass by which a probe had seen a high-confidence signal, and no chunk had arrived for the idle grace before it |
| CaptureMonitor.OneVerdict | server/runtime/adapter/base_execution_adapter.py:1053-1094 | At most one of reader failure, in-loop timeout and early exit is ever set, and none while the loop runs |
| CaptureMonitor.SignalIsLastSeen | server/runtime/adapter/base_execution_adapter.py:841-848 | The signal a capture holds is the one that the last parse of the run to find any found |
| CaptureVerdict.ReasonExactly | server/runtime/adapter/base_execution_adapter.py:1053-1150 | Every run's reported reason, if and only if, by its events alone: AUTH_REQUIRED for a pass that found an armed capture idle, or for a failed exit after a high-confidence signal without a failed reader; OUTPUT_REDACTION_FAILED for a pass over a live process with a failed reader; TIMEOUT for neither and a pass that found the time up or an expired wait; the engine's own hook for none of these |
| CaptureVerdict.ParsesExactly | server/runtime/adapter/base_execution_adapter.py:829-848 | Which probes parse, by the events alone: the forced one, and any other one at least 1.5 s after the parse before it if something was published since |
| CaptureVerdict.StandsAt | server/runtime/adapter/base_execution_adapter.py:1047-1112 | Where the coroutine stands, by the events alone: at each point what its last event leads to, a pass to its sleep, to the termination or, over an exited process, past the loop |
| CaptureVerdict.PossibleExactly | server/runtime/adapter/base_execution_adapter.py:1047-1112 | Which events a run can go on with, if and only if: those of the place it stands at, at times that do not go back, an exit once and at any time, and the readers until they are collected |
| CaptureMonitor.ReadersRunUntilCollected | server/runtime/adapter/base_execution_adapter.py:1100-1112 | Readers go on publishing until they are collected, whatever the monitor has decided, and no longer |
| CaptureMonitor.AuthRequiredIsJustified | server/runtime/adapter/base_execution_adapter.py:1135-1144 | The base monitor reports AUTH_REQUIRED only in runs where a probe saw a high-confidence signal |
| CaptureMonitor.LoopIsBounded | server/runtime/adapter/base_execution_adapter.py:1053-1094 | If each sleep takes at least the monitor interval, the loop makes fewer than timeout / interval + 2 passes |
| CaptureMonitor.ParsesAreSpaced | server/runtime/adapter/base_execution_adapter.py:829-840 | Any two unforced probes of a run that parse are at least 1.5 s apart, whatever came between them |
| CaptureMonitor.ParsesAreBounded | server/runtime/adapter/base_execution_adapter.py:829-848 | A run of length T parses at most floor(T / 1.5) + 1 times, plus once forced |
| CaptureMonitor.ForcedOnce | server/runtime/adapter/base_execution_adapter.py:1095 | The forced probe happens at most once |
| CaptureRegistry.Adapter.Register | server/runtime/adapter/base_execution_adapter.py:1028-1044 | With or without a lease from the supervisor: afterwards a cancel of the run terminates the new capture's own lease, or its process if it got none, and a cancel of any other run what it did before; the invariant is kept if no live capture had the run |
| CaptureRegistry.Adapter.Enter | server/runtime/adapter/base_execution_adapter.py:1046-1052 | From the registration into the protected block, or the exception on the way, as a step of the state machine |
| CaptureRegistry.Adapter.AwaitReaders | server/runtime/adapter/base_execution_adapter.py:1102-1112 | The two waits for the readers, done, timed out or interrupted, are the steps of the state machine, and keep the invariant |
| CaptureRegistry.Adapter.Finaliser | server/runtime/adapter/base_execution_adapter.py:1102-1115 | The invariant is kept; the entry of the capture's own run goes and no other, its own lease, if it has one, is released and no other, unless a wait was interrupted, which stops both, or the supervisor raises, which stops the release |
| CaptureRegistry.Adapter.RunCapture | server/runtime/adapter/base_execution_adapter.py:1028-1115 | A capture that nothing interleaves leaves no entry of its run, whatever was there before, unless its setup raised or a wait was interrupted, and releases its own lease unless one of these happened, the supervisor raised or none was granted |
| CaptureRegistry.Adapter.Drive | server/runtime/adapter/base_execution_adapter.py:1028-1115 | Any interleaving of captures and cancels, taken event by event on the object, reaches the state that the run function gives, or stops where that is undefined |
| CaptureRegistry.Adapter.Cancel | server/runtime/adapter/base_execution_adapter.py:1164-1179 | The answer follows the registry entry, one without a lease and one that is no dict included; in every sound state it is true if and only if the last capture of the run has not removed its entry, and then that capture's lease is what is terminated, or its process if it has none |
| CaptureRegistry.RunIsSound | server/runtime/adapter/base_execution_adapter.py:1028-1115 | The registry invariant holds after every interleaving of captures that do not share a run while live, cancels, failures and interrupts |
| CaptureRegistry.RegistryIsExact | server/runtime/adapter/base_execution_adapter.py:1028-1115 | A run has an entry if and only if the last capture of it has not removed its own, and the entry is that capture's, with its lease or with none |
| CaptureRegistry.RegistryIsLiveRuns | server/runtime/adapter/base_execution_adapter.py:1028-1115 | Every live run has its entry; the registry holds no other run if and only if each capture that ended without removing its entry was followed by another of its run |
| CaptureRegistry.OneReleaseEach | server/runtime/adapter/base_execution_adapter.py:1102-1115 | Over every interleaving, shared runs included: a lease has at most one release by its own finaliser, and of a capture that is over exactly one if and only if its setup did not raise, no wait of its finaliser was interrupted and the supervisor did not raise; how the capture itself ended makes no difference, and nothing is released that was not granted |
| CaptureRegistry.EntryExactly | server/runtime/adapter/base_execution_adapter.py:1028-1115 | Over every interleaving, shared runs included: a run has an entry if and only if the last of its captures began after the last removal of an entry of that run, by whichever capture; the entry is that of the last capture |
| CaptureRegistry.SharedRunLosesEntry | server/runtime/adapter/base_execution_adapter.py:1113-1114 | Why run ids must be distinct: of two live captures of one run, the first to finish removes the other's entry |
| CaptureRegistry.InterruptKeepsLease | server/runtime/adapter/base_execution_adapter.py:1102-1115 | Why the finaliser must not be interrupted while it waits for the readers: entry and lease stay |
| Sorting.SortFacts | server/engines/claude/custom_providers.py:50 | Sorting by any total order puts the elements in order and keeps each as often as it was there |
| Sorting.SortIsStable | server/engines/claude/custom_providers.py:50 | Elements that the order does not tell apart keep their order |
| StringOrder.LeqExactly | server/engines/claude/custom_providers.py:50 | Strings are ordered by their first difference, a beginning before its continuations |
| ProviderStore.NormalizedIsNormal | server/engines/claude/custom_providers.py:203-242 | Whatever the normalisers accept is normal: trimmed, lower-case id without slash, non-empty key and address, at least one model, models distinct, trimmed and without slash |
| ProviderStore.FieldsExactly | server/engines/claude/custom_providers.py:203-242 | Which raw fields are accepted, and as what: texts stripped and not blank, the id in lower case, no slash in id and models, the models each once in order of first appearance; all others are refused |
| ProviderStore.DistinctsFacts | server/engines/claude/custom_providers.py:218 | The models kept are those given, each once, in the order in which they first appear |
| ProviderStore.RowExactly | server/engines/claude/custom_providers.py:184-201 | Which stored rows are readable, and as what provider: an object with a list of models, its other values as texts, what counts as false as no text |
| ProviderStore.RowRoundTrip | server/engines/claude/custom_providers.py:184-255 | Normalising a serialised row is the identity on normalised providers |
| ProviderStore.StoredAreNormal | server/engines/claude/custom_providers.py:184-226 | Whatever the payload file holds, every provider read from it is normal |
| ProviderStore.Store.ListProviders | server/engines/claude/custom_providers.py:40-51 | Lists the readable stored rows, normalised, sorted by id |
| ProviderStore.Store.UpsertProvider | server/engines/claude/custom_providers.py:53-85 | Refuses what the normaliser refuses and then changes nothing; otherwise replaces every row of that id or appends one, and stores the rows sorted |
| ProviderStore.Store.DeleteProvider | server/engines/claude/custom_providers.py:87-104 | Answers whether the id was stored, removes its rows and no others, and leaves the store alone when it was not there or the id is refused |
| ProviderStore.Store.ResolveModel | server/engines/claude/custom_providers.py:106-131 | Resolves to the first listed provider of that id that has the model, with or without its `[1m]` suffix |
| ProviderStore.Store.ListModelSpecs | server/engines/claude/custom_providers.py:133-139 | Exactly the id/model specs of the listed providers, sorted |
| ProviderStore.Store.Perform | server/engines/claude/custom_providers.py:40-104 | Any sequence of upserts and deletes performed on the object leaves the payload that the run function gives, holding what a map given the same operations holds |
| ProviderStore.UpsertIsMapUpdate | server/engines/claude/custom_providers.py:53-85 | On the stored providers an upsert is a map update and leaves them sorted, id-unique and normalised |
| ProviderStore.DeleteIsMapRemoval | server/engines/claude/custom_providers.py:87-104 | A delete is a map removal, keeps them so, and answers membership |
| ProviderStore.StoreRefinesMap | server/engines/claude/custom_providers.py:40-104 | Over any sequence of upserts and deletes from an empty store, the stored rows read back sorted, id-unique and normalised, and hold what a map given the same operations holds |
| ProviderStore.ListingIsTheMap | server/engines/claude/custom_providers.py:40-51 | Listing after any run gives exactly the map's providers, in order of id |
| ProviderStore.SpecResolves | server/engines/claude/custom_providers.py:106-131 | A provider's spec for any of its models resolves to its own key and address, with the `[1m]`-stripped model name |
| ProviderStore.SuffixedSpecResolves | server/engines/claude/custom_providers.py:106-131 | A spec that adds `[1m]` to a model's name resolves to that model, whether or not the provider also lists the marked name |
| ProviderStore.MarkersGo | server/engines/claude/custom_providers.py:244-247 | Stripping the `[1m]` marker leaves what stands between the markers, however many there are |
| ProviderStore.ListedSpecsResolve | server/engines/claude/custom_providers.py:106-139 | After any run every listed spec resolves, to the provider and model it was made from |
| ProviderStore.ResolvingIsTheMap | server/engines/claude/custom_providers.py:106-131 | After any run every string resolves exactly as in the map: to the map's provider of that id if it offers the model, with or without `[1m]`, and to nothing if it was deleted, lost the model or never was |
| ProviderStore.SpecsAreTheMap | server/engines/claude/custom_providers.py:133-139 | After any run the listed specs are exactly the id/model pairs of the map's providers, sorted |
| LogQuota.LogDir.IterLogFiles | server/logging_config.py:213-224 | Exactly the regular files of the active log's family, in directory order |
| LogQuota.LogDir.Measure | server/logging_config.py:238-247 | The files whose size can be read, and the sum of their sizes |
| LogQuota.FamilyExactly | server/logging_config.py:213-224 | A name belongs to the active log's family if and only if it is that name or goes on with a dot |
| LogQuota.LogFilesExactly | server/logging_config.py:213-224 | The files of the family are the regular entries of the directory with that name or a name that goes on with a dot, one by one, in directory order |
| LogQuota.ArchiveExactly | server/logging_config.py:238-252 | An archive is a regular file of readable size whose name goes on with a dot; the active log is measured too |
| LogQuota.LogDir.EvictOldest | server/logging_config.py:255-270 | The deletion loop leaves the directory without exactly the specified victims and counts them |
| LogQuota.LogDir.EnforceQuota | server/logging_config.py:227-280 | Deletes the victims and answers their number; deletes nothing without a positive quota, within it, or when the age of an archive cannot be read, in which case the error escapes |
| LogQuota.ByAgeFacts | server/logging_config.py:252-253 | The eviction queue holds exactly the archives, each as often as it came, oldest first, those of the same age in the order they came in |
| LogQuota.DeletedBytes | server/logging_config.py:256-270 | Deleting distinct measured files takes exactly their bytes off the family's size |
| LogQuota.VictimsAreAShortestPrefix | server/logging_config.py:255-270 | The victims are a prefix of the deletable queue, all of it if that is not enough, and every proper prefix of them leaves the total too large |
| LogQuota.EvictionPolicy | server/logging_config.py:227-280 | Whichever deletions fail: only archives go, never the active log; the running total is the size of what is left; each deletion was needed when it was made; nothing deletable that stays is older than something deleted; the quota is missed only when every archive left refuses deletion |
| LogQuota.EnforcingTwiceChangesNothing | server/logging_config.py:227-280 | Within the quota nothing is deleted, and a second call finds nothing more to delete |
| FencedBlock.FenceFor | artifacts/scripts/chat_replay_to_markdown.py:386-395 | The loop over the current and the longest run computes the fence |
| FencedBlock.FenceIsTight | artifacts/scripts/chat_replay_to_markdown.py:386-395 | The fence has at least three backticks, is longer than every run of backticks in the value, and no longer than that makes it |
| FencedBlock.BlockRoundTrip | artifacts/scripts/chat_replay_to_markdown.py:380-395 | A reader of section 4.5 of CommonMark 0.31.2, started on the rendered block with any lines behind it, recovers as info string exactly the language without the blanks around it, and the value without trailing whitespace, and leaves the following lines unread, if and only if the language holds no backtick and no line ending; for every value |
| PyText.RStripExactly | artifacts/scripts/chat_replay_to_markdown.py:383 | `rstrip` takes the whitespace at the end and nothing else |
| FencedBlock.ContentRead | artifacts/scripts/chat_replay_to_markdown.py:380-395 | From any line of the value on, the reader takes the rest of the value and stops behind the closing fence: no line of the value closes the block |
| SnapshotDiff.BuildIndex | agent_harness/storage.py:143-144 | The dictionary comprehension: last row per path, keys in order of first appearance |
| SnapshotDiff.DiffSnapshot | agent_harness/storage.py:142-169 | The two loops compute the specified lists, in the source's order |
| SnapshotDiff.DiffIsExact | agent_harness/storage.py:142-169 | The three path sets are disjoint, each path stands once, and they are exactly the paths only in the second snapshot, in both with another size or hash, and only in the first |
| SnapshotDiff.PatchGivesAfter | agent_harness/storage.py:142-169 | Applying the difference to the first snapshot gives the second, on size and hash |
| SnapshotDiff.EmptyDiffMeansEqual | agent_harness/storage.py:142-169 | The difference is empty if and only if the snapshots agree; in particular between a snapshot and itself |
| SnapshotDiff.SwapReversesDiff | agent_harness/storage.py:142-169 | Swapping the arguments swaps created and deleted, row for row, and flips every modified entry |

## Left out

- Deep nesting and long numbers: the decoder's recursion limit, and the ValueError of integers beyond 4300 digits, which the callers do not catch.
- Repeated names in one object: a value keeps all members in order and `Get` resolves them as a dictionary would; the order in which a dictionary would print them is not modelled, and a NaN under a name that is repeated later counts as one.
- Lone surrogates: text has none, and an unpaired surrogate escape decodes to U+FFFD where Python keeps the surrogate.
- Numbers with a fraction or exponent keep their token instead of a binary value, so rounding is not modelled.
- RedactText: which order a set yields equally long secrets in; every theorem holds for each (`Arranges`), and one object is taken to meet the same order each time.
- RedactionPatterns: `\w` beyond ASCII is a parameter; case folding is that of the letters the patterns use.
- Lower case beyond ASCII letters and the Kelvin sign (kind names and provider ids).
- `int`, `str` and truth of numbers and of values that are no strings are parameters (`Py`).
- Readers: byte ranges, decoding, sanitising and publishing inside the stream readers; a reader is the events that its chunks, probes and failure cause.
- ProbeAuthDetection: the auth-signal patterns are what a probe happens to see; the probe's lock is never contended because the probe does not give way while it holds it; exceptions of the emitter and of process termination.
- LoopIsBounded: assumes a positive hard timeout; the resolver guarantees one unless the configured default itself is not positive, and then the first pass that gets as far as the timeout ends the loop.
- CaptureRegistry: captures without a run id, which register nothing; the audit writers that are closed after the release; a supervisor that raises while it registers, which leaves no entry; the supervisor's own bookkeeping of leases; process termination.
- Store: the JSON file, its backup, its lock and its permissions; the stored payload is a field.
- LogDir: files that change size or vanish between two calls of one pass; log records.
- ReadBlock: tilde fences and the other block structures of CommonMark; the reader starts on the opening fence.
- DiffSnapshot: walking the tree and hashing files; a hash is a value that is compared.
- HTTP routers, templates, the clients, configuration, command lines, process spawning, and the other cases of the probe script: plumbing over these parts, or over modules that are not part of this model.
