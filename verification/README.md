# Verified model of Quorp's cores

Quorp is a coding agent whose parts pass text, events and records to one another.
This project models the parts of it that are state machines or algorithms over
text and tables, in Dafny 4.11, and proves what each of them is for.  A module
stands for one component; where the program changes things step by step the
module has the same loop, array or object, proved against a function or an
invariant, and the theorems are about that function.

**Tokenizer** (`Bits`, `ProbingTable`, `ByteAlphabet`, `Pretokenizer`, `Utf8`,
`SpanShapes`, `MergeRules`, `MergeLoop`, `TokenEmitter`, `Tokenizer`, `Lossless`,
`MergeChain`, `TokenizerFile`, `TokenizerLoader`).  Byte-pair encoding over
open-addressing hash tables, a byte alphabet, a pretokenizer and a merge loop on a
linked list kept in an array.  Every layer refines a simple object: a map in which
the first binding wins, a bijection, a partition of the text, a rewrite on
sequences of pieces.  On top of them: which ids a text has, by chains of joins
inside segments; and decoding them gives the text back exactly when every plain
chunk fits the fixed-size buffers and all ids fit the caller's limit, which
survives exporting the vocabulary to a file and loading it.

**JSON recovery** (`JsonText`, `JsonRepair`, `JsonRoundTrip`, `JsonExtract`).  The
repairer of agent replies inverts a printer that leaves identifier keys and member
values without quotes (sections 2 and 7 of RFC 8259), and the extractors find
the object, or the array after a key, that was printed into other text, unless a
value without quotes holds an opening bracket.

**Diffs** (`HunkApplier`, `HunkChecks`, `EditScript`, `UnifiedDiff`, `DiffRoundTrip`,
`DiffClashes`, `DiffApplier`).  Applying hunks succeeds with a text exactly when
the hunks are an edit script to it; the parser inverts a renderer exactly when no
line looks like metadata and no path is padded with white space; a change to a
whole tree is carried by its diff, all of it or nothing.

**Event pipeline** (`EventFanout`, `EventLoss`, `EventWorker`, `RunLedger`,
`LedgerReaders`).  The lossy fan-out, its stop-and-drain worker, and the
hash-chained ledger with resumable readers are state machines over atomic steps;
the theorems hold in every interleaving.

**Index and packer** (`IndexChunks`, `ContextIndex`, `ContextPacker`).  The
incremental index ends every build with what a rebuild gives, and the greedy
packer is sound and tight.

**Expert repacking** (`ExpertRepack`, `ExpertScatter`).  The sorted scatter of
tensor slices relocates every byte, in whatever order the slices are copied.

**Edit buffer** (`EditLine`, `EditBuffer`).  The UTF-8 line editor's array and
cursor refine a line of characters split at the cursor (section 3 of RFC 3629).

`Seqs` and `Arith` hold facts about sequences and division that several modules
need, and `Wrappers` the answer that may be missing.

Some statements one would like to make are false of the code.  These have their
exact condition as a theorem and, where the condition does not show one, a lemma
with an input that fails:

- encoding loses nothing: `Lossless.EncodingIsLossless`, `LongWordIsCut`,
  `WordNeedsRoom`;
- objects in other text are found: `JsonExtract.ExtractFindsObject`,
  `BraceInBareValue`;
- a standard diff patches its old file into its new one:
  `EditScript.StandardDiffAppliesIff`, `BareHunkOverlaps`, `BareHunkLandsEarly`;
- a rendered diff is parsed back: `DiffClashes.ParseInvertsRenderIff`,
  `DeletedDashesAreLost`, `PathLosesSpace`;
- a fresh index is current: `ContextIndex.FreshIsCurrentIff`,
  `SameTimeHidesChange`;
- only repeats are passed over by the packer: `ContextPacker.PassedOverIff`,
  `SecondDefinitionIsLost`;
- the packer's 32-bit sum stays in range: `ContextPacker.OverflowsIff`;
- ledger readers can always read on: `LedgerReaders.ReadsOnIffNumbersLast`;
- a swap of clusters stays in its temporary buffer:
  `EditBuffer.EditState.EditSwap`, `SwapNeedsItsLimit`;
- repacking uses a tensor's own bytes: `ExpertScatter.StaysInTensorIff`,
  `ShortTensorIsOverrun`;
- moving left undoes moving right: `EditLine.LeftAfterRight`,
  `SplitFlagGoesAstray`.

To verify everything, run `dafny verify dfyconfig.toml` in this directory.

## Model

| member | source | states |
|---|---|---|
| `Bits.NextPow2Rounds` | external/flash-moe/tokenizer.h:125-130 | rounding up: the least power of two that is at least `n`, exactly for 1 to 2^31; the result is 0 for 0 and for numbers above 2^31 |
| `Bits.TableHasRoom` | external/flash-moe/tokenizer.h:125-130 | a table sized for twice `n` entries is a power of two with more slots than entries exactly when 1 <= n <= 2^30 |
| `Bits.SmearFills` | external/flash-moe/tokenizer.h:126-127 | the five or-shift steps set every bit below the highest one |
| `ProbingTable.BpeHash` | external/flash-moe/tokenizer.h:69-76 | the hash loop computes the fold over the key's bytes, in 32 bits |
| `ProbingTable.FindFree` | external/flash-moe/tokenizer.h:78-82 | the probe loop of an insertion ends at a free slot, and every slot before it on the probe path is taken |
| `ProbingTable.Table.Insert` | external/flash-moe/tokenizer.h:78-85 | an insertion binds the key if it was unbound, changes no other binding, and keeps the table's invariant |
| `ProbingTable.StoreBinds` | external/flash-moe/tokenizer.h:78-85 | storing at the free end of a probe path keeps every binding; an earlier binding of the key wins |
| `ProbingTable.FindKey` | external/flash-moe/tokenizer.h:87-96 | the probe loop of a lookup ends, at the key or at a free slot |
| `ProbingTable.Lookup` | external/flash-moe/tokenizer.h:87-96 | a lookup returns the key's binding, and the sentinel exactly when the key is unbound |
| `ProbingTable.FilledIsFirstBinding` | external/flash-moe/tokenizer.h:177-187 | after filling, a key is bound exactly when some entry carries it with a storable id, and to the first such id |
| `ProbingTable.Fill` | external/flash-moe/tokenizer.h:177-187 | filling a table sized for its entries finds a free slot every time and serves the map of first bindings; there is such a table exactly for 1 to 2^30 entries |
| `ByteAlphabet.CountingUnprintable` | external/flash-moe/tokenizer.h:98-104 | numbering the unprintable bytes in order gives the closed form of the table |
| `ByteAlphabet.AlphabetIsBijective` | external/flash-moe/tokenizer.h:98-109 | bytes and their code points are in bijection, and all code points are below 512 |
| `ByteAlphabet.AlphabetExamples` | external/flash-moe/tokenizer.h:98-109 | visible ASCII stands for itself; space, newline, soft hyphen and e with acute are written as their two bytes |
| `ByteAlphabet.BuildByteUnicodeTable` | external/flash-moe/tokenizer.h:98-109 | the two loops fill the table and its inverse |
| `ByteAlphabet.DecodeEncode` | external/flash-moe/tokenizer.h:111-121 | reading encoded bytes back gives the bytes, and does not look past the encoded prefix |
| `ByteAlphabet.FitsExactly` | external/flash-moe/tokenizer.h:111-121 | a span is encoded whole exactly when all but its last byte stays below the buffer's limit |
| `ByteAlphabet.BytesToBpeStr` | external/flash-moe/tokenizer.h:111-121 | the encoder writes exactly the encoding of as many bytes as its limit takes, and the terminator |
| `Pretokenizer.FindSpanEnd` | external/flash-moe/tokenizer.h:235-278 | the branches and scans of one round end the span where the specification says |
| `Pretokenizer.Pretokenize` | external/flash-moe/tokenizer.h:235-278 | the loop fills the span array with the spans of the chunk, up to the limit |
| `Pretokenizer.SpansTile` | external/flash-moe/tokenizer.h:235-278 | spans are contiguous and not empty, and reach the end of the chunk unless the limit stops them |
| `Pretokenizer.ChunkIsPartitioned` | external/flash-moe/tokenizer.h:235-278 | with room for all its bytes a chunk whose leads are complete is covered from end to end |
| `Pretokenizer.PiecesConcatenate` | external/flash-moe/tokenizer.h:235-278 | the texts of the spans concatenate to the chunk |
| `Pretokenizer.SpansStayInside` | external/flash-moe/tokenizer.h:259-265 | no span passes the end of the chunk by more than the bytes its last lead announces |
| `SpanShapes.SpanEndsByShape` | external/flash-moe/tokenizer.h:235-278 | in UTF-8 text a span ends exactly where it has one of seven shapes, described without the scans: spaces, contraction, word, digit, punctuation |
| `SpanShapes.SpansHaveShapes` | external/flash-moe/tokenizer.h:235-278 | every span of a UTF-8 chunk has one of these shapes |
| `SpanShapes.ByteClasses` | external/flash-moe/tokenizer.h:230-233 | the classes of bytes these shapes speak of, byte by byte |
| `SpanShapes.ContractionEndings` | external/flash-moe/tokenizer.h:252-257 | the endings of contractions are s, t, m, d, re, ve and ll, small or large |
| `Utf8.Utf8LeadsComplete` | external/flash-moe/tokenizer.h:259-265 | in UTF-8 text every lead byte has the bytes it announces |
| `Utf8.CutAtCharacter` | external/flash-moe/tokenizer.h:419-427 | text splits into two texts exactly where no continuation byte follows |
| `MergeRules.MergeKeepsText` | external/flash-moe/tokenizer.h:325-364 | merging never changes the text the pieces spell |
| `MergeRules.MergeSettles` | external/flash-moe/tokenizer.h:325-364 | on exit one piece is left, or no pair has a rank, or the leftmost pair of lowest rank would exceed 256 bytes |
| `MergeRules.MergeStaysInVocabulary` | external/flash-moe/tokenizer.h:325-387 | when the ranks only join vocabulary entries into vocabulary entries, every final piece is in the vocabulary |
| `MergeRules.MergeKeepsShort` | external/flash-moe/tokenizer.h:286-295 | in every round all pieces have at most 256 bytes and the key of every pair looked up at most 513, so the key guard never fires; the rounds end with the merged pieces |
| `MergeRules.PairKeyInjective` | external/flash-moe/tokenizer.h:195-201 | the key built from a pair determines the pair when one side has no separator byte |
| `MergeRules.RankIsFirstRule` | external/flash-moe/tokenizer.h:188-202 | the rank of a pair is the position of the first merge rule for it, and the sentinel exactly when there is none |
| `MergeRules.CharactersOfText` | external/flash-moe/tokenizer.h:301-322 | cutting gives as many characters as the piece limit allows, and keeps the whole text exactly when it has no more characters than that |
| `MergeRules.CharactersOfEncoding` | external/flash-moe/tokenizer.h:301-322 | text of the byte alphabet is cut exactly at its encoded bytes |
| `MergeLoop.JoinRefines` | external/flash-moe/tokenizer.h:343-363 | joining in the linked array is joining in the sequence: links, offsets and neighbours stay right |
| `MergeLoop.JoinPieces` | external/flash-moe/tokenizer.h:346-363 | the in-place join; the two pieces are neighbours in memory, so no copy is ever made |
| `MergeLoop.CutPieces` | external/flash-moe/tokenizer.h:301-322 | the cutting loop fills one array row per character, each linked to its neighbours |
| `MergeLoop.FindBest` | external/flash-moe/tokenizer.h:328-341 | walking the list finds the leftmost pair of lowest rank, or none |
| `MergeLoop.MergeRound` | external/flash-moe/tokenizer.h:327-363 | one round joins the best pair, or reports that nothing can be joined |
| `MergeLoop.MergePieces` | external/flash-moe/tokenizer.h:325-364 | the loop ends with the list holding the result of the sequence rewrite |
| `TokenEmitter.EmitBytes` | external/flash-moe/tokenizer.h:375-388 | the fallback emits one id per byte whose character is known, while there is room |
| `TokenEmitter.EmitPieces` | external/flash-moe/tokenizer.h:366-393 | walking the final list emits the ids of its pieces in order, while there is room |
| `TokenEmitter.BpeProcess` | external/flash-moe/tokenizer.h:297-393 | the output is the ids of the merged pieces, cut off at the limit |
| `MergeChain.ProcessIsChain` | external/flash-moe/tokenizer.h:297-393 | for any tables and encoded span the ids are those of the last of a chain of piece sequences: from the characters, each step joining the leftmost pair of lowest rank to at most 256 bytes, to where one piece is left, no pair has a rank, or that pair is too long |
| `MergeChain.SpanIsChain` | external/flash-moe/tokenizer.h:433-443 | the ids of a span come from such a chain over the characters of as many of its bytes as leave the buffer below 1020 bytes |
| `MergeChain.JoinedToken` | external/flash-moe/tokenizer.h:325-364 | with tokens for "a", "b" and "ab" and the rule of "a" and "b", the text "ab" is the one token |
| `Tokenizer.LongestAddedIsLongest` | external/flash-moe/tokenizer.h:401-411 | the added token chosen matches, none that matches is longer, and none as long comes earlier |
| `Tokenizer.FirstMatchIsFirst` | external/flash-moe/tokenizer.h:420-427 | the search stops at the first match |
| `Tokenizer.ChunkEndIsFirstMatch` | external/flash-moe/tokenizer.h:418-427 | a plain chunk ends at a match or at the end of the text, and no added token matches inside it |
| `Tokenizer.FindAdded` | external/flash-moe/tokenizer.h:401-411 | the loop over the added tokens finds the longest match at the position |
| `Tokenizer.FindChunkEnd` | external/flash-moe/tokenizer.h:418-427 | the nested loops find the end of the plain chunk |
| `Tokenizer.EncodeSpans` | external/flash-moe/tokenizer.h:433-443 | the spans of a chunk are encoded one by one while there is room |
| `Tokenizer.BpeEncode` | external/flash-moe/tokenizer.h:395-447 | the ids written are those of the whole text, cut off at the limit; every round makes progress |
| `MergeChain.EncodeIsSegments` | external/flash-moe/tokenizer.h:395-447 | the ids of a text are those of its first segment, then of the rest: a segment is an added token, the longest there and the first of those, or a chunk up to the next place where one stands, encoded span by span |
| `Lossless.DecoderExists` | external/flash-moe/tokenizer.h:23-38 | ids can be decoded exactly when no id stands for two different strings |
| `Lossless.NeverFallsBack` | external/flash-moe/tokenizer.h:368-391 | with complete tables the byte fallback is never taken |
| `Lossless.EncodingIsLossless` | external/flash-moe/tokenizer.h:395-447 | decoding the ids written up to a limit gives the text back exactly when every plain chunk fits its span and byte buffers and all ids fit the limit, or the text is empty; there are at most as many ids as bytes |
| `Lossless.ShortChunkFits` | external/flash-moe/tokenizer.h:429-439 | chunks of at most 8192 bytes whose spans have at most 510 bytes fit |
| `Lossless.ShortTextFits` | external/flash-moe/tokenizer.h:395-447 | every text of at most 510 bytes fits, whatever is in it |
| `Lossless.LongWordIsCut` | external/flash-moe/tokenizer.h:111-121 | without added tokens a word of one letter repeated comes back exactly if it has at most 1020 letters |
| `Lossless.WordNeedsRoom` | external/flash-moe/tokenizer.h:395-447 | and, without merge rules, exactly if the limit on the ids is its length at least |
| `TokenizerFile.FileRoundTrip` | external/flash-moe/export_tokenizer_35b.py:41-71 | parsing what was exported gives the same three tables and leaves exactly what followed the file |
| `TokenizerFile.AcceptsExactlyExports` | external/flash-moe/tokenizer.h:131-175 | the parser accepts bytes as some tables exactly when they start with the export of those tables |
| `TokenizerFile.SmallFile` | external/flash-moe/export_tokenizer_35b.py:41-71 | the bytes of the file of one entry and one rule |
| `TokenizerLoader.SortIsStable` | external/flash-moe/export_tokenizer_35b.py:38-39 | sorting orders by id and keeps the items of each id in their order |
| `TokenizerLoader.Export` | external/flash-moe/export_tokenizer_35b.py:38-71 | the exporter writes the file of the sorted tables, and fails exactly when a field does not fit |
| `TokenizerLoader.LoadFile` | external/flash-moe/tokenizer.h:138-175 | the reading loops parse the file, and fail on a short or foreign one |
| `TokenizerLoader.BpeLoad` | external/flash-moe/tokenizer.h:131-211 | loading fails exactly on a short or foreign file; otherwise the loaded tables stand for the file's contents, exactly when the table sizes and key lengths hold them |
| `TokenizerLoader.LoadedIsComplete` | external/flash-moe/tokenizer.h:177-205 | tables whose lists name every byte and every merge result are complete once loaded |
| `TokenizerLoader.EndToEnd` | external/flash-moe/export_tokenizer_35b.py:38-71 | export, load, encode up to a limit, decode: the text comes back exactly when every chunk and all ids fit |
| `JsonRepair.ReadIdentifier` | crates/quorp_agent_core/src/agent_turn.rs:235-256 | nothing unless the text is at its end or at a key start; else the identifier, where it ends, and where the space after it ends |
| `JsonRepair.ReadBareValue` | crates/quorp_agent_core/src/agent_turn.rs:258-271 | nothing unless the text is at its end or at the start of a bare value; else the bare value up to its delimiter |
| `JsonRepair.RepairJsonLikeObject` | crates/quorp_agent_core/src/agent_turn.rs:154-225 | the loop computes what the character machine says |
| `JsonRoundTrip.RepairInvertsRelaxedPrint` | crates/quorp_agent_core/src/agent_turn.rs:154-271 | repairing a relaxed print gives the strict print exactly when something was left bare, and nothing otherwise |
| `JsonRoundTrip.RepairIsIdempotent` | crates/quorp_agent_core/src/agent_turn.rs:154-225 | what the repairer returns needs no further repair |
| `JsonRoundTrip.TextByCharacters` | crates/quorp_agent_core/src/agent_turn.rs:227-256 | which texts may stand without quotes, character by character |
| `JsonRoundTrip.OneMemberIsRepaired` | crates/quorp_agent_core/src/agent_turn.rs:154-225 | a member gets the quotes of its key and value back, whatever visible characters but delimiters stand in the value |
| `JsonExtract.ExtractFirstJsonObject` | crates/quorp_agent_core/src/agent_turn.rs:782-826 | the loop computes what the brace counter says |
| `JsonExtract.ExtractFindsObject` | crates/quorp_agent_core/src/agent_turn.rs:782-826 | between any text without a brace and any text, exactly the printed object is found if and only if no opening brace stands in its bare values; otherwise it is the object with the text behind it up to where that closes the extra braces, or nothing |
| `JsonExtract.BraceInBareValue` | crates/quorp_agent_core/src/agent_turn.rs:782-826 | for instance {a:x{y} is a printed object that is not found |
| `JsonExtract.PlainIsUnopened` | crates/quorp_agent_core/src/agent_turn.rs:782-826 | in plain JSON no bracket stands in a bare value, so it is always found |
| `JsonExtract.RecoversEmbeddedObject` | crates/quorp_agent_core/src/agent_turn.rs:80-98 | a relaxed object buried in text is found and repaired to its strict print if and only if no opening brace stands in its bare values |
| `JsonExtract.ExtractJsonArrayAfterKey` | crates/quorp_agent_core/src/agent_turn.rs:613-645 | the search for key and bracket and the bracket counter compute the specification |
| `JsonExtract.ExtractFindsArray` | crates/quorp_agent_core/src/agent_turn.rs:613-645 | the first array after the first place of the key is found whole if and only if no opening bracket stands in a bare value inside it; otherwise what is found is longer, or nothing |
| `HunkApplier.SplitLosesNothing` | crates/quorp_desktop_core/src/diff_applier.rs:233 | splitting into lines loses nothing |
| `HunkApplier.SplitJoined` | crates/quorp_desktop_core/src/diff_applier.rs:233 | newline-terminated lines survive joining and splitting |
| `HunkApplier.WalkHunk` | crates/quorp_desktop_core/src/diff_applier.rs:249-285 | the walk over a hunk's lines copies, checks and adds as specified |
| `HunkApplier.ApplyHunks` | crates/quorp_desktop_core/src/diff_applier.rs:229-291 | the loop over hunks computes the specification, refusals and out-of-range slices included |
| `HunkChecks.EqualIsSame` | crates/quorp_desktop_core/src/diff_applier.rs:293-295 | two lines count as equal exactly when they are one text, each followed by carriage returns and newlines only |
| `HunkChecks.ApplyChecks` | crates/quorp_desktop_core/src/diff_applier.rs:229-291 | hunks are applied exactly when they stand in order inside the file and every line they show is the file's at its place, up to such endings; otherwise the outcome names the first fault |
| `HunkChecks.PatchedShows` | crates/quorp_desktop_core/src/diff_applier.rs:249-284 | of a patched file every context and deleted line was there, up to its ending |
| `HunkChecks.AddedIsLine` | crates/quorp_desktop_core/src/diff_applier.rs:272-284 | an added line is written with a newline more if it has none |
| `HunkChecks.OtherLineIsRefused` | crates/quorp_desktop_core/src/diff_applier.rs:262-271 | a hunk that deletes a line the file does not have is refused |
| `EditScript.HunksCarryScript` | crates/quorp_desktop_core/src/diff_applier.rs:229-291 | applying a script's hunks to its old text gives its new text |
| `EditScript.PatchedIffScript` | crates/quorp_desktop_core/src/diff_applier.rs:229-291 | a patch succeeds with a text exactly when its hunks are an edit script from the file to that text |
| `EditScript.StandardDiffApplies` | crates/quorp_desktop_core/src/diff_applier.rs:229-291 | a diff with standard line numbers and anchored hunks patches its old file into its new file |
| `EditScript.OpsChangeCount` | crates/quorp_desktop_core/src/diff_applier.rs:250-284 | a hunk changes the number of lines by its additions minus its deletions |
| `EditScript.StandardDiffAppliesIff` | crates/quorp_desktop_core/src/diff_applier.rs:229-291 | any diff with standard line numbers between files of newline-terminated lines patches the old into the new file exactly when each bare hunk (one that takes no old line, away from the front) has an untouched line before it or follows another bare hunk, and adds only copies of the line before it; the outcome in all other cases |
| `EditScript.BareHunkOverlaps` | crates/quorp_desktop_core/src/diff_applier.rs:237-241 | a bare hunk right behind a hunk that shows a line is refused |
| `EditScript.BareHunkLandsEarly` | crates/quorp_desktop_core/src/diff_applier.rs:237-247 | a bare hunk behind an untouched line adds its line before that line |
| `UnifiedDiff.ParseUnifiedDiff` | crates/quorp_desktop_core/src/diff_applier.rs:327-395 | the line loop computes what the line machine says |
| `DiffRoundTrip.DecimalRoundTrip` | crates/quorp_desktop_core/src/diff_applier.rs:410-418 | printed line numbers are read back |
| `DiffRoundTrip.OldStartRoundTrip` | crates/quorp_desktop_core/src/diff_applier.rs:410-418 | the old start line of a hunk header is read back, up to a comma, a space or the end; one beyond a machine word is refused |
| `DiffRoundTrip.ParseInvertsRender` | crates/quorp_desktop_core/src/diff_applier.rs:327-418 | parsing a rendered list of file groups gives the list back with the white space around its paths gone, when no line clashes with the metadata marks |
| `DiffClashes.ParseInvertsRenderIff` | crates/quorp_desktop_core/src/diff_applier.rs:327-418 | it gives back the list itself exactly when no deleted line starts with "-- ", no added line with "++ ", and no path has white space at an end |
| `DiffClashes.DeletedDashesAreLost` | crates/quorp_desktop_core/src/diff_applier.rs:327-395 | for instance a diff that deletes one such line |
| `DiffClashes.PathLosesSpace` | crates/quorp_desktop_core/src/diff_applier.rs:350-358 | for instance a path that ends in a space |
| `DiffClashes.MeaninglessIsSkipped` | crates/quorp_desktop_core/src/diff_applier.rs:372-394 | a line that starts like no part of a diff, such as the note on a missing last newline, changes nothing, inside a hunk too |
| `DiffClashes.HeaderWithoutNumber` | crates/quorp_desktop_core/src/diff_applier.rs:358-371 | a hunk header without a number makes the diff malformed once a file has begun |
| `DiffApplier.Workspace.Stage` | crates/quorp_desktop_core/src/diff_applier.rs:172-202 | the in-memory pass counts the conflicts and keeps every patched body |
| `DiffApplier.Workspace.ApplyInProcess` | crates/quorp_desktop_core/src/diff_applier.rs:163-224 | either every file is patched and written, or no file changes |
| `DiffApplier.Workspace.ApplyRunDiff` | crates/quorp_desktop_core/src/diff_applier.rs:60-112 | a malformed diff changes nothing, a blank one is a diff of no file |
| `DiffApplier.BlankDiffHasNoGroups` | crates/quorp_desktop_core/src/diff_applier.rs:83-92 | a diff of white space parses to no group |
| `DiffApplier.AppliedIffScripted` | crates/quorp_desktop_core/src/diff_applier.rs:163-224 | a diff is applied exactly when every group is an edit script for its file as it was before |
| `DiffApplier.ConflictsAreCounted` | crates/quorp_desktop_core/src/diff_applier.rs:172-212 | as many conflicts are reported as there are groups whose file is missing or whose hunks are refused |
| `DiffApplier.DiffCarriesTree` | crates/quorp_desktop_core/src/diff_applier.rs:60-224 | rendering a change to a tree without clashing lines or padded paths, parsing it and applying it makes the change and touches no other file |
| `DiffApplier.LastGroupWins` | crates/quorp_desktop_core/src/diff_applier.rs:172-216 | of several groups for one file the last one is what is written |
| `EventFanout.Subscription.PushBoundedEvent` | crates/quorp_agent_core/src/runtime.rs:985-1018 | a push keeps the newest entries that fit, with a marker before a plain event that overflows |
| `EventFanout.Subscription.Drain` | crates/quorp_agent_core/src/runtime.rs:779-786 | a drain returns the queue and empties it |
| `EventFanout.Fanout.Subscribe` | crates/quorp_agent_core/src/runtime.rs:896-917 | a new subscriber has an empty queue of the capacity asked for, or of two places |
| `EventFanout.Fanout.Emit` | crates/quorp_agent_core/src/runtime.rs:952-981 | every subscriber gets the event, each in its own queue |
| `EventFanout.EmissionIsPushes` | crates/quorp_agent_core/src/runtime.rs:952-981 | an emission is one push to each queue in turn |
| `EventFanout.QueuesAreTapeEnds` | crates/quorp_agent_core/src/runtime.rs:952-1018 | in every interleaving of subscribing, single pushes and draining a queue is the end of what was written for it since it was last emptied |
| `EventFanout.EveryoneGetsEverything` | crates/quorp_agent_core/src/runtime.rs:896-981 | in every interleaving each subscriber is pushed every event emitted since it subscribed, all in the same order, but for the emission under way; what was pushed since a drain is the end of that |
| `EventLoss.HeldIsContiguous` | crates/quorp_agent_core/src/runtime.rs:985-1018 | the real events held are the newest ones, in order and without a hole |
| `EventLoss.LossLeavesMarker` | crates/quorp_agent_core/src/runtime.rs:985-1018 | up to the capacity nothing is lost or added; beyond it one of the two newest entries is a marker |
| `EventLoss.MarkerIffLoss` | crates/quorp_agent_core/src/runtime.rs:985-1018 | when emitters send no markers, a marker is held exactly when an event was lost |
| `EventLoss.MarkersAddUp` | crates/quorp_agent_core/src/runtime.rs:1001-1016 | when emitters send no markers, the counts in the markers written from one drain to the next sum to the entries popped |
| `EventLoss.MarkersTell` | crates/quorp_agent_core/src/runtime.rs:1001-1010 | a marker nobody emitted names its subscriber, the capacity and two lost entries |
| `EventLoss.KeptCount` | crates/quorp_agent_core/src/runtime.rs:985-1018 | exactly how many of the newest events survive: never less than half the capacity |
| `EventLoss.DrainGetsNewest` | crates/quorp_agent_core/src/runtime.rs:779-800 | what a drain returns at any point of any run |
| `EventLoss.DrainIsContiguous` | crates/quorp_agent_core/src/runtime.rs:779-800 | the same for emitters that send markers of their own |
| `EventWorker.StepKeeps` | crates/quorp_agent_core/src/runtime.rs:919-950 | every step of emitters, stopper and worker keeps the account of what was handled, held and popped |
| `EventWorker.DoneHandledAll` | crates/quorp_agent_core/src/runtime.rs:919-950 | a finished worker has handled, in order, everything written before the stop that overflow had not popped |
| `EventWorker.DoneWithoutLoss` | crates/quorp_agent_core/src/runtime.rs:919-950 | without overflow nothing written before the stop is missing |
| `EventWorker.RunMarkersAddUp` | crates/quorp_agent_core/src/runtime.rs:919-1018 | when emitters send no markers, then after every run, whatever was drained in between, the counts in the markers written sum to the entries popped |
| `EventWorker.StopIsHeeded` | crates/quorp_agent_core/src/runtime.rs:835-845 | once the flag is set every step of the worker brings it closer to done, and no one else sets it back |
| `RunLedger.ValidateHashChain` | crates/quorp_agent_core/src/ledger.rs:366-422 | accepts exactly the chained ledgers and reports their counts; otherwise names the first bad event and its fault |
| `RunLedger.Writer.Open` | crates/quorp_agent_core/src/ledger.rs:220-233 | opening succeeds exactly on chained ledgers and takes the cursor of the last event |
| `RunLedger.Writer.Append` | crates/quorp_agent_core/src/ledger.rs:239-273 | appending extends the chain by one sealed event and moves the cursor to it |
| `RunLedger.Writer.AppendExistingEvent` | crates/quorp_agent_core/src/ledger.rs:275-306 | a replayed event keeps its content and gets a new place in the chain |
| `RunLedger.Writer.WriteSnapshot` | crates/quorp_agent_core/src/ledger.rs:308-338 | a snapshot is stored, and an event with its digest and the number before it is appended |
| `RunLedger.ExtendKeepsChain` | crates/quorp_agent_core/src/ledger.rs:239-273 | extending a chained ledger gives a chained ledger |
| `RunLedger.ChainedIffWritten` | crates/quorp_agent_core/src/ledger.rs:366-422 | the ledgers the validator accepts are exactly those that a writer's runs produce |
| `RunLedger.LastHashPinsLedger` | crates/quorp_agent_core/src/ledger.rs:136-141 | with an injective hash, two chained ledgers with the same last hash are identical |
| `RunLedger.TamperingShows` | crates/quorp_agent_core/src/ledger.rs:366-422 | any change to a ledger breaks its chain or its last cursor |
| `RunLedger.LedgerHoldsContents` | crates/quorp_agent_core/src/ledger.rs:239-306 | everything written is there, in order |
| `LedgerReaders.ReadFrom` | crates/quorp_agent_core/src/ledger.rs:424-458 | the search for the cursor and the bounded loop compute the specification, and answer exactly for a chained ledger and a cursor that stands for an event |
| `LedgerReaders.ReadsIff` | crates/quorp_agent_core/src/ledger.rs:424-440 | a read is answered exactly when the ledger is chained and the cursor is the default one or has number and hash of the first event with its number |
| `LedgerReaders.ForeignCursorIsRefused` | crates/quorp_agent_core/src/ledger.rs:431-438 | with an injective hash a cursor is refused by every chained ledger that differs from its own at or before its event |
| `LedgerReaders.ForgedIsRefused` | crates/quorp_agent_core/src/ledger.rs:429-438 | for instance an event out of sequence, and a cursor into an empty ledger |
| `LedgerReaders.ReadGivesNext` | crates/quorp_agent_core/src/ledger.rs:424-458 | reading from a position gives the next events and the cursor after them |
| `LedgerReaders.ReadsOnIffNumbersLast` | crates/quorp_agent_core/src/ledger.rs:424-458 | every reader can read on exactly when no sequence number is used twice |
| `LedgerReaders.ReadersStayInStep` | crates/quorp_agent_core/src/ledger.rs:239-458 | in every interleaving what a reader has consumed is a prefix of the ledger and its cursor stays good |
| `LedgerReaders.ReadersCatchUp` | crates/quorp_agent_core/src/ledger.rs:424-458 | enough reads of at least one event bring any reader to the end |
| `IndexChunks.CutChunks` | crates/quorp_context/src/index.rs:578-600 | the chunk loop cuts the lines into the specified chunks |
| `IndexChunks.ChunksTile` | crates/quorp_context/src/index.rs:578-600 | chunks of 24 lines, the last of 1 to 24, tile the file; each shows its lines joined, and their texts joined are the file's lines joined |
| `IndexChunks.TextLinesAre` | crates/quorp_context/src/index.rs:578-579 | the lines of a text are what stands before its newlines, or carriage returns and newlines, and what stands behind the last |
| `ContextIndex.IndexDatabase.DeletePathRows` | crates/quorp_context/src/index.rs:560-576 | exactly the rows of the path are removed |
| `ContextIndex.IndexDatabase.BuildIndex` | crates/quorp_context/src/index.rs:258-337 | for every path: unchanged rows are kept, changed ones replaced, those of vanished files removed |
| `ContextIndex.BuildMakesCurrent` | crates/quorp_context/src/index.rs:258-337 | from a database whose rows agree with its records a build ends with the rows of what is on disk |
| `ContextIndex.IncrementalIsRebuild` | crates/quorp_context/src/index.rs:258-337 | an incremental build and a rebuild give the same records and, but for order, the same rows |
| `ContextIndex.EveryBuildIsCurrent` | crates/quorp_context/src/index.rs:258-337 | any number of builds, with any changes between them, leaves a current database |
| `ContextIndex.RecordedIff` | crates/quorp_context/src/index.rs:676-687 | exactly the files of a known language and at most 512 KiB are recorded, with hash, size and time; other paths have no row |
| `ContextIndex.RowsShowFile` | crates/quorp_context/src/index.rs:296-325 | the rows of a recorded file are the chunks of its lines and what was harvested from its text |
| `ContextIndex.NoneChanged` | crates/quorp_context/src/index.rs:281-290 | a build on a current database changes no file |
| `ContextIndex.IndexDatabase.IndexStatus` | crates/quorp_context/src/index.rs:339-389 | the stale count is exact, and zero exactly when records and files match by path and time |
| `ContextIndex.CurrentLooksFresh` | crates/quorp_context/src/index.rs:339-389 | after a build nothing looks stale while nothing changes on disk |
| `ContextIndex.FreshIsCurrentIff` | crates/quorp_context/src/index.rs:76-86 | a database that looks fresh is current exactly when no file changed without its time changing |
| `ContextIndex.SameTimeHidesChange` | crates/quorp_context/src/index.rs:76-86 | any change of an indexed file that leaves its time gives such a database, fresh and not current |
| `ContextPacker.Packer.TryReserve` | crates/quorp_context/src/quorp_context.rs:771-778 | a reservation is granted exactly when it is within the cap and total less reserve, saturating; the addition overflows exactly under the stated condition |
| `ContextPacker.Packer.PushBudgetedItem` | crates/quorp_context/src/quorp_context.rs:747-769 | a repeat is ignored, an item that fits is packed, any other leaves a handle |
| `ContextPacker.Packer.RecallMemory` | crates/quorp_context/src/quorp_context.rs:70-98 | memory hits are packed or leave a handle, repeats included; the sum overflows exactly at a hit that asks for it |
| `ContextPacker.Packer.CompileWorkspace` | crates/quorp_context/src/quorp_context.rs:127-208 | recall, anchor handles, then every offer in order, exactly when the sum stays in 32 bits throughout |
| `ContextPacker.WorkspacePackIsSoundAndTight` | crates/quorp_context/src/quorp_context.rs:127-208 | the context pack is within budget, holds no key twice, accounts for every first offer, and refuses nothing that would still fit |
| `ContextPacker.ReserveIsKept` | crates/quorp_context/src/quorp_context.rs:771-778 | the tokens used and the reserve are within the total, or nothing is used; every refused offer is too large by itself or would go into the reserve, and its handle has its place and cost |
| `ContextPacker.ReserveRefuses` | crates/quorp_context/src/quorp_context.rs:771-778 | 80 tokens are refused of 100 with 40 in reserve |
| `ContextPacker.AnchorsAreHandedOn` | crates/quorp_context/src/quorp_context.rs:100-110 | every anchor leaves a handle under its name |
| `ContextPacker.PackingIsSound` | crates/quorp_context/src/quorp_context.rs:747-778 | the tokens used are the sum of the packed costs and never exceed what is available |
| `ContextPacker.NothingIsDropped` | crates/quorp_context/src/quorp_context.rs:747-769 | packed and refused items together are the first offers of each key, and each refused one has its handle |
| `ContextPacker.PackIsTight` | crates/quorp_context/src/quorp_context.rs:747-778 | no refused item would fit in the finished context pack |
| `ContextPacker.RecallIsTight` | crates/quorp_context/src/quorp_context.rs:70-98 | what a recall saw is shown, or would still not fit at the end |
| `ContextPacker.OverflowsIff` | crates/quorp_context/src/quorp_context.rs:771-778 | the 32-bit sum can overflow exactly when every 32-bit number is available and items may cost something |
| `ContextPacker.SmallerIsInRange` | crates/quorp_context/src/quorp_context.rs:771-778 | with any smaller budget no compilation overflows |
| `ContextPacker.KeyIdentifies` | crates/quorp_context/src/quorp_context.rs:784-794 | a key determines the identity it is made from; for excerpts the path and the range |
| `ContextPacker.SharesKeyIff` | crates/quorp_context/src/quorp_context.rs:784-794 | items share a key exactly when they show the same or differ only in what the key leaves out: the definition of a symbol, or the text of an excerpt, a rule or a contract |
| `ContextPacker.PassedOverIff` | crates/quorp_context/src/quorp_context.rs:747-769 | an offer is passed over exactly when something shown or offered before it shares its key in this way |
| `ContextPacker.OnlyFirstDefinition` | crates/quorp_context/src/index.rs:162-226 | of all the definitions of one symbol only the first is shown or leaves a handle |
| `ContextPacker.SecondDefinitionIsLost` | crates/quorp_context/src/index.rs:162-226 | for instance of two functions of one name in two files the second is lost, though it would fit |
| `ExpertRepack.IndexTensor` | external/flash-moe/build_expert_index_35b.py:135-150 | an entry exactly for a tensor that divides among its experts; the stride times the count is the tensor's size |
| `ExpertRepack.BuildIndex` | external/flash-moe/build_expert_index_35b.py:120-160 | the loop builds one layer's entries and stops at the first bad tensor |
| `ExpertRepack.IndexHoldsLast` | external/flash-moe/build_expert_index_35b.py:143-160 | indexing succeeds exactly when every tensor divides; the last tensor of a component is the one kept |
| `ExpertRepack.LayoutTiles` | external/flash-moe/repack_experts_35b.py:28-45 | the components follow one another and fill the block; the blocks fill the layer |
| `ExpertRepack.BuildPlan` | external/flash-moe/repack_experts_35b.py:148-158 | the nested loops list every expert's nine moves in order |
| `ExpertRepack.PlanIsApart` | external/flash-moe/repack_experts_35b.py:148-158 | no two moves write the same byte and none writes outside the file |
| `ExpertRepack.PlanCovers` | external/flash-moe/repack_experts_35b.py:148-158 | every byte of the file is written by some move |
| `ExpertScatter.SortIsAscending` | external/flash-moe/repack_experts_35b.py:160-161 | the sorted plan ascends by file and offset |
| `ExpertScatter.ExecutePlan` | external/flash-moe/repack_experts_35b.py:163-170 | copying succeeds exactly when every stretch can be read in full, and then puts every stretch in place |
| `ExpertScatter.ScatterInOrder` | external/flash-moe/repack_experts_35b.py:160-170 | any reordering of the plan puts every move's bytes in place and counts the whole layer |
| `ExpertScatter.RepackLayer` | external/flash-moe/repack_experts_35b.py:105-174 | repacking succeeds exactly for complete, matching, readable entries, and then writes the whole layer |
| `ExpertScatter.OrderDoesNotMatter` | external/flash-moe/repack_experts_35b.py:160-170 | the file is the same whatever the order of the moves |
| `ExpertScatter.ByteForByte` | external/flash-moe/repack_experts_35b.py:148-170 | byte k of component c of expert e is byte e * size + k of that component's tensor |
| `ExpertScatter.StaysInTensorIff` | external/flash-moe/repack_experts_35b.py:148-158 | only the tensor's own bytes are used exactly when it holds at least 256 experts |
| `ExpertScatter.ShortTensorIsOverrun` | external/flash-moe/repack_experts_35b.py:148-158 | with 255 experts the last move reads behind the tensor |
| `EditLine.DecodeEncoded` | external/flash-moe/linenoise.c:160-188 | decoding reads an encoded character back, whatever follows it |
| `EditLine.EncodeInjective` | external/flash-moe/linenoise.c:160-188 | different texts have different bytes |
| `EditLine.MovesKeepText` | external/flash-moe/linenoise.c:1135-1164 | moving the cursor changes no character |
| `EditLine.BackspaceUndoesInsert` | external/flash-moe/linenoise.c:1206-1215 | backspace undoes an insertion exactly when the character does not join the cluster before it |
| `EditLine.InsertsIffFits` | external/flash-moe/linenoise.c:1100-1132 | an insertion puts the character left of the cursor exactly when it fits |
| `EditLine.KeysByMoves` | external/flash-moe/linenoise.c:1135-1215 | delete and backspace take what a move to the right or left passes; killing takes one side or both; home and end leave nothing on their side |
| `EditLine.LeftAfterRight` | external/flash-moe/linenoise.c:248-349 | moving right and then left comes back exactly when the cluster starts with a completed flag, or is linked throughout and not joined to what is before it; it ends further left exactly when linked and joined, further right exactly when a flag is completed behind other characters |
| `EditLine.SplitFlagGoesAstray` | external/flash-moe/linenoise.c:248-349 | for instance a flag around a variation selector: the cursor ends further right |
| `EditLine.NextClusterIsWhole` | external/flash-moe/linenoise.c:304-349 | what follows the cluster at the cursor does not extend it, is joined on only by a joiner that was itself joined on, and is no regional indicator unless the flag is complete |
| `EditLine.ClusterExamples` | external/flash-moe/linenoise.c:191-223 | accents, selectors and skin tones join what they follow, a joiner joins what follows it, two regional indicators pair, ASCII joins nothing |
| `EditLine.SwapExchanges` | external/flash-moe/linenoise.c:1375-1389 | a swap exchanges the two clusters and keeps every character |
| `EditLine.DeletePrevWordStops` | external/flash-moe/linenoise.c:1219-1233 | deleting a word stops at the front or behind a space and takes nothing right of the cursor |
| `EditLine.DeletePrevWordIsMoves` | external/flash-moe/linenoise.c:1219-1233 | it takes what moves to the left pass: all the clusters that end in a space, then all that do not |
| `EditBuffer.DecodePrev` | external/flash-moe/linenoise.c:227-240 | scanning back finds the character that ends at the position, and its length |
| `EditBuffer.PrevCharLen` | external/flash-moe/linenoise.c:248-300 | the loop returns the bytes of the cluster before the position and ends within bounds |
| `EditBuffer.NextCharLen` | external/flash-moe/linenoise.c:304-349 | the loop returns the bytes of the cluster at the position and ends within bounds |
| `EditBuffer.EditState.EditInsert` | external/flash-moe/linenoise.c:1100-1132 | the insertion on the line, or nothing when the buffer has no room |
| `EditBuffer.EditState.EditMoveLeft` | external/flash-moe/linenoise.c:1135-1140 | one cluster to the left |
| `EditBuffer.EditState.EditMoveRight` | external/flash-moe/linenoise.c:1143-1148 | one cluster to the right |
| `EditBuffer.EditState.EditDelete` | external/flash-moe/linenoise.c:1195-1203 | the cluster right of the cursor is deleted |
| `EditBuffer.EditState.EditBackspace` | external/flash-moe/linenoise.c:1206-1215 | the cluster left of the cursor is deleted |
| `EditBuffer.EditState.EditDeletePrevWord` | external/flash-moe/linenoise.c:1219-1233 | the spaces and the word left of the cursor are deleted |
| `EditBuffer.EditState.EditSwap` | external/flash-moe/linenoise.c:1375-1389 | the clusters round the cursor change places; the temporary buffer is overrun exactly when the second has more than its 32 bytes |
| `EditBuffer.EditState.Feed` | external/flash-moe/linenoise.c:1317-1498 | every key does to the buffer what it does to the line, but for a swap that overruns its temporary buffer |
| `EditBuffer.EditState.FeedAll` | external/flash-moe/linenoise.c:1317-1498 | so does any sequence of keys, up to the first such swap; all keys are handled exactly when every swap fits |
| `EditBuffer.LineFits` | external/flash-moe/linenoise.c:1100-1101 | the line never outgrows the buffer |
| `EditBuffer.ClustersAreUnbounded` | external/flash-moe/linenoise.c:1378-1383 | clusters have no largest size |
| `EditBuffer.SwapNeedsItsLimit` | external/flash-moe/linenoise.c:1378-1383 | a cluster of 33 bytes does not fit the temporary buffer of a swap |

## Left out

- Memory: allocation and freeing in the C code; buffers are arrays of the right size, and strings are values.
- Zero bytes: the C functions take a text up to its first zero byte; the model's texts are what comes before it.
- Byte order: the C loader reads numbers with `fread`; the model takes a little-endian machine, as the exporter's format is.
- Hash slots: `& mask` is the bitwise function of `Bits`, and the arrays of key addresses and key lengths are one array of keys.
- BpeLoad: says exactly when the table sizes and key lengths do not hold a file's lists (none, more than 2^30, a key of 2^16 bytes), but not what the program then does, which goes on with tables that cannot be looked up in.
- BpeEncode: asks that every announced multi-byte sequence lies in the text, because a span would otherwise read past its end; UTF-8 text meets this.
- EncodingIsLossless: asks for non-empty added tokens in UTF-8, since an empty one would cut chunks between the bytes of a character.
- Byte fallback: it maps bytes that are already in the byte alphabet a second time, so it is shown never to be taken with complete tables, and nothing more.
- JSON: characters rather than bytes are counted, and parsing the repaired text with serde is not part of this model.
- Agent replies: action names and aliases, line-oriented actions, and the choice between fenced, bare and embedded replies.
- Git: the path that calls `git apply`, disk errors while writing, directories, and paths that normalise to the same file.
- Rendered diffs: the renderer writes one `diff --git` header a file; deleted files and renames have no group in the program and are not rendered.
- Downstream sink: the fan-out hands events to it outside the lock, so no order is claimed.
- Worker timing: the 50 ms wait is a step that may find the queue empty; a poisoned lock and a panicking handler are not modelled.
- Fan-out counts: `dropped_events` and capacities are unbounded numbers, as no queue comes near 2^64 entries.
- Ledger: the hash is a parameter, injective where that is needed; serialisation, blank lines, half-written lines and the clock are left out.
- ReadFrom: the file is read twice; the second read may see more events than were validated, but never a changed one, because there is one writer.
- Subscriber cursors: storing and loading them as files.
- Index: SQLite, directory walking, the hash, the language of a path, the lossy decoding of bytes, and the harvest of symbols, imports and tests are parameters.
- Index tables: `diagnostics` and `proof_history` are only ever deleted from, `symbol_references` never touched, and ids and build times are left out.
- BuildIndex: a file is taken to stay the same between scanning and reading it.
- Retrieval: scoring, ranking and choosing excerpts; the packer gets its offers as a list, and the final sort of handles by label only reorders them.
- RecallMemory: an overflow of the 32-bit sum ends the modelled run; the program wraps or panics, depending on how it was built.
- Repacking: opening files, the dry run, spot checks, layer lists and JSON; the branch for one tensor per expert takes its stride from two items only and is not modelled.
- Line editor: reading keys, terminal refresh, hints, completion, history and raw mode; the width bookkeeping of the display.
- EditSwap: an overrun of the temporary buffer ends the modelled run before the copy; the program makes the copy.
- EditInsert: whole characters are inserted; what a truncated sequence from the terminal would leave behind is not modelled.
- Settings, scoring, reporting, validation planning, mention links, benchmark preparation, the artifact cache and the desktop user interface.
