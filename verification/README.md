# tagstrak in Dafny

A verification project beside tagstrak. It models how a tag's bits become an identity, how identities and encodings
are matched against subscriptions, how matches are delivered, and how the LLRP reader and emulator talk, and proves
that the fast and wire-level forms agree with their simpler meanings. `dafny verify dfyconfig.toml` checks everything.

| files | part of tagstrak |
|---|---|
| Bits, Decimal, Text, Identity, Wrappers | bit access, decimal text, identities, patterns and translations |
| Layout, SchemeTable, Gs1Field, Gs1Codec, Gs1Uri, Gs1Pattern | GS1 EPC tag data: layouts, binary, URIs, pattern compilation |
| PatternText, Refusals | what the text of a pattern says, which texts compile, and which texts name nothing registered |
| IsoText, Iso, Translate | ISO 6-bit text, transport units, the PC word and the translation boundary |
| Filter, Entries, BitTrie, FieldTrie, RankOrder, FilterIndex, TagMatching | the linear matcher, the prefix index and their agreement |
| Adaptive | choosing among matchers by cost |
| ReportBatch, Delivery, DispatcherLane, Dispatcher, LaneDelivery | batch bodies, retries, lanes, the dispatcher as a step machine, and that its workers deliver as the retry rules say |
| BatchIDs, Graceful, Shutdown | that batch IDs tell batches apart, what a Close hands over, and that it ends |
| LlrpCodec, LlrpReport, ReportPacking | LLRP frames and parameters, report decoding, report packing and reading |
| SessionMessages, SessionProtocol | the session messages, and emulator and reader composed over FIFO channels |
| Journey | from written identities over reports and observations back to identities |

The GS1 lemmas hold for every registry that passes the layout conditions of `Layout`; `SchemeTable` carries the
generated table and shows that it is one. The matching chain runs from tag bits to decimal components, pattern text,
value/mask test and trie, and ends at `TagMatching.MatchTag`. The dispatcher and the session are step machines; their
main results quantify over all runs.

Where code and documentation differ, the model follows the code:

- The index's package comment says field ranges may sit in bit-tested patterns (internal/filter/index.go:26-28); the
  pattern compiler publishes no bit test for a pattern with a range (internal/tdt/gs1epc/pattern.go:229). The index is
  proved for arbitrary masks, with holes or without.
- The dispatcher's validation is documented to check every upper limit (internal/report/dispatcher.go:56-57) but leaves
  the backoff cap open. Two 64-bit computations depend on it: the doubling, and the sum in the budget test (line 405).
  `Delivery.RoomDecides` and `Delivery.WaitsDecide` give the exact configurations under which every attempt starts within
  the retry budget, and under which every wait is the intended one; any cap up to 2^62 is enough for the waits.
  `Delivery.BudgetTestWraps` is a valid configuration near the top of the range for which both fail.
- The pure identity renderer does not look at the authority, while its parser always answers GS1;
  `Gs1Uri.ParseOfRenderedPure` states exactly when the round trip holds.
- With a negative parameter limit the parameter decoder accepts an empty list that the encoder refuses.

## Model

| member | source | states |
|---|---|---|
| Bits.BitsAt | internal/tdt/gs1epc/scheme.go:226-234 | reading n bits at an offset, most significant first, gives the number they spell |
| Bits.SetBits | internal/tdt/gs1epc/scheme.go:237-244 | writing a number in place sets exactly its one bits inside the run and touches no other bit |
| Bits.NumOfBits | internal/tdt/gs1epc/scheme.go:226-244 | a run that spells a number reads as that number, so writing then reading is the identity |
| Bits.NumSpells | internal/tdt/gs1epc/scheme.go:226-244 | the converse: a run always spells the number read from it |
| Bits.ByteNum | internal/tdt/gs1epc/scheme.go:226-234 | the eight bits of a byte read as the value of the byte |
| Bits.NumJoin | internal/tdt/gs1epc/scheme.go:226-234 | of two adjacent runs the first one read gives the higher digits, so longer fields are big-endian numbers |
| Bits.BufferExtensionality | internal/tdt/gs1epc/scheme.go:226-244 | buffers that agree on every bit are equal, which turns bit-level arguments into byte equality |
| Decimal.ValueOfFormat | internal/tdt/gs1epc/field.go:24-43 | decimal text of a number has that number as its value |
| Decimal.FormatOfValue | internal/tdt/gs1epc/field.go:50-79 | text without leading zeros is what formatting its value writes |
| Decimal.PadOfValue | internal/tdt/gs1epc/field.go:24-79 | zero-padding the formatted value of a digit string to its length restores the string |
| Gs1Field.ParseOfRender | internal/tdt/gs1epc/field.go:24-79 | rendering then parsing gives the number back for padded, unpadded and zero-length fields up to their maximum |
| Gs1Field.RenderOfParse | internal/tdt/gs1epc/field.go:24-79 | parsing then rendering gives the text back, so every accepted text is canonical |
| Gs1Field.RenderMeans | internal/tdt/gs1epc/field.go:24-43 | the text of a field spells its value in digits, padded with zeros to a fixed length or without leading ones |
| Gs1Field.RenderInjective | internal/tdt/gs1epc/field.go:24-43 | different numbers in range render differently |
| Layout.ContiguousOrdered | internal/tdt/tdtdef/schemes_gen.go:6-712 | runs that follow one another are disjoint and ordered |
| Layout.ContiguousCovers | internal/tdt/tdtdef/schemes_gen.go:6-712 | runs that follow one another leave no bit uncovered |
| Layout.PartitionFound | internal/tdt/gs1epc/scheme.go:171-187 | the search for the literal before the company prefix finds the same partition site in every option |
| SchemeTable.TableWellFormed | internal/tdt/tdtdef/schemes_gen.go:6-712 | the generated table, all four schemes and 28 options, meets every layout condition the codec relies on |
| Gs1Codec.LookupRegistered | internal/tdt/gs1epc/scheme.go:79-223 | label and header lookups find exactly the registered scheme |
| Gs1Codec.DecodeTag | internal/tdt/gs1epc/decode.go:17-79 | the decoding loops compute Decode: length, header, partition, literals, then fields, with each error class |
| Gs1Codec.CheckLiterals | internal/tdt/gs1epc/decode.go:40-44 | the literal loop accepts exactly the tags whose every literal holds |
| Gs1Codec.EncodeTag | internal/tdt/gs1epc/encode.go:27-89 | the encoding loops compute Encode: option, component values, literals and fields in a fresh buffer, or the first error |
| Gs1Codec.WriteTag | internal/tdt/gs1epc/encode.go:66-76 | literals then fields written in place give the tag of those values, or nothing when a value exceeds its field |
| Gs1Codec.ReadWritten | internal/tdt/gs1epc/encode.go:66-76 | a written tag holds its literals and reads back as the values it was written from |
| Gs1Codec.WriteRead | internal/tdt/gs1epc/decode.go:40-79 | writing the values read from a tag that holds its literals restores every byte, because the runs cover the tag |
| Gs1Codec.DecodeInversion | internal/tdt/gs1epc/decode.go:30-79 | what a decoded tag is made of: the registered scheme its first byte names, bits enough for it, the option its partition names, held literals, values in range |
| Gs1Codec.DecodedReads | internal/tdt/gs1epc/decode.go:17-79 | a decoded tag field by field: every component spells the number at its place, the first the filter and the others the identity; partition, prefix length and the tag's own bytes are kept |
| Gs1Codec.DecodePrefix | internal/tdt/gs1epc/decode.go:17-79 | decoding never looks beyond the significant bits |
| Gs1Codec.DecodeRefuses | internal/tdt/gs1epc/decode.go:17-79 | which tags are refused and under which error: too few bits, a header or partition of nothing registered, a literal that differs, a field beyond its maximum |
| Gs1Codec.EncodeInversion | internal/tdt/gs1epc/encode.go:27-89 | what an accepted encoding is made of |
| Gs1Codec.EncodeRefuses | internal/tdt/gs1epc/encode.go:27-89 | which built identities are refused and under which error: an unregistered label, another authority or key type, and past that only values |
| Gs1Codec.DecodeOfEncode | internal/tdt/gs1epc/encode.go:27-89 | whatever Encode accepts decodes to the same identity, scheme and filter |
| Gs1Codec.EncodeOfDecode | internal/tdt/gs1epc/decode.go:17-79 | whatever Decode accepts re-encodes to exactly the bytes of the tag |
| Gs1Codec.EncodableIff | internal/tdt/gs1epc/encode.go:27-89 | an identity and filter are encodable exactly when some tag decodes to them |
| Gs1Codec.DecodeInjective | internal/tdt/gs1epc/decode.go:17-79 | two tags with the same identity, scheme and filter carry the same bytes |
| Gs1Uri.RenderOfParsedPure | internal/tdt/gs1epc/uri.go:34-120 | rendering a parsed pure identity URI gives the same text |
| Gs1Uri.RenderPureIdentity | internal/tdt/gs1epc/uri.go:34-63 | the identity renderer checks and appends component by component and computes the rendered URI or its error |
| Gs1Uri.RenderTag | internal/tdt/gs1epc/uri.go:66-84 | the tag renderer's loop computes the rendered tag URI or its error |
| Gs1Uri.ParseOfRenderedPure | internal/tdt/gs1epc/uri.go:34-120 | parsing a rendered pure identity URI gives the identity back exactly when its authority is GS1 |
| Gs1Uri.AuthorityIsLost | internal/tdt/gs1epc/uri.go:34-63 | an identity of another authority renders to the same text and does not survive the round trip |
| Gs1Uri.RenderOfParsedTag | internal/tdt/gs1epc/uri.go:66-168 | rendering a parsed tag URI gives the same text |
| Gs1Uri.ParseOfRenderedTag | internal/tdt/gs1epc/uri.go:66-168 | the tag URI of a decoded tag parses back to exactly that translation, bits included |
| Gs1Uri.PureOfDecoded | internal/tdt/gs1epc/uri.go:34-120 | every decoded tag has a pure identity URI, and it parses back to the identity |
| Refusals.PureRefuses | internal/tdt/gs1epc/uri.go:89-120 | a pure identity URI is of an unsupported scheme exactly when it names a key nobody has, and malformed when it names none |
| Refusals.TagRefuses | internal/tdt/gs1epc/uri.go:123-168 | the same of tag URIs and labels |
| Refusals.PatternRefuses | internal/tdt/gs1epc/pattern.go:24-122 | the same of pattern texts, of either kind |
| Text.JoinOfSplit | internal/tdt/gs1epc/uri.go:89-120 | joining what splitting gives restores the text |
| Text.SplitOfJoin | internal/tdt/gs1epc/uri.go:89-120 | splitting what joining gives restores the parts when none contains the separator |
| Identity.AcceptedStarSuffix | internal/identity/pattern.go:144-196 | the scan of the pattern constructor accepts only fields whose stars form a suffix |
| Identity.MatchBitsByBit | internal/identity/pattern.go:108-121 | the byte-wise value/mask test says that every bit the mask sets agrees with the value |
| Gs1Pattern.BuildOptionTest | internal/tdt/gs1epc/pattern.go:245-276 | the in-place OR, clear and re-pin loops compute the specified value and mask, or fail on a text that is no number |
| Gs1Pattern.PinFields | internal/tdt/gs1epc/pattern.go:246-263 | the field loop pins header and exact fields and finds where the first star begins |
| Gs1Pattern.ClearBits | internal/tdt/gs1epc/pattern.go:266-269 | clearing a run in both buffers clears exactly that run |
| Gs1Pattern.TestMeansPinned | internal/tdt/gs1epc/pattern.go:207-277 | for a tag that holds an option's literals, the compiled test succeeds exactly when the exact fields carry their numbers |
| Gs1Pattern.ExactPinned | internal/tdt/gs1epc/pattern.go:245-276 | every bit of an exact field ends up pinned to its number, whatever is cleared and re-pinned around it |
| Gs1Pattern.StarUnpinned | internal/tdt/gs1epc/pattern.go:248-269 | no bit of a star field is pinned |
| Gs1Pattern.LiteralPinned | internal/tdt/gs1epc/pattern.go:270-275 | every literal ends up pinned, even beyond the first star |
| Gs1Pattern.OtherOptionFails | internal/tdt/gs1epc/pattern.go:207-277 | a tag of another partition satisfies neither the test nor the fields |
| Gs1Pattern.HeaderAccepts | internal/tdt/gs1epc/pattern.go:235-244 | the header-only test of an all-star pattern accepts every tag of the scheme |
| Gs1Pattern.CompiledTag | internal/tdt/gs1epc/pattern.go:65-95 | what a compiled tag pattern is made of: scheme, option, field patterns and bit test; what they mean is PatternText.PatternSays |
| Gs1Pattern.BitTestIsFieldTest | internal/tdt/gs1epc/pattern.go:207-277 | for every compiled tag pattern and every decoded tag of its scheme, the bit test agrees with comparing decimal texts |
| PatternText.FieldSays | internal/tdt/gs1epc/pattern.go:155-204 | a compiled field accepts a value exactly when its text is a star, the value itself, or a bracketed range with the value between its ends |
| PatternText.PatternSays | internal/tdt/gs1epc/pattern.go:24-204 | on every translation a compiled pattern matches exactly when its text says so: the scheme or key it spells is the translation's, and each dotted part accepts the field text beside it |
| PatternText.PatternCompiles | internal/tdt/gs1epc/pattern.go:24-204 | exactly which texts compile, on the text: the spelled scheme or key is registered, the parts fit the fields of the selected option, and stars form a suffix |
| Filter.Validate | internal/filter/filter.go:128-154 | validation accepts exactly the valid lists and otherwise reports the first subscription at fault |
| Filter.MatchingIDs | internal/filter/linear.go:31-41 | the reference answer: exactly the IDs of subscriptions with a matching pattern |
| Filter.Linear.Match | internal/filter/linear.go:31-41 | the linear matcher appends the reference answer to the caller's buffer |
| BitTrie.LeadingOnes | internal/filter/index.go:159-168 | the length of the mask's leading run of ones, for any mask |
| BitTrie.BinarySearch | internal/filter/index.go:149-156 | the position of a key, or the place that keeps the keys sorted |
| BitTrie.BitNode.Child | internal/filter/index.go:149-156 | the child under a byte, inserted in key order when new; other children keep their keys |
| BitTrie.PrefixOfMatch | internal/filter/index.go:93-116 | a matching tag starts with the value bytes the leading run pins and agrees on the remaining high bits |
| BitTrie.BitTries.Home | internal/filter/index.go:97-107 | walking down creates what is missing and ends at the node the pinned bytes name, every earlier entry staying at its home |
| BitTrie.BitTries.Append | internal/filter/index.go:108-114 | appending at the home adds exactly that entry |
| BitTrie.BitTries.Add | internal/filter/index.go:93-116 | adding a pattern keeps the trie valid and stores exactly one more entry |
| BitTrie.BitTries.PrefixIsNode | internal/filter/index.go:97-107 | every place on the way to a node is a node |
| BitTrie.BitTries.HomeOnPath | internal/filter/index.go:204-228 | a matching entry lives on the tag's own path and its high bits pass |
| BitTrie.BitTries.DeeperGoesOn | internal/filter/index.go:220-226 | a matching entry that lives deeper keeps the path going |
| BitTrie.BitTries.Walk | internal/filter/index.go:204-228 | following the tag's bytes reports exactly the matching entries: nothing is pruned |
| BitTrie.BitTries.Lookup | internal/filter/index.go:185-189 | the same when the scheme may have no trie |
| FieldTrie.ExactPrefix | internal/filter/index.go:172-183 | how many leading fields are exact, answered exactly when the rest are stars |
| FieldTrie.HomeOfMatch | internal/filter/index.go:93-147 | a matching pattern's exact texts are the subject's leading component values |
| FieldTrie.FieldTries.Add | internal/filter/index.go:122-146 | adding a pattern keeps the tries valid and stores exactly one more entry |
| FieldTrie.FieldTries.DeeperGoesOn | internal/filter/index.go:241-257 | a matching entry that lives deeper keeps the path going |
| FieldTrie.FieldTries.Walk | internal/filter/index.go:232-258 | following component values from a root reports every matching entry hanging from it and nothing that does not match |
| FieldTrie.FieldTries.Lookup | internal/filter/index.go:190-195 | the scheme's and the domain's tries together report exactly the matching entries |
| RankOrder.IsSortedByRank | internal/filter/index.go:267-270 | whether the buffer is in rank order |
| RankOrder.SortByRank | internal/filter/index.go:267-270 | sorting in place permutes the buffer into rank order |
| RankOrder.Compact | internal/filter/index.go:271-271 | compacting in place leaves the same IDs, each once, in order |
| RankOrder.Order | internal/filter/index.go:262-272 | the caller's prefix is untouched and the rest becomes the same IDs in rank order, each once |
| RankOrder.StrictOrderUnique | internal/filter/index.go:260-272 | two strictly ordered lists of the same IDs are the same list |
| FilterIndex.Index.Add | internal/filter/index.go:93-147 | each pattern goes to one of the three structures and the index holds exactly one more entry |
| FilterIndex.Index.constructor | internal/filter/index.go:72-91 | compiling holds exactly the patterns of the list, each under its subscription's rank |
| FilterIndex.CompileIndex | internal/filter/index.go:72-91 | the compiler refuses exactly the invalid lists |
| FilterIndex.Index.Collect | internal/filter/index.go:185-201 | the tries and the residual list report exactly the matching entries of the whole index |
| FilterIndex.MatchingInOrder | internal/filter/linear.go:31-41 | the linear answer is in rank order, each ID once |
| FilterIndex.OrderedIsMatching | internal/filter/index.go:185-202 | any exact report put in strict rank order is the linear answer |
| FilterIndex.Index.Match | internal/filter/index.go:185-202 | for every valid list, subject and buffer the index returns exactly what the linear matcher returns, for arbitrary masks |
| TagMatching.RuleIsReference | internal/filter/filter.go:156-177 | on every translation, GS1 or ISO, the match rule, bit tests included, is the reference semantics on fields |
| TagMatching.MatchingIsReference | internal/tdt/tdtcore/encoding.go:110-128 | the matchers' answer is what the reference semantics selects, in order |
| TagMatching.ReferenceIsSaid | internal/tdt/tdtcore/encoding.go:110-128 | what the reference semantics selects among compiled rules is what their texts say |
| TagMatching.IndexRules | internal/filter/index.go:72-91 | compiled pattern texts make a valid index unless the list itself is refused |
| TagMatching.TranslatedIsGenuine | internal/tdt/tdt.go:180-236 | whatever the translator answers is a decoded GS1 tag or carries a scheme no pattern names |
| TagMatching.IsoMatchesNoTagPattern | internal/tdt/tdtcore/encoding.go:110-128 | an ISO translation satisfies no tag pattern, neither by the rule nor by the reference semantics |
| TagMatching.MatchTag | internal/app/tagstrak/match.go:68-75 | from tag memory and PC word: translating and asking the index gives exactly the subscriptions one of whose pattern texts says so, in order, or the translation error |
| Adaptive.RingMean | internal/filter/adaptive.go:333-364 | a ring's mean is the truncated average of the last min(count, window) costs |
| Adaptive.AverageMeans | internal/filter/adaptive.go:354-364 | the average times the count misses the sum by less than the count, on the side of zero |
| Adaptive.Controller.Observe | internal/filter/adaptive.go:333-342 | one more cost enters the candidate's history and replaces the oldest in a full ring |
| Adaptive.Controller.Warm | internal/filter/adaptive.go:345-352 | warm exactly when every candidate has been observed warmup times |
| Adaptive.Controller.Mean | internal/filter/adaptive.go:354-364 | the mean is that of the observed history, not just of the ring |
| Adaptive.Controller.Decide | internal/filter/adaptive.go:369-390 | it switches exactly when every candidate is warm, the cooldown is over and some candidate is cheapest and beats the selected one by more than the hysteresis |
| Adaptive.WarmupEnds | internal/filter/adaptive.go:198-259 | with round-robin shadows, all candidates are warm exactly from sampled call (k-1)*warmup on |
| Adaptive.PaceKept | internal/filter/adaptive.go:198-259 | one sampled call keeps the observation counts on the round-robin schedule |
| Adaptive.Matcher.PickShadow | internal/filter/adaptive.go:252-259 | the turn passes to the next candidate going round that is not the selected one |
| Adaptive.Matcher.Timed | internal/filter/adaptive.go:232-241 | a timed call costs the clock's difference around it; that cost alone enters the candidate's history, and the shadow time if it was a shadow |
| Adaptive.AllShadows | internal/filter/adaptive.go:218-222 | under full shadow every candidate but the selected one is timed, in order |
| Adaptive.EveryChallengerComes | internal/filter/adaptive.go:252-259 | while the selected candidate stays, each of the others is the shadow exactly once in every round of n - 1, wherever the turn stood |
| Adaptive.Matcher.Sample | internal/filter/adaptive.go:198-230 | a sampled call answers like any candidate, times exactly the selected candidate and the shadows due, the selected one first on every other call, and switches exactly when it should |
| Adaptive.Matcher.Match | internal/filter/adaptive.go:198-230 | every call returns the common answer of the candidates behind the caller's buffer, whatever the clock says; only sampled calls time anything, and they switch exactly when warmup, cooldown and the observed means say so |
| Adaptive.Matcher.Pace | internal/filter/adaptive.go:198-390 | warm from sampled call (k-1)*warmup on; after s switches at least (k-1)*warmup + (s-1)*(cooldown+1) sampled calls |
| Adaptive.Matcher.Due | internal/filter/adaptive.go:203-249 | outside full shadow, once warm, a shadow is due exactly while shadow time is at most the budgeted fraction of the selected mean times the calls |
| Adaptive.Matcher.SteadyChoice | internal/filter/adaptive.go:198-390 | if every call of a candidate takes its own fixed time, the means are these times, and a candidate beats another exactly when its time is the least and below the other's by the hysteresis |
| Adaptive.Matcher.ShadowTimeIs | internal/filter/adaptive.go:232-241 | a call outside full shadow adds to the shadow time the clock's difference around its one shadow |
| ReportBatch.Encode | internal/report/encode.go:59-76 | the encoder writes the batch body and never outgrows the capacity it computed |
| ReportBatch.BodyText | internal/report/encode.go:59-76 | the body as text: schema, batch ID and the encoded events with commas between them |
| ReportBatch.RunningSizeIsBody | internal/report/dispatcher.go:311-363 | the running size is exactly one more than the real body length if and only if the counter is below 10^10 |
| ReportBatch.BodyBeyondTenDigits | internal/report/dispatcher.go:378-380 | from 10^10 on the counter makes the body longer by its extra digits |
| Delivery.DispatcherBackoff | internal/report/dispatcher.go:426-432 | the doubling loop on 64-bit integers, equal to min(Base*2^(k-1), Max) while Max is at most 2^62 |
| Delivery.OverflowBound | internal/report/dispatcher.go:426-432 | of the bare loop: right for every base and attempt exactly when Max is at most 2^62 |
| Delivery.BackoffExact | internal/report/dispatcher.go:426-432 | for one base and cap the loop computes the intended delay at every attempt up to n if and only if the base does not double to between 2^62 and the cap before it |
| Delivery.BackoffIsIntended | internal/report/dispatcher.go:383-421 | no doubling overflows in a delivery whose budget tests stay within 64 bits, whatever Max: a retried attempt waited at most the budget, of at most an hour |
| Delivery.ReaderBackoff | internal/reader/config.go:69-78 | the reader's overflow-guarded loop computes the same delays for every cap |
| Delivery.WaitIsIntended | internal/report/dispatcher.go:395-398 | before a doubling overflows, which depends on the configuration alone, every wait is the larger of the capped doubling and the capped hint |
| Delivery.WaitsDecide | internal/report/dispatcher.go:58-76 | the exact configurations under which every wait of every delivery is the intended one: those with room for the budget test, and those whose base never doubles to between 2^62 and Max within the allowed attempts |
| Delivery.BudgetKept | internal/report/dispatcher.go:405-406 | attempt n starts within the retry budget if and only if every budget test before it stayed within 64 bits |
| Delivery.RoomDecides | internal/report/dispatcher.go:58-76 | with attempts no longer than a given time, no environment makes an attempt start after the budget if and only if Max leaves the sum that much room |
| Delivery.BudgetTestWraps | internal/report/dispatcher.go:405-406 | a valid configuration whose budget test wraps around: the batch is retried and the next doubling overflows |
| Delivery.Deliver | internal/report/dispatcher.go:378-422 | only a temporary error before the deadline is followed by another attempt, after the whole wait; a permanent error or the last attempt fails; otherwise the batch fails exactly when the wait would end after the budget, as far as 64 bits notice; retries are counted exactly; waits are the intended ones unless the configuration lets a doubling overflow |
| DispatcherLane.Shares | internal/report/dispatcher.go:307-374 | sharing out: each position in one place once, and the counts add up |
| DispatcherLane.ReceiveKeeps | internal/report/dispatcher.go:331-357 | taking an event keeps conservation, order, batch limits and the log |
| DispatcherLane.ReceiveCloses | internal/report/dispatcher.go:331-359 | an event received closes the batch exactly when it does not fit or the batch reaches BatchEvents or BatchBytes with it |
| DispatcherLane.SettleOpens | internal/report/dispatcher.go:346-359 | an event that did not fit opens the next batch |
| DispatcherLane.SettleKeeps | internal/report/dispatcher.go:378-422 | settling a batch moves it to exactly one of delivered, failed and undelivered |
| DispatcherLane.LaneConserves | internal/report/dispatcher.go:307-374 | every accepted event is queued, in hand, delivered, failed or undelivered, and in only one of these |
| DispatcherLane.LaneIsFifo | internal/report/dispatcher.go:307-422 | the attempt log with repeats erased is consecutive segments of the accepted order; repeats stay within the attempt limit; delivered means a call returned nil |
| DispatcherLane.BatchFits | internal/report/dispatcher.go:338-357 | every batch ever handed to the reporter has at most BatchEvents events, and of two or more a body shorter than BatchBytes while the counter is below 10^10 |
| DispatcherLane.DeliveryFits | internal/report/dispatcher.go:338-357 | the same of the batch in delivery, before its first call |
| LaneDelivery.DeliveryMoves | internal/report/dispatcher.go:378-422 | however the environment answers, a worker can make the moves of the delivery the retry rules give, and they leave exactly its calls and retries on record and the batch counted by its fate |
| Dispatcher.NoSendOnClosed | internal/report/dispatcher.go:214-255 | a call that has seen the dispatcher open finds its queue open, whether or not there is room in it |
| Dispatcher.WorkerKeeps | internal/report/dispatcher.go:311-422 | every worker step keeps its lane's invariant |
| Dispatcher.StepKeeps | internal/report/dispatcher.go:194-286 | every step of enqueuers, workers, Close and the deadline keeps the invariant |
| Dispatcher.Safety | internal/report/dispatcher.go:194-422 | the invariant holds in every run of every interleaving, and no call about to send finds its queue closed |
| Dispatcher.CallsAnswered | internal/report/dispatcher.go:214-238 | whenever no Enqueue is under way, every call so far was accepted or counted as dropped, never both |
| Dispatcher.DropsOnlyWhen | internal/report/dispatcher.go:214-238 | an event is dropped only at a closed dispatcher or a full queue, and accepted only by an open one with room |
| Dispatcher.CloseAccounts | internal/report/dispatcher.go:244-286 | when the first Close returns, enqueued = delivered + failed + undelivered, event by event |
| Dispatcher.AccountsAreFinal | internal/report/dispatcher.go:244-286 | nothing that happens afterwards changes any lane's account |
| BatchIDs.IDsTellBatches | internal/report/dispatcher.go:378-392 | in every run any two reporter calls, of whatever lanes, carry the same batch ID exactly when they are for the same batch of the same lane |
| Graceful.FailedInVain | internal/report/dispatcher.go:331-422 | in every run an event counted as failed had no encoding, or its batch was handed to the reporter, without success |
| Graceful.GracefulClose | internal/report/dispatcher.go:244-422 | a Close of started workers whose deadline does not pass leaves nothing undelivered: the reporter was called with every encodable event in accepted order, and an event failed exactly when no call for it succeeded |
| Graceful.UnstartedClose | internal/report/dispatcher.go:244-286 | a Close of workers never started leaves every accepted event undelivered and calls no reporter |
| Shutdown.WorkerWorks | internal/report/dispatcher.go:311-374 | every worker step lowers a measure of what is left to do: queued and pending events, the batch in hand, its attempts |
| Shutdown.StepWorks | internal/report/dispatcher.go:244-286 | once closed, every step of Close or of a worker lowers the measure of the whole dispatcher, and Enqueue calls leave it alone |
| Shutdown.CloseGoesOn | internal/report/dispatcher.go:244-286 | until Close has returned, it or a worker can move without waiting for the deadline |
| Shutdown.CloseEnds | internal/report/dispatcher.go:244-286 | in every run, Close has returned once it and the workers have made as many steps as the measure says, however many Enqueue calls come between; until then they are not stuck |
| LlrpCodec.ReadOfEncoded | llrp/codec.go:75-142 | an encoded message is read back off any stream that starts with it, and the rest stays |
| LlrpCodec.EncodeOfDecoded | llrp/codec.go:75-120 | encoding a decoded frame restores it |
| LlrpCodec.FrameBytes | llrp/codec.go:75-93 | the frame on the wire: type, whole length and ID, most significant bytes first, then the payload |
| LlrpCodec.EncodeParameterList | llrp/codec.go:203-220 | the encoding loop computes the bounded encoding or its first error |
| LlrpCodec.WalkParameters | llrp/codec.go:246-292 | the walk terminates with the visitor's first error, the structural error, or the folded state |
| LlrpCodec.DecodeParameterList | llrp/codec.go:227-241 | decoding is the walk with a collecting visitor |
| LlrpCodec.DecodeOfEncode | llrp/codec.go:174-241 | what the encoder accepts decodes to the same list under the same limits |
| LlrpCodec.DecodesFixed | llrp/codec.go:246-306 | in front of any list, each fixed-width parameter is read with its own number of bytes |
| LlrpCodec.DecodesVariable | llrp/codec.go:246-292 | in front of any list, a variable parameter is read with the type in its ten low bits and the length its bytes spell |
| LlrpCodec.HeadRefuses | llrp/codec.go:246-306 | which parameters are refused: of no known fixed width, cut off, or too large |
| LlrpCodec.EncodeOfDecode | llrp/codec.go:174-292 | re-encoding what the decoder accepts reproduces the input with reserved bits cleared; only a negative count limit tells the two apart |
| LlrpCodec.CanonicalBits | llrp/codec.go:268-276 | clearing reserved bits changes only the first byte of each TLV parameter, to its two type bits |
| LlrpReport.InspectMeans | llrp/ro_access_report_codec.go:80-104 | inspection fails exactly on a malformed parameter; otherwise the last EPC and the last PC win |
| LlrpReport.EPCBytes | llrp/ro_access_report_codec.go:92-104 | a variable-length EPC is the bytes its bit count needs, the last perhaps in part; none or too few are refused |
| LlrpReport.DecodeTagReportData | llrp/ro_access_report_codec.go:75-112 | the two walks give structural errors first, then malformed ones, then a missing EPC |
| LlrpReport.GatherIsReference | llrp/decode_reference_test.go:14-59 | the gathering visitor over a decoded list is the reference decoder |
| LlrpReport.StoreTiles | llrp/ro_access_report_codec.go:53-69 | each stored event extends the tiling of the arena |
| LlrpReport.TilesDisjoint | llrp/ro_access_report_codec.go:53-69 | slices of the arena are pairwise disjoint |
| LlrpReport.DecodeReadEvents | llrp/ro_access_report_codec.go:20-70 | same events or same first error as the reference, as disjoint pieces of one arena of known size |
| ReportPacking.TagParameterIs | llrp/tag_report_data.go:13-46 | the bytes written for a tag are the codec's encoding of a report with an EPC and a PC parameter |
| ReportPacking.TagBytes | llrp/tag_report_data.go:13-46 | the report of a tag byte by byte, for twelve bytes and for any other length |
| ReportPacking.WriteCycle | internal/emulator/reports.go:12-35 | never fails on size; every frame fits the budget and the parameter cap, is as full as possible and non-empty unless the cycle is; tags in order |
| ReportPacking.CheckReport | internal/reader/protocol.go:98-119 | a report passes exactly when it holds one EPC, of whole words when variable |
| ReportPacking.ReportOkMeans | internal/reader/protocol.go:98-119 | exactly the reports with one EPC, which if of variable length spells out its own whole words |
| ReportPacking.ReadObservations | internal/reader/protocol.go:88-142 | the reader's loops compute the batch's observations or its first error |
| ReportPacking.OneEventPerReport | internal/reader/protocol.go:88-142 | a batch that passes the checks and decodes yields exactly one event per report |
| ReportPacking.FrameReadsBack | internal/reader/protocol.go:88-142 | a packed frame reads back as its tags, in order, with PC = words << 11 |
| ReportPacking.CycleReadsBack | internal/emulator/reports.go:12-35 | whatever frames a cycle was packed into, the reader sees its tags in order, each once |
| Journey.IdentitiesArrive | internal/app/tagstrak/translate.go:83-90 | whatever GS1 identities were written to the tags of a cycle, and however it was packed, the reader's observations translate back to them, one per tag, in order |
| SessionMessages.ValidateNotification | internal/reader/protocol.go:14-45 | accepts exactly one container with at most one connection attempt, all successful, one being required initially |
| SessionMessages.ValidateConfigResponse | internal/reader/protocol.go:48-81 | accepts exactly one well-formed success status under the expected ID |
| SessionMessages.NotificationMeans | internal/reader/protocol.go:14-45 | exactly the notifications with one container whose only connection attempt, required initially, is successful |
| SessionMessages.ConfigResponseMeans | internal/reader/protocol.go:48-81 | exactly the responses under the expected ID with one status parameter, of code zero and a description of the announced length |
| SessionMessages.RequestKeepalive | internal/emulator/session.go:16-43 | the interval a request asks for, refused unless periodic, single and within the time budget |
| SessionMessages.RequestMeans | internal/emulator/session.go:16-43 | exactly which requests are granted, and the interval: the configured one, or the milliseconds the one specification spells, between 10 ms and an hour and within the time budget |
| SessionMessages.HandshakeBytes | llrp/parameter.go:13-86 | the fixed messages byte by byte |
| SessionMessages.NotificationAccepted | llrp/parameter.go:64-76 | the reader accepts the emulator's notification |
| SessionMessages.RequestAsks | llrp/parameter.go:42-50 | the reader's request is granted, with ten seconds, exactly when those fit the emulator's budget |
| SessionMessages.ResponseAccepted | llrp/parameter.go:53-61 | the reader accepts the emulator's response to its own request |
| SessionProtocol.StepKeeps | internal/emulator/session.go:73-213 | every step of either side keeps the session invariant |
| SessionProtocol.Safety | internal/reader/session.go:190-268 | in every run: no protocol violation, exactly one of the two timers armed, at most one keepalive under way, with the pending ID |
| SessionProtocol.TimingDecides | internal/emulator/session.go:33-35 | with limits that fit, no run violates the protocol if and only if ten seconds plus the ACK timeout stay below the read timeout |
| SessionProtocol.NumberedInARow | internal/emulator/session.go:114-200 | in every run keepalives and reports are numbered in a row modulo 2^32, and the pending ID is the last keepalive's |
| SessionProtocol.NumberedFromStart | internal/emulator/session.go:114-200 | keepalives are numbered from 0x80000000 on, reports from 1000 on |
| SessionProtocol.AnswersAnything | internal/reader/session.go:190-268 | what the reader does with any message whatever: when it goes on, to which stage, and what it sends |
| SessionProtocol.HandlesAnything | internal/emulator/session.go:150-166 | what a serving emulator does with any message whatever: only the pending acknowledgement, in time, lets the session go on |
| SessionProtocol.WireCarries | llrp/codec.go:75-142 | in every run each message under way, in either direction, is accepted by its sender's encoder and read back as sent by its receiver, whatever follows it on the stream |
| IsoText.CodesInverse | internal/tdt/iso/text.go:88-114 | accepted characters and codes without a control correspond one to one |
| IsoText.DecodeStream | internal/tdt/iso/text.go:123-141 | the decoding loop separates characters and controls and counts the residue |
| IsoText.EncodeStream | internal/tdt/iso/text.go:156-176 | the encoding loop writes the codes, or refuses empty, unencodable and unaligned text |
| IsoText.DecodeOfEncode | internal/tdt/iso/text.go:123-176 | encoded text is read back whole, without controls or residue, and takes whole words |
| IsoText.EncodeOfDecode | internal/tdt/iso/text.go:123-176 | a word-aligned stream without controls is what encoding its characters writes, bit for bit |
| IsoText.UnalignedRefused | internal/tdt/iso/text.go:156-176 | an unaligned stream has no encoding |
| IsoText.Characters | internal/tdt/iso/text.go:123-141 | each character read is the one whose low six bits are the code at its place, and the five control codes are none |
| Iso.Supported | internal/tdt/iso/iso.go:200-211 | what the register supports: two transport-unit identifiers with the licence plates, two others without a carriage |
| Iso.LongestDIMeans | internal/tdt/iso/interpret.go:185-196 | the longest recognised data identifier that prefixes the text wins |
| Iso.DecodeOfEncode | internal/tdt/iso/translate.go:87-152 | whatever identity Encode accepts decodes back, in at most 18 whole words |
| Iso.EncodableIff | internal/tdt/iso/translate.go:87-152 | exactly which built identities have an encoding: a licence plate qualifier and upper-case letters and digits under ISO 15459, at most fifty characters that fill whole words |
| Iso.EncodeRefuses | internal/tdt/iso/translate.go:87-152 | why a built identity is refused: a scheme not written, another key type or authority, another qualifier, a body empty, too long or of other characters, padding |
| Iso.EncodeOfDecode | internal/tdt/iso/translate.go:23-152 | re-encoding restores the tag exactly when it was word aligned and carried the current identifier |
| Iso.AcceptedCharacters | internal/tdt/iso/translate.go:23-66 | every accepted identity is, on its bits, a licence plate qualifier and upper-case letters and digits, at most fifty characters that fill the significant bits |
| Iso.DecodeRefuses | internal/tdt/iso/translate.go:23-82 | which tags are refused as unrecognised or truncated, and that a length error means more than fifty characters |
| Iso.TextRefuses | internal/tdt/iso/interpret.go:59-196 | why a complete stream is refused: a control of unsettled meaning or out of place, padding bits, no qualifier, too long, or other characters behind it |
| Translate.PCFields | internal/tdt/tdt.go:278-288 | length, toggle and AFI are read back from the PC word, clear of the extension bit |
| Translate.StoredLength | internal/tdt/tdt.go:180-211 | a PC word of 1 to 31 whole words tells the encoding's length and format |
| Translate.TranslateRefuses | internal/tdt/tdt.go:152-236 | what the PC word refuses, on the input's numbers: extension exactly when bit 0x200 is set, a contradicting length, data that falls short, and no numbering system |
| Translate.TranslateAccepts | internal/tdt/tdt.go:152-236 | a translated tag's PC word has no extension, nothing beyond its length is looked at, its toggle says whether it is GS1 data, and the caller's family identifier goes before the PC word's |
| Translate.WithoutPC | internal/tdt/tdt.go:197-236 | without a PC word the default format decides, over the given length or all of the bits |
| Translate.TranslateOfIso | internal/tdt/tdt.go:180-288 | a written ISO identity translates back to itself through its own PC word |
| Translate.TranslateOfGs1 | internal/tdt/tdt.go:180-288 | a written GS1 identity translates back to itself, filter and all, through its own PC word |

## Left out

- Text of error messages: errors are classes, so two failures of one class are not told apart.
- Character sets of URI fields: the registry refuses any but numeric ones, so fields hold digits.
- Building the lookup maps at start-up: the schemes are a list searched by label, key and header.
- Sorting is an in-place insertion sort standing for the library's sort, and the caller's buffer is a sequence, so sharing of its spare capacity is not modelled.
- Unsampled calls of the adaptive matcher running beside a sampled one: the model runs calls one after another. Counters are unbounded and fractions are reals.
- Candidate names and configuration checks of the adaptive matcher, and its statistics.
- Trimming white space around a pattern text before it is compiled.
- JSON of one event: an event is its encoded text, or has none. Log lines and the overflow-episode flag are omitted.
- Time in `Delivery.Deliver` passes in unbounded nanoseconds; the doubling and the budget test are 64-bit, and the elapsed time saturates. A sleep lasts as long as its wait, or none at all for a negative one.
- That a reporter call returns: in `Shutdown` a call in progress can always end, as the code asks of reporters that honour cancellation.
- Event loops of both session sides are the steps of `SessionProtocol`; deadlines, sockets and status snapshots are steps that may happen at any time. A message's length field is left zero and filled in on the wire.
- The reader's reconnect loop, except for its backoff.
- Partial writes of WriteMessage, and the emit callback failing in the middle of a cycle.
- Observation source names and times.
- LLRP bytes are numbers below 256, tag bytes are 8-bit vectors; `Journey` converts between them.
- Direct hand-over on a channel: a send to a receiver already waiting is a send step and then a receive step.
- ISO 17363 interpretation, which the code refuses by design, container codes and their check digit, and diagnostic rendering.
- Subscription table swapping, event routing, configuration files, telemetry, HTTP delivery and the code generators.
