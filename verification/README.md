# SoulSystem: a verified model

A Dafny 4.11 model of the parts of SoulSystem whose behaviour is decided by whole runs, by
interleavings or by a text format: the hash-chained audit journal, the LRU cache in front of
memory search, the spiking network, the WebSocket bridge, the session summariser, command
streaming, Base64 and the authorised-keys file, task canonicalisation, ANSI conversion, the
pending-facts file, one-dimensional convolution, elitist evolution, the anti-clone corpus and
the knowledge tree. `dafny verify dfyconfig.toml` checks all of it.

## What is proved

- **Audit journal** (`Audit`, `AuditRuns`, `AuditIntegrity`, `AuditClock`, `AuditHashes`, `AuditLoss`,
  over `ByteOrder`, `Decimal`, `OrderedStore`). For every run of any number of sessions, `verify_integrity` accepts
  exactly when every append used a key after all earlier keys; for timestamps from the epoch on
  and sessions of fewer than 10^8 appends that is exactly when the clock never steps back
  within a session and has moved to a later second by the first append of a new session. Under the
  same condition and no other, the sub-collections of the store that verify are exactly its
  prefixes. And the hashes of a run are pairwise distinct if and only if no two sessions opened on the
  same last entry log the same first message (timestamp, module, action and details run together). No
  append overwrites an entry if and only if no two appends use the same key. Every entry carries what was
  asked for and a signature of its own hash.
- **Memory search** (`Rag`, `RagAnswers`, `LruRuns`). After every trace of searches and clears the cache is
  the end of the list of answerable queries ordered by last use, each with what a fresh search ranks first;
  a smaller cache always holds a suffix of a larger one. A fresh search gathers, position by position, what
  the two thresholds say, ranks it stably and answers with the best of it.
- **Spiking network** (`Brain`, `BrainLaws`, `BrainRuns`). Under constant input the tick of the first spike in
  closed form; exactly what a stimulus adds. For non-negative weights: transmission happens at exactly the
  seven ticks after a spike; the firing rate bound n * ceil(T / 7); a network without self-loops is silent
  from every sub-threshold state if and only if no neuron's incoming weights exceed 15. A brain started
  empty never fires.
- **Protocols** (`WsBridge`, `WsReach`, `Summarizer`, `Streaming`). Invariants of every interleaving, who can
  make the bridge act and what it then publishes, that a client with the secret always can and that every
  connection can be taken down to nothing, the exact length of a list that is trimmed under a second
  lock, and the exact set of message streams a finished command can deliver, with what the last message says.
- **Texts** (`Base64`, `AuthorizedKeys`, `Pattern`, `PatternTexts`, `PatternSignatures`, `Ansi`, `AnsiCodes`,
  `AnsiTags`, `PendingFacts`, over `Characters`, `TextLines`, `Utf8`). Round trips with their exact domains, the
  exact kernels of canonicalisation and of signature texts, and what accepting and applying facts adds.
- **Algorithms** (`Convolution`, `MetaLearning`, `SubmissionText`, `Corpus`, `TreeKnowledge`). The loops
  against simple specifications, with commutativity and polynomial multiplication, maximality over
  everything ever evaluated, when a fingerprint determines the lines, which earlier submission is closest,
  tenant isolation, and a bijection between visits and places in the tree.

## What turned out false

- Entries of a journal need not have distinct hashes: when the clock steps back across two reopenings,
  equal requests produce equal entries without any hash collision (`SteppingBackRepeatsHash`).
  `HashesDistinctIff` says exactly when they are distinct; in a journal that verifies they are
  (`IntactHashesDistinct`).
- An append can overwrite an entry, because the counter restarts with every session: after a session of
  one append, reopening within its second does (`ReopenWithinSecondBreaks`). Nothing is lost exactly when
  all keys differ (`NothingLostIff`), that is, in range, when no two appends share timestamp and position
  in their session (`NothingLostIffSlotsDiffer`). Reopening and appending within the second of the last
  entry always breaks the chain, but loses an entry only if some session has already made its first
  append in that second (`ReopenSameSecond`).
- A pending-facts file of more than nine facts loses the rest on the next read: the reader strips one
  digit (`SurvivesIffNineCleanLines`).
- Accepting a fact can change another one: a text that ends in a carriage return loses it. Nothing but the
  flag changes exactly when no kept text does (`AcceptChangesOnlyFlagIff`).
- Tags in the converted text need not balance: the converter passes literal tags on (`PlainTextUnchanged`).
  Its own markup balances on every input (`TagsBalance`), and so does the text when the input's text has no
  '<' (`TextBalances`).
- Keys that are not 32 bytes long are accepted by `add_key` and gone after the next load
  (`SurvivesIffKeyLengths`).
- `convolve_1d` is documented as cross-correlation (`src/compute_backend.rs:18`); the code convolves. The
  two agree exactly for kernels that read the same backwards (`CorrelationIffPalindrome`). The model
  follows the code.
- Equal anti-clone fingerprints do not mean equal lines: blank lines leave no trace, and nothing separates
  the lines that are hashed (`BlankLinesVanish`, `CutLineCoincides`). The hashed text of a submission
  determines its non-blank lines exactly when it cannot be cut into two pieces that are in order
  (`TextDeterminesLinesIff`).
- The bound of 15 (or 50) items of the summariser does not hold while calls are between their push and
  their trim: the list is over it exactly when some moment since it filled had fewer such calls than now
  (`OverLimitIff`), and k such calls can leave k items too many (`SlackIsReached`).
- A finished command does not always deliver all its output: a reader stops at a read error, for instance
  at bytes that are not UTF-8, and its remaining lines are lost (`FinishedStream` says exactly when).
- Different requests can share a signature text: a text that ends in " @ d" without a url, and the rest of
  it with a url of domain d (`UrlSpelledOut`; `SameSignatureIff` gives all cases).

## How the source is rendered

- SHA-256 with hexadecimal output is a function parameter. Where digests matter, they are 64 lower-case
  hexadecimal characters, and the only further assumption is that the byte strings hashed *in the run
  under consideration* do not collide. Injectivity on all inputs would be contradictory.
- `f32` and `f64` are real numbers; refractory times and similarity scores are exact either way.
- Clocks, random draws, hash-map iteration orders and the memory hub are arguments or unconstrained
  choices, so every statement holds for all of them.
- A JSON value is either the record it parses to or `Malformed` (`Option` in the corpus and the bridge).
- Concurrency is a state machine whose events are the uninterrupted stretches of each actor; an event that
  is not enabled changes nothing, so event sequences are exactly the interleavings.
- Text is characters, and its UTF-8 bytes (section 3 of RFC 3629) where the source compares, hashes or
  decodes bytes; different texts are proved to have different bytes.
- Bit operations are arithmetic: shifts on disjoint ranges in Base64 are multiplications, divisions and
  remainders, exclusive or and or work bit by bit.

## Model

| member | source | states |
|---|---|---|
| Decimal.FormatValue | src/audit_log.rs:87 | a formatted number reads back as itself whatever the padding width |
| Decimal.LessIsNumeric | src/audit_log.rs:87 | digit strings of one length compare byte-wise exactly as the numbers they denote |
| Decimal.FormatOrder | src/audit_log.rs:87 | zero-padded decimals that fit their width compare as numbers, and are equal only for equal numbers |
| Decimal.SignedReads | src/audit_log.rs:68-87 | a signed number reads back from its sign and digits, padded or not; the sign counts towards the width |
| OrderedStore.InsertSorted | src/audit_log.rs:88-89 | inserting keeps the store in strict key order |
| OrderedStore.InsertRows | src/audit_log.rs:88-89 | insertion is map update: the new row is there, rows of other keys are untouched, nothing else is there |
| Audit.AuditLog.Open | src/audit_log.rs:31-53 | a session starts from the hash of the greatest key, or from "genesis" if there is none or it does not parse, with counter zero |
| Audit.ContinuesGreatest | src/audit_log.rs:31-53 | the first entry of a session names the hash of the row with the greatest key, or "genesis" if that row does not parse or there is none |
| Audit.LittleEndianReads | src/audit_log.rs:74 | the eight counter bytes read back, least significant first, as the counter |
| Audit.HexCharacters | src/audit_log.rs:75 | a digest digit is one of "0123456789abcdef" |
| Audit.AuditLog.Log | src/audit_log.rs:64-94 | the whole new state and the returned entry: counter, preimage, link, signature prefix, key, store and last hash |
| Audit.AuditLog.VerifyIntegrity | src/audit_log.rs:96-115 | true exactly when every row parses and names its predecessor's hash; otherwise the first faulty row decides between an error and false |
| AuditRuns.ReopenLink | src/audit_log.rs:31-53 | in every reachable store a reopened session continues from the append with the greatest key |
| AuditRuns.RunInv | src/audit_log.rs:31-94 | in every reachable world the store holds the last write under each key, every record's hash covers its predecessor's, and counters restart per session |
| AuditRuns.HistoryIsRequests | src/audit_log.rs:64-94 | in every run the appended entries are, in order, exactly what was asked for, each with "sig_" and the first eight digits of its own hash and under the key of its own timestamp and counter |
| AuditRuns.RowsSigned | src/audit_log.rs:77-85 | every row of every reachable store is signed with its own hash |
| AuditIntegrity.HashesSeparate | src/audit_log.rs:68-75 | down the chain: an append made while keys still ascended shares its hash with no later append |
| AuditIntegrity.StoreIsHistory | src/audit_log.rs:64-94 | with ascending keys iteration order is append order and no insert overwrites an entry |
| AuditIntegrity.PrefixForced | src/audit_log.rs:96-115 | a store that verifies begins with exactly the appends made while keys ascended |
| AuditIntegrity.DescentBreaks | src/audit_log.rs:96-115 | one append with a key not after its predecessor's makes every later verification fail |
| AuditIntegrity.VerifiedIffAscending | src/audit_log.rs:31-115 | for every run of sessions, the journal verifies if and only if keys were strictly increasing in append order |
| AuditIntegrity.IntactHashesDistinct | src/audit_log.rs:64-115 | in a journal that verifies no two entries ever appended share a hash and none is "genesis" |
| AuditHashes.HashesDistinctIff | src/audit_log.rs:31-94 | for every run, all hashes differ if and only if no two sessions opened on the same last entry log the same first message (timestamp, module, action and details run together); no hash is "genesis" |
| AuditHashes.SharedHashDescends | src/audit_log.rs:68-75 | two appends with one hash lead, down both sessions at once and on from what they continue, to two equal first appends that continue one and the same append |
| AuditIntegrity.SubcollectionVerifiesIffPrefix | src/audit_log.rs:96-115 | of a journal that verifies, a sub-collection in key order verifies if and only if it is a prefix |
| AuditClock.KeyOrder | src/audit_log.rs:87 | keys `{:020}_{:08}` are ordered by timestamp, then counter |
| AuditClock.VerifiedIffClockAdvances | src/audit_log.rs:31-115 | within range, the journal verifies if and only if the clock never steps back in a session and moves on between sessions; the store is then the whole history in order |
| AuditClock.PrefixesVerifyIffClockAdvances | src/audit_log.rs:31-115 | the verifier accepts exactly the prefixes of the store if and only if the clock advanced |
| AuditClock.ReopenWithinSecondBreaks | src/audit_log.rs:31-94 | after a session of one append, reopening and appending within its second overwrites the entry and breaks the chain, for every hash function |
| AuditLoss.OneRowPerKey | src/audit_log.rs:64-94 | in every reachable store there is exactly one row for every key ever used |
| AuditLoss.NothingLostIff | src/audit_log.rs:31-94 | for every run the store has at most as many rows as there were appends, and as many if and only if no key was used twice |
| AuditLoss.AppendOverwritesIff | src/audit_log.rs:87-89 | an append overwrites an entry if and only if its key was used before |
| AuditLoss.NothingLostIffSlotsDiffer | src/audit_log.rs:31-94 | in range, nothing is lost if and only if no two appends share timestamp and position in their session |
| AuditLoss.ReopenSameSecond | src/audit_log.rs:31-115 | after any run, a new session that first appends in the second of the last append breaks the chain, and overwrites an entry if and only if some session has already made its first append in that second |
| AuditClock.SteppingBackRepeatsHash | src/audit_log.rs:31-94 | a clock stepping back across two reopenings yields two identical entries |
| Rag.LruCache.Get | src/rag_middleware.rs:42-48 | a hit moves its entry to the most recent end and returns it; a miss changes nothing |
| Rag.LruCache.Put | src/rag_middleware.rs:50-55 | the oldest entry leaves when the cache is full, the new one goes to the end; evicting from an empty vector, at capacity zero, panics |
| Rag.LruCache.Clear | src/rag_middleware.rs:57-59 | the cache is empty |
| Rag.KeepStrong | src/rag_middleware.rs:191-196 | the loop keeps exactly the answers reaching the threshold, in order |
| Rag.KeepBroad | src/rag_middleware.rs:199-208 | the second loop adds the answers reaching 85% of the threshold whose text is new |
| Rag.StrongMembers | src/rag_middleware.rs:191-196 | an answer is kept if and only if it reaches the threshold |
| Rag.BroadenCovers | src/rag_middleware.rs:199-208 | the broad pass only extends, only by answers reaching 85% of the threshold, repeats no text, and leaves no qualifying text out |
| RagAnswers.StrongSelects | src/rag_middleware.rs:191-196 | what the first pass keeps is exactly the positions that reach the threshold, in order |
| RagAnswers.BroadenExtends | src/rag_middleware.rs:199-208 | what the broad pass adds is exactly the positions that are the first to reach 85% with a text that is not there yet, in order |
| RagAnswers.GatheredInTwoPasses | src/rag_middleware.rs:188-209 | what a search gathers: the answers of the first query reaching the threshold, in order; if these are fewer than top_k, then the new texts of a query twice as wide that reach 85% of it |
| Rag.NothingGatheredIff | src/rag_middleware.rs:188-221 | nothing is gathered if and only if no answer of the first query reaches the threshold and (top_k is zero or) none of the second reaches 85% of it |
| Rag.SortSorts | src/rag_middleware.rs:224 | the ranking is a permutation of the gathered answers with non-increasing scores |
| RagAnswers.SortIsStable | src/rag_middleware.rs:224 | the ranking is the stable one: by decreasing score, equal scores in the order in which they were gathered |
| RagAnswers.RankedAreBest | src/rag_middleware.rs:224-225 | the answer is the first min(top_k, gathered) of that ranking |
| Rag.BestIsEarliestMaximum | src/rag_middleware.rs:223-240 | what is cached is the earliest gathered answer of maximal score; nothing is cached exactly when nothing was gathered or top_k is zero |
| Rag.FormatHits | src/rag_middleware.rs:230-234 | the loop builds the title, one numbered line per ranked answer, and the end mark |
| RagAnswers.AverageIsMean | src/rag_middleware.rs:227-228 | the average of one answer is its score, and of two lists the mean weighted by their lengths |
| RagAnswers.PromptLines | src/rag_middleware.rs:230-234 | split at newlines, the prompt has one line per answer with its rank from zero, its score and its text |
| Rag.RagMiddleware.Search | src/rag_middleware.rs:171-249 | the whole answer in the three cases (cache, nothing, hub), with its prompt text, and the whole new cache; nothing is found exactly when no answer reaches the thresholds; a panic exactly when an answer has to be cached without capacity |
| LruRuns.RecencyMembers | src/rag_middleware.rs:171-249 | the recency list holds exactly the answerable queries used since the last clear |
| LruRuns.RecencyByLastUse | src/rag_middleware.rs:171-249 | the recency list is in the order of last uses |
| LruRuns.CacheIsRecency | src/rag_middleware.rs:42-60 | for every trace and capacity c of at least one, the cache is the last c entries of the recency list, in order, each with the answer a fresh search ranks first |
| LruRuns.StackInclusion | src/rag_middleware.rs:42-60 | a smaller cache holds a suffix of what a larger one holds after the same trace |
| LruRuns.HitIffRecent | src/rag_middleware.rs:171-186 | a search is answered from the cache if and only if its query is among the last c of the recency list, and then as a fresh search would rank first |
| Brain.BrainState.CollectInputs | brain-system-rs/src/simulation.rs:33-43 | the input buffer holds, per target, the weights of in-range synapses from transmitting sources |
| Brain.BrainState.UpdateAll | brain-system-rs/src/simulation.rs:45-51 | every neuron is updated in place as from the old state, and the spikes are counted |
| Brain.BrainState.Step | brain-system-rs/src/simulation.rs:26-53 | one tick: synchronous update of all neurons and the spike counter, nothing else |
| Brain.BrainState.Grow | brain-system-rs/src/simulation.rs:58-92 | at most ten neurons at rest with consecutive ids, and their synapses without self-loops |
| Brain.BrainState.Stimulate | brain-system-rs/src/api.rs:39-86 | growth by ten times the intensity, truncated |
| Brain.BrainState.Reset | brain-system-rs/src/api.rs:88-96 | the empty brain |
| BrainLaws.FiresWhenLevelReaches | brain-system-rs/src/neuron.rs:91-103 | under constant input the potential is, in closed form, a geometric approach with ratio 0.975, and the neuron fires at the first tick at which that form reaches -55, and not before |
| BrainLaws.SpikeResets | brain-system-rs/src/neuron.rs:91-103 | after a spike the potential stays at -75 for six ticks while the refractory time runs down by 0.5; transmission is within 0.1 of that value |
| BrainLaws.StimulusTruncates | brain-system-rs/src/api.rs:43-44 | a stimulus asks for the whole units in ten times its intensity, none if negative |
| BrainLaws.GrowthAdds | brain-system-rs/src/api.rs:51-63 | growth adds as many neurons as asked for, at most ten, at rest and under the next free ids, and counts one growth event |
| BrainLaws.GrowthConnects | brain-system-rs/src/api.rs:65-80 | the synapses added are exactly the three drawn for each new neuron, in order, without the self-loops; none if there is only one neuron |
| BrainRuns.UpdatePhase | brain-system-rs/src/neuron.rs:91-103 | one tick moves a neuron along its seven-tick window, and it can fire only outside it or at its end |
| BrainRuns.TransmitsExactlyAfterSpikes | brain-system-rs/src/simulation.rs:37-41 | a settled neuron under non-negative weights transmits in tick t if and only if it spiked in one of the seven ticks before |
| BrainRuns.SpikesSevenApart | brain-system-rs/src/neuron.rs:91-103 | two spikes of one neuron are at least seven ticks apart |
| BrainRuns.TicksCount | brain-system-rs/src/simulation.rs:45-53 | the counter adds up exactly what the neurons fire one by one |
| BrainRuns.SpikeRate | brain-system-rs/src/simulation.rs:26-53 | T ticks of n neurons add at most n * ceil(T / 7) to the counter |
| BrainRuns.StaysSubThreshold | brain-system-rs/src/simulation.rs:26-53 | with incoming weights of at most VT - VR per neuron no sub-threshold state ever leads to a spike |
| BrainRuns.SilentIffWeightsBounded | brain-system-rs/src/neuron.rs:91-103 | a network without self-loops is silent from every sub-threshold state if and only if every neuron's incoming weights sum to at most VT - VR |
| BrainRuns.FanInBoundsWeight | brain-system-rs/src/api.rs:66-77 | weights as drawn keep up to thirty incoming synapses within the bound |
| BrainRuns.GrowthKeeps | brain-system-rs/src/api.rs:39-86 | growth keeps ids equal to positions, endpoints in range and distinct, weights in [0, 0.5), and a resting brain at rest |
| BrainRuns.EmptyBrainNeverFires | brain-system-rs/src/api.rs:39-96 | under every interleaving of stimuli, ticks and resets a brain started empty is coherent, at rest, and has never fired |
| WsBridge.ConstantTimeEqIsEquality | src/ws_bridge.rs:131-136 | the constant-time comparison accepts exactly identical byte strings |
| WsBridge.TokensCompare | src/ws_bridge.rs:325-333 | the bytes of a token and the secret compare equal if and only if the two texts are the same |
| Utf8.CharShape | src/ws_bridge.rs:328 | a character has one to four bytes by the ranges of section 3 of RFC 3629, a leading byte that tells how many and continuation bytes |
| WsBridge.NoSecretIffBlank | src/ws_bridge.rs:111-117 | there is no usable secret if and only if none is set or it is Unicode white space throughout |
| WsBridge.SecretIsTrimmed | src/ws_bridge.rs:111-117 | the secret is the configured text without the white space around it |
| WsBridge.UncountExact | src/ws_bridge.rs:366-369 | whenever a connection decrements the client counter it is positive, so the saturating subtraction never clamps |
| WsBridge.RunKeeps | src/ws_bridge.rs:208-371 | in every interleaving permits are the live connections and at most the cap, the client counter is the connections between increment and decrement, peers are distinct, and the table has one duplicate-free list for exactly the registered peers |
| WsBridge.ActsOnlyWhenAuthenticated | src/ws_bridge.rs:241-371 | every client message acted on follows a completed handshake and a text frame of that connection whose token is the secret, or a configuration with no secret and explicit opt-in |
| WsReach.TokenDecides | src/ws_bridge.rs:323-341 | after every run, the first text frame of a connection authenticates it if its token is the secret and puts it out otherwise, and does nothing else |
| WsReach.SecretHolderPublishes | src/ws_bridge.rs:208-412 | after every run with room for a connection, a client with the secret, or anyone where that is allowed, can get any publication onto the bus |
| WsReach.PublishableIffOpen | src/ws_bridge.rs:241-412 | something can ever be published if and only if there is a secret or explicit opt-in, and room for a connection |
| WsReach.EveryRunDrains | src/ws_bridge.rs:208-371 | every run can be continued until no connection is left, with all permits back, the client counter at zero and the table empty |
| WsBridge.PublishedAreActedOn | src/ws_bridge.rs:374-412 | in every interleaving the bus has received, in order, exactly the publications among the client messages acted on |
| WsBridge.ListsAreRequests | src/ws_bridge.rs:374-412 | in every interleaving a registered connection's list holds exactly the topics it asked for: "*" from registration, plus what it subscribed to, minus what it unsubscribed from since, whatever other connections do |
| WsReach.SubscribingAppends | src/ws_bridge.rs:391-398 | after every run a subscription puts a new topic at the end of the connection's own list and changes no other |
| WsReach.UnsubscribingRemoves | src/ws_bridge.rs:400-409 | after every run unsubscribing takes the topic out of the connection's own list, keeps the others in order and changes no other list |
| Summarizer.LockedList.PushItem | src/continuous_summarizer.rs:252-257 | the first critical section appends the item |
| Summarizer.LockedList.TrimOne | src/continuous_summarizer.rs:258-263 | the second removes at most one item, from the front, when the list is over its limit |
| Summarizer.AlwaysRecentSuffix | src/continuous_summarizer.rs:252-294 | in every interleaving the list is a contiguous suffix of the push log, of length between min(limit, pushes) and limit plus the calls between push and trim |
| Summarizer.QuiescentIsLast | src/continuous_summarizer.rs:278-294 | with no call in between, the list is exactly the last min(limit, pushes) pushes |
| Summarizer.LengthIsExact | src/continuous_summarizer.rs:252-294 | until it fills the list has all pushes; from then on its length is the limit plus the calls in between now, less the fewest there have been since |
| Summarizer.OverLimitIff | src/continuous_summarizer.rs:252-294 | the list is over its limit if and only if some moment since it filled had fewer calls between push and trim than now; otherwise it is exactly the last pushes |
| Summarizer.SlackIsReached | src/continuous_summarizer.rs:252-263 | for every limit and k some run has limit + k items with k calls between push and trim |
| Streaming.RunKeeps | bound-system/src/lib.rs:314-373 | in every interleaving what was received and what is pending make up each output, in order |
| Streaming.FinishedStream | bound-system/src/lib.rs:209-373 | with a live receiver a finished run delivered a shuffle of a prefix of each output and then exactly the terminal message of the child's fate, or a single error when nothing was spawned; an output is complete if and only if its reader did not fail with lines to read |
| Streaming.LastMessage | bound-system/src/lib.rs:209-373 | with a live receiver: a failed start delivers that error and nothing else; otherwise the last message is the exit code (-1 without one), the timeout, or the error of waiting, whichever the child came to first |
| Streaming.NothingAfterDrop | bound-system/src/lib.rs:325-357 | once the receiver is gone nothing arrives any more |
| Streaming.ReaderStopsUnheard | bound-system/src/lib.rs:325-357 | and a reader stops at its next line, or at the end of its output |
| Streaming.TerminalIsLast | bound-system/src/lib.rs:209-241 | receiver or not, nothing ever follows an End or Error |
| Streaming.PrefixAlways | bound-system/src/lib.rs:325-357 | at every moment each output has arrived as a prefix, in order |
| Streaming.EveryShuffleHappens | bound-system/src/lib.rs:325-362 | every order-preserving shuffle of every two prefixes of the outputs, with every fate, is delivered by some interleaving |
| Base64.Base64Encode | src/code_signing.rs:148-186 | the loop computes the chunk-wise encoding |
| Base64.Base64Decode | src/code_signing.rs:188-213 | the loop computes the chunk-wise decoding, failing on the first foreign character |
| Base64.RoundTrip | src/code_signing.rs:148-213 | decoding an encoded byte sequence returns it, for every sequence |
| Base64.PaddingAtEnd | src/code_signing.rs:148-186 | padding stands only at the end, and there as often as the last group lacks bytes |
| Base64.KnownChunks | src/code_signing.rs:148-186 | the encodings that section 10 of RFC 4648 lists for "f", "fo", "foo" and "bar", and the last two symbols of the alphabet |
| Base64.DecodedLength | src/code_signing.rs:188-213 | n symbols decode to three bytes for every four, and one, one or two for a rest of one, two or three |
| Base64.DecodeFailsIffForeign | src/code_signing.rs:188-213 | decoding fails if and only if some character is neither padding nor in the alphabet |
| AuthorizedKeys.Registry.Load | src/code_signing.rs:47-70 | the keys become what the file's lines decode to, none for a missing file; an unreadable file or a line that does not decode fails the load and changes nothing |
| AuthorizedKeys.CommentsIgnored | src/code_signing.rs:57-59 | blank lines and lines whose first other character is '#' can stand anywhere without changing keys or outcome |
| AuthorizedKeys.SpacesAroundKey | src/code_signing.rs:57-59 | white space around a key does not matter |
| AuthorizedKeys.Registry.Save | src/code_signing.rs:79-92 | the file is one encoded key per line in some enumeration of the set |
| AuthorizedKeys.Registry.AddKey | src/code_signing.rs:73-77 | the key is added, whatever its length, and the file rewritten |
| AuthorizedKeys.LoadAfterSave | src/code_signing.rs:47-92 | for every key set and iteration order, loading the saved file gives exactly the keys of 32 bytes |
| AuthorizedKeys.SurvivesIffKeyLengths | src/code_signing.rs:47-92 | a registry survives saving and loading if and only if every key has 32 bytes |
| Pattern.CollapseUrls | avid-rstdp/src/pattern.rs:45-65 | the loop replaces "http" and everything up to the next space by the marker |
| Pattern.CollapseRemovesHttp | avid-rstdp/src/pattern.rs:45-65 | no "http" remains, not even across a replaced url |
| Pattern.CollapseIdempotent | avid-rstdp/src/pattern.rs:45-65 | collapsing a second time changes nothing |
| Pattern.WordsAreShapes | avid-rstdp/src/pattern.rs:25-32 | canonicalisation works word by word |
| Pattern.SameCanonicalIff | avid-rstdp/src/pattern.rs:25-43 | two lower-cased texts have one canonical form if and only if they have the same words up to digit values and up to what follows "http" inside a word |
| PatternSignatures.SameSignatureIff | avid-rstdp/src/pattern.rs:12-43 | for every two texts and url arguments the signature texts agree if and only if words and url parts agree, or one text spells out what the other has in its url part |
| PatternSignatures.UrlSpelledOut | avid-rstdp/src/pattern.rs:33-42 | "x @ d" without a url and "x" with a url of domain d have one signature text |
| Pattern.CanonicalForm | avid-rstdp/src/pattern.rs:25-43 | a canonical form has no "http", no digit, and single spaces between words and nowhere else |
| PatternTexts.WordRendered | avid-rstdp/src/pattern.rs:25-65 | a word becomes its part before the first "http" with digits as "N", followed by the marker if there is an "http" |
| PatternTexts.DomainIsHost | avid-rstdp/src/pattern.rs:33-38 | the domain of scheme://host, with or without a path, is the host |
| PatternTexts.NoScheme | avid-rstdp/src/pattern.rs:33-38 | without "://" the domain is empty |
| Ansi.AnsiToTelegram | ansi-converter/src/lib.rs:10-78 | the index loop spells out the rendering of an independent reading of the input |
| Ansi.CloseTags | ansi-converter/src/lib.rs:38-41 | the closing loop appends one close tag per open level |
| Ansi.ReadParams | ansi-converter/src/lib.rs:21-28 | the inner scan stops after the next 'm' or at the end of the input |
| Ansi.ApplyParams | ansi-converter/src/lib.rs:30-66 | the parameter loop applies the codes that parse, in order, and keeps the bold depth |
| AnsiCodes.NumberReads | ansi-converter/src/lib.rs:31-34 | a parameter that spells a number, with or without a sign, reads as that number exactly when it fits in 32 bits |
| AnsiCodes.OnlyNumbersRead | ansi-converter/src/lib.rs:31-34 | nothing but a sign and digits reads as a number |
| AnsiCodes.SequenceReads | ansi-converter/src/lib.rs:17-34 | a sequence spelling any list of codes reads as those codes, whatever follows it |
| AnsiCodes.UnterminatedSwallows | ansi-converter/src/lib.rs:21-28 | a sequence without its 'm' takes the rest of the input with it |
| AnsiCodes.ColourMarksText | ansi-converter/src/lib.rs:47-62 | a colour sequence puts the marker of its colour before the text that follows |
| AnsiCodes.OtherCodesShowNothing | ansi-converter/src/lib.rs:36-66 | a code that is neither one of the sixteen colours nor bold shows nothing before text |
| AnsiCodes.SameMarkerIff | ansi-converter/src/lib.rs:47-62 | two colours have one marker only if they are equal, or cyan and bright cyan |
| AnsiCodes.BoldEnclosesText | ansi-converter/src/lib.rs:43-46 | a bold sequence encloses the text that follows in one pair of tags |
| Ansi.StripAnsi | ansi-converter/src/lib.rs:81-103 | the stripping loop leaves exactly the characters outside sequences |
| Ansi.ErasureIsStripping | ansi-converter/src/lib.rs:10-103 | on every input, erasing the markup of the conversion gives what stripping gives |
| Ansi.TagsBalance | ansi-converter/src/lib.rs:10-78 | on every input no prefix of the markup tokens has more closes than opens, and the whole has equally many |
| AnsiTags.TextBalances | ansi-converter/src/lib.rs:10-78 | on every input whose text has no '<', no prefix of the output text has more closing than opening tags, and the whole has equally many |
| AnsiTags.PlainTextUnchanged | ansi-converter/src/lib.rs:67-70 | input without escape characters is passed on as it is, tags included |
| Ansi.RenderSplits | ansi-converter/src/lib.rs:17-75 | at any point the output is what the codes so far show, continued at the bold level they ask for |
| Ansi.OpenTagsAreBoldLevel | ansi-converter/src/lib.rs:36-46 | the tags open at any point number exactly the bold codes since the last reset |
| TextLines.LinesOfUnlines | src/memory_suggest.rs:80 | terminated lines are split where they were put together, each less one trailing carriage return |
| TextLines.LastLine | src/memory_suggest.rs:80 | an unterminated last line is a line like the others |
| PendingFacts.MemoryFiles.ReadPendingFacts | src/memory_suggest.rs:69-102 | the facts on the lines that match, in order; none for a missing file |
| PendingFacts.FactIff | src/memory_suggest.rs:80-99 | a line holds a fact if and only if it is one digit, a box, checked or not, and the text |
| PendingFacts.MemoryFiles.WritePendingFacts | src/continuous_summarizer.rs:324-345 | the summariser's file, or no change when there is nothing to propose |
| PendingFacts.ProposedThenRead | src/continuous_summarizer.rs:324-345 | what the summariser proposes is pending afterwards: the first nine texts, none accepted |
| PendingFacts.MemoryFiles.AcceptFact | src/memory_suggest.rs:105-127 | refuses an index out of range and leaves the file; otherwise rewrites it with that box checked |
| PendingFacts.MemoryFiles.AcceptAll | src/memory_suggest.rs:130-148 | rewrites the file with every box checked, unless there are no facts |
| PendingFacts.MemoryFiles.ApplyAccepted | src/memory_suggest.rs:151-189 | appends a section with exactly the accepted facts to the memory file, trimmed at its end, and empties the pending file; no change when none is accepted |
| PendingFacts.AcceptedAreChecked | src/memory_suggest.rs:153 | the facts applied are those at exactly the positions whose box is checked, in order |
| PendingFacts.AppliedLines | src/memory_suggest.rs:173-176 | for every pending file, the lines added are the checked texts in order, each behind an unchecked box |
| PendingFacts.AcceptAllThenApply | src/memory_suggest.rs:130-189 | accepting all facts of any file and applying adds the texts of the first nine, in order, each less one trailing carriage return |
| PendingFacts.HeadersInert | src/continuous_summarizer.rs:330-338 | no line that the writers put around the facts can be read as a fact |
| PendingFacts.ReadAfterWrite | src/memory_suggest.rs:69-148 | reading what any writer printed returns the first nine facts with their flags, each without one trailing carriage return |
| PendingFacts.SurvivesIffNineCleanLines | src/memory_suggest.rs:69-148 | a list survives writing and reading if and only if it has at most nine facts, each a clean line |
| PendingFacts.AcceptThenRead | src/memory_suggest.rs:69-127 | accepting a fact of any readable file and reading again keeps the first nine facts, sets its flag and no other, and drops a trailing carriage return from each text |
| PendingFacts.AcceptChangesOnlyFlagIff | src/memory_suggest.rs:69-127 | among the first nine facts nothing but the flag changes if and only if none of their texts ends in a carriage return |
| Convolution.Convolve1d | src/compute_backend.rs:39-60 | the windowed loops compute the full sum over all index pairs, with length m + n - 1, and nothing for an empty input |
| Convolution.WindowIsCoefficient | src/compute_backend.rs:50-57 | the window leaves out only products with a factor outside the inputs |
| Convolution.Commutative | src/compute_backend.rs:39-60 | kernel and data can be exchanged |
| Convolution.ConvolutionMultiplies | src/compute_backend.rs:39-60 | read as coefficients, the result evaluates to the product of the evaluations, at every real number and for all inputs |
| Convolution.CorrelationIffPalindrome | src/compute_backend.rs:18-19 | the operation agrees with the documented cross-correlation on all data if and only if the kernel reads the same backwards |
| Convolution.CorrelationIsReversedConvolution | src/compute_backend.rs:18-60 | cross-correlation, by its own sum, is convolution with the kernel read backwards |
| MetaLearning.InitialPopulation | backlog/src/meta_learning.rs:32-39 | twenty individuals, each the starting point moved by its drawn offsets, gene by gene |
| MetaLearning.Score | backlog/src/meta_learning.rs:45-51 | every individual is scored under its own parameters |
| MetaLearning.MaxIndex | backlog/src/meta_learning.rs:61-66 | the last of the maximal positions |
| MetaLearning.Breed | backlog/src/meta_learning.rs:70-95 | the child that the draws make of two tournament winners, or the panic |
| MetaLearning.WinnerIsFitter | backlog/src/meta_learning.rs:71-84 | a tournament is won by the candidate with the higher score, by the second on a tie |
| MetaLearning.ChildGenes | backlog/src/meta_learning.rs:86-95 | every gene of a child is that of the winner drawn for it, moved as drawn if it is the mutated one |
| MetaLearning.NextGeneration | backlog/src/meta_learning.rs:60-97 | the last of the fittest survives unchanged and everyone else is bred as drawn; a panic exactly when there are no genes and a mutation is drawn |
| MetaLearning.RunMetaEvolution | backlog/src/meta_learning.rs:23-106 | for every sequence of draws the best score is the maximum over every individual ever evaluated, and the reported parameters are the first evaluated to it, left installed; a panic exactly when the parameter vector is empty and a mutation is drawn |
| MetaLearning.DrawsDecide | backlog/src/meta_learning.rs:23-106 | the draws determine every generation |
| MetaLearning.MaximaNeverDecrease | backlog/src/meta_learning.rs:44-98 | no generation is worse than an earlier one |
| MetaLearning.DriftBound | backlog/src/meta_learning.rs:32-98 | generation g lies within 0.5 + 0.2 g of the starting parameters, gene by gene |
| SubmissionText.SortSorts | avid-anticlone-service/src/corpus.rs:138-139 | the sort orders the lines byte-wise and loses none |
| SubmissionText.SortedUnique | avid-anticlone-service/src/corpus.rs:138-139 | two sorted arrangements of the same lines are equal |
| Corpus.FingerprintSubmission | avid-anticlone-service/src/corpus.rs:136-154 | the hash of the sorted lines in sequence, with file and line counts |
| Corpus.DigestsAgreeIff | avid-anticlone-service/src/corpus.rs:136-154 | two submissions have one digest under every hash function if and only if their sorted text is the same |
| SubmissionText.SameLinesSamePreimage | avid-anticlone-service/src/corpus.rs:136-154 | submissions with the same multiset of lines, however split over files and ordered, hash the same bytes |
| SubmissionText.BlankLinesVanish | avid-anticlone-service/src/corpus.rs:138-149 | blank lines leave no trace in the hashed text |
| SubmissionText.TextDeterminesLinesIff | avid-anticlone-service/src/corpus.rs:136-154 | for every submission, every other one with the same hashed text has the same non-blank lines if and only if the text cannot be cut into two non-empty pieces that are in order |
| SubmissionText.CutLineCoincides | avid-anticlone-service/src/corpus.rs:146-149 | cutting a line into two pieces in order is not noticed: the bytes agree although the lines differ |
| Corpus.Similarity | avid-anticlone-service/src/corpus.rs:156-169 | a score in [0, 1] that is one if and only if the hashes are equal |
| Corpus.SimilarityIsAgreement | avid-anticlone-service/src/corpus.rs:156-169 | the similarity is the number of agreeing positions over the longer length |
| Corpus.CompareHashes | avid-anticlone-service/src/corpus.rs:156-169 | the counting loop computes that score: the agreeing positions over the longer length |
| Corpus.SubmissionTable.Submit | avid-anticlone-service/src/corpus.rs:104-122 | one row is appended under a fresh id; a table built by submissions stays what its run of submissions leaves |
| Corpus.SubmissionTable.Check | avid-anticlone-service/src/corpus.rs:65-102 | an error if and only if a row of the tenant does not parse; otherwise the maximal score, the first row to reach it, and the verdict |
| Corpus.ClosestAgreesMost | avid-anticlone-service/src/corpus.rs:81-101 | where hashes have one length, the closest row is the first of those that agree with the candidate in the most characters, the score is the share of these, and there is none exactly when no row of the tenant agrees anywhere |
| Corpus.ReportUnique | avid-anticlone-service/src/corpus.rs:81-101 | the report is determined by the table |
| Corpus.FullScoreIffResubmitted | avid-anticlone-service/src/corpus.rs:65-122 | after every run the score is in [0, 1], and is one if and only if the tenant has submitted the same sorted text before |
| Corpus.RearrangedIsClone | avid-anticlone-service/src/corpus.rs:65-154 | rearranging the lines of an earlier submission scores one, and is judged a clone exactly for thresholds below one |
| Corpus.OthersChangeNothing | avid-anticlone-service/src/corpus.rs:73-79 | no run of other tenants' submissions changes any part of the report |
| Corpus.ScoreFromOwnSubmissions | avid-anticlone-service/src/corpus.rs:65-122 | score and verdict are monotone in the set of the tenant's own submissions and depend on nothing else |
| TreeKnowledge.Flatten | soulmind/knowledge.py:134-142 | the stack loop terminates with recursive preorder |
| TreeKnowledge.EveryNodeOnce | soulmind/knowledge.py:134-142 | positions in the flattened list and places in the tree correspond one to one, and each position holds the node at its place |
| TreeKnowledge.DepthBoundsPaths | soulmind/knowledge.py:119-122 | no path from the root is longer than the depth |
| TreeKnowledge.DepthReached | soulmind/knowledge.py:119-122 | some path is exactly as long as the depth |
| TreeKnowledge.DepthBelowCount | soulmind/knowledge.py:119-142 | the depth is strictly less than the number of nodes visited |

## Left out

- Audit.AuditLog.Log: the counter is unbounded, so the overflow of the 64-bit counter is not modelled, and store errors are not.
- Audit.AuditLog.VerifyIntegrity: the digest that the source recomputes is not modelled, because its value is never used.
- Rag.RagMiddleware.Search: timings and NaN scores are not modelled, and printing a score with two decimals is an argument. Two searches missing the same query concurrently are not modelled.
- Brain.BrainState.Grow: module names, colours, positions and the synaptic delay, which nothing reads, are not modelled; brain state loaded from disk is not either.
- WsBridge.RunKeeps: the shared maps are a value that events transform; forwarding from the bus to clients, topic matching and message size limits are not modelled, and peer identifiers are the numbers inside their names. `soul_gateway/src/limits.rs` enters as a counter bounded by its capacity.
- Streaming.FinishedStream: safety only; that the readers finish after a timeout is not claimed, since the child is killed only after they have.
- AuthorizedKeys.Registry.Save: writing is assumed to succeed.
- Pattern.SameCanonicalIff: lower-casing is a library function; the only thing used of it is that its result has no ASCII capital.
- PendingFacts.MemoryFiles.ApplyAccepted: the date is an argument; facts that were not accepted are dropped, as in the source.
- MetaLearning.RunMetaEvolution: scores are real numbers, so NaN, on which the source panics, is not modelled; what a panic leaves installed is not stated; a draw from a range is any number reduced to it, and probabilities are not modelled.
- Corpus.SubmissionTable.Check: rows are scanned in insertion order; label, creation time, tenants and database errors are not modelled.
- `add_decision` and `add_fact` trim under the lock they push under; they would only add easy members.
- `dot_product` and `matvec` are plain sums and would only add easy members.
- Signature verification, the sandbox, the command whitelist, HTTP routers, dashboards and the engines described only in documentation are not part of this model.
