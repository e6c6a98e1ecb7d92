# Light client, signing session and signed orders of the Quantova SDK

The SDK lets an owner use a chain through a gateway that nobody has to trust. This project models the
parts that carry that promise and proves what they promise.

**Finality and the roster walk.** A block is final when attestations by more than two thirds of the
active stake are checked; the next epoch's validator roster is accepted only from the block that seals
the current epoch. `Stake` and `Finality` model the check, loop by loop, against a declarative verdict.
`LightClient` proves, with no assumption at all, that two walks from one anchor fed by any two gateways
end at the same roster unless the evidence itself shows a collision or convicts more than a third of
some epoch's active stake of attesting to two blocks at one height; under the usual assumptions on the
primitives and the validators the walks agree outright; `Assumptions` shows that some assumption is needed
and that all of them can hold at once. `RosterCache` is the client's bounded cache of walked rosters as a
class. It proves that the cache answers as the walk from the nearest cached roster does, and that this is the
answer of the walk from the anchor itself, whatever was cached or evicted before, unless the walks part at
some step: then the evidence kept for that cached roster and what this gateway answers for the same step are
both accepted, differ, and are themselves at fault. Under the usual assumptions the two answers are equal.

**Positions in trees of unknown size.** `MerklePath` proves the popcount-and-shift check exact for every
64-bit index and every list of steps, and that pairing with promotion builds the same paths as the cut
of section 2.1 of RFC 6962. It also says when an accepted position is the only one.

**Nonces.** `SigningSession` is the class every client of a process shares. `Signings` lets any number of
signings interleave over it, `OrderNonces` follows one key through a serial session, `Durable` adds
saving and crashes, and `SavedSession` is the export and import through JSON text, as loops over values.

**JSON.** `Json` is the printer, `JsonParser` the recursive-descent parser with its cursor and depth as a
class, and `JsonSyntax` what each parser method has to answer. `JsonStrings` and `JsonGrammar` are an
independent grammar of JSON texts as trees (sections 2 to 7 of RFC 8259), with the theorem that the parser
accepts exactly the texts of that grammar whose values stay within `JsonLimits`: at most 128 deep, no key
repeated. `JsonRoundTrip` shows that the printer writes texts of the grammar and derives the two-way theorem
between printing and parsing. `Utf8` and `Decimal` are what they stand on.

**Signed orders.** `OrderMessage` lays out the message an owner signs and the layout preimage and proves
both injective. `OrderCall` sorts the spans, checks neighbours, writes the buffer in place, and proves
that the bytes the contract executes are the bytes that were signed.

**The rest.** `Fees` relates the deploy fee a gateway quotes to the check the signer runs, `HeadBound`
bounds heads and deadlines over a whole run, `Phrase` proves that recovery phrases and seeds correspond,
`Chunked` proves chunked decoding exact against a grammar of its own, relates that to section 7.1 of RFC 9112,
`Framing` is the choice between chunked and plain bodies, and `Response` reads a whole answer, exact against
how one is written. `Bits`, `Machine`, `Sorting` and `Ordered` hold
what several modules share.

Everything the SDK takes from other crates is an arbitrary function or number here: hashes, signatures,
sortition, state proofs, codecs, key derivation, the sampler's two parameters. A gateway is arbitrary
input, the wall clock is a parameter, and the hook that saves a session either saves the text it is
given or fails. Refusals are `None` or `false`; which message a refusal carries is not modelled.

What the code does is stated twice. The specification functions follow the code step by step; beside them stand
theorems over the plain fields, maps and bytes, with the source's own numbers, that use none of those functions
and hold in both directions: `Finality.FinalityIsExact`, `LightClient.NextIsExact`, `RosterCache.PlainWalkIsExact`,
`SigningSession.GrantIsExact` and `CallChanges`, `SavedSession.ExportIsWritten` and `ImportIsExact`,
`OrderMessage.CanonicalOrderMessage`, `OrderCall.OrderIsExact`, `Fees.CallFeeIsExact`, `DeployFeeIsExact` and
`QuoteIsExact`, `Phrase.WordsAreElevenBits`, and the character tables of the text modules.

Where a promise turned out not to hold for every input, the model keeps the code as it is and the exact
condition is proved beside a concrete failing input:

* An order is signed before the account nonce is asked for. If that later step fails, the order's nonce
  is free again although a signature over it exists. `Signings.SecondSignatureNeedsADiscard` says when the
  next signature is a second one: exactly when an earlier one for that nonce was discarded unrecorded.
  `Signings.AnOrderNonceCanBeSignedTwice` shows a run. What is recorded, and hence what can be submitted,
  is still signed once (`Signings.OneNonceOneSignature`).
* A deploy fee the client accepts can be one its own signer refuses: when the quote is zero, or when the
  amounts leave 128 bits. `Fees.QuoteIsSignable` is the exact condition; `Fees.AZeroQuoteIsUnsignable` and
  `Fees.AQuoteCanBeUnsignable` are a case of each.
* The position a gateway names is checked against the path, but the path need not pin it down.
  `MerklePath.PositionIsUnique` is the exact condition: no steps, a left turn at the root, or 64 steps.
  `MerklePath.ManyPositionsFit` gives one path that three positions fit.
* An import that fails can change the session. `SavedSession.FailedImportChanges` says exactly when: its
  entries could be read, its heads could not, and some saved nonce lies above the session's own.
  `SavedSession.AFailedImportCanRaiseNext` is a case. `SavedSession.FailedImportIsHonest` shows that even
  then it does what some honest import does, so that the theorems about runs of calls cover it.
* The chunk decoder departs from section 7.1 of RFC 9112 in both directions. It refuses sizes of more than
  eight digits even when the leading ones are zeros (`Chunked.StandardBodyIsRead` is the exact condition,
  `Chunked.NineDigitsAreRefused` a case), and extensions that are not UTF-8. It also reads blanks around a size
  (`Chunked.BlanksAreRead`), and takes a body as whole without the trailers and the final line break
  (`Chunked.MissingFinalBreakIsRead`). `Chunked.SizeOfIsExact` and `Chunked.DechunkIsExact` say exactly what it
  does accept.

## Model

| member | source | states |
|---|---|---|
| Stake.QuorumOverlap | src/finality.rs:181-186 | two subsets of a stake set that each hold more than two thirds share more than one third |
| Stake.TotalIsExact | src/finality.rs:96-99 | for at most 4096 members of 64-bit stake the saturating 128-bit sum is the true sum |
| Stake.ActiveSet | src/finality.rs:58-68 | filter, sort and truncate leave members at or above the floor, each with more stake than every eligible one left out, or as much and a smaller id, and leave nobody out while there is room |
| Stake.ActiveIsTheTop | src/finality.rs:58-68 | with unique ids the active set is the one top set under stake descending, id ascending |
| Stake.SortedByRankInRank | src/finality.rs:64 | sorting yields a permutation in which each member strictly outranks all later ones |
| Stake.RankedPrefixIsActive | src/finality.rs:64-65 | the first members of a ranked list are those with too few ahead of them |
| Stake.TopIsActive | src/finality.rs:58-68 | no other set of members has that meaning |
| Stake.StakeOfOne | src/finality.rs:96-99 | a member's stake is counted once, nothing counts as zero |
| Finality.CheckRoster | src/finality.rs:77-94 | true exactly for 1 to 4096 members with distinct ids, distinct keys and full-length keys |
| Finality.ActiveStakeFits | src/finality.rs:96-99 | three times the active stake of an accepted roster stays inside 128 bits |
| Finality.DecodeCertificate | src/finality.rs:576-612 | after reading, only a stage-one certificate whose attesters and reveals are in id order and within the caps is accepted |
| Finality.FindMember | src/finality.rs:135-140 | finds a member with the id, or there is none |
| Finality.AttesterOf | src/finality.rs:135-169 | succeeds exactly when some active member with that id validly attests |
| Finality.CountSigned | src/finality.rs:117-171 | the loop succeeds exactly when all attestations sit in one view, none repeats and all are valid, and then counts every signer's stake once |
| Finality.CheckReveals | src/finality.rs:172-180 | true exactly when every reveal is proved by an active member |
| Finality.VerifyFinality | src/finality.rs:70-198 | the whole check answers the declarative verdict, with both stake sums |
| Finality.FinalityIsExact | src/finality.rs:70-198 | over the fields of roster, header and certificate: an answer is given if and only if the roster is sound, every attestation is a vote of a different active member for the block of the header, the voters hold more than two thirds, and the answer repeats the header and both sums |
| Finality.VerdictIgnoresOrder | src/finality.rs:95-197 | every permutation of the roster gives the same answer with the same two sums |
| Finality.AccountableQuorum | src/finality.rs:117-186 | two accepted certificates over one roster share members with more than a third of the active stake, each attesting validly in both |
| Finality.AttestationsNameTheBlock | src/finality.rs:112-131 | every counted attestation is on the block and height the header hashes to |
| LightClient.SealingIsTheLastHeight | src/finality.rs:234-281 | the sealing height is the last height of its epoch and of no other |
| LightClient.VerifyFinalityInEpoch | src/finality.rs:247-269 | the finality verdict, refused when the roster is not of the header's epoch |
| LightClient.InEpochIsExact | src/finality.rs:247-269 | the answer is a finalized header whose height divided by the epoch length is the epoch of the roster, and every such header is answered |
| LightClient.VerifyNextRoster | src/finality.rs:283-333 | over the fields of the evidence: a roster is accepted if and only if the header is final, its height lies in the current epoch and the height after it in the next, and the proof shows the commitment to exactly these members under the key of the next epoch in the state of that header |
| LightClient.NextIsExact | src/finality.rs:283-333 | the same of the step that walks are made of |
| LightClient.WalkCountsEpochs | src/lib.rs:2438-2484 | a walk of k steps ends k epochs after its anchor |
| LightClient.StepAgreementOrFault | src/finality.rs:283-333 | two accepted successors of one roster are equal, or a collision or double signing is at hand |
| LightClient.AgreementOrFault | src/lib.rs:2411-2486 | two equally long walks from one anchor agree, or at the step where they part both given pieces of evidence are accepted and at fault; nothing is assumed |
| LightClient.Agreement | src/lib.rs:2411-2486 | with binding primitives, unforged signatures and at most a third of each walked roster equivocating, the walks agree |
| Assumptions.OneValidatorFinalizes | src/finality.rs:70-198 | acceptance is possible: one validator's attestation finalizes a header |
| Assumptions.AssumptionsCanHold | src/finality.rs:283-333 | primitives that bind, unforged signatures and no equivocation can hold together while two gateways that answer differently lead a walk a step on, with epochs of ten blocks |
| Assumptions.WalksCanPart | src/finality.rs:283-333 | with primitives that bind nothing two gateways lead two walks apart, and the fault is there to see |
| RosterCache.FloorKey | src/lib.rs:2423 | the greatest cached epoch not above the one asked for |
| RosterCache.SecondKey | src/lib.rs:2478 | the second smallest key, when there are two |
| RosterCache.Evict | src/lib.rs:2477-2482 | keeps the oldest entry and the newest 31 unchanged, drops nothing below 33 |
| RosterCache.PlainWalkIsWalk | src/lib.rs:2438-2484 | a plain walk that succeeds is the walk along exactly the evidence the gateway was asked for, after the evidence that led to its start |
| RosterCache.PlainWalkIsExact | src/lib.rs:2438-2484 | over the fields of the answers: a walk ends with a roster if and only if every answer is for its own epoch, has every field, and its header, certificate and proof fields prove the next members |
| RosterCache.AnotherEpochIsRefused | src/lib.rs:2445-2449 | no walk passes an epoch whose answer is missing or is for another epoch |
| RosterCache.StartDoesNotMatter | src/lib.rs:2421-2484 | from the roster a trail of evidence led to, the walk ends where the walk from the anchor ends, or that trail and this gateway's own answers are at fault where they part |
| RosterCache.SoundStartDoesNotMatter | src/lib.rs:2421-2484 | with binding primitives, unforged signatures and at most a third equivocating along the trail, the two walks end alike |
| RosterCache.ReachedRostersAgree | src/lib.rs:2411-2486 | two rosters for one epoch, led to from one anchor by two given trails, are equal, or these two trails are at fault where they part |
| RosterCache.TrustedRosters.TrustRosterAt | src/lib.rs:2366-2379 | an empty roster changes nothing, any other becomes the only anchor |
| RosterCache.TrustedRosters.AnchorPinnedRoster | src/lib.rs:2381-2409 | with nothing trusted yet, a genesis roster is accepted if and only if it is there, not empty and matches the pinned commitment |
| RosterCache.TrustedRosters.RosterForEpoch | src/lib.rs:2411-2486 | members are found if and only if the fields of the answers prove them from the nearest cached roster on; that is also what is found from the anchor unless the trail kept for that roster and the answers of this gateway are at fault; a client anchored by this very call answers as the walk from its anchor |
| RosterCache.TrustedRosters.FromNearest | src/lib.rs:2421-2486 | the same for the part after the anchor is there; anchor and genesis stay |
| RosterCache.TrustedRosters.WalkTo | src/lib.rs:2438-2484 | the loop ends, ends with a roster if and only if the fields of the answers prove it, and keeps only rosters its evidence leads to from the anchor |
| RosterCache.TrustedRosters.Keep | src/lib.rs:2474-2483 | inserting and evicting keeps the anchor and the cap, even when the new entry itself goes |
| Bits.CountOnesAbove | src/finality.rs:451-471 | a bit set above all others adds one to the popcount |
| MerklePath.SameTree | src/lib.rs:3635-3657 | pairing with promotion and cutting at powers of two give every leaf the same path |
| MerklePath.FullTree | src/finality.rs:451-471 | in a full subtree the turns spell the position in binary |
| MerklePath.PathFits | src/finality.rs:451-471 | every real path meets the condition the check looks for |
| MerklePath.GrowTree | src/finality.rs:451-471 | a position and turns meeting the condition are those of a tree that can be written down |
| MerklePath.CheckIsFitsTurns | src/finality.rs:451-471 | shifts, masks and popcounts decide that condition, also past 64 steps |
| MerklePath.ExactPositionCheck | src/finality.rs:451-471 | an index below 2^64 and steps are accepted if and only if some tree of at most 2^64 leaves gives that leaf those steps |
| MerklePath.PositionIsUnique | src/lib.rs:2137-2145 | an accepted index is the only one its steps accept if and only if there are no steps, the turn at the root is left, or there are 64 steps |
| MerklePath.ManyPositionsFit | src/finality.rs:451-471 | one right step fits positions 1, 2 and 4, each the last leaf of a tree |
| SigningSession.Session.Slot | src/lib.rs:1117-1194 | over the maps: an unnamed nonce is granted if and only if it is not below the next one, is the tracked one for an order, is not reserved, and everything held up to it lies below it and was accepted; and the whole new state, failing calls included |
| SigningSession.Session.UnnamedMaySign | src/lib.rs:1147-1183 | the refusals of a call that names no nonce |
| SigningSession.Session.Reserve | src/lib.rs:1184-1193 | reservation and the raised `next` |
| SigningSession.Session.Release | src/lib.rs:1331-1335 | one reservation fewer, nothing else |
| SigningSession.Session.Signed | src/lib.rs:1341-1347 | the nonce is held and no longer reserved |
| SigningSession.Session.Outcome | src/lib.rs:1349-1359 | acceptance settles the slot and raises `next`, saturating at the top |
| SigningSession.Session.NoteHead | src/lib.rs:1200-1208 | the highest head wins and keeps the time it was first seen |
| SigningSession.GrantIsExact | src/lib.rs:1117-1190 | the condition on the maps, for named and unnamed calls |
| SigningSession.CallChanges | src/lib.rs:1117-1359 | over the maps: what every call changes and what it leaves, grants, refusals and imports included |
| SigningSession.UnnamedGrantIsNotBlocked | src/lib.rs:1132-1190 | an unnamed grant is never of a nonce that is held, reserved or below `next` |
| SigningSession.SettledPersists | src/lib.rs:1117-1359 | every call keeps accepted slots below `next` |
| SigningSession.BlockedPersists | src/lib.rs:1117-1359 | a used nonce stays used under every call but one that names it |
| SigningSession.NextNeverDecreases | src/lib.rs:1117-1359 | `next` never goes back, saturation included |
| SigningSession.NamingIsTheOnlyWayBack | src/lib.rs:1117-1359 | in every sequence of calls and imports, an unnamed grant of a signed nonce has a call naming exactly it in between |
| SigningSession.NothingSignedIsSkipped | src/lib.rs:1172-1182 | in every sequence of calls, an unnamed grant above a signed nonce has in between an accepted outcome for it, a naming at or above it, or an import that has it accepted |
| SigningSession.NamingAlwaysGrants | src/lib.rs:1124-1193 | naming the reported nonce always grants it and clears what was held up to it |
| Signings.StepKeepsSafe | src/lib.rs:1743-1752 | every step of every signing, guards dropped one by one included, keeps signings apart and the log blocked |
| Signings.OneNonceOneSignature | src/lib.rs:2308-2356 | in every interleaving without named nonces no nonce is recorded twice and no two signings in progress share one |
| Signings.SecondSignatureNeedsADiscard | src/lib.rs:3008-3106 | the signature about to be made for a nonce is a second one if and only if an earlier one was discarded unrecorded |
| Signings.RemadeOnlyAfterDiscard | src/lib.rs:3008-3106 | of all signatures made for one nonce at most one is not discarded, and that one is still held or recorded |
| Signings.AnOrderNonceCanBeSignedTwice | src/lib.rs:3008-3106 | a run in which one order nonce gets two signatures, none of them recorded |
| OrderNonces.GrantIsNextInLine | src/lib.rs:1148-1183 | a granted order nonce is the number of accepted ones and of signed ones |
| OrderNonces.OrderNoncesLeaveNoGap | src/lib.rs:1143-1193 | signed and accepted order nonces are 0, 1, 2, ... without gap or repeat, at most one outstanding |
| Durable.SubmittedNoncesSurviveCrashes | src/lib.rs:2335-2356 | whatever happened before and wherever the client crashed, a submitted nonce is not granted unnamed, now or after one more crash |
| Durable.SentStaysSent | src/lib.rs:2335-2356 | a submitted nonce stays protected until it is named |
| Durable.ActionKeepsSound | src/lib.rs:1117-1359 | every action, crash included, keeps submitted nonces blocked in memory and on disk |
| Utf8.DecodeIsInverse | src/json.rs:248-253 | bytes decode to a text exactly when they are its UTF-8 encoding |
| Utf8.EncodingIs | src/json.rs:248-253 | one to four bytes in the forms of RFC 3629, as numbers |
| Decimal.CanonicalIsPrinted | src/lib.rs:591-603 | a text is a canonical whole number exactly when it is that number printed |
| Decimal.DigitsAre | src/lib.rs:591-603 | one more digit at the end is ten times as much |
| Json.WriteChar | src/json.rs:106-116 | appends the escape of one character |
| Json.WriteString | src/json.rs:104-118 | appends the quoted and escaped string to the buffer |
| Json.Write | src/json.rs:27-57 | appends the rendering of any value to the buffer |
| Json.Render | src/json.rs:21-25 | the rendering of the value |
| Json.EscapesAre | src/json.rs:104-118 | the text of every escape |
| Json.ItemsArePrinted | src/json.rs:27-57 | brackets and commas, and no blanks |
| Json.FieldsArePrinted | src/json.rs:27-57 | braces, commas, colons and quotes, and no blanks |
| JsonSyntax.SpacesAre | src/json.rs:156-160 | blank, tab, line feed and carriage return are skipped |
| JsonSyntax.HexDigitsAre | src/json.rs:274-284 | sixteen digits, letters in either case |
| JsonSyntax.HexNumberIs | src/json.rs:274-284 | one more digit at the end is sixteen times as much |
| JsonSyntax.PunctuationIs | src/json.rs:162-236 | quotes, commas, colons, braces, brackets and the words `true`, `false` and `null` are those characters |
| JsonParser.Parser.HexFour | src/json.rs:274-284 | four hexadecimal digits or a refusal, and where the cursor stands |
| JsonParser.Parser.UnicodeChar | src/json.rs:286-303 | one code point, surrogate pairs joined, lone surrogates refused |
| JsonParser.Parser.PlainBytes | src/json.rs:244-253 | the longest run without quote, backslash or control byte, decoded |
| JsonParser.Parser.StringValue | src/json.rs:240-272 | reads a string as the grammar says |
| JsonParser.Parser.NumberValue | src/json.rs:305-326 | whole numbers of 64 bits, no sign, fraction, exponent or leading zero |
| JsonParser.Parser.Nested | src/json.rs:175-183 | one more open container, refused past 128 |
| JsonParser.Parser.Fields | src/json.rs:194-216 | fields up to the brace, a repeated key refused |
| JsonParser.Parser.Items | src/json.rs:227-237 | items up to the bracket |
| JsonParser.Parser.Value | src/json.rs:162-173 | reads a value as the grammar says; the cursor moves on, so the recursion ends |
| JsonParser.Parse | src/json.rs:122-135 | the answer for a whole text, trailing characters refused |
| JsonStrings.PartsRead | src/json.rs:240-303 | every spelling of a string, with any mix of escapes and surrogate pairs, is read as what it spells |
| JsonStrings.StringIsParts | src/json.rs:240-303 | whatever is read as a string was spelled that way |
| JsonStrings.ShortEscapesAre | src/json.rs:255-272 | the eight letters and the characters they stand for |
| JsonStrings.FourDigitsAre | src/json.rs:286-303 | four digits stand for the character of that number, unless it is a surrogate |
| JsonStrings.SurrogatesAre | src/json.rs:286-303 | two halves stand for a character if and only if they are its UTF-16 form |
| JsonGrammar.NumberIsWhole | src/json.rs:305-326 | whatever is read as a number is digits without sign, fraction, exponent or leading zero, within 64 bits |
| JsonGrammar.TreeRead | src/json.rs:162-237 | every text the grammar writes for a value is read as that value, or refused if it nests too deep or repeats a key |
| JsonGrammar.TreeOf | src/json.rs:162-237 | whatever is read as a value is a text the grammar writes for it |
| JsonLimits.FitsMeaning | src/json.rs:120-217 | fitting is nesting of at most 128 and no repeated key |
| JsonLimits.AcceptedFits | src/json.rs:162-183 | every value the parser returns fits |
| JsonLimits.NestingCounts | src/json.rs:175-183 | lists and objects count one each, whatever is in them |
| JsonLimits.UniqueKeysMeans | src/json.rs:194-216 | no object at any depth has one key twice |
| JsonGrammar.ParserIsExact | src/json.rs:122-135 | a text is accepted with a value if and only if the grammar lets it stand for that value, nesting is at most 128 and no key repeats |
| JsonRoundTrip.PartsWrite | src/json.rs:104-118 | the escaped string is a spelling of the string |
| JsonRoundTrip.PrintedWrites | src/json.rs:27-57 | what the printer writes is a text of the grammar that means the value |
| JsonRoundTrip.PrintThenParse | src/json.rs:21-135 | parsing a printed value gives it back if and only if it nests at most 128 deep and repeats no key, and fails otherwise |
| JsonRoundTrip.ReprintChangesNothing | src/lib.rs:2458-2463 | printing an accepted value again and parsing that yields the same value |
| Ordered.SortedTexts | src/lib.rs:1212-1214 | every text of a set once, in ascending order |
| Ordered.TextLeqMeans | src/lib.rs:1212-1214 | a text comes before another if it is its beginning, or smaller where they first differ |
| Ordered.NumbersAscend | src/lib.rs:1222-1230 | held nonces are listed in ascending order |
| SavedSession.ExportState | src/lib.rs:1210-1257 | the text is the rendering of the session's keys, held slots and heads in order |
| SavedSession.ExportIsWritten | src/lib.rs:1210-1257 | the names, order and values of all fields of the saved text |
| SavedSession.ReadSlots | src/lib.rs:1287-1294 | reads every slot or refuses |
| SavedSession.ReadEntries | src/lib.rs:1278-1298 | reads every entry or refuses |
| SavedSession.ReadHeads | src/lib.rs:1307-1318 | reads every head or refuses |
| SavedSession.ImportState | src/lib.rs:1259-1329 | the new session and the answer for every text, also when it fails half way |
| SavedSession.SlotsAreExact | src/lib.rs:1287-1294 | a list is read if and only if every entry has a number; the last entry for one decides, and only `true` is accepted |
| SavedSession.EntriesAreExact | src/lib.rs:1278-1298 | entries are read if and only if each has a key, no next nonce or a number, and readable slots; the last next nonce and the last slots that are not empty win |
| SavedSession.SaidIs | src/lib.rs:1283-1297 | an entry without a next nonce or without slots says nothing about it |
| SavedSession.HeadsAreExact | src/lib.rs:1307-1318 | heads are read if and only if each has a chain, a height and a time |
| SavedSession.NotedAreHighest | src/lib.rs:1326-1328 | each chain ends with the highest head of session and text, a tie leaving the session's own |
| SavedSession.ImportIsExact | src/lib.rs:1259-1329 | a text is imported if and only if it is a version 1 session that can be read, and then nonces, slots and heads are what both say |
| SavedSession.FailedImportChanges | src/lib.rs:1259-1321 | a failed import changes the session if and only if its entries are readable, its heads are not, and some saved nonce is above the session's |
| SavedSession.FailedImportIsHonest | src/lib.rs:1299-1321 | what a failed import leaves is what some honest import leaves |
| SavedSession.AFailedImportCanRaiseNext | src/lib.rs:1299-1321 | a text whose heads are no list fails to import and raises `next` all the same |
| SavedSession.ExportParses | src/lib.rs:1210-1261 | every export is accepted by the parser as the value it was printed from |
| SavedSession.ImportOfExport | src/lib.rs:1210-1329 | importing any export succeeds and merges nonces, held slots and heads into any session |
| SavedSession.RestoredSession | src/lib.rs:1886-1893 | a fresh session restores `next`, the non-empty `held` and `heads` |
| OrderMessage.CanonicalOrderMessage | src/contract.rs:190-225 | byte by byte: the tag at 0, chain at 8, genesis at 16, contract at 48, selector at 84 behind zeros, signer at 88, nonce at 120, expiry at 128, layout at 136, and from 168 on every value, words most significant byte first |
| OrderMessage.WideDetermines | src/contract.rs:94-99 | the two-word form of a 128-bit value determines it |
| OrderMessage.FieldDetermined | src/contract.rs:101-123 | bytes and kind determine a field value, names of up to 32 bytes included |
| OrderMessage.ValueIsSaid | src/contract.rs:101-123 | the bytes of one value, place by place |
| OrderMessage.WideSpells | src/contract.rs:94-99 | the low word comes before the high word, each most significant byte first |
| OrderMessage.Be64Spells | src/contract.rs:101-123 | the eight bytes of a word and their weights |
| OrderMessage.SelectorIsItsWord | src/contract.rs:190-225 | the selector's word is its four bytes zero-extended |
| OrderMessage.MessageDeterminesOrder | src/contract.rs:190-225 | for one list of kinds the message determines every part of the order and every field |
| OrderMessage.OrderLayoutPreimage | src/contract.rs:160-175 | the appended bytes are tag, selector, count, then counted names and types with widths |
| OrderMessage.PreimageDeterminesLayout | src/contract.rs:160-175 | with lengths below 2^32 the preimage determines selector, names, types and widths |
| OrderMessage.PreimageSays | src/contract.rs:160-175 | the preimage, place by place |
| OrderCall.NeighboursSuffice | src/contract.rs:534-544 | sorted spans whose neighbours are apart are all apart |
| OrderCall.CheckSpans | src/contract.rs:533-544 | sorting and comparing neighbours passes if and only if no two spans intersect |
| OrderCall.ImageExtends | src/contract.rs:685-695 | writing a piece apart from the others keeps all of them readable |
| OrderCall.ImageIsUnique | src/contract.rs:546-559 | the buffer does not depend on the order of the writes |
| OrderCall.PutBytes | src/contract.rs:685-695 | writes in place exactly when the range is inside the buffer |
| OrderCall.WriteOrder | src/contract.rs:548-559 | after the checks no write fails and the buffer is the image of all pieces |
| OrderCall.BuildCallArgs | src/contract.rs:577-616 | built if and only if every argument fits and no two overlap; selector, arguments, zeros elsewhere |
| OrderCall.ArgsAreExact | src/contract.rs:577-616 | built if and only if names fit their window and all parts lie between 152 and 65536 without meeting |
| OrderCall.BuildTypedOrderCall | src/contract.rs:415-575 | built if and only if the order can be laid out, with its message, signature and memory image |
| OrderCall.OrderIsExact | src/contract.rs:415-575 | built if and only if there is a contract, an expiry and the right genesis, the key signs, names fit, and words, fields and the region of key, signature and message lie between 152 and 65536 without meeting |
| OrderCall.SignedIsExecuted | src/contract.rs:548-559 | the bytes of each field in memory are its slice of the signed message; message and memory say what was asked for, place by place; the first 152 bytes are zero |
| Fees.QuoteIsUnderTheTop | src/lib.rs:340-351 | the signer's upper bound never refuses an accepted quote |
| Fees.QuoteIsOverTheFloor | src/lib.rs:340-351 | the lower bound holds exactly when the priced floor stays in 128 bits |
| Fees.CallFeeIsExact | src/lib.rs:311-368 | a call passes the check if and only if it pays exactly the transfer fee, within the limits |
| Fees.DeployFeeIsExact | src/lib.rs:311-368 | a deploy passes if and only if it pays 5,000 to 10,000 times the transfer fee on top, in unbounded numbers but for the cut at 128 bits |
| Fees.QuoteIsExact | src/lib.rs:370-399 | a quote is accepted if and only if it is the price of five dollars and the transfer fee lies between two prices, as products |
| Fees.QuoteIsSignable | src/lib.rs:311-399 | an accepted quote plus the transfer fee passes the signer's check if and only if it is nonzero and the two products fit |
| Fees.FittingQuoteIsSignable | src/lib.rs:2724-2727 | with amounts that fit, every accepted nonzero quote is signable |
| Fees.AQuoteCanBeUnsignable | src/lib.rs:370-399 | an accepted nonzero quote that no deploy can be signed with |
| Fees.AZeroQuoteIsUnsignable | src/lib.rs:311-351 | prices for which the accepted quote is zero, and no deploy can be signed with it |
| HeadBound.Validity | src/lib.rs:2626-2654 | an unverified head of a public chain is refused; otherwise the deadline for the floor found, and the head noted only when there is one |
| HeadBound.DeadlineIsHeadPlusDefault | src/lib.rs:464-514 | saturation changes no answer, the final check on the deadline never refuses, the deadline is head plus 300 |
| HeadBound.FloorMoves | src/lib.rs:1200-1208 | one call raises the floor to its head or leaves it |
| HeadBound.FloorIsFirstHighest | src/lib.rs:1196-1208 | over any run from any session the floor is the highest head signed for, stamped when first signed for, or still the one the run began with |
| HeadBound.HeadsNeverFall | src/lib.rs:494-499 | accepted heads never fall, nor below the floor the run began with |
| HeadBound.DeadlinesAreBounded | src/lib.rs:416-429 | every deadline is head plus 300 and, unverified, at most the clock's ceiling plus 300 |
| HeadBound.GainIsBounded | src/lib.rs:500-509 | between any two moments of an unverified run the floor gains at most rate times elapsed time plus 240 per rise |
| Bits.SpreadOfGather | src/lib.rs:1406-1409 | cutting bits into groups and laying the numbers out again changes nothing |
| Bits.GatherOfSpread | src/lib.rs:1397-1401 | numbers that fit their width survive being laid out and cut |
| Bits.ToBitsAt | src/lib.rs:1398-1400 | which bit of a number stands at which place |
| Phrase.PushBits | src/lib.rs:1398-1400 | pushes the bits of a number, most significant first |
| Phrase.MnemonicFromSeed | src/lib.rs:1392-1415 | the words of the seed's bits and checksum, with blanks between them |
| Phrase.ChecksumIsDigestFront | src/lib.rs:1387-1390 | the checksum is the first 19 bits of the digest |
| Phrase.WordsAreElevenBits | src/lib.rs:1392-1415 | 25 words, each the one at the number that its eleven bits of seed and digest spell |
| Phrase.WordIndex | src/lib.rs:1537-1560 | the masked search answers as a plain search for words of at most 16 bytes, and nothing for longer ones |
| Phrase.BitsToBytes | src/lib.rs:1452-1458 | bytes of the groups of eight |
| Phrase.SeedFromMnemonic | src/lib.rs:1562-1591 | the seed the folded and split phrase restores, or a refusal |
| Phrase.RestoredIsInverse | src/lib.rs:1562-1591 | words restore a seed if and only if they are that seed's words |
| Phrase.JoinedIsSplit | src/lib.rs:1565 | splitting a printed phrase gives its words back |
| Phrase.SpacedIsSplit | src/lib.rs:1565 | splitting finds the words whatever whitespace is around them |
| Phrase.WhitespaceIsWhiteSpace | src/lib.rs:1565 | words are parted by the 25 characters that Unicode calls white space |
| Phrase.TypedPhraseRestores | src/lib.rs:1438-1591 | a phrase in any capitals and with any ASCII whitespace restores its seed |
| Phrase.PhraseRoundTrip | src/lib.rs:1392-1591 | the printed phrase restores its seed, and no two seeds print one phrase |
| Chunked.Find | src/http.rs:83-85 | the first occurrence, or there is none |
| Chunked.CharactersAre | src/http.rs:153-172 | lines end with carriage return and line feed, extensions start at a semicolon, blank and tab are trimmed |
| Chunked.Dechunk | src/http.rs:153-182 | the loop answers what the recursive reading answers |
| Chunked.SizeOfIsExact | src/http.rs:157-172 | a line announces a size if and only if it is blanks, one to eight hexadecimal digits of that value, blanks, and nothing or extensions in UTF-8 |
| Chunked.StandardLineAnnounces | src/http.rs:157-172 | digits with or without extensions announce their value up to eight digits and are refused beyond |
| Chunked.NineDigitsAreRefused | src/http.rs:163-168 | the line 000000001 is of the standard's form and refused |
| Chunked.BlanksAreRead | src/http.rs:158-162 | a size with blanks around it is outside the standard's form and read |
| Chunked.ChunkedIsRead | src/http.rs:153-182 | a body written as the grammar says gives its payload, whatever follows, or is refused when a size line is not readable |
| Chunked.DechunkIsExact | src/http.rs:153-182 | a body is accepted with a payload if and only if the grammar writes that payload so with readable size lines |
| Chunked.StandardBodyIsRead | src/http.rs:153-182 | a body of the standard's form with size lines in UTF-8 is read if and only if no size has more than eight digits |
| Chunked.MissingFinalBreakIsRead | src/http.rs:171-173 | a body that stops right after its last size line is outside the standard's form and read |
| Framing.CutLine | src/http.rs:109-112 | a line is cut at its first colon, the value trimmed; without a colon it is refused |
| Framing.TrimmedIs | src/http.rs:112 | a value is what is left between the blanks around it |
| Framing.HeadersAre | src/http.rs:113-131 | the two names in any capitals, and a length of digits within 64 bits |
| Framing.ReadHeaders | src/http.rs:106-132 | the loop knows the length and the encoding exactly, or some line has no colon or some header contradicts |
| Framing.ReadBody | src/http.rs:106-147 | refused unless every line is cut and the body framed one way; chunked bodies are decoded, others must have every length given |
| Response.LinesAreText | src/http.rs:91 | the lines of a text, joined by line breaks, are the text, and none holds a line break |
| Response.TextsLines | src/http.rs:91 | lines without line breaks are got back from their text |
| Response.BlankLineIs | src/http.rs:88 | the headers end at the first pair of line breaks |
| Response.StatusIsExact | src/http.rs:92-105 | a status is read if and only if the line is a known version, a blank and three digits of at least 200, ending there or at a blank |
| Response.ParseResponse | src/http.rs:87-151 | an answer is read if and only if the bytes are such lines, the first blank line and a body that the lines frame one way as that text |

## Left out

- Signings.OneNonceOneSignature: signings that name a nonce are outside it, because naming may share a nonce on purpose; `SigningSession.NamingIsTheOnlyWayBack` covers them.
- HeadBound.GainIsBounded: calls are one after another, wall time does not go back and no floor begins in the future, because an earlier wall time restamps the floor.
- HeadBound.Validity: starts from the outcome of `verify_head` and of the genesis check.
- RosterCache.TrustedRosters.RosterForEpoch: the chain id is fixed for the object's life; an unconfigured client takes the gateway's id anew on each call.
- Phrase.WordIndex: the word list has no repeated word, which is so of the SDK's only list.
- Phrase.SeedFromMnemonic: the folding of characters outside ASCII is an arbitrary function, and the separate message for a phrase with a standard BIP-39 checksum is an error text.
- JsonGrammar.ParserIsExact: the numbers of the grammar are whole numbers of 64 bits; signs, fractions and exponents, which RFC 8259 allows, are not read by this parser.
- Chunked.StandardBodyIsRead: names and quoting inside chunk extensions, and fields inside trailers, are not parsed; the decoder does not look at them.
- Finality.DecodeCertificate: starts from the fields of the certificate; reading them byte by byte belongs to a codec that is not part of this model.
- Error texts, the `shown` filter and which of several refusals comes first.
- `verify_account`, `verify_event`, `verify_transaction` and `verify_head`: they call the modelled checks and then single comparisons.
- `parse_roster`, `parse_steps`, `from_hex`, `to_hex`: the hexadecimal and field readers of gateway answers.
- `build_order_from_typed` and `build_deploy_call`: field texts and deploy regions; the modelled builder starts from field values.
- The address book, look-alike addresses, `vet_target` and `release_pending`, which no other code calls.
- The saving hook is atomic: a file cut short by a crash is not modelled, nor is a second client saving over the first one's file.
- Shifts, masks and bitwise operators are written on whole numbers; `usize` is 64 bits wide.
- Sockets, time-outs, transports, the command line, entropy and wiping of secrets.
- Constant time: that the word search takes equally long for every word is not a property of its answer.
