# Verified model of the policy platform's algorithms

This project models, in Dafny, the small algorithms and state machines behind a SaaS front for a policy
language, and proves what the source promises of them. One module follows one source file or one part of it.

| module | what it models |
|---|---|
| `JsNumber`, `CanonicalJson`, `JsonReader` | printed numbers, the canonical serialisation hashed for a decision, and a reader that gets the ordered members back from its text |
| `DecisionRecord`, `RecordFields` | what the pre-image of a decision pins down, and where each field stands in it |
| `CreditDecision`, `CreditTerms` | half-even rounding, the four-way decision, its trace and its explanation, and the same in plain figures |
| `Framing`, `LspFraming`, `LspHeaders`, `SseStream`, `SseEffects` | the two incremental framers: `Content-Length` frames (Base Protocol of the Language Server Protocol 3.17) and event-stream frames (section 9.2.5 of the WHATWG HTML standard, restricted to LF and CRLF), and what headers, frames and events mean |
| `LspSession`, `LspClient`, `LspHistory` | the editor's session protocol as interleaved steps, the handlers that take them, and each outcome traced to its event |
| `PokerHand`, `PokerOrder`, `PokerBest`, `PokerRanking`, `PokerDeal` | the five-card evaluator, the meaning of its score, the best of n cards, the rules of the game that both follow, and the deal |
| `UsageLedger`, `UsagePrices` | the usage table and the price list |
| `QuotaGate`, `QuotaRules`, `QuotaRuns` | the quota gate, its rules in plain numbers, and runs with calls in flight |
| `TimeWindows`, `RateWindows`, `RateLimits` | sliding-window rates and when they hold |
| `CircuitBreaker`, `CircuitReadings`, `CircuitRuns` | the cost circuit breaker, what it writes and reports, and what a manual trip guarantees over runs |
| `Lockout`, `LockoutHistory` | account lockout with escalating locks, and when and how long accounts are locked |
| `LocaleMerge`, `LocaleLayers`, `LocaleFindings` | message merging, its linter, layering, and what they say at each path |
| `ApiKeyIdentity`, `OwnerPool` | batched lookups against the one-at-a-time definitions |
| `JsText`, `Sorting`, `Counting`, `Grouping`, `Lookup`, `Outcomes` | code units and numerals, sorting, counting, `GROUP BY` answers, keyed rows, optional and failing results |

Conventions. JavaScript strings are sequences of UTF-16 code units where code units matter (`JsText.Text`)
and `string` elsewhere. Times are integers of milliseconds, a UTC month is a number given by a calendar
parameter. A database table is a sequence of rows or a map in a class; each exported async function is one
atomic step, except that a quota check and the record of the call it admits are separate steps. Answers of
`GROUP BY` queries are parameters constrained by `Grouping.IsGrouping`. Algorithms that the source writes as
loops or as updates of fields are methods and classes here, proved against specification functions or
predicates; the properties are lemmas about those. What such a function computes is pinned down once more by laws
that do not use it: in plain numbers, by the events that matter, or by an independent reader.

Where the code and its own description disagree, the model follows the code:

- `server.ts` counts UTF-8 bytes when it writes a frame and cuts UTF-16 units when it reads one; the round
  trip holds exactly for ASCII (`LspFraming.RoundTripIffAscii`).
- `useSSEStream.ts` ends with `if (!completed)` on a value captured by the callback, so a later stream without
  a `final` frame is not marked complete (`SseStream.CompletedExactly`).
- `account-lockout.ts` tests the 30-minute window with `>` when checking and `<` when recording; they disagree
  exactly at its edge (`Lockout.CheckPredictsRecordExactly`).
- `ai-circuit-breaker.ts` says a manual trip lasts to the end of the UTC day; it ends at 23:59:59.999, one
  millisecond before midnight (`CircuitRuns.TripEndsExactly`). It says paid plans are unaffected; on the day of
  a trip, as long as nobody releases it or writes the user's ban from outside, an eligible user on a paid plan
  whom no earlier ban holds is let through if and only if no trip or cron run found the user on a stopped plan,
  so whoever was caught stays out after upgrading (`CircuitRuns.AllowedDuringTripExactly`,
  `CircuitRuns.UpgradedUserIsRefused`; with releases and other bans `CircuitRuns.AllowedAfterLastWrite`). Releasing also lifts
  shorter bans given for other causes that the breaker had overwritten (`CircuitBreaker.ReleaseUndoesApplyExactly`).
- Merging messages is not associative in general; `LocaleLayers.MergeAssociativeExactly` says for which layers it is.
- `ai-quota.ts` counts a call when it is recorded, so k calls in flight may pass the monthly limit by k - 1, and
  the limit is kept by every run exactly for k at most 1 (`QuotaRuns.LimitHoldsExactly`). Both rates
  are kept by every run, on every plan, exactly for k at most 1 too (`RateLimits.RatesHoldExactly`). Marking a refused request as failed would charge it
  (`QuotaGate.MarkMovesNothingExactly`).

## Model

| member | source | states |
|---|---|---|
| CanonicalJson.SortedKeys | src/config/credit-risk-demo.ts:377-378 | The keys an object is written with are exactly its keys, each as often as it occurs, none lost or added; `JsonReader.KeysAscend` says in which order. |
| JsonReader.KeysAscend | src/config/credit-risk-demo.ts:377-380 | Of any two keys written one after the other, the first is a proper prefix of the second or has the smaller code unit where they first differ. |
| JsonReader.ReadsBack | src/config/credit-risk-demo.ts:362-381 | Left inverse: a reader for JSON text gives back from the canonical text of any hashable value that value with its members in the order written, and stops where the text ends, whatever follows. |
| JsonReader.CanonicalIsOrdered | src/config/credit-risk-demo.ts:376-381 | The value read back means the same as the one written and has, at every depth, its keys in dictionary order. |
| JsonReader.WrittenInOrder | src/config/credit-risk-demo.ts:362-381 | Carried to the text: the canonical text of a value reads back as a value of the same meaning whose objects list their keys in dictionary order at every depth. |
| JsonReader.EscapesExactly | src/config/credit-risk-demo.ts:365 | A unit is written as itself unless it is a control character, a quote, a backslash or half of a pair; five control characters have a letter, the others four small hex digits. |
| CanonicalJson.Hex4RoundTrip | src/config/credit-risk-demo.ts:365 | The four lower-case hex digits of an escaped code unit read back as that unit. |
| CanonicalJson.UnescapeEscape | src/config/credit-risk-demo.ts:365 | A reader for JSON strings (section 7 of RFC 8259) gives back every string, lone surrogates included, and stops at its closing quote whatever text follows. |
| CanonicalJson.QuoteUnique | src/config/credit-risk-demo.ts:365 | Where one quoted string ends is decided by its own text: two of them followed by anything can be told apart. |
| JsNumber.ReadPrint | src/config/credit-risk-demo.ts:366-371 | A reader gives back digits and place of the point from every printed form: plain, with a decimal point, below one, with an exponent. |
| JsNumber.NumeralInjective | src/config/credit-risk-demo.ts:366-371 | Different finite numbers are printed differently. |
| JsNumber.NumeralUnique | src/config/credit-risk-demo.ts:366-371 | Where a printed number ends is decided by its own text: two of them followed by text that cannot prolong a number can be told apart. |
| JsNumber.WholeNumbersInFull | src/config/credit-risk-demo.ts:366-371 | Whole numbers of up to 21 digits are printed as their decimal numeral. |
| JsNumber.NotationExactly | src/config/credit-risk-demo.ts:366-371 | A number has an exponent if and only if it is 1e21 or more, then with a plus sign, or below 1e-6, then with a minus sign; a decimal point stands exactly where digits follow the first, or the whole ones. |
| CanonicalJson.Unique | src/config/credit-risk-demo.ts:362-381 | Unique decodability: if two serialised values, each followed by text that cannot prolong a numeral, give the same concatenation, the values mean the same and the remainders are equal. |
| CanonicalJson.Determined | src/config/credit-risk-demo.ts:376-380 | Values equal with objects read as finite maps give the same text, or the same error, whatever the order of their keys at any depth. |
| CanonicalJson.Injective | src/config/credit-risk-demo.ts:353-381 | Same canonical text if and only if equal with objects read as finite maps, for all finite numbers, fractions and exponents included. |
| CanonicalJson.OkIffHashable | src/config/credit-risk-demo.ts:366-374 | The serialiser throws exactly on the values that contain, at any depth, NaN, an infinity, undefined, a function, a symbol or a bigint. |
| CanonicalJson.CanonicalTextWellFormed | src/config/credit-risk-demo.ts:424-426 | The canonical text holds no lone surrogate, so encoding it as UTF-8 replaces nothing and the hashed bytes are as injective as the text. |
| DecisionRecord.EvalContextExact | src/config/credit-risk-demo.ts:327-338 | The evaluation context of a language determines every field of the applicant, and nothing else enters it. |
| RecordFields.ApplicantInEnglish | src/config/credit-risk-demo.ts:327-338 | In English the input has exactly the keys id, creditScore, monthlyIncome, monthlyDebt and requestedAmount, each with the figure of that name. |
| RecordFields.ApplicantInChinese | src/config/credit-risk-demo.ts:327-338 | The same under the Chinese names. |
| RecordFields.ApplicantInGerman | src/config/credit-risk-demo.ts:327-338 | The same under the German names. |
| RecordFields.RecordHolds | src/config/credit-risk-demo.ts:400-417 | The record has exactly the keys rule, locale, entry, input, decision and trace, each with its own value; the trace differs from that of the run only by an execution time of zero. |
| DecisionRecord.WithMeaning | src/config/credit-risk-demo.ts:416 | A spread followed by one key changes exactly that entry of the finite map, whether the key was there before or not. |
| DecisionRecord.TraceExact | src/config/credit-risk-demo.ts:413-416 | Two traces enter the record alike if and only if they agree as finite maps apart from the execution time. |
| DecisionRecord.RecordIsProper | src/config/credit-risk-demo.ts:407-417 | The record never has two members with one key, in any language, given that the trace has none. |
| DecisionRecord.RecordHashable | src/config/credit-risk-demo.ts:366-418 | A record can be serialised if and only if every figure of the applicant is finite and nothing in its trace but the execution time is a value JSON cannot express. |
| DecisionRecord.PreimageExact | src/config/credit-risk-demo.ts:400-425 | Two records with finite figures and hashable traces have the same hash pre-image if and only if rule, locale, input and decision agree and the traces agree apart from execution time. |
| CreditDecision.RoundNearestEven | src/config/credit-risk-demo.ts:255-264 | The rounded integer is the one integer within half a unit, and at exactly half the even one (both directions). |
| CreditDecision.RoundMonotone | src/config/credit-risk-demo.ts:255-264 | Rounding to four places never reverses an order. |
| CreditDecision.RoundIdempotent | src/config/credit-risk-demo.ts:255-264 | Rounding a rounded value changes nothing. |
| CreditDecision.RoundWithinHalfUnit | src/config/credit-risk-demo.ts:250-264 | The rounded value lies within 0.00005 of the exact one. |
| CreditDecision.AtTheCap | src/config/credit-risk-demo.ts:305-306 | The branch that blames the cap is taken exactly when asking for the cap itself would have been approved. |
| CreditDecision.ComputeDecision | src/config/credit-risk-demo.ts:266-324 | The decision is the best level whose demands are met; the adverse reason blames the cap exactly when the amount alone stood in the way; the trace numbers its lines, shows each tried level with its own flags, stops at the deciding one and returns there. |
| CreditDecision.BuildExplanation | src/config/credit-risk-demo.ts:649-729 | The tiers shown as evaluated are exactly those up to the decision, each with its own figures and outcome; they agree line by line with the trace, and the sentence blames the cap exactly when the adverse reason does. |
| CreditDecision.TiersAgreeWithTrace | src/config/credit-risk-demo.ts:649-729 | A tier is shown as evaluated exactly when the trace tried it, and both show the same outcome. |
| CreditDecision.MeetsMonotone | src/config/credit-risk-demo.ts:271-282 | Whatever level an applicant reaches, an applicant no worse in any figure reaches it too, through the rounding of the debt ratio. |
| CreditDecision.DecisionMonotone | src/config/credit-risk-demo.ts:266-316 | Raising score or income or lowering debt or amount never worsens the decision, zero income included. |
| CreditTerms.DebtRatioExactly | src/config/credit-risk-demo.ts:268-269 | The debt ratio is debt over income in ten-thousandths, rounded to the nearest and at half to the even integer; without income a limit is met only by a negative debt. |
| CreditTerms.DecisionExactly | src/config/credit-risk-demo.ts:266-316 | Which level is decided, in figures: score, debt ratio and amount against the thresholds, the amount against twelve monthly incomes times the loan-to-income limit; one level each, if and only if. |
| CreditTerms.ReasonExactly | src/config/credit-risk-demo.ts:300-316 | A referral blames the amount, against twelve monthly incomes times the limit, if and only if score and debt ratio reach the standard level; otherwise the score against that level, and a refusal the score against the minimum. |
| CreditTerms.BlamedAmountIsTooHigh | src/config/credit-risk-demo.ts:303-307 | Whoever is referred for the amount did ask for more than the cap. |
| CreditTerms.TraceShows | src/config/credit-risk-demo.ts:284-316 | Each line of a trace shows the applicant's figures with the outcome of each test, and whether all hold; there are as many lines as levels tried. |
| CreditTerms.TraceReplays | src/config/credit-risk-demo.ts:290-322 | The lines are numbered through, only the last one returns, and it returns the decision; only a last line that does not refuse is marked as matched. |
| CreditTerms.TiersShow | src/config/credit-risk-demo.ts:649-729 | Each evaluated tier shows its own thresholds next to the applicant's figures, the others show nothing; only the tier decided, unless it is the refusal, counts as matched. |
| Framing.DrainAppend | server.ts:81-109 | For any step whose cuts survive appended text: cutting what is there before the rest arrives changes neither the messages nor the final buffer. |
| Framing.ChunkingIrrelevant | server.ts:81-109 | For any such step and any starting buffer, only the concatenation of the chunks matters. |
| LspFraming.FrameDecoder.OnData | server.ts:81-114 | The in-place loop emits what repeated cutting of buffer plus chunk emits, leaves what that leaves, shrinks the buffer on every turn and so ends; a closed socket loses the messages and nothing else. |
| LspFraming.FrameDecoder.OnChunks | server.ts:81-114 | After any run of chunks the buffer is that of the concatenated text, from any buffer; a message arrives exactly if the socket is open at the chunk that completes it, so all of them if it is open throughout. |
| LspFraming.CutFrameAppend | server.ts:86-109 | A frame that can be cut, or a malformed header that is skipped, stays the same cut when more text arrives. |
| LspHeaders.LengthRead | server.ts:91-98 | The announced length is that of the first field `content-length: ` in any case of letters, with all digits that follow it. |
| LspHeaders.MessageFollowsHeader | server.ts:86-108 | With a length n the message is the n units behind the first blank line, cut as soon as they are there. |
| LspHeaders.MalformedHeaderIsSkipped | server.ts:92-96 | A header without the field is thrown away up to its blank line and nothing is emitted. |
| LspHeaders.HeaderIsAwaited | server.ts:87-88 | Without a blank line nothing is cut. |
| LspFraming.DecodingIgnoresChunking | server.ts:81-109 | Feeding x then y equals feeding x + y for every buffer, malformed headers included. |
| LspFraming.ByteLengthAscii | server.ts:75 | UTF-8 bytes and UTF-16 units are equally many exactly for ASCII text. |
| LspHeaders.BytesConcat | server.ts:75 | Byte counts add up wherever a text is cut, except inside a surrogate pair. |
| LspFraming.CutEncoded | server.ts:71-108 | What the decoder cuts from an encoded message is as many code units as the encoder counted bytes. |
| LspFraming.RoundTripIffAscii | server.ts:71-108 | A list of encoded messages decodes to itself with an empty buffer if and only if every message is ASCII, bodies with blank lines included. |
| LspFraming.ChunkedRoundTrip | server.ts:71-114 | The same for every way of cutting the encoded text into chunks. |
| SseStream.SplitIsDrain | src/hooks/useSSEStream.ts:164-165 | Splitting at all separators and popping the last piece equals cutting one frame at a time. |
| SseEffects.SplitCutsAtBlankLines | src/hooks/useSSEStream.ts:164-165 | The pieces with blank lines between them (LF LF, LF CRLF, CRLF LF or CRLF CRLF) are the text, and each piece ends where the first blank line starts. |
| SseEffects.FramesAreTheOnlyCut | src/hooks/useSSEStream.ts:164-165 | No other list of pieces fits the text in this way. |
| SseStream.CutEventAppend | src/hooks/useSSEStream.ts:164-165 | The first frame stays the first frame when text is appended, also when the buffer ends between CR and LF. |
| SseStream.SseReader.Dispatch | src/hooks/useSSEStream.ts:126-155 | One event takes the visible state to the next one and leaves the buffer alone; what the state then shows is told by `SseEffects.StreamExplained`. |
| SseStream.SseReader.OnChunk | src/hooks/useSSEStream.ts:157-171 | One turn of the loop shows the complete frames in order and keeps the incomplete rest. |
| SseStream.SseReader.Finish | src/hooks/useSSEStream.ts:173-179 | A last frame without a blank line is shown unless it is blank, then the stream is marked complete unless the stale flag says so. |
| SseStream.SseReader.ReadStream | src/hooks/useSSEStream.ts:119-179 | However the decoded text is cut into chunks, the final state is that of the whole text. |
| SseEffects.StreamExplained | src/hooks/useSSEStream.ts:123-179 | What a whole stream shows: the data of the last `final` with data, or nothing at a later `repair_start`, and behind it the data of all deltas since, in order; the last error with its detail and the model named by then; the first model; the last verdict no repair took away; the last repair's progress; the last final's mark. |
| SseEffects.FramesExplained | src/hooks/useSSEStream.ts:167-171 | The same for any frames from any state: a field that no event speaks of stays as it was. |
| SseStream.SplittingIgnoresChunking | src/hooks/useSSEStream.ts:157-171 | Two ways of cutting one stream show the same frames and leave the same rest. |
| SseStream.CompletedExactly | src/hooks/useSSEStream.ts:140-179 | A finished stream reads as completed if and only if it held a `final` frame or the flag captured by the callback was still false. |
| LspSession.NextKeepsInv | src/hooks/useAsterLSP.ts:1103-1242 | Every step of every handler keeps the invariant: one live socket at most, the current one; pending requests only on it; every id pending or settled once. |
| LspSession.EveryRunIsSafe | src/hooks/useAsterLSP.ts:351-387 | In every interleaving from the start, whatever `autoReconnect` is at each step: at most one socket not closed, the current one; none pending without it; each id handed out is pending or settled exactly once, never by a reply that came over another socket; no socket fails twice at the scheduler. |
| LspSession.LateEventsAreIgnored | src/hooks/useAsterLSP.ts:1102-1143 | An event of any session but the current one changes nothing at all. |
| LspSession.HistoryGrows | src/hooks/useAsterLSP.ts:1103-1242 | No step takes back a settlement, a closing or a failure report, or moves a request to another socket. |
| LspHistory.ReplySettles | src/hooks/useAsterLSP.ts:471-481 | A reply over the current socket adds exactly one settlement for the pending request of its id: refused if it carries an error, resolved if not. |
| LspHistory.SettlesExactly | src/hooks/useAsterLSP.ts:470-495 | A step settles exactly what its event causes among the pending requests through the current session, each in the way of that event. |
| LspHistory.EverySettlementHasItsEvent | src/hooks/useAsterLSP.ts:351-495 | In every run a request is settled in some way if and only if the event of that way came while it was pending: a reply without error resolves, one with an error refuses, a timer times out, an ended session closes, leaving disconnects. |
| LspHistory.EveryFailureHasItsEvent | src/hooks/useAsterLSP.ts:1126-1140 | In every run the scheduler has heard of a session if and only if it ended as the current one, not as idle, while the editor was mounted and reconnecting. |
| LspHistory.ConnectedMeansInitialised | src/hooks/useAsterLSP.ts:1145-1205 | In every run the editor counts as connected if and only if its current session was initialised while it was current. |
| LspHistory.DisposedExactly | src/hooks/useAsterLSP.ts:1254-1266 | In every run the hook counts as disposed exactly from its last unmount on. |
| LspClient.Client.RejectPending | src/hooks/useAsterLSP.ts:1108-1111 | All pending requests are settled with one cause, in order, and the map is empty afterwards. |
| LspClient.Client.DropSession | src/hooks/useAsterLSP.ts:1103-1115 | Only the current session is dropped; then its socket is closed and detached and its requests are rejected. |
| LspClient.Client.OnSessionIdle | src/hooks/useAsterLSP.ts:1118-1123 | An idle close of the current session stops without a reconnect and is remembered only if reconnecting is wanted. |
| LspClient.Client.OnSessionFailed | src/hooks/useAsterLSP.ts:1126-1140 | A failed current session is reported to the scheduler once, unless the editor is gone or does not reconnect. |
| LspClient.Client.Connect | src/hooks/useAsterLSP.ts:1145-1172 | A new socket becomes current only if none is and the editor is mounted, after the ticket has arrived. |
| LspClient.Client.OnClose | src/hooks/useAsterLSP.ts:1177-1189 | The close event of a socket takes the protocol step; a detached one is silent. |
| LspClient.Client.SendRequest | src/hooks/useAsterLSP.ts:351-387 | A request gets the next id and goes out on the open current socket, or is refused without using up an id. |
| LspClient.Client.OnTimeout | src/hooks/useAsterLSP.ts:371-379 | A timer settles its request only while it is pending. |
| LspClient.Client.OnMessage | src/hooks/useAsterLSP.ts:470-495 | The handler takes the protocol step of its message; how a reply settles its request is told by `LspHistory.ReplySettles`. |
| LspClient.Client.Disconnect | src/hooks/useAsterLSP.ts:1221-1242 | Leaving rejects every pending request and forgets the socket, whatever the state. |
| LspClient.Client.HandleSocket | src/hooks/useAsterLSP.ts:1145-1205 | Opening, failing, closing and an unanswered heartbeat take the protocol step of their socket. |
| LspClient.Client.Handle | src/hooks/useAsterLSP.ts:1145-1313 | Every handler, in any state and for any value of `autoReconnect`, takes exactly the step of the protocol model. |
| LspClient.Client.HandleAll | src/hooks/useAsterLSP.ts:1145-1313 | Handling any interleaving of events, `autoReconnect` changing between them, is a run of the protocol model and keeps its invariant. |
| PokerHand.Rank5 | src/config/poker.ts:74-115 | The count map, the straight test and the two loops compute the category, the base-16 score and the sorted cards that the specification functions define. |
| PokerOrder.GroupedTallies | src/config/poker.ts:88-91 | The sorted groups hold each rank of the hand exactly once, with its count; which group comes first is told by `PokerRanking.GroupsCompare`. |
| PokerOrder.StraightExact | src/config/poker.ts:80-85 | The straight test succeeds exactly on five consecutive ranks, the wheel included, and returns their high card. |
| PokerOrder.CategoryExact | src/config/poker.ts:94-103 | The category given to five different cards is the one and only category they have by rank counts, suits and consecutive ranks. |
| PokerOrder.HornerOrders | src/config/poker.ts:109-112 | The base-16 encoding of digits below 16 compares like the digit strings, in both directions. |
| PokerOrder.ScoreOrder | src/config/poker.ts:105-112 | A hand scores lower exactly when its category, then its key digits, are lower; what that means for the cards is told by `PokerRanking.ScoreFollowsRules`. |
| PokerRanking.RanksCount | src/config/poker.ts:75-89 | The count of a rank is the number of cards that have it. |
| PokerRanking.GroupsCompare | src/config/poker.ts:88-108 | Two hands with the same counts: written out, the first is lower if and only if at the rank held most often, and among equally often held ones the highest, that one hand holds so often and the other does not, it is the second that holds it. |
| PokerRanking.ScoreFollowsRules | src/config/poker.ts:74-115 | A hand scores less than another if and only if it loses by the rules: a weaker category in the order of the nine, within straights the lower high card, within any other category the lower ranks in the sense above. |
| PokerRanking.ShownCards | src/config/poker.ts:114 | The cards of a value are those of the hand, the higher ranks first and equal ranks in their order. |
| PokerOrder.ScoreForgetsOrder | src/config/poker.ts:74-115 | The score does not depend on the order of the cards. |
| PokerOrder.TieExactly | src/config/poker.ts:74-115 | Two hands of five different cards tie exactly when they have the same ranks and agree on being a flush. |
| PokerBest.EvaluateBest5 | src/config/poker.ts:118-130 | For any list: null exactly below five cards; otherwise the value of a five-card subset that no other subset beats. |
| PokerBest.Better | src/config/poker.ts:126-127 | The innermost body extends the maximum over the tuples tried so far by one tuple. |
| PokerBest.Positions | src/config/poker.ts:121-126 | Every hand that can be taken from the cards is met at increasing positions, so the loops miss none. |
| PokerBest.ScoreOfMultiset | src/config/poker.ts:118-127 | Five cards score the same in any order. |
| PokerBest.BestIsMonotone | src/config/poker.ts:118-130 | Adding cards never lowers the best score, and rearranging them keeps it. |
| PokerBest.EvaluateBoard | src/config/poker.ts:167-172 | Each player gets the best hand of seven, and the winner is the one with the higher score. |
| PokerRanking.WinnerExactly | src/config/poker.ts:167-172 | With different cards on the table a player wins if and only if some hand of that player beats, by the rules, every hand of the other. |
| PokerBest.SwappedPlayersSwapWinner | src/config/poker.ts:167-172 | Swapping the players, and rearranging any cards, swaps the winner and keeps ties. |
| PokerDeal.NewDeck | src/config/poker.ts:151-152 | The two loops push the 52 cards in rank-then-suit order. |
| PokerDeal.DeckInOrder | src/config/poker.ts:151-152 | From the two to the ace, each rank stands there in spades, hearts, diamonds and clubs. |
| PokerDeal.ShuffleInPlace | src/config/poker.ts:153-157 | The in-place swaps are the shuffle by the draws that the random stream makes. |
| PokerDeal.FirstDraw | src/config/poker.ts:154-157 | A draw exchanges the last open place with the drawn one and settles it for good. |
| PokerDeal.DrawIsPart | src/config/poker.ts:155 | Draw j for place i is made exactly for numbers from j/(i+1) up to, not including, (j+1)/(i+1). |
| PokerDeal.DrawsExactly | src/config/poker.ts:154-155 | The draws of a stream are given ones if and only if each number lies in the part its draw names, of as many parts as there are open places. |
| PokerDeal.ShufflePermutes | src/config/poker.ts:154-157 | Any draws rearrange the deck and keep its cards different. |
| PokerDeal.ShuffleInjective | src/config/poker.ts:154-157 | Different draws give different orders. |
| PokerDeal.ShuffleReaches | src/config/poker.ts:154-157 | Every order is reached by some draws. |
| PokerDeal.EachOrderFromOneDraw | src/config/poker.ts:150-157 | Each order of the 52 cards comes from exactly one sequence of draws. |
| PokerDeal.OrderIsBox | src/config/poker.ts:150-157 | Each order comes from exactly one box of random numbers, the k-th in one of 52 - k equal parts of the unit interval: all boxes are of one size. |
| PokerDeal.BoardOfDistinctDeck | src/config/poker.ts:158-163 | Nine different cards, and both seven-card lists free of duplicates. |
| PokerDeal.DealRandomBoard | src/config/poker.ts:146-164 | For every stream of numbers in [0,1) the nine dealt cards differ, and both lists given to the evaluator are free of duplicates. |
| Lockout.LockoutTable.CheckAccountLockout | src/lib/account-lockout.ts:55-98 | The status shown is that of the row of the normalised address; an unknown address looks like an account without failures. |
| Lockout.LockoutTable.RecordFailedAttempt | src/lib/account-lockout.ts:115-182 | Only the row of the address changes, to the row after one more failure, and the report says what a lock or a remaining count is. |
| Lockout.LockoutTable.ResetFailedAttempts | src/lib/account-lockout.ts:197-213 | A success clears counter, time and lock of that row and keeps the number of locks. |
| Lockout.LockoutTable.UnlockAccount | src/lib/account-lockout.ts:220-231 | An administrator also clears the number of locks; success is reported even for an unknown address. |
| Lockout.CheckAfterRecord | src/lib/account-lockout.ts:55-182 | What recording reports - lock, remaining attempts, end and seconds - is what a check at the same moment shows. |
| LockoutHistory.LocksExactly | src/lib/account-lockout.ts:138-169 | On a row without failures a failure locks if and only if it is the fifth in a row, no two of the five more than 30 minutes apart. |
| LockoutHistory.FiveFurtherFailures | src/lib/account-lockout.ts:138-231 | After a success or an unlock fewer than five failures never lock, and five lock if and only if they follow each other within 30 minutes; the lock then starts at the fifth. |
| LockoutHistory.RemainingAttemptsExactly | src/lib/account-lockout.ts:160-182 | Of the attempts a failure reports as left all but the last pass and the last one locks. |
| LockoutHistory.LockLengths | src/lib/account-lockout.ts:14-25 | The locks last 15, 30, 60, 120, 240, 480, 960 and from then on 1440 minutes. |
| LockoutHistory.LockedExactly | src/lib/account-lockout.ts:55-98 | After any legal run from an unlock a check finds the account locked if and only if the moment lies within one of the locks, and names the least number of whole seconds until its end. |
| Lockout.CheckPredictsRecordExactly | src/lib/account-lockout.ts:89-142 | The attempts a check promises are those that recording grants if and only if the last failure is not exactly 30 minutes old with failures on the books: there `>` and `<` disagree. |
| Lockout.SixFailuresTakeTime | src/lib/account-lockout.ts:138-169 | Starting from any count the failures that complete six take fifteen minutes, although the window slides. |
| Lockout.LockoutRateBound | src/lib/account-lockout.ts:55-190 | When failures are recorded only at unlocked moments, any six consecutive ones span at least 15 minutes, from any row. |
| Lockout.RateBoundIsReached | src/lib/account-lockout.ts:55-190 | The fifteen minutes are exact: five failures at once and one at the end of the lock are all recorded at unlocked moments. |
| Lockout.RunEscalates | src/lib/account-lockout.ts:138-213 | Over every run of failures and successes at unlocked moments the k-th lock has the k-th length and no two locks overlap. |
| Lockout.LocksSpread | src/lib/account-lockout.ts:145-169 | The (n+1)-th lock comes no sooner after the first than the first n lengths together. |
| Lockout.TotalLengthClosed | src/lib/account-lockout.ts:14-25 | The first n lengths add up to 1905 + 1440 (n - 7) minutes from n = 7 on. |
| Lockout.EscalationBound | src/lib/account-lockout.ts:138-213 | After an administrator's unlock, across resets: the k-th lock lasts min(15 * 2^(k-1), 1440) minutes and the (n+1)-th comes no sooner than the sum of the first n lengths, 1905 + 1440 (n - 7) minutes for n >= 7. |
| Lockout.EscalationBoundIsReached | src/lib/account-lockout.ts:138-213 | The bound on escalation is exact: for every n some legal run after an unlock sets lock n just when the first n lengths have passed since the first lock. |
| LocaleMerge.DeepMergeMessages | src/i18n/request.ts:20-44 | In whatever order the keys come, the loop gives at each key what the merge specification says: kept, taken, or merged below. |
| LocaleFindings.MergeByKey | src/i18n/request.ts:20-44 | At each key an override that is absent, null or blank leaves the base, two trees are merged, and anything else replaces the base. |
| LocaleMerge.DiffKey | scripts/check-locales.ts:75-113 | One backbone key adds exactly the findings at or below its path, each once. |
| LocaleMerge.DiffBackbone | scripts/check-locales.ts:75-113 | The first loop adds exactly the findings under backbone keys, each once. |
| LocaleMerge.DiffExtras | scripts/check-locales.ts:115-126 | The second loop adds exactly one error per key that only the target has. |
| LocaleMerge.Diff | scripts/check-locales.ts:67-127 | The findings pushed into the shared array are exactly the complaints about the two trees, each at its own path and each once; what was there stays. |
| LocaleFindings.FindingExactly | scripts/check-locales.ts:75-126 | The linter complains at a path if and only if both sides have a tree right above it and there: only the target has a value (extra), only the backbone has (missing), one has a tree and the other not (mismatch), or the target a blank string where the backbone has no tree (empty). |
| LocaleLayers.LinterPredictsMerge | scripts/check-locales.ts:67-127 | With no error reported on trees of strings, the merged tree has exactly the backbone's paths, and a leaf comes from the target if and only if no warning stands at its path or above. |
| LocaleLayers.MergeIdempotent | src/i18n/request.ts:20-44 | Merging the same override twice equals merging it once, for all values. |
| LocaleLayers.MergeIsOverrideExactly | src/i18n/request.ts:20-44 | A merge gives just the override if and only if every key of the base is overridden, down to the leaves, and the override leaves none blank; all values included. |
| LocaleLayers.MergeAssociativeExactly | src/i18n/request.ts:20-44 | Three layers may be grouped either way if and only if the middle one nowhere replaces, between two trees, something that would otherwise show through; all values included. |
| LocaleLayers.MergeAssociative | src/i18n/request.ts:52-74 | In particular layers of one shape may be merged in any grouping, nulls and arrays included. |
| LocaleLayers.GroupingMattersAcrossShapes | src/i18n/request.ts:27-41 | A witness of the other case: a string over a tree, then a tree over both. |
| LocaleLayers.ShownMerge | src/i18n/request.ts:20-44 | At every path the merge shows the override's text where it has one that is not blank, else the base's. |
| LocaleLayers.LastLayerWins | src/i18n/request.ts:52-74 | At every path the layered messages show the last text that is not blank, over any number of layers of one shape. |
| LocaleLayers.RequestMessages | src/i18n/request.ts:52-74 | The request configuration lays the layers in the stated order, for the default language and for others. |
| LocaleFindings.RequestShows | src/i18n/request.ts:52-74 | For another language the text at a path is that of its local supplement, else of the default language's supplement, else of its messages, else of the fallback. |
| LocaleFindings.DefaultShows | src/i18n/request.ts:52-74 | For the default language it is that of its supplement, else of its messages. |
| UsageLedger.UsageTable.RecordAiUsage | src/lib/ai-quota.ts:265-317 | The upsert takes the table to the next one; what it adds or fills is told by `RecordAddsRow` and `RecordFillsRow`, and at which price by `UsagePrices.CostIsLeast`. |
| UsageLedger.RecordAddsRow | src/lib/ai-quota.ts:265-317 | Without a row for its request a record adds one at the end, with its user, key, moment, month, status, model, tokens and cost. |
| UsageLedger.RecordFillsRow | src/lib/ai-quota.ts:285-305 | With a row for its request a record changes that row alone, only if it carries tokens, and then only model, tokens and cost. |
| UsageLedger.UsageTable.MarkAiUsageFailed | src/lib/ai-quota.ts:352-361 | Exactly the rows of the request become `api_error`. |
| UsageLedger.RunContinues | src/lib/ai-quota.ts:285-317 | Over every run no row is lost or moved, and user, period, key and creation time never change; a status changes only to `api_error`. |
| UsageLedger.RunIsConsistent | src/lib/ai-quota.ts:265-361 | In every run ids stay unique, each cost is the estimate for its row's model and tokens, and a row marked failed is never turned back. |
| UsageLedger.RowCount | src/lib/ai-quota.ts:285-317 | Conservation: every recorded request id has one row, every record without an id its own, and nothing else makes rows. |
| UsageLedger.OriginExactly | src/lib/ai-quota.ts:285-305 | A request's row belongs to the user, key, moment and month of its first record. |
| UsageLedger.TokensConverge | src/lib/ai-quota.ts:285-305 | From any table: once a token-bearing record has arrived, the request's row holds its tokens, whatever else comes before, between or after. |
| UsageLedger.UpsertConverges | src/lib/ai-quota.ts:285-305 | A recorded request has exactly one row, and if its token-bearing records agree and one arrived, the row holds their tokens and the matching cost. |
| UsageLedger.OrderDoesNotMatter | src/lib/ai-quota.ts:285-305 | Rearranging and repeating the records leaves tokens and cost of the request as they are. |
| UsageLedger.TokensExactly | src/lib/ai-quota.ts:285-305 | Agreeing or not, the one row of a request ends with model, tokens and cost of its last token-bearing record, or of its first record if none bears tokens. |
| UsageLedger.SettlingRecord | src/lib/ai-quota.ts:285-305 | Every recorded request has a record that settles its tokens in this way. |
| UsageLedger.FirstRecord | src/lib/ai-quota.ts:285-305 | Every recorded request has a first record. |
| UsageLedger.StatusExactly | src/lib/ai-quota.ts:285-361 | A request ends with the status of its first record, unless it is marked failed after that record; an earlier mark is lost. |
| UsageLedger.FailedExactly | src/lib/ai-quota.ts:285-361 | A request reads as failed if and only if its first record said so or a mark came after that record. |
| UsagePrices.CostIsLeast | src/lib/ai-quota.ts:452-464 | With the listed cents per million prompt and completion tokens (gpt-4o-mini 15 and 60, gpt-4o 250 and 1000, gpt-4 3000 and 6000, claude-3-5-sonnet 300 and 1500, claude-3-haiku 25 and 125, any other name as gpt-4o-mini) the charge is the least number of cents that covers the price. |
| UsagePrices.EveryModelHasAPrice | src/lib/ai-quota.ts:454-462 | Every model name has exactly one pair of listed prices. |
| UsagePrices.TotalWithinRounding | src/lib/ai-quota.ts:452-464 | The total cents cover the sum of the listed prices and exceed it by less than one cent per row with tokens. |
| UsagePrices.RunWithinRounding | src/lib/ai-quota.ts:265-464 | So after every run from an empty table. |
| QuotaGate.MonthlyLimit | src/lib/ai-quota.ts:163-172 | A limit, where there is one, is between 1 and 500 calls. |
| QuotaGate.Check | src/lib/ai-quota.ts:63-220 | A call is allowed if and only if the account is in good standing, not held and below every limit; then at least one call remains and remaining plus used is the limit; a stated wait ends within the second in which the hold ends. |
| QuotaRules.MonthLimitExactly | src/lib/ai-quota.ts:163-172 | The limits in numbers: 20, 10 and 5 calls a month on the free plan by risk tier, 100, 50 and 25 on trial, 500, 250 and 125 on pro and team, none on enterprise or on the user's own key. |
| QuotaRules.RatesExactly | src/lib/ai-quota.ts:24-39 | The rates in numbers, per minute and per hour: 5 and 20, 15 and 80, 30 and 200, 30 and 200, 200 and 1000. |
| QuotaRules.CountsExactly | src/lib/ai-quota.ts:425-446 | The two counts are the numbers of the user's platform rows of the month with status success or api_error, and of the user's rows since the moment. |
| QuotaRules.RefusedByStanding | src/lib/ai-quota.ts:80-159 | Which refusal an account gets whatever it used: disabled by its risk tier, email missing, banned, tripped, in this order, with the least number of whole seconds to wait. |
| QuotaRules.RefusedByUse | src/lib/ai-quota.ts:163-220 | Which refusal the amount of use brings, in the numbers above, and what an admitted call reports as remaining and limit. |
| QuotaGate.CheckAiQuota | src/lib/ai-quota.ts:63-220 | The cascade of tests answers what the specification says of the account. |
| QuotaGate.RecordMovesCount | src/lib/ai-quota.ts:425-438 | A record adds to a month's count only by its own new row; a back-fill adds nothing. |
| QuotaGate.RecordMovesCalls | src/lib/ai-quota.ts:440-446 | A record adds to the calls since a moment only by its own new row. |
| QuotaGate.MarkMovesNothingExactly | src/lib/ai-quota.ts:352-438 | Marking a request failed keeps the month's count if and only if its rows were billable already, and never changes the calls in a window. |
| QuotaRuns.StepKeeps | src/lib/ai-quota.ts:163-184 | Every step keeps: recorded plus in-flight calls of the current month within limit - 1 + k, and no row in a later month. |
| QuotaRuns.QuotaUnderConcurrency | src/lib/ai-quota.ts:163-184 | In every interleaving of checks and records with at most k admitted, unrecorded calls, no month ever holds more than limit - 1 + k billable platform calls, month ends included; with k = 1 the limit is never passed. |
| QuotaRuns.QuotaFromStart | src/lib/ai-quota.ts:163-184 | The same from an empty table, for every month. |
| QuotaRuns.BoundIsReached | src/lib/ai-quota.ts:163-184 | The bound is exact: one call short of the limit, k concurrent calls bring the month to limit - 1 + k, for every k. |
| QuotaRuns.BoundIsReachedFromStart | src/lib/ai-quota.ts:163-208 | The same from an empty table through calls an hour apart, rate limits included, if the month lasts that long. |
| QuotaRuns.LimitHoldsExactly | src/lib/ai-quota.ts:163-208 | Every run from an empty table keeps the monthly limit in every month if and only if at most one call is unrecorded at a time, given some month from now on that lasts long enough. |
| RateWindows.AdmitKeepsWindows | src/lib/ai-quota.ts:186-208 | One admitted call keeps every window of the span within limit - 1 + k if the gate counted fewer than the limit in the last span and fewer than k calls are unrecorded. |
| TimeWindows.WindowExactly | src/lib/ai-quota.ts:440-446 | The count over a closed window is the number of times that fall into it. |
| RateWindows.RatesHoldInEveryWindow | src/lib/ai-quota.ts:186-208 | With at most k calls unrecorded at a time, recorded in any order: every closed window of 60 seconds and of 3600 seconds, wherever it starts, holds at most its limit - 1 + k calls that were recorded or still may be. |
| RateWindows.RatesFromStart | src/lib/ai-quota.ts:186-208 | The same from any table for all admitted calls, those given up without a record counted on top. |
| RateWindows.AdmittedCallsInEveryWindow | src/lib/ai-quota.ts:186-208 | If no call is given up, every window holds at most limit - 1 + k admitted calls, and at most the limit if each is recorded before the next check. |
| RateLimits.RateBoundIsReached | src/lib/ai-quota.ts:186-208 | The bound is exact for both rates and every plan: some run from an empty table brings one window to limit - 1 + k admitted calls. |
| RateLimits.RatesHoldExactly | src/lib/ai-quota.ts:186-208 | On every plan, every run from an empty table keeps the per-minute limit, and likewise the per-hour limit, in all windows if and only if at most one call is unrecorded at a time. |
| CircuitBreaker.SameDay | src/lib/ai-circuit-breaker.ts:52-56 | Within a UTC day the end of day is the same moment. |
| CircuitBreaker.ReasonDecodes | src/lib/ai-circuit-breaker.ts:137-184 | Reading a ban reason recovers the state and the manual mark it was written with, although one state's name could hide in another reason. |
| CircuitBreaker.StateFromBanReasons | src/lib/ai-circuit-breaker.ts:171-188 | The state is the worst among the breaker's reasons and the mark is set exactly if one of them carries it; other reasons and nulls are ignored. |
| CircuitBreaker.SummaryUnique | src/lib/ai-circuit-breaker.ts:171-188 | The result depends only on which reasons occur: order and repetition are irrelevant. |
| CircuitBreaker.BansReadBack | src/lib/ai-circuit-breaker.ts:137-188 | Reading back the reasons of any list of bans gives their worst state and whether any was manual. |
| CircuitBreaker.Breaker.ApplyCircuit | src/lib/ai-circuit-breaker.ts:93-117 | Exactly the users of the stopped plans without a ban to the end of the day get one, with the reason, and they are counted. |
| CircuitReadings.AppliedExactly | src/lib/ai-circuit-breaker.ts:93-139 | A user on a stopped plan without a ban to the last millisecond of the day gets that ban and the reason text of state and mark; every other row and column stays. |
| CircuitReadings.TouchedAreCounted | src/lib/ai-circuit-breaker.ts:115-116 | The count is the number of those users. |
| CircuitBreaker.Breaker.ReleaseCircuit | src/lib/ai-circuit-breaker.ts:123-134 | The stored trip is cleared, exactly the users with a breaker reason lose ban and reason, and they are counted. |
| CircuitReadings.ReleasedExactly | src/lib/ai-circuit-breaker.ts:125-131 | Ban and reason of exactly the users whose reason starts with the breaker's prefix are cleared. |
| CircuitBreaker.Breaker.TripCircuitManually | src/lib/ai-circuit-breaker.ts:149-152 | The stored trip runs to the end of the day and free and trial users are banned to it. |
| CircuitBreaker.Breaker.GetCircuitStatus | src/lib/ai-circuit-breaker.ts:215-240 | Computed from grouped rows, the status is the one the bans themselves define: worst of cost and bans, manual if any is, and as many banned users as bans in force. |
| CircuitReadings.TodayIsSum | src/lib/ai-circuit-breaker.ts:61-76 | Today's cost is the sum over the billable rows on the platform's key created on this UTC day or later. |
| CircuitReadings.StatusExactly | src/lib/ai-circuit-breaker.ts:81-85 | The status, each value if and only if: the cost against the two thresholds, a trip in force, a user held now by a reason that names the state, a user held by hand; and the number of users held. |
| Grouping.TotalIsCount | src/lib/ai-circuit-breaker.ts:238 | The group counts of a GROUP BY add up to the number of rows. |
| Grouping.GroupingExists | src/lib/ai-circuit-breaker.ts:219-225 | Every collection of rows has a GROUP BY answer, so the requirement on grouped rows can be met. |
| CircuitBreaker.ApplyOnlyExtends | src/lib/ai-circuit-breaker.ts:107-113 | Applying never shortens a ban, never touches another plan or another column, and holds every user of a stopped plan to the end of the day. |
| CircuitBreaker.ApplyIdempotent | src/lib/ai-circuit-breaker.ts:93-117 | Applying the same or a milder state again on the same day changes nobody and reports nobody. |
| CircuitBreaker.ReleaseUndoesApplyExactly | src/lib/ai-circuit-breaker.ts:93-134 | Releasing restores the user table if and only if every touched user had neither ban nor reason and no other user carried a breaker reason. |
| CircuitBreaker.ReleaseLiftsAnotherBan | src/lib/ai-circuit-breaker.ts:107-134 | A concrete loss: an hour's ban for abuse, overwritten by a trip, is lifted with it. |
| CircuitRuns.Step | src/app/api/cron/ai-circuit-check/route.ts:24-28 | Cron run, trip and release are the steps of the run model. |
| CircuitReadings.CronExactly | src/app/api/cron/ai-circuit-check/route.ts:24-28 | A cron run applies the worst state during a trip, and otherwise the one that today's cost calls for. |
| CircuitRuns.TripStays | src/lib/ai-circuit-breaker.ts:149-164 | Within the day of a trip only a release clears the stored value. |
| CircuitRuns.TripHolds | src/lib/ai-quota.ts:146-159 | From a trip until its release or the last millisecond of that UTC day, no sequence of registrations, plan changes, bans, unbans, records, cron runs and clock ticks lets a free or trial user through, and the status reads stopped and manual. |
| CircuitRuns.TripEndsExactly | src/lib/ai-circuit-breaker.ts:155-160 | A latecomer in good standing is let through if and only if it is 23:59:59.999 or later. |
| CircuitRuns.BanExactly | src/lib/ai-circuit-breaker.ts:93-117 | Within a day a user's ban is the one from before, extended to the end of the day if and only if some trip or cron run stopped the plan the user had at that moment. |
| CircuitRuns.AllowedExactly | src/lib/ai-quota.ts:63-220 | Within a day, from any state, while nobody releases the breaker or writes the user's ban: the user is let through if and only if eligible, not on a plan a trip in force stops, hit by no trip or cron run since, and held by no ban from before. |
| CircuitRuns.AllowedDuringTripExactly | src/lib/ai-quota.ts:136-159 | The same from a trip on: the eligible users on a paid plan whom neither the trip nor a cron run ever hit. |
| CircuitRuns.AllowedAfterLastWrite | src/lib/ai-quota.ts:136-159 | Runs with releases, other bans and unbans: the same condition, from the last of these on, and every run has such a last one or none. |
| CircuitRuns.UpgradedUserIsRefused | src/lib/ai-quota.ts:136-159 | An instance: of two users on the pro plan, the one who upgraded after the trip is refused and the other let through. |
| CircuitRuns.CaughtUserStaysOutOnAnyPlan | src/lib/ai-quota.ts:136-144 | In particular a user caught by the trip stays out for the rest of the day even after moving to a paid plan. |
| CircuitRuns.CronCoversLatecomers | src/app/api/cron/ai-circuit-check/route.ts:24-28 | One cron run during a trip bans every free and trial user to the end of the day, latecomers included. |
| ApiKeyIdentity.JoinInjective | src/lib/api-key-identity.ts:113 | For team ids without NUL the composite key determines team and user. |
| ApiKeyIdentity.JoinCollidesExactly | src/lib/api-key-identity.ts:113 | A pair shares its composite key with another pair if and only if one of its ids holds the separator. |
| ApiKeyIdentity.CutDead | src/lib/api-key-identity.ts:92-99 | Revoked and expired keys get exactly their own flaw without the database, all others go on. |
| ApiKeyIdentity.QueryTeams | src/lib/api-key-identity.ts:102-112 | The map answers for every asked team like the table, and the owners of all found teams are collected. |
| ApiKeyIdentity.QueryMembers | src/lib/api-key-identity.ts:106-113 | The map under composite keys answers for every asked pair like the membership table. |
| ApiKeyIdentity.QueryUsers | src/lib/api-key-identity.ts:115-120 | The map answers for every asked user like the table. |
| ApiKeyIdentity.ReadTables | src/lib/api-key-identity.ts:102-120 | For every live key the three maps answer each lookup its identity needs as the tables would, team owners included. |
| ApiKeyIdentity.BatchIsAlone | src/lib/api-key-identity.ts:132-154 | From maps that answer like the tables, the identity is the one read straight from the tables. |
| ApiKeyIdentity.PersonalKey | src/lib/api-key-identity.ts:140-143 | A personal key has, field by field, its holder's tenant, quota, business roles, plan and subscription, as owner. |
| ApiKeyIdentity.TeamKey | src/lib/api-key-identity.ts:145-153 | A team key has, field by field, the team as tenant, the holder's role and business roles there, and quota, plan and subscription of the team's owner. |
| ApiKeyIdentity.FlawsExactly | src/lib/api-key-identity.ts:92-150 | Which flaw a key has, in this order: revoked, expired, no holder, no team, no membership, no owner; and none of them if and only if it has an identity. |
| ApiKeyIdentity.ResolveApiKeyIdentities | src/lib/api-key-identity.ts:91-130 | Every key of the batch and no other id has an entry, and it is the identity the key gets alone, whatever else is in the batch. |
| ApiKeyIdentity.ResolveApiKeyIdentity | src/lib/api-key-identity.ts:81-89 | Resolving by hash is a batch of one; an unknown hash is not found. |
| OwnerPool.GroupSizeIsPoolUsage | src/lib/api-quota-pool.ts:30-64 | The batch condition and the grouping key together select for each listed owner exactly the rows the single condition selects, and none for others. |
| OwnerPool.UsageExactly | src/lib/api-quota-pool.ts:23-45 | A pool's usage is the number of successful calls of the month whose quota owner, or user if they name none, is the owner. |
| OwnerPool.SetCounts | src/lib/api-quota-pool.ts:51-66 | Writing the group counts over zeros leaves every key with its number of rows, missing groups with zero. |
| OwnerPool.CountOwnerPoolUsageByOwner | src/lib/api-quota-pool.ts:50-67 | Every listed owner, and no other, gets the count it would get alone. |
| OwnerPool.CallAddsOne | src/lib/api-quota-pool.ts:23-45 | A counted call adds one to the sum of any pools that include its own and nothing to the others. |
| OwnerPool.PoolsPartitionTheMonth | src/lib/api-quota-pool.ts:23-45 | Over all owners the pools add up to the successful calls of the month: none is lost or charged twice. |
| OwnerPool.BatchIgnoresRepeats | src/lib/api-quota-pool.ts:50-67 | Repeating or reordering the owners of a batch changes nothing. |
| OwnerPool.CallLog.RecordApiCallRecord | src/lib/api-quota-pool.ts:86-99 | Recording a call grows exactly the pool of its quota owner in its month by one, and only if it succeeded. |

## Left out

Arithmetic and text:

- Floating point: debt ratio, thresholds, caps and random numbers are reals, prices are whole cents per million tokens; rounding errors of double arithmetic are not modelled.
- A finite number in canonical JSON is its sign, digits and exponent in shortest decimal form (section 6.1.6.1.20 of ECMA-262); how a double is turned into that form is not modelled, and zero has one form for both signs. Sparse arrays and objects that are not plain are not part of this model.
- A `Content-Length` or a token count beyond the exact range of a double.
- SHA-256 and the UTF-8 bytes themselves: the result stops at the text, which `CanonicalJson.CanonicalTextWellFormed` shows to survive the encoding.
- Localised texts: trace lines, tier details and reasons are their values, not their sentences; `toFixed(2)` is display only.
- The rule texts written in the policy language (`POKER_RULES` and others): their meaning depends on an engine that is not part of this model.

Protocols:

- The decoding of process output to text before framing (`Buffer.toString`, `TextDecoder`): chunks are decoded text.
- `parseSSEFrame` (src/lib/sse-frame.ts) is a parameter of `SseStream`; the surrounding fetch, abort and `catch` branches of `startStream` are left out.
- Fetching the connection ticket, the `connecting` and `error` flags, the contents of requests and notifications, and the inside of the reconnect scheduler: the first three do not affect the safety results, the last is an environment step.
- LspClient.Client.Connect: the checks before fetching the ticket are the same as those after it and change nothing, so the step starts when the ticket has arrived.
- `activeConnections`, process spawning and cleanup in `server.ts`.
- LspClient.Client.SendRequest: the id and the pending entry, not the text sent or the promise object; a timer is an event that may come at any time.

Poker:

- PokerBest.EvaluateBest5: null for fewer than five cards is modelled as `None`; callers in the source pass seven.
- PokerDeal.OrderIsBox: each order's box of random numbers, all boxes of one size; probabilities themselves are not modelled.
- `rankLabel`, glyphs and `pokerVerdictOf`.

Usage, quota, breaker:

- UsageLedger.UsageTable.RecordAiUsage: team, call kind, audit texts, safety flags and the stamp on the BYOK binding are not columns of the model; a request id is absent or a non-empty string, and an unknown model name is one that is no property name of JavaScript objects.
- `byokTokensUsedThisMonth` and `resetByokQuotaUsage`: one filtered sum and one assignment.
- QuotaRuns.QuotaUnderConcurrency: plan and risk tier stay fixed during the run and only requests recorded as billable are marked failed, as the source's only caller does; other attributes of the user may change at every check.
- RateWindows.RatesHoldInEveryWindow: the plan stays fixed during the run, and each recorded call is a row of its own; a call given up without a record, which never reached the provider, is counted separately.
- QuotaRuns.LimitHoldsExactly: the calendar must have, from now on, a month that lasts limit - 1 hours (and as many milliseconds, at most 21 days) from some moment in it, as the UTC calendar has.
- CircuitRuns.AllowedDuringTripExactly: a release, or a ban or unban of this very user, ends the runs it speaks of; `AllowedAfterLastWrite` goes on from there, within the day.
- The message texts of refusals, and the settings cache with its delay of up to 60 seconds: a trip is visible at once.
- Environment overrides of the thresholds are the `Thresholds` parameter.
- Branches that fail open when the database or the cache is down.

Lockout:

- Lockout.LockoutTable.RecordFailedAttempt: reading and writing the row is one step; races inside one call are left out.
- Lockout.LockoutTable.UnlockAccount: the `catch` branches are left out, so it always reports success. Address normalisation is a parameter.

Messages:

- Paths are sequences of keys, not dotted strings, so keys that contain dots do not collide; report texts and the locale column are left out.
- `LocaleLayers.LinterPredictsMerge` and `LocaleLayers.LastLayerWins` are about trees of strings, the form of message files; the other results cover nulls, arrays and other values.
- Key names that JavaScript objects inherit (`constructor`, `toString`), `undefined` as a stored value, and the loading of messages.

Lookups:

- ApiKeyIdentity.ResolveApiKeyIdentities: unique keys in the tables, one row per key id, and no NUL character in a team id, as the database guarantees; cache freshness and the snapshot body are left out.
- OwnerPool.CallLog.RecordApiCallRecord: tenant, key, path, latency and row id are not columns of the model.

Not modelled at all: routes, UI, Monaco providers, encryption, PII redaction, bundle scanners, ESLint rules, marketing data and one-off scripts; they hold no algorithm of this kind or depend on libraries outside the repository.
