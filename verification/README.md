# A verified model of the voice agent's core

A Dafny model of the parts of the voice agent that carry state, branching or arithmetic, with proofs of what
they are for. `dafny verify dfyconfig.toml` checks the whole project.

| part | files | what is proved |
|---|---|---|
| Slot search | `Zone`, `Busy`, `Selection`, `Availability`, `AvailabilityHorizon`, `AvailabilityPolicy` | the nested search returns the first `limit` valid starts, across time-zone gaps and overlaps, and exactly when it can miss one |
| Policy check on YAML events | `YamlPolicy`, `YamlNumbers`, `YamlPolicyTree`, `YamlPolicyShape` | which numbers are refused; the stack automaton agrees with a recursive definition on the document tree, and exactly for which shapes of mappings |
| SigV4 canonical requests | `SigV4Encoding`, `SigV4Query`, `SigV4Headers`, `SigV4Request`, `SigV4Layout`, `SigV4Timestamp` | which requests are accepted, the canonical text line by line, and that it is equal for two requests exactly when they mean the same |
| Realtime voice session | `QueuedAudio`, `EventMapper`, `RealtimeSession`, `SessionReplies`, `SessionAudio` | accounting and order of the output queue, the event log that every run must have, and what becomes of the provider's audio |
| Turn detector | `TurnDetector`, `TurnBlocks` | the utterances are exactly the input stretches of a declarative definition |
| Speech text splitter | `TtsText`, `TtsSegments`, `TtsCuts` | the segments are those of a reference that searches the text for each end; nothing is lost or reordered, and segments are bounded |
| Call ending | `CallEnding` | the BYE protocol under every interleaving of any number of threads |
| Request authentication | `ReplayGuard`, `ReplayHistory`, `RequestAuth`, `RequestHistory` | exactly which requests of a history are accepted, said of signatures, nonces and times alone; a request is accepted at most once, and exactly what that needs of the clock |
| CSV rows, WAV chunks | `Csv`, `Wav` | printing and parsing, serialising and walking undo each other |

`Common`, `Text`, `Numerals`, `WordList`, `Sorting`, `Whitespace` hold shared definitions.

## How it is modelled

- Code that updates fields is a class or a loop, proved equal to a specification function; the lemmas are about
  that function. Where code and specification share a function, a lemma says what it computes in other terms. Text that the source handles as bytes is a string of characters below 256.
- A time zone is a list of (UTC instant, offset) transitions, spaced further apart than the offsets change. Looking
  up a local time returns its readings in order of their spans; that the first is the earliest, that there are at
  most two, and that earliest readings advance strictly are proved, not assumed. Instants are integers of
  nanoseconds, bounded to the range of the source's date type, and overflow is an error as in the source.
- The session loop is a sequence of steps chosen freely: a provider event, a speak command, caller audio, an
  output tick. The BYE protocol is a sequence of atomic thread steps chosen freely, with a freely chosen outcome of
  each `call.end()`.
- SHA-256 and HMAC are arbitrary functions. Library sorts are an insertion sort, whose result is shown to be the
  only sorted permutation wherever that matters.

## Findings

Where the code does not do what its design suggests, the code is modelled as it is, a lemma gives the input, and
another gives the exact condition.

- The slot search stops at the local date of the horizon. When a clock goes back across midnight, a valid start on
  the following date is missed (`MidnightFallBack`). The search is complete for every request of a zone and horizon
  exactly when no bookable grid time before the horizon shows a later date (`CompleteIffHorizonCovered`), which
  holds in every zone whose clock never goes back over a date (`NoMidnightRewind`).
- A collection used as a mapping key puts the YAML automaton out of step: it takes values for keys. It then misses
  an offending number (`SequenceKeyHidesOffence`) or reports one where there is none (`MappingKeyRaisesOffence`).
  Every document with a root mapping of a given shape is judged rightly exactly when no mapping key, and no mapping
  under a scalar key, is met out of step (`RootShapeDecides`); every backup mapping of a shape exactly when no scalar
  key is (`BackupShapeDecides`).
- A clock that goes back can let a nonce through twice (`ClockGoesBack`). The guard still holds an accepted nonce when
  it is next presented exactly if no reading in between has reached its expiry (`HeldExactly`), and accepts it again
  exactly if one has and there is room (`AcceptedAgainExactly`). Expiry is 300 seconds later, saturated: at the last
  64-bit clock value the guard releases every nonce (`HeldNonceAccepted`).
- A thread that meets another one's attempt at the BYE is told that it was already sent, and may be told so wrongly
  (`AlreadySentMayBeWrong`). The answer is right exactly when no thread holds the flag (`AlreadySentIsRight`); each
  failed attempt is reported to one thread (`FailureIsReported`).

Two lemmas show why a precondition is there; neither input reaches the code today.

- An empty candidate on the seam of two touching busy intervals is free of each but not of their union
  (`EmptyCandidateOnSeam`). Durations are positive wherever the union is consulted.
- A CSV row without fields prints like a row of one empty field (`CsvRoundTrip`). Rows are written from fixed columns.

## Model

| member | source | states |
|---|---|---|
| Zone.EarliestReading | src/pa/availability.rs:476-486 | a local time has an instant exactly when the wall clock shows it at some instant, and it is the earliest such instant |
| Zone.AtMostTwoReadings | src/pa/availability.rs:478-484 | a local time is single, ambiguous between two or missing, never more |
| Zone.ClockFirstReaches | src/pa/availability.rs:476-486 | every instant before the chosen one shows a strictly smaller local time |
| Zone.EarliestReadingsAdvance | src/pa/availability.rs:476-486 | the earliest-reading map is strictly increasing where defined, across gaps and overlaps |
| Busy.MergeBusyIntervals | src/pa/availability.rs:411-433 | merged intervals are ordered with strict gaps and cover exactly the instants covered by either calendar |
| Busy.FreeIffUncovered | src/pa/availability.rs:536-538 | for a candidate of positive length the pairwise test holds exactly when none of its instants is busy |
| Busy.FreeOfUnion | src/pa/availability.rs:524-538 | for a candidate of positive length, free of the merged list is free of both calendars |
| Busy.EmptyCandidateOnSeam | src/pa/availability.rs:536-538 | an empty candidate can be free of both calendars and not of their union |
| Selection.FirstIsUnique | src/pa/availability.rs:288-376 | "the first `limit` members in ascending order" describes one list, so the search has one right answer |
| Availability.CeilWindowGrid | src/pa/availability.rs:449-464 | the result is on the 15-minute grid, on the given date and less than a quarter after the given time; none only in the last quarter of the day |
| Availability.CeilIsFirst | src/pa/availability.rs:449-464 | no grid time of the date between the given time and the result exists |
| Availability.CeilingIsLeast | src/pa/availability.rs:466-474 | grid times from the rounded time on are the grid times from the exact time on |
| Availability.WeekdayMeans | src/pa/availability.rs:435-437 | the windows consulted for a date are those of its weekday, counted from the Thursday of 1970-01-01 |
| Availability.EndsByTheClock | src/pa/availability.rs:501-522 | a meeting ends within its window if and only if its end shows the same date, at or before the window end, and no instant that shows the window end comes before it |
| Availability.OfferedMeans | src/pa/availability.rs:334-362 | a start is offered if and only if the wall clock first shows it at a quarter of an hour inside some window of its local date, its meeting ends within that window, lead and horizon allow it, and no buffered instant is busy |
| Availability.NotBelowOnTheClock | src/pa/availability.rs:317-342 | comparing local times against the rounded lead removes no start the exact lead check keeps |
| Availability.ExamineDecides | src/pa/availability.rs:334-362 | at a grid time the loop body pushes a start exactly when window, lead, horizon, window end and both buffered calendars allow it; it leaves the window or fails exactly on the stated conditions |
| Availability.StartsFollowTheClock | src/pa/availability.rs:321-375 | valid starts are ordered in UTC as their local times are ordered |
| Availability.VisitGridTime | src/pa/availability.rs:333-368 | one turn of the inner loop skips no valid start and moves on along the grid |
| Availability.WalkWindow | src/pa/availability.rs:326-369 | a window walk collects exactly the valid starts up to the next window, stops at the limit, or fails |
| Availability.AvailableSlots | src/pa/availability.rs:288-376 | the answer is the first `limit` offered starts in strictly ascending UTC order, where offered is said by the wall clock, the windows of the local date and the busy times alone; which error is returned, and exactly when |
| AvailabilityHorizon.CompleteIffHorizonCovered | src/pa/availability.rs:316-324 | no valid start of any request is missed if and only if no bookable grid time before the horizon shows a date after the horizon's |
| AvailabilityHorizon.CoveredAnswer | src/pa/availability.rs:288-376 | under that condition the answer is the first `limit` valid starts outright |
| AvailabilityHorizon.NoMidnightRewind | src/pa/availability.rs:316-324 | zones that never go back over a date meet the condition |
| AvailabilityHorizon.MidnightFallBack | src/pa/availability.rs:316-324 | a concrete zone and request for which a valid start is missed |
| AvailabilityHorizon.NeverFailsWithRoom | src/pa/availability.rs:488-499 | a few days of room to the ends of the date range rule out the overflow error |
| AvailabilityPolicy.NewPolicy | src/pa/availability.rs:180-240 | which error an invalid part gives; otherwise the windows of each weekday are those given, ordered and disjoint, and accepted exactly when no two overlap |
| AvailabilityPolicy.OrderedNoOverlap | src/pa/availability.rs:212-229 | on windows ordered by start, comparing neighbours decides whether any two overlap |
| YamlPolicy.ValidateEvents | src/config.rs:86-226 | the event loop computes the verdict of the automaton that the lemmas are about |
| YamlNumbers.OffendsExactly | src/config.rs:183-212 | a scalar is refused as a policy number if and only if it starts with a sign, is underscores alone, or is a number of 2^64 or more printed in decimal with underscores anywhere |
| YamlNumbers.NumbersRefused | src/config.rs:200-212 | the decimal text of any number, with underscores inserted anywhere, is refused if and only if the number is 2^64 or more; with a sign in front always |
| YamlNumbers.WordsPass | src/config.rs:200-212 | the empty text and unsigned text with any other character pass |
| YamlNumbers.NumberChecked | src/config.rs:86-226 | a document with one backup policy number is refused, naming its field, if and only if its plain text is refused, for each of the fields |
| YamlPolicyTree.ReadNode | src/config.rs:117-217 | reading any subtree, above any stack and before any events, has the effect a recursion on the tree gives, or rejects an alias or tag |
| YamlPolicyTree.OthersAreInert | src/config.rs:183-217 | below collections that are neither the root nor a backup mapping nothing is reported, at any depth |
| YamlPolicyTree.StreamJudgement | src/config.rs:86-226 | the verdict on every one-document stream, whatever its keys |
| YamlPolicyShape.PolicyCheckMeaning | src/config.rs:86-226 | with root and backup mappings in step, scalar keys or not: the error of the last offending plain policy number directly in a root-level backup mapping, success exactly when there is none, at any nesting |
| YamlPolicyShape.RootShapeDecides | src/config.rs:117-217 | every document whose root mapping has these kinds of keys and values, and backup mappings in step, is judged rightly if and only if no mapping key and no mapping under a scalar key is met out of step, or an alias among them has all of them refused |
| YamlPolicyShape.BackupShapeDecides | src/config.rs:183-216 | every backup mapping of these kinds is judged rightly if and only if no scalar key is met out of step, or an alias among them has all of them refused |
| YamlPolicyShape.MappingKeyRaisesOffence | src/config.rs:117-216 | a document without an offence that is refused |
| YamlPolicyShape.SequenceKeyHidesOffence | src/config.rs:183-216 | a document with a sequence as a key whose offence passes |
| YamlPolicyTree.OneDocumentOnly | src/config.rs:98-116 | a second document is refused once the first is read, and a stream without documents at its end |
| SigV4Encoding.PercentEncodeText | src/pa/sigv4.rs:403-436 | the index loop computes the encoding the lemmas are about |
| SigV4Encoding.MeaningPreserved | src/pa/sigv4.rs:403-436 | normalising keeps the URI's meaning: which bytes are data, and which are separators (RFC 3986 section 6.2.2) |
| SigV4Encoding.DecodePreserved | src/pa/sigv4.rs:403-436 | percent decoding the output gives what decoding the input gives, malformed escapes read literally |
| SigV4Encoding.EncodeIdempotent | src/pa/sigv4.rs:403-436 | normalising twice is normalising once |
| SigV4Encoding.NormalFormIsMeaning | src/pa/sigv4.rs:403-436 | two texts normalise alike if and only if they mean the same |
| SigV4Encoding.OutputIsNormal | src/pa/sigv4.rs:403-453 | the output holds only unreserved bytes, the kept slash, and upper-case escapes of other bytes (RFC 3986 section 2.3) |
| SigV4Encoding.EscapeOf | src/pa/sigv4.rs:403-453 | an escape is a percent sign and the two upper-case digits of the byte in base 16 |
| SigV4Encoding.EncodeRawDecodes | src/pa/sigv4.rs:403-436 | without escape preservation the output decodes to the input |
| SigV4Query.CanonicalQueryIsSorted | src/pa/sigv4.rs:381-401 | splitting the canonical query at `&` gives the encoded pairs of the query, all of them, in (name, value) order |
| SigV4Query.QueryNormalForm | src/pa/sigv4.rs:381-401 | two canonical queries are equal if and only if the queries carry the same decoded pairs, with repetition |
| SigV4Query.CanonicalQueryIdempotent | src/pa/sigv4.rs:381-401 | a canonical query canonicalises to itself |
| SigV4Query.CanonicalQueryIgnoresOrder | src/pa/sigv4.rs:381-401 | any reordering of the pieces gives the same canonical query |
| SigV4Headers.NormalizeHeaderValue | src/pa/sigv4.rs:487-511 | the pending-flag loop refuses control characters and otherwise gives the value's words joined by single blanks |
| WordList.SqueezeNormalForm | src/pa/sigv4.rs:487-511 | values normalise alike if and only if they have the same words; normalising is idempotent |
| SigV4Headers.NormalizeHeaders | src/pa/sigv4.rs:292-333 | the loop, sort and checks give the list or error the lemmas are about |
| SigV4Headers.HeadersIgnoreOrderAndCase | src/pa/sigv4.rs:292-333 | reordering valid headers and changing the case of names gives the same outcome, errors included |
| SigV4Headers.HeaderNormalForm | src/pa/sigv4.rs:292-333 | accepted lists normalise alike if and only if they hold the same lower-case names with the same value words |
| SigV4Request.CanonicalizeRequest | src/pa/sigv4.rs:260-290 | the text built line by line is the canonical text, and the first failing check decides the error; path and query come back as canonicalised |
| SigV4Layout.TextLines | src/pa/sigv4.rs:266-290 | the canonical text split at line ends is method, path, query, `name:value` for each normalised header in order, an empty line, the names joined by `;`, and the payload hash |
| SigV4Layout.AcceptedExactly | src/pa/sigv4.rs:260-290 | a request is accepted if and only if hash, method, URI and headers each pass their stated test, and the first that fails decides the error |
| SigV4Layout.HeadersAcceptedExactly | src/pa/sigv4.rs:292-333 | headers can be signed if and only if each name is a token other than `authorization`, no value has a control character, no two names agree without case, and a host that is not blank, the payload's hash and a timestamp are among them |
| SigV4Layout.HeadersRefusedFor | src/pa/sigv4.rs:292-333 | which error refused headers give |
| SigV4Layout.FirstBadHeader | src/pa/sigv4.rs:292-333 | the error of bad headers is that of the first bad one |
| SigV4Layout.FoldsCase | src/pa/sigv4.rs:455-464 | lower-cased names agree if and only if the names are the same but for the case of ASCII letters |
| SigV4Timestamp.TimestampsExactly | src/pa/sigv4.rs:524-577 | a text passes as a timestamp if and only if it is the `YYYYMMDDTHHMMSSZ` text of a day that the Gregorian calendar has and a time of that day |
| SigV4Request.WriteHeaders | src/pa/sigv4.rs:270-280 | header lines and signed names grown together are the lines and the list of names |
| SigV4Request.TextIsReadable | src/pa/sigv4.rs:282-284 | the text determines method, path, query, header list and payload hash |
| SigV4Request.TextAgreesOnParts | src/pa/sigv4.rs:260-290 | two accepted requests have equal texts if and only if those five parts agree |
| SigV4Request.TextIsMeaning | src/pa/sigv4.rs:260-333 | and if and only if the requests differ at most in escaping, pair order, header order and case, and blanks in values |
| SigV4Request.HeaderOrderAndCase | src/pa/sigv4.rs:292-333 | an accepted request with headers reordered or names in another case is accepted with the same text |
| SigV4Request.CanonicalUriIdempotent | src/pa/sigv4.rs:367-379 | a canonical path and query put together canonicalise to themselves |
| QueuedAudio.AudioQueue.Push | src/realtime_voice.rs:602-611 | appends the audio, restarts the counts on a new item and otherwise adds to them, saturating |
| QueuedAudio.AudioQueue.DiscardOverflow | src/realtime_voice.rs:613-620 | drops the oldest bytes above the limit, as counted |
| QueuedAudio.AudioQueue.NextFrame | src/realtime_voice.rs:626-637 | takes a frame from the front, padded only when finished |
| QueuedAudio.AudioQueue.FlushForBargeIn | src/realtime_voice.rs:639-645 | empties the queue and returns the milliseconds heard |
| QueuedAudio.EveryRun | src/realtime_voice.rs:593-646 | in every run the queue is a suffix of the pushed stream, what left it left in order without gaps, and each byte of the current item was played, is queued or was dropped |
| QueuedAudio.GeneratedBound | src/realtime_voice.rs:602-646 | generated is at most played + queued + flushed, with equality exactly while no older item interferes |
| QueuedAudio.BargeInPosition | src/realtime_voice.rs:639-645 | the barge-in position never exceeds the current item's audio really played, and by how much it falls short |
| QueuedAudio.ItemMeans | src/realtime_voice.rs:602-611 | in every run the current item is that of the last push, and its bytes are counted from where the pushes began to name it |
| QueuedAudio.FramesAreWhole | src/realtime_voice.rs:626-637 | a frame is 160 bytes, the next ones of the stream, with silence added only at a finished end; none exactly when there is less than a frame to play |
| QueuedAudio.OverflowDropsFrames | src/realtime_voice.rs:613-620 | overflow drops whole frames, no more than needed, and leaves at most 160000 bytes |
| QueuedAudio.FinishedMeans | src/realtime_voice.rs:602-624 | the finished flag says exactly that a finish came after the last push |
| EventMapper.MapperObject.Map | src/realtime_voice.rs:303-443 | the events, with reported usage and error type and code, and the new fields for each provider event |
| EventMapper.MapperObject.FinalizeInput | src/realtime_voice.rs:454-460 | reports pending caller text unless blank, and clears it |
| RealtimeSession.StepFine | src/realtime_voice.rs:675-789 | each step of the session keeps to the rules of the log, from any reachable state |
| RealtimeSession.EveryRunAllowed | src/realtime_voice.rs:655-791 | over every run: cancels need an active response, truncates follow a cancel and stay within audio played, partial transcripts are the deltas since the last done event, xAI emits no output while caller text is pending, markers open talkspurts |
| RealtimeSession.AllowedAt | src/realtime_voice.rs:655-791 | those rules at every position of the log |
| RealtimeSession.CancelsAreSeparated | src/realtime_voice.rs:751-769 | between two cancels a response was activated |
| RealtimeSession.TruncateFollowsCancel | src/realtime_voice.rs:751-770 | the entry before a truncate is a cancel |
| SessionReplies.LogIsExpected | src/realtime_voice.rs:655-791 | the log of every run is exactly the one owed, said from what was sent before and what the provider has said, without the session: each step, then all it must be followed by |
| SessionReplies.EveryStepIsAnswered | src/realtime_voice.rs:675-789 | at every position of the log a step is followed by exactly what it is owed, up to the next step |
| SessionReplies.BargeInIsAnswered | src/realtime_voice.rs:751-770 | a barge-in is followed by a flush, by a cancel exactly when a response is active, then by a truncate of the item queued last exactly when some of it was heard, and by the report; the position is the audio played, less older audio |
| SessionReplies.InputIsPassedOn | src/realtime_voice.rs:682-707 | caller audio is followed by its append, a speak command by saying its text unless blank, and the end of audio by finishing the queue |
| SessionAudio.QueuedIsDecoded | src/realtime_voice.rs:735-737 | over every run the audio queued is the decoded provider audio, all of it, in order |
| SessionAudio.AudioIsDelivered | src/realtime_voice.rs:735-789 | over every run what was played and dropped, in order, is a prefix of the decoded provider audio and the queue is the rest; the frames sent are exactly those played, completed with silence |
| TurnDetector.FrameKeeps | src/service.rs:2144-2172 | from any inputs, one frame keeps the fields what the inputs make them and emits exactly the utterance that ends there |
| TurnDetector.Detector.PushFrame | src/service.rs:2144-2172 | after any inputs, a frame gives an utterance exactly when one ends there, and gives its samples |
| TurnDetector.Detector.Finish | src/service.rs:2174-2186 | returns the gathered samples exactly when speaking with enough speech, and clears the state |
| TurnDetector.Detector.Reset | src/service.rs:2188-2194 | forgets everything before this point |
| TurnDetector.DetectTurns | src/service.rs:1050-1077 | the bridge's loop emits the utterances of the input stream, then the open one |
| TurnDetector.SpeechIsLoud | src/service.rs:2204-2213 | a frame is speech if and only if its magnitudes add up to at least the threshold for each sample |
| TurnDetector.LoudnessAdds | src/service.rs:2204-2213 | the magnitude of samples is that of their parts together, and of one sample its distance from zero |
| TurnDetector.FramesLast | src/service.rs:2125-2142 | silence, minimum and the 250 ms of pre-roll are the fewest 20 ms frames that last for them, at least one |
| TurnBlocks.EmitsExactlyUtterances | src/service.rs:2124-2202 | a stretch is emitted if and only if it is an utterance: from at most 13 frames before its first speech, enough speech, no earlier run of the needed silence, and exactly that silence at its end |
| TurnBlocks.BlocksInOrder | src/service.rs:2124-2202 | utterances are non-empty, ordered and disjoint |
| TurnBlocks.UtterancesAreSlices | src/service.rs:2144-2202 | the emitted audio is the input at those positions, contiguous |
| TurnBlocks.LastUtteranceIsOpen | src/service.rs:2174-2186 | at the end the open stretch is emitted exactly when it has enough speech |
| TtsText.SplitForSpeech | src/service.rs:1930-1988 | the loop computes the segments the lemmas are about |
| TtsText.SegmentsCoverText | src/service.rs:1930-1988 | for text that is not blank: segments are not empty, have no white space at an edge, and the normalised text is these segments in order with white space alone between; a segment ends where white space follows, or with a sentence mark or comma |
| TtsText.NothingLost | src/service.rs:1930-1988 | for every text and engine the visible characters of the segments, concatenated, are those of the text |
| TtsText.NormalText | src/service.rs:1931-1934 | normalising keeps the visible characters, leaves plain spaces inside only, and is empty exactly for blank text |
| TtsSegments.SegmentsFit | src/service.rs:1940-1976 | with characters of at most w bytes every segment is at most 71 + w bytes, or has no space: 72 for ASCII, 75 for any text |
| TtsSegments.SentencesEndSegments | src/service.rs:1946-1959 | a sentence mark that reaches 24 bytes can only be the last character of its segment |
| TtsSegments.WidthIsLeast | src/service.rs:1940-1960 | a character counts for the fewest bytes whose UTF-8 payload bits hold it |
| TtsCuts.SplitIsPieces | src/service.rs:1930-1988 | the segments are those of a search on the text: each ends at the next sentence mark from 24 bytes on, or where 72 bytes are reached at the last clause break (a comma from 48 bytes on), or else before the last space; other engines get the normalised text whole |
| TtsCuts.CarriedHasNoBreak | src/service.rs:1960-1976 | what is carried past a cut holds no clause break, so that forgetting the break is right |
| CallEnding.EveryRun | src/service.rs:670-694 | under every interleaving `end_sent` is set exactly while one thread is ending the call or after it succeeded; every call of `call.end()` is still held or was answered to exactly one thread, as sent exactly once and exactly when the BYE is out, or as failed |
| CallEnding.EndRunsAlone | src/service.rs:674-689 | `call.end()` never runs in two threads at once, and at most one delayed task is started |
| CallEnding.SentOnce | src/service.rs:674-689 | after a success no continuation of the run calls it again |
| CallEnding.RetryAfterError | src/service.rs:682-688 | after an error the next thread at the exchange tries again; after a success or beside a holder it does not |
| CallEnding.FailureIsReported | src/service.rs:682-688 | when all threads have returned, the attempts that did not send the BYE are as many as the threads told of a failure |
| CallEnding.RequestedMeansCommitted | src/service.rs:670-694 | under every interleaving the request flag is set if and only if some thread is committed to the BYE: a first request commits its thread, a swap on a set flag does not |
| CallEnding.EndIsAttempted | src/service.rs:670-694 | when some thread was started and all have returned, `call.end()` was called, and the BYE is out or a failure was reported |
| CallEnding.AlreadySentIsRight | src/service.rs:675-681 | "already sent" is answered exactly while the flag is set, and in every continuation the BYE is out once no thread holds the flag, if and only if no thread holds it now |
| CallEnding.AlreadySentMayBeWrong | src/service.rs:675-681 | a run in which it is told while the attempt fails |
| ReplayGuard.InMemoryReplayGuard.EvictExpired | src/pa/auth.rs:112-118 | removes the expired nonces and counts them |
| ReplayGuard.InMemoryReplayGuard.CheckAndRecord | src/pa/auth.rs:120-128 | answer and new contents after eviction |
| ReplayGuard.CapacityKept | src/pa/auth.rs:111-128 | over any history the guard holds at most its capacity |
| ReplayGuard.OnlyTheNonce | src/pa/auth.rs:120-128 | a check adds at most its own nonce, only on acceptance, and never drops or renews a live one |
| ReplayGuard.LiveNonceHeld | src/pa/auth.rs:111-128 | a nonce is held through any attempts until it expires |
| ReplayGuard.HeldExactly | src/pa/auth.rs:111-128 | an accepted nonce is still held when next presented if and only if no reading since has reached its expiry |
| ReplayGuard.AcceptedAgainExactly | src/pa/auth.rs:111-128 | and is accepted again if and only if one has and the guard has room |
| ReplayGuard.AcceptancesFarApart | src/pa/auth.rs:111-128 | between two acceptances of a nonce, however often it is presented, a reading reaches its expiry; with a clock that does not go back and stays below its last value they are 300 seconds apart |
| ReplayGuard.HeldNonceAccepted | src/pa/auth.rs:112-128 | within its 300 seconds a held nonce is accepted if and only if the clock is at its last value |
| ReplayGuard.ClockGoesBack | src/pa/auth.rs:112-128 | a history with a clock that goes back in which an attempt is accepted twice |
| ReplayHistory.AcceptedByHistory | src/pa/auth.rs:111-128 | over every history of a new guard, whatever the clock does: an attempt is accepted if and only if no accepted attempt with its nonce is live and fewer than the capacity are, where live is said by 300 seconds and the readings alone |
| RequestAuth.EncodeHex | src/pa/auth.rs:252-260 | the loop computes the hexadecimal text |
| RequestAuth.ReadHex | src/pa/auth.rs:262-274 | the loop computes the decoding, or none |
| RequestAuth.HexRoundTrip | src/pa/auth.rs:252-284 | decoding undoes encoding |
| RequestAuth.HexIsCanonical | src/pa/auth.rs:262-284 | only the lower-case encoding of some bytes decodes to them, so a signature has one spelling |
| RequestAuth.HexDigitsOf | src/pa/auth.rs:252-260 | each byte is two lower-case digits, the high one first |
| RequestAuth.TimeRoundTrip | src/pa/auth.rs:143-159 | a printed 64-bit time parses back to itself |
| RequestAuth.TimeParsesExactly | src/pa/auth.rs:199-206 | a text parses to a 64-bit time if and only if it is that number in decimal, with any zeros and an optional sign in front |
| RequestAuth.TextOfLines | src/pa/auth.rs:143-159 | the signed text is the upper-case method, path, time, nonce and body hash, joined by line ends |
| RequestAuth.UpperMeans | src/pa/auth.rs:143-159 | only ASCII letters change case, each to its capital |
| RequestAuth.CanonicalTextIsInjective | src/pa/auth.rs:143-159 | for one-line methods and paths the signed text determines method, path, time, nonce and body hash |
| RequestAuth.SignedIsVerified | src/pa/auth.rs:161-232 | a properly signed request is accepted exactly when its time is within the skew and the guard admits its nonce |
| RequestAuth.VerifyRequest | src/pa/auth.rs:181-232 | the checks in the source's order; accepted if and only if the request is authentic (time, nonce and signature over its five lines) and the guard admits its nonce, and the guard is unchanged for a request that is not authentic |
| RequestAuth.AcceptedExactly | src/pa/auth.rs:181-232 | the guard is asked if and only if the secret is not empty, the timestamp spells a time within 60 seconds of the clock, the nonce is 16 to 128 allowed characters and the signature is the lower-case tag of the five lines; exactly those it admits are accepted |
| RequestAuth.RefusedFor | src/pa/auth.rs:199-228 | which error a request with a readable time gets |
| RequestAuth.RefusedUnread | src/pa/auth.rs:185-206 | and one without |
| RequestHistory.AcceptedInHistory | src/pa/auth.rs:181-232 | over every history of arrivals at a new guard: accepted if and only if authentic, no accepted authentic request with its nonce is live, and there is room |
| RequestAuth.GuardSeesAttempts | src/pa/auth.rs:199-231 | over any history requests refused earlier leave the guard as it was |
| RequestAuth.ReplayedExactly | src/pa/auth.rs:199-231 | a valid request whose nonce was accepted and is next presented is accepted if and only if the guard has read a clock at or past the nonce's expiry and has room |
| RequestAuth.ReplayRefused | src/pa/auth.rs:199-231 | until then it is refused however often it is presented |
| RequestAuth.AcceptedOnce | src/pa/auth.rs:199-231 | a (timestamp, nonce) is not accepted again unless the guard has read a clock at or past the nonce's expiry in between, or the clock is at its last value |
| RequestAuth.AcceptedOnceEver | src/pa/auth.rs:199-231 | with a clock that does not go back and stays below its last value it is accepted at most once ever |
| Csv.CsvRoundTrip | src/accounting.rs:722-734 | any rows of any strings parse back (RFC 4180 section 2 with LF), as themselves if and only if none is empty |
| Csv.CsvIsInjective | src/accounting.rs:722-734 | equal files have equal rows |
| Csv.RowIsJoined | src/accounting.rs:722-734 | a row is its fields between commas and a line end, and a field without comma, quote or line end stands as it is |
| Wav.DecodeStreamingWav | src/audio.rs:68-153 | the cursor loop ends, stays in bounds and gives the decoding of the chunk list, on every byte string |
| Wav.ChunksRoundTrip | src/audio.rs:80-137 | the chunks read from serialised chunks are those chunks, then those of what follows |
| Wav.DecodesExactly | src/audio.rs:68-153 | a byte string decodes to a rate and samples if and only if it has the header, every format chunk is PCM of at least 16 bytes, the last one has 16 bits and one or two channels and that rate, and the last data chunk holds those samples |
| Wav.MonoIsMean | src/audio.rs:197-204 | each mono sample is the mean of its pair, truncated towards zero, in order; an odd last sample is dropped |
| Wav.DecodesSized | src/audio.rs:68-153 | with exact sizes, any unknown chunks and one 16-bit PCM format chunk before one data chunk, the rate and exactly the encoded samples come back |
| Wav.DecodesStreamed | src/audio.rs:68-153 | the same with a last data chunk of size 0xFFFFFFFF, or of a size that promises more than has arrived |
| Wav.SizeField | src/audio.rs:83-87 | every size up to 0xFFFFFFFF has the four bytes that read as it, so the files of the two rows above exist |
| Wav.SamplesRoundTrip | src/audio.rs:138-144 | samples read from their little-endian bytes are those samples |

## Left out

- Network, SIP, websocket, HTTP and file input and output, logging, configuration defaults and prompts: only the state they drive is modelled.
- SHA-256, HMAC and AES-GCM: arbitrary functions where a result needs them; `crypto.rs` is not modelled.
- libyaml (`src/config/yaml_events.rs`): its events are taken as given; anchors on nodes have no effect in the source and are not part of the events here.
- JSON and base64 decoding of provider events: an event arrives as its type and the fields it has, with audio already decoded or marked as undecodable and usage already counted.
- RealtimeSession.EveryRunAllowed: a failing send ends the source's loop in the middle of a step, which leaves a prefix of a log considered here; websocket control messages and the dropped-audio log line are not entries.
- Availability.AvailableSlots: the local times between start and end of a meeting are not constrained, in the source either; that chrono's own range, wider than the source's date type, is never left is taken for granted.
- AvailabilityPolicy.NewPolicy: parsing the time zone's name is a parameter.
- TurnDetector.DetectTurns: amplitude sums are unbounded integers; frames are far too short for the source's 32-bit sum to overflow.
- Wav.DecodeStreamingWav: the three format fields, always set together, are one option; the first attempt with a WAV library in `decode_wav_mono_i16` is not modelled.
- RequestAuth.VerifyRequest: header text that is not UTF-8 is an absent value; the persistent guard over SQLite is not modelled.
- SigV4 signing keys, scopes, credential checks and the authorization header: concatenations over abstract hashes.
- RTP header counters, mu-law encoding, resampling, pricing, token estimates and phrase matching: counters, table lookups or floating point.
