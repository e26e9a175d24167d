# ForgeOps tracker for C: a verified model

The tracker is a C library that records errors, breadcrumbs, metrics, timings and traces and delivers
them in the background. This project models its buffered-delivery state machines, its hand-written
text scanners, its crash-time data structures and its hashing in Dafny, and proves what each of them
promises, for every input and every run.

| module | models |
|---|---|
| `Regex` | ordered (backtracking) matching: every end a match can have, in the order an engine tries them, and leftmost rewriting |
| `RegexShift` | what stands further in front of a match does not matter |
| `Iban`, `IbanCheck`, `IbanAgain`, `IbanFound` | the IBAN scanner against the pattern it quotes, MOD 97-10, the scrubber, idempotence, and that IBANs are made and found |
| `CardNumber`, `Cards`, `CardsAgain`, `CardsFound` | card numbers, the card-run scanner against the pattern it quotes, the groups rule, idempotence, and that card numbers are found |
| `Emails` | the email scanner against the pattern it quotes; no email is left |
| `Ledger` | the accounting of a batched delivery: accepted, what every flush did, waiting |
| `Metrics`, `MetricsOverlap` | the metric buffer, and every run of it, without and with overlapping flushes |
| `Performance`, `PerformanceRuns`, `PerformanceExact`, `PerformanceWindow` | the timing buckets, every run of them, how exact they are, and where their windows start |
| `PerformanceOverlap`, `PerformanceConserved` | the same with overlapping flushes: bucket counts, and conservation |
| `BreadcrumbEntry`, `BreadcrumbJson` | encoding one breadcrumb, fitting it to its slot, reading it back as JSON |
| `BreadcrumbRing`, `BreadcrumbCopy`, `BreadcrumbDump` | the per-thread ring, one store at a time, as a signal handler would see it, in any order of memcpy, and exactly what is dumped |
| `CrashReport` | the raw crash report: written by the handler, read by the next launch |
| `SqlMask`, `SqlNumber`, `SqlRules`, `SqlScan` | the SQL masker: its rules, these against a grammar and a regular expression, and its cursor loops |
| `Spans`, `SpansStray`, `SpansSent` | the trace tree with its depth-capped stack of open spans, stops handed in from elsewhere, and whether what is sent holds all parents |
| `StrictPath` | paths under strict privacy |
| `Sha256`, `Sha256Bits`, `Sha256Constants`, `Sha256Abc` | SHA-256, against FIPS 180-4: padding and fold, its functions bit by bit, its constants from the primes, its example |
| `CrashStore` | listing the reports on disk and one pass of uploads |

## How to read it

- A byte of a C string is a `char` and a C string a `string`; character classes are ASCII, as in the
  source. `Sha256` works on bytes 0..255. Counts and lengths are unbounded, except that `Sha256` takes
  messages below 2^61 bytes, the limit of FIPS 180-4, under which the 64-bit length does not wrap.
- Where the source loops, there is a method with the same loop, proved against a function or a
  predicate that says what the result is; the theorems are about that function. For the scanners the
  function is the backtracking engine itself, run on the quoted pattern.
- Where the source updates something in place there is a class or an array. The steps of a class are
  tied to functions on its contents (`RecordCore`, `CompleteCore`, ...), and the theorems over runs are
  about those functions.
- Allocation succeeds. The clock, file contents, HTTP statuses, `readdir` order and random ids are
  inputs. An HTTP status is arbitrary, and is judged as in src/client.c:16-20 (`Ledger.OutcomeFor`).
- Flushes. Metrics and timings are recorded by any thread at any moment, also between the two locked
  sections of a flush. In `Metrics.Run` and `PerformanceRuns.Run` no second flush of the same buffer
  starts while one is in flight: that is the guard of their `Snapshot` and `Snap` steps. Nothing in the
  source enforces it (the worker, the exit hook and an explicit call can each flush). Without it
  conservation can fail. `MetricsOverlap`, `PerformanceOverlap` and `PerformanceConserved` drop the guard:
  they have the failing inputs, an entry or sample lost and a sample delivered twice, and prove that it
  holds exactly when no batch leaves after another has left since it was taken (`MetricsOverlap.ConservedIff`,
  `PerformanceConserved.ConservedIff`).
- Stores. An add and a clear make their stores to the ring in program order; only the bytes of one
  `memcpy` may come in any order. The source has one fence, after the `memcpy`, so a compiler might move
  the copy. Into the trimming it may go exactly when there is nothing to trim
  (`BreadcrumbDump.SlotUnreadIff`), and in front of it exactly when the ring is not full
  (`BreadcrumbDump.SlotUnreadBeforeIff`, `BreadcrumbDump.CopyFirstSafe`); `BreadcrumbDump.CopiedTooEarly`
  shows what happens otherwise.
- Timings are exact reals, negative ones included, and the clock does not run backwards.
- Where the code and its comments disagree. src/breadcrumbs.c:183-186 says a crash in the middle of an
  add leaves the ring exactly as it was. The code trims first, so a trail that is full is visibly
  shorter until the new entry is published; `BreadcrumbRing.UnchangedUntilPublishedIff` proves that the
  comment holds exactly when there is nothing to trim. What always holds is that no half-written entry
  is ever dumped (`BreadcrumbRing.AddSafe`); `BreadcrumbDump.AddDumps` says what is. And
  src/performance.c:239-243 says that the maximum left on a bucket never overstates the next period's. It
  does: `PerformanceExact.MaxOverstates` gives a case, and `PerformanceExact.MaxExactIff` says of every
  reachable bucket whether it does. What always holds is that it is an upper bound
  (`PerformanceRuns.InsideWindow`).
- A bucket's sum is clamped at zero when a batch leaves. No duration being negative, it is exact
  (`PerformanceRuns.Conserved`); in general `PerformanceExact.SumExactIff` says when it is.
- Spans. Span ids are fresh, and in `Spans` a span is stopped in the trace it was started in. The C code
  takes id and parent from its caller and does not check; `SpansStray` takes them as they come and
  proves when the spans kept still hang together.

## Model

| member | source | states |
|---|---|---|
| `Iban.PatternMatches` | src/pii_scrubber.c:134-139 | for every text and start, everything a backtracking engine would try for the quoted pattern, in order: the compact ends from long to short, then the grouped ends, filtered by the closing word boundary |
| `Iban.CandidateEnd` | src/pii_scrubber.c:140-168 | the result is the end of the engine's first match, and 0 exactly when the engine finds none |
| `Iban.GroupedEnd` | src/pii_scrubber.c:154-167 | the first end of the grouped branch at a word boundary, over all group counts and tails in the engine's order, 0 when there is none |
| `Iban.CountGroups` | src/pii_scrubber.c:154-155 | the number of four-character groups the engine's greedy repetition would take, at most 7 |
| `Iban.TailEnd` | src/pii_scrubber.c:157-165 | the first end of the optional tail at a word boundary: longest tail first, no tail last |
| `Iban.LastBoundary` | src/pii_scrubber.c:150-152 | giving back one character at a time finds the first end the engine accepts, 0 exactly when it accepts none |
| `Iban.Run` | src/pii_scrubber.c:148-149 | the longest run of capitals and digits up to the limit |
| `Iban.Scrub` | src/pii_scrubber.c:196-222 | the output is the text with every leftmost, non-overlapping match of the pattern that is a valid IBAN replaced, and every other byte kept |
| `IbanAgain.MatchesBelow` | src/pii_scrubber.c:134-168 | with a label put further on, the engine tries before it exactly what it tried before, as far as that ended before the label |
| `IbanAgain.ScrubIdempotent` | src/pii_scrubber.c:196-222 | scrubbing the output of IBAN scrubbing changes nothing, for every text |
| `IbanFound.CompactIsReplaced` | src/pii_scrubber.c:134-222 | every valid IBAN of 15 to 34 characters written without spaces is replaced |
| `IbanFound.SpacedIsReplaced` | src/pii_scrubber.c:134-222 | and so is every valid IBAN written in groups of four |
| `IbanCheck.Passes` | src/pii_scrubber.c:170-194 | true exactly when, spaces removed, there are 15 to 34 characters and the rearranged, letter-expanded decimal integer leaves 1 modulo 97 |
| `IbanCheck.RemainderIsOne` | src/pii_scrubber.c:182-193 | the digit-at-a-time remainder decides the same as the whole integer |
| `IbanCheck.ReadChar` | src/pii_scrubber.c:183-192 | one step of the running remainder is the remainder of the number with that character's digits appended |
| `IbanCheck.ChangedNumber` | src/pii_scrubber.c:170-194 | two expanded numbers that differ in one character of the same kind never agree modulo 97 |
| `IbanCheck.OneChangeIsCaught` | src/pii_scrubber.c:170-194 | one digit of a valid IBAN changed to another digit, or a letter to another letter, at any place and with any spacing, is never valid |
| `IbanFound.CharValues` | src/pii_scrubber.c:171-190 | A is 10, Z is 35, each letter one more than the one before it, and a digit is itself |
| `IbanFound.CharDigitsAre` | src/pii_scrubber.c:185-190 | a letter is written as the two decimal digits of its value, a digit as one |
| `IbanFound.CheckDigitsPass` | src/pii_scrubber.c:170-194 | the law of ISO 13616: for every country and account part, 98 less the remainder of account part, country and "00" as check digits passes |
| `CardNumber.HasCardPrefix` | src/pii_scrubber.c:224-232 | agrees with the documented list of network prefixes, read as numbers of their own lengths |
| `CardNumber.IsCardNumber` | src/pii_scrubber.c:234-247 | true exactly for 13 to 19 digits with a listed prefix and a Luhn sum divisible by ten |
| `CardNumber.LuhnCatchesOneChange` | src/pii_scrubber.c:237-246 | changing any one digit of any number changes the Luhn sum modulo ten |
| `CardNumber.LuhnCatchesSwap` | src/pii_scrubber.c:237-246 | swapping two neighbouring digits changes the Luhn sum modulo ten if and only if they differ and are not 0 and 9 |
| `CardNumber.SwapIsCaught` | src/pii_scrubber.c:234-247 | a card number with two such neighbours swapped is never a card number |
| `CardNumber.LastDigitCounts` | src/pii_scrubber.c:238-245 | the last digit counts undoubled |
| `Cards.CardRunMatches` | src/pii_scrubber.c:289-295 | everything the engine would try for the quoted lookaround pattern, in order |
| `Cards.RunEnd` | src/pii_scrubber.c:308-326 | remembering only the last separator gives the end of the engine's first match; with no match, everything up to the end returned is digits |
| `Cards.SkipDigits` | src/pii_scrubber.c:320-324 | after a failed run no match starts anywhere inside it, so skipping it whole loses nothing |
| `Cards.Longest` | src/pii_scrubber.c:249-254 | the end of the longest stretch of whole groups that is a card number, and no longer one is |
| `Cards.TooLong` | src/pii_scrubber.c:259-268 | a stretch with more than 19 digits can not be prolonged into a card number: the cut-off loses nothing |
| `Cards.LongestStretch` | src/pii_scrubber.c:259-273 | the loop that tries stretches in growing order and stops past 19 digits finds the longest |
| `Cards.ScrubOneRun` | src/pii_scrubber.c:249-287 | from each group on the longest card number is replaced, everything else kept in order, the scan going on after it |
| `Cards.Scrub` | src/pii_scrubber.c:296-338 | the loop visits exactly the successive leftmost matches of the quoted pattern and rewrites each by the groups rule, keeping every other byte |
| `CardsFound.CardIsReplaced` | src/pii_scrubber.c:249-338 | a card number, in groups of any lengths, at the end of a text that has no other digits and does not run into it is replaced |
| `CardsFound.OnlyCardsReplaced` | src/pii_scrubber.c:249-338 | the output is the text with the label in the place of some card numbers, and every other byte kept in order |
| `CardsFound.Example` | src/pii_scrubber.c:250-253 | 4242424242424242 in particular |
| `CardsFound.CardLengths` | src/pii_scrubber.c:234-236 | of numbers with a listed prefix and a right sum exactly those of 13 to 19 digits are card numbers |
| `CardsAgain.FirstRunIsMatch` | src/pii_scrubber.c:308-326 | the scan of a run, taken on the rest of the text alone, gives the engine's first match |
| `CardsAgain.RewriteIsScan` | src/pii_scrubber.c:296-338 | leftmost rewriting by the pattern is one left-to-right scan that remembers only whether the last byte was a word character |
| `CardsAgain.ScanScrubbed` | src/pii_scrubber.c:255-287 | scanning a scrubbed run again leaves it as it is, whatever stops the run after it |
| `CardsAgain.ScrubIdempotent` | src/pii_scrubber.c:249-338 | scrubbing the output of card scrubbing changes nothing, for every text |
| `Emails.PatternMatches` | src/strict_privacy.c:121-128 | everything the engine would try: the whole local-part run, then the domain's endings from right to left |
| `Emails.GivingBackIsUseless` | src/strict_privacy.c:122-124 | no shorter local part can match, since "@" is no local-part character |
| `Emails.EmailAt` | src/strict_privacy.c:129-145 | the length of the engine's first match, 0 exactly when there is none, and where the local-part run ends |
| `Emails.DomainEnd` | src/strict_privacy.c:134-144 | the first domain end the engine accepts, 0 exactly when there is none |
| `Emails.SkipLocal` | src/strict_privacy.c:126-128 | no start inside a failed local-part run matches, so copying it whole agrees with trying every start |
| `Emails.ReplaceEmails` | src/strict_privacy.c:147-163 | the output is leftmost backtracking replacement with the quoted pattern |
| `Emails.MatchIsEmail` | src/strict_privacy.c:121-128 | the engine matches at a place exactly when local part, "@", domain, "." and two letters start there |
| `Emails.NoEmailLeft` | src/strict_privacy.c:147-163 | in the output no email starts at any place |
| `Emails.OutputHasNoMatch` | src/strict_privacy.c:147-163 | the engine finds no match anywhere in the output |
| `Ledger.AcceptKeeps` | src/metrics.c:119-129 | accepting one more keeps the book balanced: accepted is what left followed by what waits |
| `Ledger.FinishKeeps` | src/metrics.c:159-174 | a finished flush keeps the book: the batch leaves as a prefix or stays, for a stated reason, and the failures in a row stay below five |
| `Ledger.JustifiedPush` | src/metrics.c:159-173 | counting failures decides the same as looking back over the log: a failed batch leaves exactly at the fifth failure in a row |
| `Ledger.StreakIsRun` | src/metrics.c:160-168 | the counter is the number of failed flushes at the end of the log, and before them stands one whose batch left |
| `Ledger.OutcomeByHundreds` | src/client.c:16-20 | an answer in the 200s is delivered, one in the 400s but 408 and 429 rejected, every other failed |
| `Metrics.Buffer.constructor` | src/metrics.c:13-23 | an empty buffer, no failures |
| `Metrics.Buffer.Record` | src/metrics.c:119-129 | appends in place, or changes nothing when 1000 entries wait; reports which |
| `Metrics.Buffer.Snapshot` | src/metrics.c:133-152 | the batch is the whole buffer, in order, and the buffer is unchanged |
| `Metrics.Buffer.Complete` | src/metrics.c:159-174 | for every n: after the answer the first n entries are gone and the rest moved up in order, or, before the fifth failure, nothing but the counter changed; it stops short of the memmove, and says so, exactly when a batch is let go that is larger than the buffer |
| `Metrics.Buffer.MoveUp` | src/metrics.c:172 | what stands behind the first n entries moves to the front, in order |
| `Metrics.NextKeeps` | src/metrics.c:102-175 | every step, records during a delivery included, keeps the invariant that ties buffer, flight and book together |
| `Metrics.Run` | src/metrics.c:102-175 | in every run the accepted entries are the batches that left, in order, followed by the buffer; a batch in flight is a prefix of the buffer; a batch left exactly when delivered, rejected or failed for the fifth time in a row; at most 1000 entries wait |
| `MetricsOverlap.NextKeeps` | src/metrics.c:102-175 | with any number of flushes in flight: the buffer is what was accepted less what was taken from its front; and entries have been taken since a snapshot exactly when a batch has left since |
| `MetricsOverlap.OverrunsIff` | src/metrics.c:159-174 | in any run an answer takes out more entries than there are (the memmove size wraps) if and only if, since its snapshot, other batches took out more than was recorded |
| `MetricsOverlap.TakesItsOwnIff` | src/metrics.c:159-174 | in any run an answer takes out exactly the entries of its own batch if and only if no other batch has left since its snapshot |
| `MetricsOverlap.ConservedIff` | src/metrics.c:132-175 | over whole runs: the buffer was never overrun and every batch that left took its own entries and no others, if and only if each left with no other having left since its snapshot |
| `MetricsOverlap.TakenInOrder` | src/metrics.c:159-174 | even then entries only leave from the front, each removal starting where the last one ended |
| `MetricsOverlap.OverlapLosesAnEntry` | src/metrics.c:132-175 | two flushes of one entry: with one recorded in between, that one is taken out although no batch held it; with none, the buffer is overrun |
| `Performance.Tracker.constructor` | src/performance.c:14-26 | no buckets, no failures |
| `Performance.Tracker.FindBucket` | src/performance.c:35-40 | finds the bucket of that name exactly when there is one |
| `Performance.Tracker.Record` | src/performance.c:96-126 | the one bucket of that name counts the sample; a new name past 500 is dropped; the window starts with the first bucket; names stay distinct |
| `Performance.Tracker.Copy` | src/performance.c:196-213 | the copy has every bucket, with the window from its start to now |
| `Performance.Tracker.Complete` | src/performance.c:221-250 | after the answer each copied bucket is lowered by its share or removed, whatever its place has become, all others untouched, and the next window starts where the last ended; before the fifth failure only the counter changes |
| `Performance.ViewRemove` | src/performance.c:244-247 | moving the last bucket into the gap removes exactly that name and keeps names distinct |
| `Performance.ViewSize` | src/performance.c:99-116 | distinct names: as many buckets as names |
| `Performance.SubtractOneMore` | src/performance.c:232-248 | subtracting the next copied bucket touches that name alone, and finds it as it was at first |
| `PerformanceRuns.RecordTallies` | src/performance.c:99-125 | after a record, buckets, counts and maxima are those of the samples with the new one added |
| `PerformanceRuns.RecordSums` | src/performance.c:121-125 | and so are the sums |
| `PerformanceRuns.SubtractTallies` | src/performance.c:232-248 | taking a batch's tallies out of those of everything leaves exactly the tallies of the rest |
| `PerformanceRuns.SubtractSums` | src/performance.c:236-238 | with no negative duration the remaining sums are exact too |
| `PerformanceRuns.NextKeeps` | src/performance.c:87-252 | every step of an interleaving of records, ticks and flushes keeps the invariant |
| `PerformanceRuns.Run` | src/performance.c:87-252 | the invariant holds after every run |
| `PerformanceRuns.Conserved` | src/performance.c:87-252 | in every run, for every name, the samples accepted are those delivered, those dropped (rejected or fifth failure) and those in the bucket, in number and, with no negative duration, in sum |
| `PerformanceRuns.NeverClamped` | src/performance.c:232-248 | in every run the bucket of a batch in flight is there and holds at least the batch: no clamp and no missing bucket; each bucket counts at least one; at most 500 |
| `PerformanceRuns.InsideWindow` | src/performance.c:202-249 | in every run each sample in flight was recorded inside the window sent with it, also when it arrived during an earlier delivery, and no waiting sample is longer than its bucket's maximum |
| `PerformanceWindow.WindowStarts` | src/performance.c:111-249 | in every run the window sent starts where the last one let go ended, if a sample waiting was there already when that batch left, and else with the first sample waiting |
| `PerformanceExact.LeaveExplains` | src/performance.c:232-249 | taking out a copy forgets every earlier clamp: the sum left is that of what came in since, or nothing when that is less than nothing; the maximum stays that of all samples since the bucket was made |
| `PerformanceExact.RunTraced` | src/performance.c:87-252 | the same runs, with when each bucket was made and when a batch last left; every maximum and sum is explained by them, whatever the durations |
| `PerformanceExact.MaxExactIff` | src/performance.c:239-243 | in every run, negative durations included, a bucket's maximum is that of the samples waiting if and only if one of these is not negative and no shorter than everything that has left since the bucket was made; it is never less |
| `PerformanceExact.SumExactIff` | src/performance.c:236-238 | in every run a bucket's sum is that of the samples waiting if and only if it was made after the last batch to leave had been copied, or what waited when that batch left did not add up to less than zero; otherwise it is too large |
| `PerformanceExact.LeavingSumIff` | src/performance.c:232-248 | when a batch leaves, a bucket that stays gets an exact sum if and only if what came in since the copy does not add up to less than zero, whatever its sum was before |
| `PerformanceExact.MaxOverstates` | src/performance.c:239-243 | 100 ms delivered while 5 ms comes in leaves one 5 ms sample under maximum 100, and after the next flush one 7 ms sample under 100, although only 5 ms left then |
| `PerformanceExact.NegativeMaxOverstates` | src/performance.c:112-124 | a sample of -3 alone has a bucket with maximum 0 |
| `PerformanceExact.SumOverstates` | src/performance.c:236-238 | 10 delivered while -3 comes in leaves one sample with sum 0 |
| `PerformanceOverlap.SubtractRightIff` | src/performance.c:232-248 | taking out a copy leaves the right count of a name if and only if none of the copy's samples of that name was taken out before, or none that is not in the copy waits |
| `PerformanceOverlap.AlwaysRightIff` | src/performance.c:87-252 | a weaker fact, about the buckets alone, in any run with any number of flushes in flight: every bucket has counted its waiting samples at every step if and only if each answer that let a batch go met that condition for every name |
| `PerformanceOverlap.SumsRightToo` | src/performance.c:87-252 | in any run whose counts have always been right and whose durations are not negative, every bucket's sum is that of its waiting samples |
| `PerformanceOverlap.OverlapLosesASample` | src/performance.c:189-252 | two flushes of one sample, and one that comes in between their answers: it is taken out although no copy held it |
| `PerformanceConserved.ConservedIff` | src/performance.c:87-252 | in any run, with any number of flushes in flight: the copies that left and what waits share out the accepted samples, each to exactly one of them, and every bucket counts right, if and only if every copy left with no other having left since it was made |
| `PerformanceConserved.Balances` | src/performance.c:87-252 | then, for each name, the samples accepted are those reported as delivered, those dropped and those in the bucket, in number and, no duration being negative, in sum |
| `PerformanceConserved.DisturbedRepeats` | src/performance.c:221-249 | a copy that leaves after another left since it was made sends some sample a second time |
| `PerformanceConserved.DeliveredTwice` | src/performance.c:189-252 | two flushes of one sample, both delivered: one accepted, two reported, although the buckets are right throughout |
| `BreadcrumbEntry.Kept` | src/breadcrumbs.c:62-69 | at most max bytes, all of a short value, never a cut inside a UTF-8 sequence, and no longer cut that would do |
| `BreadcrumbEntry.KeptLength` | src/breadcrumbs.c:65-69 | the loop finds that length, with only continuation bytes from there to the limit |
| `BreadcrumbEntry.AppendEscaped` | src/breadcrumbs.c:62-91 | appends the kept part as one JSON string |
| `BreadcrumbEntry.EncodeEntry` | src/breadcrumbs.c:93-116 | writes the whole object, pairs in order |
| `BreadcrumbEntry.EighteenBytesFit` | src/breadcrumbs.c:164-180 | with at most 18 bytes of message and no pairs the worst escaping of every field is at most 971 bytes |
| `BreadcrumbEntry.Fit` | src/breadcrumbs.c:164-180 | for every input the loop ends with an entry below 1024 bytes that is one line from "{" to "}", never gives up, and every longer form it could have kept was too long |
| `BreadcrumbEntry.EncodedShape` | src/breadcrumbs.c:93-116 | an encoded entry is one line without control characters, from "{" to "}" |
| `BreadcrumbJson.ReadEscaped` | src/breadcrumbs.c:71-90 | a JSON reader gets back every escaped text, byte for byte |
| `BreadcrumbJson.EntryRoundTrip` | src/breadcrumbs.c:93-116 | reading an encoded entry as JSON gives back category, message, level, timestamp and every data pair, each up to where it was cut, with nothing left over |
| `BreadcrumbJson.CutIsLongest` | src/breadcrumbs.c:63-69 | what is kept of a value is its longest part within the limit that ends between characters |
| `BreadcrumbJson.PlainMessageComesBack` | src/breadcrumbs.c:65-91 | a message of one-byte characters comes back as exactly its first bytes up to the limit |
| `BreadcrumbRing.AddSafe` | src/breadcrumbs.c:182-195 | after any number of the stores of an add, every slot the handler would dump is empty or a whole entry this thread added, and all of the stores together leave a trimmed ring with the entry written |
| `BreadcrumbRing.ClearSafe` | src/breadcrumbs.c:207-211 | the same after any number of the stores of a clear |
| `BreadcrumbRing.CopySafe` | src/breadcrumbs.c:191-193 | the same while the bytes of an entry are copied past the newest one, first to last |
| `BreadcrumbCopy.UnpublishedBytesSafe` | src/breadcrumbs.c:191-193 | the same while bytes are stored into that slot in any order and of any value |
| `BreadcrumbCopy.AddSafeInAnyOrder` | src/breadcrumbs.c:182-195 | an add whose memcpy stores its bytes in any order, some perhaps twice, is safe after any number of its stores and ends with the same ring |
| `BreadcrumbRing.TrimmedTrail` | src/breadcrumbs.c:187-190 | trimming keeps the newest max - 1 entries, in order |
| `BreadcrumbRing.AddTrail` | src/breadcrumbs.c:182-195 | an add leaves the newest max of the trail and the new entry, whatever max was before |
| `BreadcrumbRing.UnchangedUntilPublishedIff` | src/breadcrumbs.c:183-186 | until the last store of an add the trail a handler would dump is the one before, at every interruption point, if and only if there was nothing to trim |
| `BreadcrumbDump.AddDumps` | src/breadcrumbs.c:182-195 | exactly what the handler would dump after each store of an add: the trail, one entry shorter after every second store while trimming, in between also the slot past the newest entry, and the new entry only after the last store |
| `BreadcrumbDump.OnlyTheTrail` | src/breadcrumbs.c:187-194 | so nothing but entries of the trail and at the end the new one, except between the store of the start and that of the count while trimming a ring that was not full |
| `BreadcrumbDump.ClearDumps` | src/breadcrumbs.c:207-211 | exactly what the handler would dump after each store of a clear: the trail, then the slots from the first on, then nothing |
| `BreadcrumbDump.SlotUnreadIff` | src/breadcrumbs.c:187-193 | the slot an add writes is one the handler never reads while the add trims if and only if there is nothing to trim: only then may bytes be stored in between |
| `BreadcrumbDump.SlotUnreadBeforeIff` | src/breadcrumbs.c:187-193 | before the trimming that slot is not read if and only if the ring is not full |
| `BreadcrumbDump.CopyFirstSafe` | src/breadcrumbs.c:187-194 | an add to a ring that is not full is safe after any number of its stores also with the whole copy moved before the trimming |
| `BreadcrumbDump.CopiedTooEarly` | src/breadcrumbs.c:187-193 | one byte copied before the trimming of a full ring, and the handler would dump a mixture of two entries |
| `BreadcrumbRing.RingIsTrail` | src/breadcrumbs.c:118-211 | after every history of adds and clears, max_breadcrumbs raised or lowered at will, the ring is the last-N trail of a plain sequence |
| `BreadcrumbRing.NewestOfAdds` | src/breadcrumbs.c:124-195 | with one max_breadcrumbs throughout the trail is the newest so many entries, never over 100, none when it is not positive |
| `BreadcrumbRing.ThreadRing.constructor` | src/breadcrumbs.c:45-60 | an empty ring of that capacity, all slots empty |
| `BreadcrumbRing.ThreadRing.Add` | src/breadcrumbs.c:182-195 | makes exactly the stores that are proved safe, in that order |
| `BreadcrumbRing.ThreadRing.Trim` | src/breadcrumbs.c:187-190 | the trimming stores, two for each entry dropped, and the ring they leave |
| `BreadcrumbRing.ThreadRing.Write` | src/breadcrumbs.c:191-194 | the bytes first, the count last |
| `BreadcrumbRing.ThreadRing.Copy` | src/breadcrumbs.c:192 | one store for each byte, in one slot only |
| `BreadcrumbRing.ThreadRing.Clear` | src/breadcrumbs.c:207-211 | start, then count |
| `BreadcrumbRing.ThreadRing.Snapshot` | src/breadcrumbs.c:213-229 | the trail, oldest first |
| `CrashReport.WriteTrail` | src/breadcrumbs.c:237-248 | one marked line for each dumped slot, in order |
| `CrashReport.ReadLine` | src/signal_handler.c:126-172 | what fgets takes: through the next newline, at most the buffer |
| `CrashReport.DecodeReport` | src/signal_handler.c:125-204 | the loop computes the decoding the round trip is about |
| `CrashReport.RoundTrip` | src/signal_handler.c:162-204 | decoding a completely written report gives back the signal name, every frame line, every dumped entry in order and the trace id |
| `CrashReport.FramesComeBackIff` | src/signal_handler.c:170-204 | frame lines come back as they were if and only if each is not empty, fits the line buffer and does not start with a marker |
| `CrashReport.TraceIdComesBackIff` | src/signal_handler.c:175-184 | a trace id that was written comes back if and only if it is 32 lowercase hexadecimal digits; any other leaves nothing |
| `CrashReport.CrashBetweenCalls` | src/signal_handler.c:162-204 | a crash after any history of adds and clears, none included: the next launch decodes exactly the plain trail |
| `CrashReport.CrashInsideAdd` | src/breadcrumbs.c:182-195 | a crash at any store of an add, the first of the thread included: name, frames and trace id come back, the entries decoded are exactly those of the dump described above, and each is a whole one this thread added |
| `CrashReport.CrashInsideClear` | src/breadcrumbs.c:207-211 | the same for a crash at any store of a clear |
| `SqlMask.NoQuoteLeft` | src/sql_statement.c:119-188 | the masked statement holds no single quote, and for MySQL and MariaDB no double quote |
| `SqlMask.NextSame` | src/sql_statement.c:132-177 | a step that ends before a literal takes the same branch and the same length whatever the literal says |
| `SqlMask.MaskedSame` | src/sql_statement.c:132-177 | two statements that agree up to an opening quote mask alike as soon as they mask alike from there |
| `SqlMask.EscapedIsClosed` | src/sql_statement.c:41-58 | a properly escaped text is closed by the quote after it, and, unless the statement ends there, only such a text is |
| `SqlMask.LiteralIgnored` | src/sql_statement.c:119-188 | what a literal says, cut-off ones included, has no influence on the output |
| `SqlMask.LiteralTextDoesNotMatter` | src/sql_statement.c:119-188 | replacing the inside of any quoted literal the masker reaches by any properly escaped text leaves the whole result as it is, truncation included |
| `SqlRules.OpeningIsMatch` | src/sql_statement.c:24-39 | a literal opens exactly where the regular expression for quotes and free-standing markers matches, at the same quote |
| `SqlRules.QuotedIs` | src/sql_statement.c:41-58 | a literal ends at the one quote after an escaped text that no second quote follows, and with the statement when there is none |
| `SqlRules.DollarOpensIff` | src/sql_statement.c:142-147 | a dollar body opens exactly at a tag |
| `SqlRules.ClosingIsFirst` | src/sql_statement.c:148-156 | it ends with the first occurrence of its tag, or with the statement |
| `SqlRules.LiteralStep` | src/sql_statement.c:137-141 | a literal that opens is masked from its marker to its closing quote |
| `SqlRules.NumberStep` | src/sql_statement.c:161-168 | the longest standalone number that is no part of a word, placeholder or fraction is masked |
| `SqlRules.PlainStep` | src/sql_statement.c:132-177 | a character that starts no literal, dollar body or number is written as it is |
| `SqlRules.WordIsKept` | src/sql_statement.c:24-30 | a word goes into the output whole, whatever follows it |
| `SqlRules.WordBeforeString` | src/sql_statement.c:24-26 | a word right before a string keeps its last letter: LIKE and a string give LIKE? |
| `SqlRules.CutIs` | src/sql_statement.c:179-186 | up to 4000 bytes unchanged; longer, cut after the last character that ends within them, and dots |
| `SqlScan.RunEnd` | src/sql_statement.c:60-63 | where a run of digits, hex digits, bits or tag characters ends |
| `SqlScan.QuotedEnd` | src/sql_statement.c:44-58 | the end of the literal, escapes and a missing closing quote included |
| `SqlScan.DollarEnd` | src/sql_statement.c:142-160 | finds a dollar-quoted body exactly when one starts, and its end |
| `SqlScan.ClosingEnd` | src/sql_statement.c:147-154 | the end of the first occurrence of the tag, or of the statement |
| `SqlScan.FractionEnd` | src/sql_statement.c:66-69 | the end of the fraction, or that there is none |
| `SqlScan.ExponentEnd` | src/sql_statement.c:72-78 | the end of the exponent, or that there is none |
| `SqlScan.MantissaEnd` | src/sql_statement.c:108-113 | what a mantissa gives: with its exponent if that stands alone, else by itself if that does, else nothing |
| `SqlScan.RadixEnd` | src/sql_statement.c:87-96 | the end of a standalone hex or binary number |
| `SqlNumber.NumberIsLongest` | src/sql_statement.c:80-115 | by a grammar of numbers of its own: what the rules take is a standalone number, and no standalone number that starts there is longer; none is taken exactly when there is none |
| `SqlScan.FirstReading` | src/sql_statement.c:86-115 | the readings in the order they are tried, the first that stands alone |
| `SqlScan.NumberEnd` | src/sql_statement.c:80-115 | the end of the longest standalone number that starts there, -1 exactly when there is none |
| `SqlScan.StringQuote` | src/sql_statement.c:27-39 | the quote at which that regular expression matches, -1 exactly when it does not |
| `SqlScan.Turn` | src/sql_statement.c:132-177 | one turn of the loop writes and skips what the rules say |
| `SqlScan.CutBack` | src/sql_statement.c:179-186 | the cut at a character boundary |
| `SqlScan.MaskStatement` | src/sql_statement.c:119-188 | the whole function computes the masking the theorems are about, nothing for a blank statement |
| `Spans.Trace.constructor` | src/spans.c:186-204 | no open span, no span kept |
| `Spans.Trace.Start` | src/spans.c:300-311 | the parent is the deepest tracked open span or the root; pushed unless 64 are tracked |
| `Spans.Trace.Stop` | src/spans.c:313-328 | the last occurrence of the id is taken out of the stack, the order of the rest kept, and the span kept if there is room |
| `Spans.Trace.CloseGap` | src/spans.c:322 | the ids above the one removed move down, in order |
| `Spans.Trace.Record` | src/spans.c:330-337 | kept under the current parent, the stack unchanged |
| `Spans.Trace.Append` | src/spans.c:173-178 | kept unless 499 are |
| `Spans.PullIs` | src/spans.c:320-326 | searching from the top and closing the gap removes exactly the last occurrence |
| `Spans.SubsequencePull` | src/spans.c:320-326 | taking one id out of the stack and out of the unstopped spans keeps the one a subsequence of the other |
| `Spans.NextKeeps` | src/spans.c:274-337 | every start, stop in any order, and record keeps the invariant |
| `Spans.Run` | src/spans.c:169-337 | in every run every span started or recorded has the root or an earlier-started span as its parent, every span kept is one of these, a stopped one with the parent it was started under, the open stack is a subsequence of the unstopped spans in start order, and at most 500 spans are sent |
| `Spans.Chain` | src/spans.c:169-171 | from every span the parents lead to the root, each step a started span's own |
| `Spans.LifoParent` | src/spans.c:300-311 | under last-in-first-out use, with k spans open, the next parent is the min(k, 64)-th of them, or the root |
| `SpansStray.ParentsKnownIff` | src/spans.c:313-328 | in every run, whatever id and parent is handed to stop: all spans kept have a parent in this trace if and only if every stop that was kept handed in one |
| `SpansStray.StrayStop` | src/spans.c:313-328 | a span stopped in another trace is kept there under a parent that trace never had |
| `SpansSent.RunTrail` | src/spans.c:173-328 | in every run each span started is still open, or was dropped for want of room, or is kept, and only one of these |
| `SpansSent.ParentsSentIff` | src/spans.c:274-298 | a trace ended now holds the parent of each of its spans if and only if none of these parents is still open or was dropped |
| `SpansSent.Orphan` | src/spans.c:274-328 | an inner span stopped, the outer one not: it is sent without its parent |
| `StrictPath.Idempotent` | src/strict_privacy.c:344-379 | a second pass changes nothing, for every path |
| `StrictPath.OnlyFirstSegmentMatters` | src/strict_privacy.c:356-378 | on the text: two raw paths with the same first segment give the same result if both or neither start with a slash and both or neither have more than slashes behind it before any query |
| `StrictPath.RawPathParts` | src/strict_privacy.c:356-363 | every path that is not slashes only has such parts |
| `StrictPath.SlashesAlone` | src/strict_privacy.c:359 | a path of slashes only, or none, gives "/" |
| `StrictPath.RawPathShows` | src/strict_privacy.c:356-378 | on the text: leading slashes, a first segment and any tail give a slash if there was one, the segment or ":id", and "/:path" exactly when the tail before any query holds more than slashes |
| `StrictPath.RawSegments` | src/strict_privacy.c:356-378 | a raw result is a template exactly when it holds a placeholder, and otherwise has just its segment |
| `StrictPath.RouteParameterIffShape` | src/strict_privacy.c:319-330 | a segment is a route parameter exactly when it is a colon and something, a star and anything, or something in braces, angle or square brackets, on one line |
| `StrictPath.TemplateIsKept` | src/strict_privacy.c:348-354 | a path with such a segment comes out as it is, up to any query |
| `StrictPath.SplitJoins` | src/strict_privacy.c:349-354 | the segments hold no slash and, joined by slashes, are the path |
| `StrictPath.CutAtQuery` | src/strict_privacy.c:345-346 | everything before the first "?" or "#" |
| `StrictPath.FindTemplate` | src/strict_privacy.c:348-354 | found exactly when some segment, empty ones included, is a route parameter |
| `StrictPath.IsId` | src/strict_privacy.c:332-342 | a digit, or more than 40 UTF-8 characters |
| `StrictPath.RawPath` | src/strict_privacy.c:356-378 | the index loops compute the result from the non-empty segments |
| `StrictPath.Strict` | src/strict_privacy.c:344-379 | the whole function computes the result the theorems are about |
| `Sha256.ZeroCount` | src/strict_privacy.c:76-82 | the smallest number of zero bytes that satisfies section 5.1.1 of FIPS 180-4 |
| `Sha256.StartTail` | src/strict_privacy.c:78-81 | the bytes left over, 0x80, then zeros |
| `Sha256.WriteLength` | src/strict_privacy.c:83-84 | the bit length as eight bytes, most significant first, nothing else touched |
| `Sha256.TailIs` | src/strict_privacy.c:76-84 | such a tail after the whole blocks is the padded message |
| `Sha256.Tail` | src/strict_privacy.c:73-84 | for every length below 2^61 the whole blocks and the one- or two-block tail concatenate to the padding of section 5.1.1 |
| `Sha256.ScheduleOf` | src/strict_privacy.c:37-45 | the array filled in place is the message schedule of section 6.2.2 |
| `Sha256.ExtendOrder` | src/strict_privacy.c:41-45 | adding in the source's order gives the standard's word |
| `Sha256.RunRounds` | src/strict_privacy.c:47-59 | the 64 rounds of section 6.2.2 |
| `Sha256.CompressBlock` | src/strict_privacy.c:36-68 | the state array becomes the standard's next hash value |
| `Sha256.FoldSplit` | src/strict_privacy.c:73-85 | hashing in two parts is hashing the whole |
| `Sha256.HashBlocks` | src/strict_privacy.c:74-85 | block after block in place is the fold |
| `Sha256.Hash` | src/strict_privacy.c:70-93 | the digest is the section 6.2.2 fold over the section 5.1.1 padding |
| `Sha256Abc.AbcDigest` | src/strict_privacy.c:25-93 | the digest of "abc" is the one FIPS 180-4 gives |
| `Sha256Bits.ChBits` | src/strict_privacy.c:49 | x chooses: the bits of y where x has ones, those of z where it has zeros |
| `Sha256Bits.MajBits` | src/strict_privacy.c:50 | where two agree, their bit |
| `Sha256Bits.RotrBit` | src/strict_privacy.c:34 | bit i of a rotated word is bit i + n, counted round |
| `Sha256Bits.Big0Bit` | src/strict_privacy.c:50 | each bit of the first large sigma is the sum of the three bits the standard names |
| `Sha256Bits.Big1Bit` | src/strict_privacy.c:49 | and of the second |
| `Sha256Bits.Small0Bit` | src/strict_privacy.c:42 | and of the first small sigma, shifted-out bits not coming back |
| `Sha256Bits.Small1Bit` | src/strict_privacy.c:43 | and of the second |
| `Sha256Bits.JoinIsNumber` | src/strict_privacy.c:38-40 | four bytes make the word that is their base-256 number, and come back from it |
| `Sha256Bits.OctetsJoin` | src/strict_privacy.c:87-92 | the four bytes of a word, joined, are the word |
| `Sha256Bits.BigEndianIsNumber` | src/strict_privacy.c:83-84 | the length bytes are the length, most significant first |
| `Sha256Constants.PrimesInOrder` | src/strict_privacy.c:24-32 | the primes used are the first 64, in order, none left out |
| `Sha256Constants.RoundConstantsAreCubeRoots` | src/strict_privacy.c:24-32 | each round constant is the first 32 bits of the fraction of the cube root of its prime |
| `Sha256Constants.InitialValueIsSquareRoots` | src/strict_privacy.c:71 | each initial word is that of the square root of one of the first eight |
| `CrashStore.LessIsTotal` | src/crash_store.c:61-66 | strcmp orders any two names one way only |
| `CrashStore.BeforeIsOrder` | src/crash_store.c:59-66 | (mtime, path) is a strict total order |
| `CrashStore.LessIsFirst` | src/crash_store.c:65 | a name comes before another exactly when it is a proper beginning of it or smaller at the first place where they differ |
| `CrashStore.Sort` | src/crash_store.c:143 | sorted, and the same entries |
| `CrashStore.NewestOfSorted` | src/crash_store.c:145-154 | dropping the excess from the front leaves the newest, and drops all the others |
| `CrashStore.NewestIsUnique` | src/crash_store.c:68-162 | the directory and the cutoff determine the list: no other order or choice satisfies its specification |
| `CrashStore.NewestIsByTime` | src/crash_store.c:59-155 | on the times themselves: the listed times never decrease, names ascend among equal times, and a file that is not listed is no later than any that is |
| `CrashStore.ListingRemovesRightly` | src/crash_store.c:115-150 | a listing removes only files named like reports, and only for being over a week old or for twenty that are no older being listed; one over a week old always |
| `CrashStore.Store.Gather` | src/crash_store.c:82-140 | the reports not too old, each once; the too old ones, and no others, removed |
| `CrashStore.Store.Discard` | src/crash_store.c:147-150 | removes exactly those files |
| `CrashStore.Store.ListPending` | src/crash_store.c:68-162 | in whatever order the directory is read: the newest at most 20 not past the age limit, by their times, oldest first; removed are exactly the too old and those over the cap |
| `CrashStore.SettledWhen` | src/reporter.c:53-63 | a report is removed when it can not be read, or the answer is in the 200s, or in the 400s and not 408 or 429 |
| `CrashStore.Store.Send` | src/reporter.c:42-67 | what was sent, in order; removed are exactly the unreadable, delivered and rejected; in stop mode nothing after the first failed-for-now report is sent or removed |
| `CrashStore.Store.UploadPending` | src/reporter.c:36-70 | listing and sending together: every file removed was too old, over the cap, unreadable, delivered or rejected, and every other file is still there |

## Left out

- The eight POSIX-regex patterns of src/pii_scrubber.c and the order in which `forgeops_scrub_string` applies everything: `regexec` is not part of the repository.
- The other steps of the message normalizer (quoted text, hex ids, UUIDs, numbers), span and transaction names, and which fields strict privacy allows.
- What a second pass of the SQL masker, the normalizer or `forgeops_scrub_string` does: none of them promises to change nothing.
- The SQL tokenizer and `forgeops_sql_objects_json`; the masker takes whether the system is MySQL or MariaDB as a flag.
- A raw report cut in the middle of a line: the condition at src/signal_handler.c:191 looks at the first and last byte only.
- JSON payloads other than breadcrumbs, HTTP, files and directories, `backtrace`, clocks, `strftime`, random ids, threads and their start and end: their results are inputs, or steps of a run.
- The send queue of traces, the capture threshold, and names, kinds, times and data of spans: only ids and parents are kept.
- Configuration switches, null arguments and allocation failure: the model starts where they have been passed.
- `changes.c`, `trace_parent.c`, the event builder, user storage and the public facade: plumbing with easy claims.
- BreadcrumbEntry.Fit: the timestamp is taken to be what `strftime` writes with the format at src/breadcrumbs.c:136, at most 31 characters none of which is escaped.
- CrashReport.RoundTrip: frame lines are taken to fit the line buffer and not to start with a marker, as the lines `backtrace_symbols_fd` writes do; `CrashReport.FramesComeBackIff` proves that they come back only then.
- CrashStore.Sort: `qsort` is replaced by an insertion sort on values, since its own order of steps is not part of the repository; by `CrashStore.NewestIsUnique` the list is the same.
- Performance.Tracker.Record: the bucket array is a sequence the tracker reassigns, so reuse of the C array's memory is not modelled.
- Metrics.Run: assumes flushes that do not overlap; with overlapping ones conservation can fail, and `MetricsOverlap.ConservedIff` has the exact condition.
- PerformanceRuns.Conserved: assumes flushes that do not overlap; with overlapping ones conservation can fail, and `PerformanceConserved.ConservedIff` has the exact condition.
- PerformanceConserved.ConservedIff: maxima and windows under overlapping flushes are not treated, only counts, sums and which buckets there are.
