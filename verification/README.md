# Redactr in Dafny

Redactr is a redacting proxy with a small control plane. This project models five of its parts and
proves what they keep over all inputs and all runs.

* **Redaction spans** (`Findings`, `Redactor`, `RedactionLaws`, `ScanPipeline`, `ScanLaws`, `ScanCoverage`,
  `Pieces`, `Messages`, `PutBack`, `Forwarding`). A text is a sequence of bytes; a layer is an arbitrary function from its rules and a text to
  findings or a failure, and may be skipped by a timeout or because it is not ready. Each layer sees a text
  that already has placeholders in it; its spans are mapped back to the original. The final redaction sorts
  and deduplicates the findings of the caller's slice in place and sweeps over what remains. `sort.Slice` is
  not stable, so `Sorting.SortSlice` promises only some sorted permutation and every result holds for any.
* **The scan cache and the coordinator** (`LruCache`, `ScanCache`, `Coherence`, `Coordinator`). The map and list of
  entries that are updated in place are proved against a recency sequence, of which the history theorems
  speak.
* **The control plane** (`PolicySync`, `PolicyService`, `Enrollment`). Both protocols are step systems with
  invariants over every run; the classes that carry them out are proved to take exactly those steps.
* **The ClientHello parser** (`ClientHello`), after section 7.4.1.2 of RFC 5246 and section 3 of RFC 6066.
* **Checksums and the firewall controller** (`Checksums`, `Iban`, `Firewall`).

Where the code and what is written about it disagree, the model follows the code:

* The design document (`docs/superpowers/specs/2026-04-25-redactr-design.md:182`) lets the longest of
  overlapping findings win. The code drops only findings contained in another; of two that overlap in part
  the later one is skipped whole, even if it is the longer (`RedactionLaws.LongerIsPassedOver`).
  `RedactionLaws.LongestWinsExactly` says exactly for which findings the rule holds.
* Of two findings that overlap in part the tail of the later one stays in the output
  (`RedactionLaws.PartialOverlapLeaks`). `RedactionLaws.CoverageExactly` says exactly when no byte of any finding
  is left over: when some pairwise disjoint choice of maximal findings covers them all. Over a whole scan that
  holds if each layer's findings are tidy (`ScanCoverage.TidyScanIsCovered`); two findings with one start are
  enough for a later layer to report something that stays (`ScanCoverage.SharedStartLeaks`).
* The comment on `parseSNI` (`internal/proxy/sni.go:12-14`) promises "no SNI" for a well-formed hello without
  the extension. A hello without any extensions field, which section 7.4.1.2 of RFC 5246 allows, is reported as malformed.
* Forwarding a redacted request promises to change its texts only. When anything was redacted, the text is split
  at newlines and its lines are put back into the parts in order. A part with two lines pushes the rest along
  (`Forwarding.SecondLineIsLost`). An empty `tool_result` takes no text on extraction but a line on replacement, and
  the part behind it may then keep what was to be redacted (`Forwarding.EmptyToolResultKeepsTheSecret`).
  `Forwarding.ForwardedExactly` says exactly which requests are forwarded as intended: those that redaction does
  not change, and those whose redacted parts have no newline up to the first empty tool result and only blanks
  from there on, and from which decoding drops nothing.
* Decoding keeps four members of each part and two of the message; everything else is dropped by definition
  (`Messages.RestIsDropped`). An image part comes back without its source (`Messages.ImageLosesItsSource`).
* `SetAllowedWords` does not flush the cache (`Coherence.AllowListAloneGoesStale`); that is safe exactly if the old
  and the new list let the same values pass (`Coherence.AllowListExactly`). The configuration reload is coherent
  because it calls `Reconfigure` first.
* A scan that a timeout cut short is cached like any other, and its answer given to later calls
  (`Coherence.TimeoutIsCached`) until the cache is flushed; what is cached is sure to be right exactly if no layer
  came late (`Coherence.LatenessExactly`).
* The IBAN check also accepts the check digits 00, 01 and 99, which ISO 7064 excludes, where the proper pair
  is 97, 98 or 02 (`Iban.OneCheckPair`).
* `ErrAlreadyEnabled` (`internal/firewall/controller.go:156-158`) is never returned: a second `Enable`
  replaces the rules of the first.

## Model

| member | source | states |
|---|---|---|
| Findings.UnweaveWeave | internal/redactor/redactor.go:34-55 | swapping every placeholder of a rebuilt text for other fills gives the text rebuilt with those fills: replacements can be told apart from the rest |
| Findings.WeaveLength | internal/redactor/redactor.go:34-55 | length is conserved: output = input − replaced spans + fills |
| Findings.WeaveNothing | internal/redactor/redactor.go:34-55 | with its fills taken out, a rebuilt text is exactly the uncovered bytes, in order |
| Findings.PlaceholderExactly | internal/redactor/redactor.go:43 | a placeholder is the ten characters "[REDACTED-", the tag, and a closing bracket |
| Findings.PlaceholderIsInjective | internal/redactor/redactor.go:43 | different tags have different placeholders |
| Redactor.DedupFindings | internal/redactor/redactor.go:58-80 | leaves the caller's slice sorted (start, then longer first) with the same findings in it, and returns what no finding kept earlier contains |
| Redactor.DedupIsMaximal | internal/redactor/redactor.go:58-80 | exactly the findings maximal under containment are kept, one per span, starts and ends strictly increasing, and every input span lies in a kept one |
| Redactor.DedupKeepsAStaircase | internal/redactor/redactor.go:66-79 | starts and ends of the kept findings both increase strictly |
| Redactor.DedupSpansAreOrderIndependent | internal/redactor/redactor.go:58-65 | whichever order the unstable sort picks, the same spans are kept in the same order |
| Redactor.SecondSortChangesNothing | internal/redactor/redactor.go:30-32 | the second sort has only one possible result: what was there |
| Redactor.Redact | internal/redactor/redactor.go:23-56 | on any findings whatever: the text, the applied list, or the out-of-range slice that the sweep over the sorted, deduplicated findings gives; only the order of the caller's slice changes |
| RedactionLaws.PlaceholdersStand | internal/redactor/redactor.go:38-53 | in the returned text each replaced span has become "[REDACTED-", its own tag and "]", at the place that the spans before it leave it, and its record says just that, what stood there, and where |
| RedactionLaws.TagsShow | internal/redactor/redactor.go:38-53 | another tag for one of the spans makes another text |
| RedactionLaws.SliceableExactly | internal/redactor/redactor.go:38-53 | no slice is out of range if and only if each taken span starts and ends inside the text |
| RedactionLaws.RedactStaysInRange | internal/redactor/redactor.go:28-55 | findings inside the text never lead to a slice out of range; applied spans are findings, disjoint and in order |
| RedactionLaws.SweepIsOptimal | internal/redactor/redactor.go:38-53 | no pairwise disjoint choice of non-empty maximal findings is larger than the set of non-empty spans that the sweep applies |
| RedactionLaws.AppliedIsDisjointAndMaximal | internal/redactor/redactor.go:38-53 | what the sweep applies is disjoint and maximal, so its non-empty spans are themselves such a choice |
| RedactionLaws.FirstByteIsReplaced | internal/redactor/redactor.go:38-53 | the first byte of every non-empty kept finding is replaced |
| RedactionLaws.CoverageExactly | internal/redactor/redactor.go:38-53 | every byte of every finding is replaced if and only if some pairwise disjoint choice of maximal findings covers them all |
| RedactionLaws.NoGapExactly | internal/redactor/redactor.go:38-53 | the same told from the sweep: if and only if, wherever a kept finding sticks out past an applied one, some kept finding starts right there |
| RedactionLaws.PartialOverlapLeaks | internal/redactor/redactor.go:38-53 | a concrete pair of partially overlapping findings of which the second keeps its tail in the output |
| RedactionLaws.LongerIsPassedOver | internal/redactor/redactor.go:38-53 | of that pair it is the longer finding that is passed over |
| RedactionLaws.LongestWinsExactly | internal/redactor/redactor.go:38-53 | every kept finding that is passed over starts inside an applied one at least as long, if and only if some disjoint choice of maximal findings has all other maximal ones start inside one at least as long |
| RedactionLaws.LaminarIsCovered | internal/redactor/redactor.go:38-53 | nested or disjoint findings: all kept findings are applied, and a byte is replaced exactly if a finding covers it |
| RedactionLaws.RedactIsReversible | internal/redactor/redactor.go:34-55 | putting each recorded original back at its label rebuilds the input exactly, and the lengths add up |
| RedactionLaws.RedactKeepsTheRest | internal/redactor/redactor.go:34-55 | apart from placeholders the output is the uncovered bytes in order |
| ScanPipeline.ToOriginalPos | internal/scanner/pipeline.go:138-153 | the loop over the offset entries computes the mapping that the laws below speak of |
| ScanPipeline.ToOriginalMonotone | internal/scanner/pipeline.go:138-153 | mapping back is monotone |
| ScanPipeline.ToOriginalInside | internal/scanner/pipeline.go:138-153 | positions in the working text go to positions in the original text |
| ScanPipeline.ToOriginalNeverSplits | internal/scanner/pipeline.go:138-153 | no position is mapped strictly inside a replaced span |
| ScanPipeline.ClearSpanIsCopied | internal/scanner/pipeline.go:113-153 | a non-empty span that touches no placeholder is mapped to a span of the original with the same text |
| ScanPipeline.ToOriginalInvertsToWorking | internal/scanner/pipeline.go:138-153 | mapping back undoes the forward shift |
| ScanPipeline.UncoveredByteIsSeen | internal/scanner/pipeline.go:113-136 | every uncovered byte appears in the working text at its shifted position |
| ScanPipeline.ApplyRedactions | internal/scanner/pipeline.go:113-136 | sweeps over some by-start order of the findings that fit and are not empty, and returns the text with just the spans taken replaced, and their entries |
| ScanPipeline.MappedFinding | internal/scanner/pipeline.go:64-71 | every finding in the working text comes back with its tag and value, in bounds, disjoint from or around each replaced span, quoting what the layer saw if it touched no placeholder |
| ScanPipeline.ScanStaysInText | internal/scanner/pipeline.go:37-79 | after any number of layers, timeouts and skips, all findings lie in the original text |
| ScanPipeline.FaithfulScanQuotesTheText | internal/scanner/pipeline.go:37-79 | if layers quote what they see and keep off placeholders, every value is the original text at its span |
| ScanPipeline.Pipeline.ScanLayer | internal/scanner/pipeline.go:43-76 | one turn of the loop is one step of the stage relation: not ready, failed, late, nothing found, or findings mapped in place, appended and replaced; the working text is always that of the report so far |
| ScanPipeline.Pipeline.Scan | internal/scanner/pipeline.go:37-79 | the report is that of a whole run of stages, with one entry per layer |
| ScanPipeline.Pipeline.Reconfigure | internal/scanner/pipeline.go:164-170 | gives the new rules to the layers that take them and changes no other |
| ScanLaws.ScanThenRedactStaysInRange | internal/scanner/pipeline.go:37-79 | redacting with any selection of a scan's findings takes no slice out of range, whatever the layers find |
| ScanLaws.FaithfulScanIsReversible | internal/redactor/redactor.go:34-55 | scan, filter and redact with faithful layers can be undone from the applied list |
| ScanLaws.WorkingTextIsFinalText | internal/scanner/pipeline.go:113-136 | non-empty, nested or disjoint findings with distinct starts: `applyRedactions` and `Redact` produce the same text and apply the same findings |
| ScanCoverage.MappedAreTidy | internal/scanner/pipeline.go:64-71 | findings that are non-empty, nested or disjoint, off the placeholders and with distinct starts are still so in the original text |
| ScanCoverage.TidyScanIsCovered | internal/scanner/pipeline.go:37-79 | if each layer reports such findings, so does the scan; exactly their bytes are replaced in the end, and the last working text is the final text |
| ScanCoverage.SharedStartLeaks | internal/scanner/pipeline.go:113-136 | a concrete run in which two findings share a start and a later layer's finding keeps its tail in the output |
| LruCache.RunKeepsShape | internal/scanner/cache.go:57-81 | after any operations keys are distinct and the size is at most max(1, maxSize) |
| LruCache.CountersCountGets | internal/scanner/cache.go:41-55 | hits plus misses is the number of lookups ever made, across invalidations |
| LruCache.HitsToldFromHistory | internal/scanner/cache.go:41-88 | a lookup hits if and only if something was put under the key since the last invalidation and fewer than max(1, maxSize) distinct other keys were touched since its last touch |
| LruCache.HitReturnsLastPut | internal/scanner/cache.go:41-81 | a hit returns what was last put under the key since the last invalidation |
| LruCache.CountersToldFromHistory | internal/scanner/cache.go:41-55 | over every run the hits are the lookups of keys that are remembered in that sense, and the misses the others |
| LruCache.TouchedStandsInFront | internal/scanner/cache.go:41-81 | what was just put or found stands in front, with the value put last |
| LruCache.RunsAreIncluded | internal/scanner/cache.go:41-88 | on one sequence of operations the smaller recency list is a subsequence of the larger |
| LruCache.LargerCacheHitsToo | internal/scanner/cache.go:41-88 | a larger cache hits wherever a smaller one does, with the same answer |
| ScanCache.Cache.constructor | internal/scanner/cache.go:33-39 | an empty cache with zero counters |
| ScanCache.Cache.Get | internal/scanner/cache.go:41-55 | the map-and-list cache takes the recency sequence's step; a hit raises hits by one and nothing else, a miss misses; hit, text and report are those of the sequence |
| ScanCache.Cache.Put | internal/scanner/cache.go:57-81 | the whole new state: an entry updated in place and moved to the front, or a new front entry after dropping the last when full |
| ScanCache.Cache.Invalidate | internal/scanner/cache.go:83-88 | map and list are emptied, the counters stay |
| ScanCache.Cache.GetStats | internal/scanner/cache.go:90-101 | reports the counters, the size of the recency sequence and the configured maximum |
| Coherence.ApplyIsCoherent | internal/coordinator/coordinator.go:33-58 | hits and insertions of fresh answers keep every cached answer one the uncached coordinator could give |
| Coherence.RunStaysRight | internal/coordinator/coordinator.go:26-75 | after every run of scans, flushes, new rules, reloads and new allow-lists, whatever happened before the last flush: if no scan since then was cut short and no new list let other values pass, all that is cached is right under the configuration then |
| Coherence.RunAnswersRight | internal/coordinator/coordinator.go:33-58 | and every such scan is answered as the uncached coordinator may answer |
| Coherence.AnswerIsRemembered | internal/coordinator/coordinator.go:33-58 | a scan of the same text right afterwards gives the same text and report, from the cache |
| Coherence.PermittedOfConcat | internal/coordinator/coordinator.go:43-51 | the allow-list judges each finding by itself and keeps the order |
| Coherence.PermittedOne | internal/coordinator/coordinator.go:43-51 | a finding is dropped if and only if its lower-cased value is on the list |
| Coordinator.Coordinator.ScanAndRedact | internal/coordinator/coordinator.go:33-58 | from any cache: a hit gives the stored answer and refreshes it, a miss gives what pipeline, allow-list and `Redact` give with the late layers left out and stores it; on a cache that is right, with no layer late, the answer is right under the current configuration and the cache stays right |
| Coordinator.Coordinator.Compute | internal/coordinator/coordinator.go:38-53 | the uncached path: the findings of a whole run, filtered, sorted in some order and redacted, never out of range |
| Coordinator.Coordinator.FilterAllowed | internal/coordinator/coordinator.go:43-51 | drops from the report exactly the findings whose lower-cased value is allowed, keeping the order, by moving the others to the front of its array |
| Coordinator.Coordinator.SetAllowedWords | internal/coordinator/coordinator.go:26-31 | replaces the list by the lower-cased words and leaves the cache; what was right stays right if the cache is empty or both lists let the same values pass |
| Coordinator.Coordinator.InvalidateCache | internal/coordinator/coordinator.go:60-62 | from any cache, even after a timeout or a new allow-list: empties it, and it is right again |
| Coordinator.Coordinator.Reconfigure | internal/coordinator/coordinator.go:71-75 | from any cache: new rules and an empty cache, right under them |
| Coordinator.Coordinator.Reload | internal/daemon/daemon.go:249-261 | from any cache: rules, then words and timeout, and an empty cache, right under the new configuration |
| Coherence.AllowListAloneGoesStale | internal/coordinator/coordinator.go:26-31 | a concrete cached answer that the coordinator would not give under a new allow-list |
| Coherence.AllowListExactly | internal/coordinator/coordinator.go:26-31 | what is right under one allow-list is right under another, for all texts and honest layers, if and only if both let the same values pass |
| Coherence.LatenessExactly | internal/scanner/pipeline.go:81-105 | what any layers answer with some cut off by the timeout is what they answer in time, for all texts, if and only if none is cut off (unless every value is allowed) |
| Coherence.TimeoutIsCached | internal/coordinator/coordinator.go:53-57 | a concrete scan cut short whose answer is cached and wrong for every later call |
| Pieces.SplitJoin | internal/proxy/extract.go:63-89 | splitting joined newline-free pieces gives the pieces back |
| Pieces.RedactApart | internal/redactor/redactor.go:23-56 | redaction of a concatenation with no finding across the seam is the concatenation of the redactions |
| Pieces.RedactActsOnEachPiece | internal/redactor/redactor.go:23-56 | if each finding lies in one piece, redacting the joined text redacts each piece with its own shifted findings |
| Messages.CollectTexts | internal/proxy/extract.go:51-61 | the texts of the text parts and non-empty tool results, in order |
| Messages.ExtractLastUserMessage | internal/proxy/extract.go:32-74 | the last message of the user, in any of its content forms, with its index, or exactly when there is none an error |
| Messages.ReplaceLastUserMessage | internal/proxy/extract.go:76-142 | only the message at the index changes: it loses every member but role and content, its string is replaced, or its parts lose all but the four decoded members and their slots are filled in order as long as there are lines |
| Messages.PiecesOfRefill | internal/proxy/extract.go:89-122 | a text per slot, none empty for a tool result: extracting again gives just these texts |
| Messages.RestIsDropped | internal/proxy/extract.go:87-132 | a fact about decoding and encoding: the message's other members, each part's other members, and the parts that hold no text are there again only if there was nothing beyond the decoded members |
| Messages.ImageLosesItsSource | internal/proxy/extract.go:87-118 | a concrete image part that comes back without its source |
| PutBack.PartsComeBackExactly | internal/proxy/extract.go:51-105 | on all parts: the lines of their own pieces put into their slots change nothing if and only if no slot up to the first empty tool result has a newline, the pieces behind it are only newlines, and as many slots from there on are empty as these have lines |
| PutBack.PutBackUnchangedExactly | internal/proxy/extract.go:51-105 | without empty tool results that is: no piece has a newline |
| PutBack.EmptyToolResultsExactly | internal/proxy/extract.go:51-105 | for newline-free pieces it is: every slot behind an empty tool result is empty |
| Forwarding.Forward | internal/proxy/proxy.go:108-147 | extract, redact, and put back only a text that changed; without a user message, with content of another form, when the scan fails, or when the text stays the same, the request is forwarded as it is |
| Forwarding.PartsAreRedactedExactly | internal/proxy/extract.go:76-142 | on all parts and findings that lie in a piece each: putting the redacted text back gives every part its own text redacted by its own findings and leaves the others alone, if and only if the parts redacted that way come back |
| Forwarding.RequestIsRedactedExactly | internal/proxy/extract.go:32-142 | the same for whole requests of every content form, where besides decoding must have nothing to drop |
| Forwarding.ForwardedExactly | internal/proxy/proxy.go:108-147 | what the proxy forwards is the request with its texts redacted and everything else as it was, if and only if redaction changed nothing or the message is of that kind |
| Forwarding.UnchangedTextUnchangedParts | internal/proxy/proxy.go:131-147 | if the joined text stays the same, redaction would have changed no part either |
| Forwarding.PartsAreRedacted | internal/proxy/extract.go:89-122 | without empty tool results, every part is redacted if and only if no redacted piece has a newline |
| Forwarding.ReplaceRedactsEachPart | internal/proxy/extract.go:32-142 | then whole requests, up to what decoding drops: each part gets its own text redacted, the other parts and messages stay, and extracting again gives the redacted text at the same index |
| Forwarding.RequestComesBackExactly | internal/proxy/extract.go:32-142 | the case that nothing is redacted: which requests putting the text back would leave as they are |
| Forwarding.EmptyToolResultKeepsTheSecret | internal/proxy/extract.go:89-122 | a concrete request in which an empty tool result takes the redacted text and the secret stays in the part behind it |
| Forwarding.SecondLineIsLost | internal/proxy/extract.go:89-122 | a concrete request in which redacting one part loses the second line of another |
| ClientHello.ParseSni | internal/proxy/sni.go:17-117 | on every byte string the parser ends, reads in bounds, and gives the answer of the grammar-shaped function the laws speak of |
| ClientHello.WalkExtensions | internal/proxy/sni.go:82-117 | the reslicing loops find what the recursive search finds |
| ClientHello.OnlyTheRecordMatters | internal/proxy/sni.go:25-33 | the answer depends on the first 5 + length bytes only |
| ClientHello.ParseOfEncoding | internal/proxy/sni.go:17-117 | the encoding of every ClientHello that fits one record parses to the first host name of the first server name extension, "no SNI" exactly if there is none, and an error if there is no extensions field |
| ClientHello.CarriedIsParsed | internal/proxy/sni.go:82-117 | a record that carries a name behind whole extensions and whole names of other types is parsed to it, and one with such chains up to the end to "no SNI", whatever bytes follow |
| ClientHello.ParsedIsCarried | internal/proxy/sni.go:82-117 | a returned name stands in the input behind its type 0 and own length, in a type-0 extension reached by a chain of whole extensions; "no SNI" is only returned for a chain of whole extensions or names of other types up to the end |
| ClientHello.ParseExactly | internal/proxy/sni.go:17-117 | both directions, on arbitrary bytes, for each name and for "no SNI" |
| ClientHello.RecordErrorsExactly | internal/proxy/sni.go:17-29 | from the bytes: which inputs are too short, of another record type than 22, or cut short against the length in bytes 3 and 4; all others are read as a handshake of that length |
| ClientHello.HandshakeErrorsExactly | internal/proxy/sni.go:30-41 | the same for type 1 and the three-byte length of the handshake |
| ClientHello.BodyErrorsExactly | internal/proxy/sni.go:46-54 | the same for version and random of 34 bytes and the session identifier |
| ClientHello.NameInBytes | internal/proxy/sni.go:82-117 | an extension given byte by byte and its host name |
| Checksums.StripNonDigits | internal/scanner/presidio/presidio.go:914-922 | keeps the digits |
| Checksums.DigitsAreDigits | internal/scanner/presidio/presidio.go:914-922 | only digits remain, no more often than before, and digits are left alone |
| Checksums.DigitsOfConcat | internal/scanner/presidio/presidio.go:914-922 | stripping a concatenation strips its parts: order is kept and each character is judged by itself |
| Checksums.Luhn | internal/scanner/presidio/presidio.go:836-852 | accepts exactly the strings whose weighted digit sum is divisible by 10 |
| Checksums.LuhnExactly | internal/scanner/presidio/presidio.go:836-852 | a payload with one more digit is accepted if and only if that digit and the payload's contributions sum up to a multiple of 10, where digits at odd distances from the end contribute the digits of their double and the others themselves |
| Checksums.OneLuhnDigit | internal/scanner/presidio/presidio.go:836-852 | each payload has exactly one check digit |
| Checksums.LuhnCatchesSingleErrors | internal/scanner/presidio/presidio.go:836-852 | every change of one digit is caught |
| Checksums.LuhnSwapExactly | internal/scanner/presidio/presidio.go:836-852 | a swap of neighbours is missed if and only if they are equal or 0 and 9 |
| Checksums.AbaChecksum | internal/scanner/presidio/presidio.go:883-893 | accepts exactly nine digits with a 3-7-1 sum divisible by 10 |
| Checksums.AbaExactly | internal/scanner/presidio/presidio.go:883-893 | nine digits are accepted if and only if 3(d0+d3+d6) + 7(d1+d4+d7) + d2+d5+d8 is a multiple of 10 |
| Checksums.AbaCatchesSingleErrors | internal/scanner/presidio/presidio.go:883-893 | every change of one digit is caught |
| Checksums.AbaSwapExactly | internal/scanner/presidio/presidio.go:883-893 | a swap of neighbours is missed if and only if they differ by 0 or 5 |
| Checksums.NhsChecksum | internal/scanner/presidio/presidio.go:896-912 | accepts exactly ten digits whose check digit matches, with 11 read as 0 and 10 never accepted |
| Checksums.NhsIsDivisibility | internal/scanner/presidio/presidio.go:896-912 | this is divisibility of the 10-to-1 weighted sum by 11 |
| Checksums.NhsExactly | internal/scanner/presidio/presidio.go:896-912 | ten digits are accepted if and only if 10d0 + 9d1 + 8d2 + ... + 2d8 + d9 is a multiple of 11 |
| Checksums.NhsCatchesSingleErrors | internal/scanner/presidio/presidio.go:896-912 | every change of one digit is caught |
| Checksums.NhsCatchesSwaps | internal/scanner/presidio/presidio.go:896-912 | every swap of two different digits, adjacent or not, is caught |
| Iban.Expand | internal/scanner/presidio/presidio.go:859-873 | fails exactly on other characters; writes each digit as it is and each letter as its number |
| Iban.IbanCheckDigit | internal/scanner/presidio/presidio.go:855-880 | on any bytes: the digit loop computes the whole rearranged, upper-cased numeral modulo 97, for any length |
| Iban.IbanExactly | internal/scanner/presidio/presidio.go:855-880 | a text of five bytes or more is accepted if and only if, with its first four moved to the end and in upper case, it consists of digits and letters and, with A written as 10 up to Z as 35, spells a number that leaves 1 when divided by 97 |
| Iban.LettersInDigits | internal/scanner/presidio/presidio.go:864-869 | the digits of each letter, A as 10 to Z as 35 |
| Iban.UpperExactly | internal/scanner/presidio/presidio.go:861 | upper case letter by letter, with the two letters beyond ASCII that become I and S |
| Iban.OneCheckPair | internal/scanner/presidio/presidio.go:855-880 | each country and account number has exactly one valid pair in 02..98 if all characters are digits or letters, and none otherwise, and which others pass |
| Iban.IbanCatchesSubstitutions | internal/scanner/presidio/presidio.go:855-880 | digit for digit, or letter for letter, every change of one character is caught |
| Iban.IbanSwapExactly | internal/scanner/presidio/presidio.go:855-880 | a swap of two different digits, or letters, at any distance is missed if and only if their places weigh the same modulo 97 |
| Iban.IbanCatchesNeighbourSwaps | internal/scanner/presidio/presidio.go:855-880 | every swap of different neighbouring digits, or letters, is caught, but for places 3 and 4, which the rearrangement parts |
| PolicySync.EtagIsInjective | internal/server/httpapi/server.go:250-274 | different versions have different tags |
| PolicySync.EtagExactly | internal/server/httpapi/server.go:250-274 | a tag is a quote, the letter v, the digits of the version, and a quote |
| PolicySync.TornTagIsNoTag | internal/policysync/policysync.go:76-84 | a tag cut short is the tag of no version |
| PolicySync.StepKeepsInv | internal/policysync/policysync.go:27-86 | every step keeps: the tag on disk is not ahead of the policy on disk, the policy not ahead of the server, and equal numbers mean equal policies; the cached version does not fall |
| PolicySync.RunKeepsInv | internal/policysync/policysync.go:27-86 | so does every run from a fresh enrollment |
| PolicySync.NotModifiedMeansCurrent | internal/server/httpapi/server.go:250-274 | in every run of puts, syncs, lost or torn tags, garbled answers and crashes, a "not modified" means that the cached policy is the server's current one |
| PolicySync.VersionNeverDecreases | internal/policysync/policysync.go:45-84 | the cached version never goes back in a run |
| PolicySync.UndisturbedSyncIsCurrent | internal/policysync/policysync.go:45-84 | from any reachable state one undisturbed sync brings the device up to date, and the next answer is "not modified" |
| PolicySync.LastBundleArrives | internal/server/httpapi/server.go:93-101 | after any run and one undisturbed sync the device has what was last put for its organization: image, mount mode ("bind" if none), exactly the names on the denylist (none if absent), and as version the number of bundles put; or the seed with version 0 |
| PolicySync.PinnedImageArrives | internal/server/httpapi/server.go:380-393 | storing the current bundle with another image changes just the image and the version on the device |
| PolicyService.Server.GetPolicy | internal/server/store/store.go:212-223 | the stored row, or the seed with version 0 |
| PolicyService.Server.PutPolicy | internal/server/store/store.go:345-369 | the version goes up by one for this organization only |
| PolicyService.Server.HandlePutPolicy | internal/server/httpapi/server.go:217-233 | which requests are rejected without a change; otherwise the stored row holds the image, the mount mode, the names on the denylist and the next version |
| PolicyService.Server.PinImage | internal/server/httpapi/server.go:380-393 | the stored row holds the pinned image under a new version, and the mount mode and denylist it had |
| PolicyService.Server.HandleGetPolicy | internal/server/httpapi/server.go:250-274 | the answer to a conditional request; what it sends is what it signs |
| PolicyService.Device.Sync | internal/policysync/policysync.go:27-86 | with any fault the files become what the steps of the protocol make of them; success means that image, mount mode, denylist and version on the device are those of the server's row |
| PolicyService.SyncIsARun | internal/policysync/policysync.go:27-86 | every sync is a run of the protocol's steps |
| Enrollment.RunKeepsInv | internal/server/store/store.go:101-154 | in every run the use count is the number of devices made with the token, never above a positive limit, and devices and claims carry their token's organization |
| Enrollment.TermsNeverChange | internal/server/store/store.go:101-154 | organization, expiry and limit of a token never change and a revocation stays |
| Enrollment.UsesAreFrozen | internal/server/store/store.go:110-154 | after a revocation, and for attempts after the expiry, neither count nor devices of a token change again |
| Enrollment.AttemptSucceedsExactly | internal/server/store/store.go:118-154 | told from the events alone: an attempt lets a device in if and only if its token was minted, no revocation came since, it is not after the expiry, the limit is 0 or fewer devices than the limit came from it, and the id is new; the device gets the organization of the mint; otherwise nothing changes |
| Enrollment.DeviceToldFromEvents | internal/server/store/store.go:118-205 | every device is as the events made it: let in, seen, revoked |
| Enrollment.ClaimsToldFromEvents | internal/server/auth/enroll.go:31-45 | exactly the claims of successful attempts with a signature were ever signed |
| Enrollment.RequestToldFromEvents | internal/server/auth/middleware.go:25-47 | a request with a signed claim is let through if and only if no revocation of its device came after it was let in |
| Enrollment.AcceptedExactly | internal/server/auth/middleware.go:25-47 | a request with claims once signed is accepted if and only if its device is not revoked, and then the organization is that of the device's token |
| Enrollment.RevokedForGood | internal/server/store/store.go:197-200 | no request of a revoked device is accepted again |
| Enrollment.Store.CreateEnrollmentToken | internal/server/store/store.go:101-107 | the mint step; fails exactly on a hash that exists |
| Enrollment.Store.HandleMintToken | internal/server/httpapi/server.go:168-189 | the three outcomes and the expiry, a day when none is asked for |
| Enrollment.Store.RevokeToken | internal/server/store/store.go:110-113 | the revocation step |
| Enrollment.Store.EnrollDevice | internal/server/store/store.go:118-154 | succeeds if and only if the token is there and not revoked, now is not after its expiry, its limit is 0 or above its count, and the id is new; the device is stored with the token's organization; a rejection changes nothing |
| Enrollment.Store.HandleEnroll | internal/server/httpapi/server.go:108-134 | enrolls and signs; when the signature fails, or writing out the server's key after it, the device stays enrolled without an answer |
| Enrollment.Store.RevokeDevice | internal/server/store/store.go:197-200 | the revocation step of devices |
| Enrollment.Store.TouchDevice | internal/server/store/store.go:202-205 | only the time last seen changes |
| Enrollment.Store.RequireDevice | internal/server/auth/middleware.go:25-50 | lets through exactly the verified bearer claims of an unrevoked device; only then the device is touched |
| Firewall.ResolveAll | internal/firewall/dns_loop.go:23-45 | fails exactly if there are names and all lookups fail; otherwise the sorted, duplicate-free list of all addresses returned by successful lookups |
| Firewall.IpSetsEqual | internal/firewall/dns_loop.go:49-69 | true if and only if the lists are equal as multisets |
| Firewall.SameCountsMeansSameList | internal/firewall/dns_loop.go:49-69 | on resolved lists multiset, set and list equality are the same |
| Firewall.ListingIsUnique | internal/firewall/dns_loop.go:39-45 | a set of addresses has one sorted listing: map order leaves no trace |
| Firewall.StringLeExactly | internal/firewall/dns_loop.go:43 | the order is that of the first difference, a prefix before what it is a prefix of |
| Firewall.RunAgrees | internal/firewall/controller.go:41-118 | after any run of enable, disable and reconcile, with any answers and failures, OS rules, memory and saved state agree, are empty when disabled, and are sorted and duplicate-free |
| Firewall.RulesFollowTheHistory | internal/firewall/controller.go:41-118 | the installed rules and the state file, with the proxy address, are those of a machine that keeps a set only and takes over every successful reconciliation: skipping unchanged ones is invisible |
| Firewall.ReinstallsExactlyOnChange | internal/firewall/controller.go:94-118 | a resolved reconciliation calls the OS once if the set changed, and not at all otherwise |
| Firewall.ReconcileSettles | internal/firewall/controller.go:94-118 | after a successful reconciliation another with the same addresses, however spread over lookups, changes nothing |
| Firewall.Controller.constructor | internal/firewall/controller.go:27-36 | a clean start agrees |
| Firewall.Controller.Enable | internal/firewall/controller.go:41-70 | the enable step; an error exactly if the names do not resolve or the OS refuses, and then rules, memory and file are as before |
| Firewall.Controller.Disable | internal/firewall/controller.go:73-90 | the disable step; nothing happens if not enabled |
| Firewall.Controller.Reconcile | internal/firewall/controller.go:94-118 | the reconcile step and exactly when it reports an error |
| Firewall.Controller.Persist | internal/firewall/controller.go:145-154 | the saved state becomes what memory says |

## Left out

- Detection itself: regular expressions, entropy, the machine-learning sidecars and confidence scores; layers are arbitrary functions of their rules and the text they see.
- Offsets counted in runes or code points, and Unicode case mapping: text is bytes and lower-casing is a parameter.
- JSON, base64, PEM, ECDSA and SHA-256: datatypes, a set of signed payloads, and a hash that is injective where coherence needs it; what decoding drops from a part or a message is one opaque field; a body that is no request at all is not modelled, and two spellings of one JSON value are the same.
- HTTP, TLS interception, websockets, SQL and key-value engines: a transaction is one atomic step, and an enrolled device has one fixed organization and server.
- Concurrency: mutexes, the goroutine behind a layer's timeout, and a scan that stores its answer after another one invalidated the cache.
- Clocks, tickers and time stamps other than token expiry: times are parameters.
- Coordinator.Coordinator.ScanAndRedact: promises an up-to-date answer only if no layer was late, because a scan cut short by a timeout is cached as well (`Coherence.LatenessExactly`); report objects are shared with the cache and only the text is claimed to be coherent.
- Sorting.SortSlice: any ordered permutation is allowed; which one the library picks among equal elements is not modelled.
- ScanCache.Cache: the linked list is a sequence of references to entries that are updated in place; the list's own nodes are not modelled.
- Forwarding.PartsAreRedactedExactly: a finding that reaches from one part over the joining newline into the next is not covered, because it leaves no text to call a part's own redaction.
- Coordinator.Coordinator.FilterAllowed: the shorter slice of the report's array that the source keeps is a copy of that array's front.
- The file blocker, which `Reconfigure` also updates, and the CA trust commands of the firewall.
- Replay of old but correctly signed policy answers by the network, and rotation of the signing key.
- Firewall.Controller: a state file that cannot be written is not modelled; an OS call that fails is taken to change nothing.
- Building images, the event log and administrator listings, apart from the policy that a build pins.
- Texts of error messages and log lines.
