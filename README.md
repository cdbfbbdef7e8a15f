# A verified model of GRIDSS breakend evidence handling

This project models five core components of GRIDSS, a structural-variant caller for short-read sequencing data, and proves properties of each in Dafny.

- **Read error correction** (`ReadErrorCorrector`). The corrector counts k-mers over reads and builds a collapse lookup. The lookup sends each rare k-mer to its most frequent Hamming-distance-1 neighbour. The corrector then rewrites each read by at most two rule applications: a flanking rule, a read-start rule and a read-end rule.
- **Evidence annotation** (`SequentialEvidenceAnnotator`). It walks position-sorted variant calls and position-sorted evidence together. Each piece of evidence is attributed either to every overlapping buffered call or, in single-breakpoint mode, to the best-scoring one. In single-breakpoint mode, evidence for a breakpoint is split between a call and its mate by a string-hash coin.
- **Greedy allocation** (`GreedyVariantAllocationCache`). It records, per evidence, read pair and read, the best-scoring event that claims it. It then answers whether a given event is the best one for a piece of evidence.
- **Soft-clip evidence** (`SoftClipEvidence`). This covers construction, the evidence identifier and the anchor identity. It also covers the adapter test (Illumina adapters read off the 3' end), dovetailing, and the evidence filter that combines them.
- **Virus breakend filtering** (`VirusBreakendFilter`). It keeps a single breakend when a host alignment covers enough of its inserted sequence outside simple and low-complexity repeats. It rewrites such a breakend as two mated breakends, in the ALT notation of section 5.4 of the VCF 4.2 specification.

Modules: `Common` holds shared helpers: decimal strings, substring search, Java's IEEE division comparisons, and nucleotide complement. `Breakends` holds breakend locations, overlap and the orderings. `ReadErrorCorrection`, `EvidenceAnnotator`, `AllocationCache`, `SoftClip` and `VirusBreakend` each model one source file.

Objects whose fields the source updates in place are classes:
- `ReadErrorCorrector` keeps the counts, the maximum count and the lazily built lookup.
- `SequentialEvidenceAnnotator` keeps the call buffer, the id map and the iterator cursors.
- `GreedyVariantAllocationCache` keeps its three optional lookups.

A read being corrected is an `array` of bases. The remaining code is pure and becomes functions, each with an algorithmic method wherever the source loops. Each class method is proved against a specification function, such as `Run`, `Targets`, `Put` or `RepeatRangeList`. The properties the source relies on are then proved about those functions.

## Model

| member | source | states |
|---|---|---|
| ReadErrorCorrection.FromCode | src/main/java/au/edu/wehi/idsv/debruijn/ReadErrorCorrector.java:180-181 | decoding a 2-bit code gives the base with that code, so XOR-ing a base's 2-bit code with a neighbour mask (`kmer ^ neighbourXOR`) names a base again |
| ReadErrorCorrection.ReverseComplement | src/main/java/au/edu/wehi/idsv/debruijn/ReadErrorCorrector.java:67-79 | the reverse complement has the read's length and complements the mirrored base at every position |
| ReadErrorCorrection.ReverseComplementInvolution | src/main/java/au/edu/wehi/idsv/debruijn/ReadErrorCorrector.java:80-93 | reverse-complementing twice restores the read, so a reverse-complemented read is written back in its own orientation |
| ReadErrorCorrection.Windows | src/main/java/au/edu/wehi/idsv/debruijn/ReadErrorCorrector.java:67-79 | a read of length n has n-k+1 k-mer windows (none when shorter than k), window i being bases i..i+k |
| ReadErrorCorrection.Neighbours | src/main/java/au/edu/wehi/idsv/debruijn/ReadErrorCorrector.java:177-189 | bestNeighbour examines 3 candidates per base position |
| ReadErrorCorrection.NeighboursAreHammingNeighbours | src/main/java/au/edu/wehi/idsv/debruijn/ReadErrorCorrector.java:177-189 | every examined candidate differs from the k-mer in exactly one base |
| ReadErrorCorrection.EveryHammingNeighbourListed | src/main/java/au/edu/wehi/idsv/debruijn/ReadErrorCorrector.java:177-189 | every k-mer at Hamming distance 1 is examined |
| ReadErrorCorrection.NeighbourLength | src/main/java/au/edu/wehi/idsv/debruijn/ReadErrorCorrector.java:177-189 | every candidate has the k-mer's length |
| ReadErrorCorrection.BestAmongChoice | src/main/java/au/edu/wehi/idsv/debruijn/ReadErrorCorrector.java:177-189 | the scan keeps its starting k-mer unless some candidate has a strictly higher count, and then returns the first candidate of maximal count |
| ReadErrorCorrection.BestNeighbourIsFirstMaximal | src/main/java/au/edu/wehi/idsv/debruijn/ReadErrorCorrector.java:177-189 | bestNeighbour returns the k-mer itself exactly when no neighbour occurs; otherwise it returns the first neighbour of maximal, non-zero count |
| ReadErrorCorrection.BestNeighbourIsSelfOrNeighbour | src/main/java/au/edu/wehi/idsv/debruijn/ReadErrorCorrector.java:177-189 | the best neighbour is the k-mer itself or one of its Hamming neighbours |
| ReadErrorCorrection.BestNeighbour | src/main/java/au/edu/wehi/idsv/debruijn/ReadErrorCorrector.java:177-189 | the loop over positions and substitutions computes the specified best neighbour |
| ReadErrorCorrection.CollapseTargetIsStrongerNeighbour | src/main/java/au/edu/wehi/idsv/debruijn/ReadErrorCorrector.java:156-170 | with collapseMultiple above 1, a k-mer is collapsed onto a Hamming neighbour at least collapseMultiple times as frequent, hence strictly more frequent |
| ReadErrorCorrection.CollapseToSelfWhenMultipleAtMostOne | src/main/java/au/edu/wehi/idsv/debruijn/ReadErrorCorrector.java:156-170 | with collapseMultiple at most 1, a rare k-mer with no occurring neighbour is entered in the lookup mapped to itself |
| ReadErrorCorrection.SetKmerEffect | src/main/java/au/edu/wehi/idsv/debruijn/ReadErrorCorrector.java:104-148 | writing a k-mer at offset i puts it at bases i..i+k, keeps every other base and the read's length |
| ReadErrorCorrection.FirstFlankFrom | src/main/java/au/edu/wehi/idsv/debruijn/ReadErrorCorrector.java:104-122 | an offset the search returns lies at or after its start, and there both flanking k-mers have collapse targets that agree on the k-2 bases the two k-mers share: the last k-2 bases of the left target are the first k-2 of the right target |
| ReadErrorCorrection.FirstFlankFromIsFirst | src/main/java/au/edu/wehi/idsv/debruijn/ReadErrorCorrector.java:104-122 | the rule fires at no offset between the start and the returned one, and at no offset at all when the search returns nothing |
| ReadErrorCorrection.FlankRuleAt | src/main/java/au/edu/wehi/idsv/debruijn/ReadErrorCorrector.java:104-122 | at the offset found, both flanking k-mers lie in the read and the rule replaces the left k-mer by its collapse target |
| ReadErrorCorrection.FindFlank | src/main/java/au/edu/wehi/idsv/debruijn/ReadErrorCorrector.java:104-122 | the loop over offsets stops at the first offset where the flanking rule fires, and reports none when it never fires |
| ReadErrorCorrection.Step | src/main/java/au/edu/wehi/idsv/debruijn/ReadErrorCorrector.java:94-103 | one correction round keeps the read's length |
| ReadErrorCorrection.RunStep | src/main/java/au/edu/wehi/idsv/debruijn/ReadErrorCorrector.java:94-103 | a round that finds nothing to correct stops with no change; otherwise the next round runs on the corrected read with one correction counted |
| ReadErrorCorrection.RunBounded | src/main/java/au/edu/wehi/idsv/debruijn/ReadErrorCorrector.java:94-103 | at most MAX_BASE_CORRECTIONS corrections are made, the length is kept, stopping early means no rule fires, and no correction means the read is unchanged |
| ReadErrorCorrection.FlankingAsWrittenReadsPastEnd | src/main/java/au/edu/wehi/idsv/debruijn/ReadErrorCorrector.java:104-122 | the flanking loop as written visits offset length-k, whose right k-mer ends past the read |
| ReadErrorCorrection.FlankingAsWrittenExample | src/main/java/au/edu/wehi/idsv/debruijn/ReadErrorCorrector.java:104-122 | concretely, a 5-base read with k = 4 is probed at offset 1, where the right k-mer would need bases 2 to 5 of a read with bases 0 to 4 |
| ReadErrorCorrection.FlankVisitedExactlyInRead | src/main/java/au/edu/wehi/idsv/debruijn/ReadErrorCorrector.java:104-122 | the corrected loop bound visits exactly the offsets whose two flanking k-mers lie inside the read, all of which the loop as written visits too |
| ReadErrorCorrection.Increment | src/main/java/au/edu/wehi/idsv/debruijn/ReadErrorCorrector.java:67-79 | counting a k-mer adds one to its count and leaves every other count alone |
| ReadErrorCorrection.IncrementKeepsTable | src/main/java/au/edu/wehi/idsv/debruijn/ReadErrorCorrector.java:67-79 | counting keeps every key a k-mer of length k and maxCount the largest count |
| ReadErrorCorrection.CountWindows | src/main/java/au/edu/wehi/idsv/debruijn/ReadErrorCorrector.java:67-79 | the loop over the read's windows adds each k-mer's number of occurrences to its count, keeps the table well formed and never lowers maxCount |
| ReadErrorCorrection.CountWindowStep | src/main/java/au/edu/wehi/idsv/debruijn/ReadErrorCorrector.java:67-79 | counting one more window adds it to the multiset of windows counted so far |
| ReadErrorCorrection.PartialLookupStep | src/main/java/au/edu/wehi/idsv/debruijn/ReadErrorCorrector.java:156-170 | visiting one more k-mer adds exactly that k-mer's collapse entry to the lookup being built |
| ReadErrorCorrection.CollapseLookupWellFormed | src/main/java/au/edu/wehi/idsv/debruijn/ReadErrorCorrector.java:156-170 | the collapse lookup maps k-mers of length k to k-mers of length k |
| ReadErrorCorrection.CollapseTarget | src/main/java/au/edu/wehi/idsv/debruijn/ReadErrorCorrector.java:156-170 | a k-mer gets a lookup entry exactly when it is rare (count at most maxCount / collapseMultiple) and its best neighbour is collapseMultiple times as frequent; the entry is that neighbour |
| ReadErrorCorrection.WriteKmer | src/main/java/au/edu/wehi/idsv/debruijn/ReadErrorCorrector.java:104-148 | PackedSequence.setKmer on the array has the effect of SetKmer on its contents |
| ReadErrorCorrection.ReadErrorCorrector.constructor | src/main/java/au/edu/wehi/idsv/debruijn/ReadErrorCorrector.java:37-42 | a new corrector has the given k and collapseMultiple, no counts and no lookup |
| ReadErrorCorrection.ReadErrorCorrector.Create | src/main/java/au/edu/wehi/idsv/debruijn/ReadErrorCorrector.java:37-42 | construction fails exactly when k exceeds 31; otherwise the corrector starts empty |
| ReadErrorCorrection.ReadErrorCorrector.CountKmers | src/main/java/au/edu/wehi/idsv/debruijn/ReadErrorCorrector.java:67-79 | each k-mer's count grows by its number of occurrences among the (oriented) read's windows, maxCount never decreases, and the lookup is invalidated |
| ReadErrorCorrection.ReadErrorCorrector.CreateCollapseLookup | src/main/java/au/edu/wehi/idsv/debruijn/ReadErrorCorrector.java:156-170 | the loop over the counted k-mers builds exactly the specified collapse lookup |
| ReadErrorCorrection.ReadErrorCorrector.EnsureCollapseLookup | src/main/java/au/edu/wehi/idsv/debruijn/ReadErrorCorrector.java:150-155 | afterwards the lookup is present and well formed, and an existing lookup is kept |
| ReadErrorCorrection.ReadErrorCorrector.CorrectFlankingKmers | src/main/java/au/edu/wehi/idsv/debruijn/ReadErrorCorrector.java:104-122 | the method reports a correction exactly when the flanking rule fires and then leaves its result in the array, otherwise the array is unchanged |
| ReadErrorCorrection.ReadErrorCorrector.CorrectStart | src/main/java/au/edu/wehi/idsv/debruijn/ReadErrorCorrector.java:123-136 | the same for the read-start rule |
| ReadErrorCorrection.ReadErrorCorrector.CorrectEnd | src/main/java/au/edu/wehi/idsv/debruijn/ReadErrorCorrector.java:137-148 | the same for the read-end rule |
| ReadErrorCorrection.ReadErrorCorrector.CorrectOnce | src/main/java/au/edu/wehi/idsv/debruijn/ReadErrorCorrector.java:94-103 | one round tries flanking, then start, then end, and applies the first that fires |
| ReadErrorCorrection.ReadErrorCorrector.ErrorCorrectPacked | src/main/java/au/edu/wehi/idsv/debruijn/ReadErrorCorrector.java:94-103 | the bounded loop of rounds leaves the specified corrected read and counts its corrections |
| ReadErrorCorrection.ReadErrorCorrector.ErrorCorrect | src/main/java/au/edu/wehi/idsv/debruijn/ReadErrorCorrector.java:80-93 | reads shorter than k are untouched; otherwise the lookup is built, the oriented read is corrected, written back in the read's own orientation only when something changed, and at most MAX_BASE_CORRECTIONS corrections are counted |
| Breakends.BreakendOverlapsSymmetric | src/main/java/au/edu/wehi/idsv/SequentialEvidenceAnnotator.java:167 | breakend overlap is symmetric |
| Breakends.OverlapsSymmetric | src/main/java/au/edu/wehi/idsv/SequentialEvidenceAnnotator.java:167 | location overlap (both sides for two breakpoints) is symmetric |
| Breakends.OverlapsBounds | src/main/java/au/edu/wehi/idsv/SequentialEvidenceAnnotator.java:166-167 | an overlapping call starts no later than the evidence ends, which is why the buffer scan may stop at the first call starting after the evidence |
| Breakends.Widen | src/main/java/au/edu/wehi/idsv/SequentialEvidenceAnnotator.java:160-161 | widening by the margin keeps contig and direction |
| Breakends.WithMargin | src/main/java/au/edu/wehi/idsv/SequentialEvidenceAnnotator.java:160-161 | the evidence location with margin is a breakpoint exactly when the evidence is |
| Breakends.WithMarginMonotone | src/main/java/au/edu/wehi/idsv/SequentialEvidenceAnnotator.java:160-161 | adding a non-negative margin never loses an overlap |
| Breakends.Mirror | src/main/java/au/edu/wehi/idsv/SequentialEvidenceAnnotator.java:174-175 | the mate's view of a breakpoint swaps its local and remote breakends |
| Breakends.Sign | src/main/java/au/edu/wehi/idsv/SequentialEvidenceAnnotator.java:88-102 | a three-way comparison is -1, 0 or 1, zero exactly on equal values and negative exactly when less |
| Breakends.ByStartEndAntisymmetric | src/main/java/au/edu/wehi/idsv/SequentialEvidenceAnnotator.java:93-95 | ByStartEnd is antisymmetric |
| Breakends.ByLowHighMirror | src/main/java/au/edu/wehi/idsv/SequentialEvidenceAnnotator.java:84-93 | ByLowHigh ranks a breakpoint and its mate alike, which is the documented purpose of the positional comparison |
| Breakends.ByLowHighAntisymmetric | src/main/java/au/edu/wehi/idsv/SequentialEvidenceAnnotator.java:93 | ByLowHigh is antisymmetric |
| EvidenceAnnotator.Activate | src/main/java/au/edu/wehi/idsv/SequentialEvidenceAnnotator.java:49-58 | an active variant takes the call's id, score, location and event id, the mate id only when the call has an id, the linear start of its location, and no support |
| EvidenceAnnotator.CompareReal | src/main/java/au/edu/wehi/idsv/SequentialEvidenceAnnotator.java:91 | the float comparison is zero exactly on equal scores and positive exactly when the first is larger |
| EvidenceAnnotator.CompareStringAntisymmetric | src/main/java/au/edu/wehi/idsv/SequentialEvidenceAnnotator.java:98-99 | String.compareTo is antisymmetric and zero exactly on equal strings |
| EvidenceAnnotator.CompareOptionAntisymmetric | src/main/java/au/edu/wehi/idsv/SequentialEvidenceAnnotator.java:98-99 | the null-first comparison of optional ids is antisymmetric and zero exactly on equal values |
| EvidenceAnnotator.ByScoreAscPositionDescAntisymmetric | src/main/java/au/edu/wehi/idsv/SequentialEvidenceAnnotator.java:88-102 | the ordering is antisymmetric, and ties only between variants with equal score, event id and id |
| EvidenceAnnotator.HigherScoreWins | src/main/java/au/edu/wehi/idsv/SequentialEvidenceAnnotator.java:88-102 | a strictly higher score always ranks higher, and a higher rank never has a lower score |
| EvidenceAnnotator.MatesRankAlike | src/main/java/au/edu/wehi/idsv/SequentialEvidenceAnnotator.java:84-102 | the two sides of one breakpoint event rank the same against any breakpoint until the final id comparison |
| EvidenceAnnotator.JavaStringHash | src/main/java/au/edu/wehi/idsv/SequentialEvidenceAnnotator.java:222 | String.hashCode is taken as an unsigned 32-bit value |
| EvidenceAnnotator.LocalAndRemoteDiverge | src/main/java/au/edu/wehi/idsv/SequentialEvidenceAnnotator.java:214-223 | the remote view of evidence goes to the opposite breakend from its local view |
| EvidenceAnnotator.ReadPairSidesDiverge | src/main/java/au/edu/wehi/idsv/SequentialEvidenceAnnotator.java:209-223 | the two reads of a discordant pair go to opposite breakends |
| EvidenceAnnotator.ScanLimitStops | src/main/java/au/edu/wehi/idsv/SequentialEvidenceAnnotator.java:165-166 | the buffer scan examines exactly the calls before the first one that starts after the evidence ends |
| EvidenceAnnotator.ScanMissesNothingWhenSorted | src/main/java/au/edu/wehi/idsv/SequentialEvidenceAnnotator.java:165-166 | when the buffer is sorted by start, no call past the scan limit overlaps the evidence |
| EvidenceAnnotator.BestFromIsBest | src/main/java/au/edu/wehi/idsv/SequentialEvidenceAnnotator.java:163-172 | the single-mode scan finds no call exactly when no scanned call overlaps, and otherwise an overlapping call of maximal score |
| EvidenceAnnotator.BestFromBeatsLater | src/main/java/au/edu/wehi/idsv/SequentialEvidenceAnnotator.java:163-172 | the scan replaces its best only on a strictly higher rank, so no later scanned overlapping call ranks above the one it returns: among equal ranks the earliest wins |
| EvidenceAnnotator.ScanBest | src/main/java/au/edu/wehi/idsv/SequentialEvidenceAnnotator.java:163-172 | the loop with early break computes the specified best call, which overlaps the evidence |
| EvidenceAnnotator.AttributeToAll | src/main/java/au/edu/wehi/idsv/SequentialEvidenceAnnotator.java:183-190 | every scanned overlapping call gets the evidence, no other call changes, and the evidence counts as called exactly when some scanned call overlaps |
| EvidenceAnnotator.AttributionKeepsSupportOverlap | src/main/java/au/edu/wehi/idsv/SequentialEvidenceAnnotator.java:157-197 | attributing evidence only to overlapping calls keeps every call's support overlapping it and changes nothing but support |
| EvidenceAnnotator.SingleModeAtMostOneTarget | src/main/java/au/edu/wehi/idsv/SequentialEvidenceAnnotator.java:163-182 | in single-breakpoint mode evidence goes to at most one call |
| EvidenceAnnotator.TargetsOverlap | src/main/java/au/edu/wehi/idsv/SequentialEvidenceAnnotator.java:157-197 | every call given the evidence overlaps the evidence widened by the margin |
| EvidenceAnnotator.AllModeReachesEveryOverlap | src/main/java/au/edu/wehi/idsv/SequentialEvidenceAnnotator.java:183-190 | outside single-breakpoint mode and with a sorted buffer, a call gets the evidence exactly when it overlaps it |
| EvidenceAnnotator.DumpRows | src/main/java/au/edu/wehi/idsv/SequentialEvidenceAnnotator.java:69-77 | the evidence dump writes one row per supporting evidence, tagged with the call |
| EvidenceAnnotator.BufferSortedWhenCallsSorted | src/main/java/au/edu/wehi/idsv/SequentialEvidenceAnnotator.java:117-123 | when the calls arrive sorted by start, the buffer stays sorted |
| EvidenceAnnotator.BufferPush | src/main/java/au/edu/wehi/idsv/SequentialEvidenceAnnotator.java:117-123 | buffering the next call keeps the buffer equal to the calls read but not yet emitted |
| EvidenceAnnotator.BufferPop | src/main/java/au/edu/wehi/idsv/SequentialEvidenceAnnotator.java:137-146 | emitting the head keeps that correspondence, and the head is the oldest unemitted call |
| EvidenceAnnotator.IdMapPush | src/main/java/au/edu/wehi/idsv/SequentialEvidenceAnnotator.java:120-122 | registering a non-blank id keeps the id map sound and complete for the buffered calls |
| EvidenceAnnotator.ActivateRunAt | src/main/java/au/edu/wehi/idsv/SequentialEvidenceAnnotator.java:117-123 | the buffer entries added for a run of calls are, in order, exactly those calls activated with their stream indices |
| EvidenceAnnotator.ActivateRunKeepsBuffer | src/main/java/au/edu/wehi/idsv/SequentialEvidenceAnnotator.java:226-230 | buffering a run of calls keeps the buffer matching the call stream and every support overlapping its call |
| EvidenceAnnotator.PushIdsKeepsIdMap | src/main/java/au/edu/wehi/idsv/SequentialEvidenceAnnotator.java:226-230 | buffering a run of calls keeps the id map sound (every entry names a buffered call with that id) and, with unique ids, complete |
| EvidenceAnnotator.BufferOne | src/main/java/au/edu/wehi/idsv/SequentialEvidenceAnnotator.java:117-123 | buffer(variant): the activated call is appended, and its non-blank id is put in the id map pointing at it |
| EvidenceAnnotator.BufferBefore | src/main/java/au/edu/wehi/idsv/SequentialEvidenceAnnotator.java:226-230 | the loop buffers calls while the buffer is empty or its last call starts by the position, stops when the calls run out or the last one starts after it, and returns the old buffer followed by the activated run and the in-order id puts |
| EvidenceAnnotator.PushIdsLatest | src/main/java/au/edu/wehi/idsv/SequentialEvidenceAnnotator.java:117-123 | after buffering a run of calls, each non-blank id among them maps to the latest of those calls carrying it |
| EvidenceAnnotator.PushIdsFrame | src/main/java/au/edu/wehi/idsv/SequentialEvidenceAnnotator.java:117-123 | buffering a run of calls keeps the entry of every key none of them carries |
| EvidenceAnnotator.IdMapPop | src/main/java/au/edu/wehi/idsv/SequentialEvidenceAnnotator.java:143-145 | removing the emitted call's id keeps the id map sound and complete |
| EvidenceAnnotator.AssignTo | src/main/java/au/edu/wehi/idsv/SequentialEvidenceAnnotator.java:157-197 | exactly the specified target calls get the evidence, and the evidence counts as called exactly when there is a target |
| EvidenceAnnotator.AssignKeepsBuffer | src/main/java/au/edu/wehi/idsv/SequentialEvidenceAnnotator.java:157-197 | assignment keeps the buffer's correspondence with the calls and its support invariant |
| EvidenceAnnotator.AllModeAssigned | src/main/java/au/edu/wehi/idsv/SequentialEvidenceAnnotator.java:183-190 | with the calls sorted by start, attribute-to-all mode appends the evidence to exactly the buffered calls it overlaps and leaves the others alone |
| EvidenceAnnotator.AssignStepExtends | src/main/java/au/edu/wehi/idsv/SequentialEvidenceAnnotator.java:157-197 | one assignEvidence keeps every call apart from its support, appends the evidence at most once to each support, and appends at most one no-call dump row for it |
| EvidenceAnnotator.AssignAllKeepsCalls | src/main/java/au/edu/wehi/idsv/SequentialEvidenceAnnotator.java:148-152 | processing a run of evidence keeps the buffer's length and every buffered call apart from its support |
| EvidenceAnnotator.AssignAllExtendsSupport | src/main/java/au/edu/wehi/idsv/SequentialEvidenceAnnotator.java:148-152 | processing a run of evidence only appends to each call's support, and only evidence of the run |
| EvidenceAnnotator.AssignAllExtendsDump | src/main/java/au/edu/wehi/idsv/SequentialEvidenceAnnotator.java:192-196 | processing a run of evidence only appends to the dump, and only no-call rows for evidence of the run |
| EvidenceAnnotator.TargetsOfOverlapping | src/main/java/au/edu/wehi/idsv/SequentialEvidenceAnnotator.java:157-197 | every call assignEvidence can pick overlaps the evidence widened by the margin |
| EvidenceAnnotator.AssignAllKeepsOverlap | src/main/java/au/edu/wehi/idsv/SequentialEvidenceAnnotator.java:148-152 | processing a run of evidence keeps every piece of support overlapping its call |
| EvidenceAnnotator.AssignOne | src/main/java/au/edu/wehi/idsv/SequentialEvidenceAnnotator.java:157-197 | assignEvidence on the buffer and dump: the specified targets get the evidence appended, every other call is unchanged, and a no-call dump row is appended exactly when there is no target and dumping is on |
| EvidenceAnnotator.AssignBefore | src/main/java/au/edu/wehi/idsv/SequentialEvidenceAnnotator.java:148-152 | the loop consumes evidence while it starts (less margin) at or before the position and stops at the first that does not; the buffer and dump it returns are assignEvidence applied to each consumed piece in stream order |
| EvidenceAnnotator.SequentialEvidenceAnnotator.constructor | src/main/java/au/edu/wehi/idsv/SequentialEvidenceAnnotator.java:103-116 | a new annotator has its parameters, empty buffer, empty id map and both iterators at the start |
| EvidenceAnnotator.SequentialEvidenceAnnotator.Buffer | src/main/java/au/edu/wehi/idsv/SequentialEvidenceAnnotator.java:117-123 | the next call is appended to the buffer and its id is registered |
| EvidenceAnnotator.SequentialEvidenceAnnotator.BufferVariantsBefore | src/main/java/au/edu/wehi/idsv/SequentialEvidenceAnnotator.java:226-230 | calls are buffered until the calls run out or the last buffered one starts after the position; every call it added except the last starts at or before the position; the buffer becomes the old buffer followed by the added calls, each freshly activated with an empty support, and the id map becomes the in-order puts of the added calls' ids, so a newer call with a repeated id takes over the entry |
| EvidenceAnnotator.SequentialEvidenceAnnotator.AssignEvidence | src/main/java/au/edu/wehi/idsv/SequentialEvidenceAnnotator.java:157-197 | the new buffer and dump are one assignment step for the specified targets: those calls get the evidence, the others are unchanged, and evidence with no target is dumped when dumping is on; with sorted calls outside single mode, exactly the overlapping buffered calls get it; the buffer invariants are kept |
| EvidenceAnnotator.SequentialEvidenceAnnotator.ProcessEvidenceBefore | src/main/java/au/edu/wehi/idsv/SequentialEvidenceAnnotator.java:148-152 | every evidence consumed starts (less margin) at or before the position, and the next one starts after it or none is left; the new buffer and dump are assignEvidence applied to each consumed piece in stream order |
| EvidenceAnnotator.SequentialEvidenceAnnotator.Next | src/main/java/au/edu/wehi/idsv/SequentialEvidenceAnnotator.java:124-147 | iteration ends exactly when the buffer is empty and the calls are exhausted, draining the evidence when the sanity check is on; otherwise it emits the oldest unemitted call with support overlapping it |
| EvidenceAnnotator.SequentialEvidenceAnnotator.Poll | src/main/java/au/edu/wehi/idsv/SequentialEvidenceAnnotator.java:137-146 | emitting removes the buffer head, returns its call with its support and dumps its evidence; its non-blank id is removed from the id map, whichever buffered call the map entry named |
| EvidenceAnnotator.SequentialEvidenceAnnotator.AnnotateAll | src/main/java/au/edu/wehi/idsv/SequentialEvidenceAnnotator.java:124-147 | draining the iterator emits every remaining call once, in input order |
| AllocationCache.Put | src/main/java/au/edu/wehi/idsv/GreedyVariantAllocationCache.java:52-67 | a tracked lookup gains the key, other keys are kept, and the key holds the higher-scoring node (the earlier one on ties) |
| AllocationCache.IsBestAlignment | src/main/java/au/edu/wehi/idsv/GreedyVariantAllocationCache.java:77 | an untracked lookup accepts every alignment; a tracked one accepts exactly the recorded best alignment, and an unrecorded key fails |
| AllocationCache.FirstBestAppend | src/main/java/au/edu/wehi/idsv/GreedyVariantAllocationCache.java:40-45 | appending an offer keeps the first maximal offer unless the new one scores strictly higher |
| AllocationCache.PutAllKeepsFirstBest | src/main/java/au/edu/wehi/idsv/GreedyVariantAllocationCache.java:40-45 | after a sequence of offers for one key, the key holds the first offer of maximal score |
| AllocationCache.FirstHashAfterName | src/main/java/au/edu/wehi/idsv/GreedyVariantAllocationCache.java:63 | in "name#index" the first '#' follows the read name |
| AllocationCache.ReadKeyInjective | src/main/java/au/edu/wehi/idsv/GreedyVariantAllocationCache.java:63 | read names without '#' and segment indices are recovered from the read key |
| AllocationCache.EvidenceSlots | src/main/java/au/edu/wehi/idsv/GreedyVariantAllocationCache.java:53 | the evidence lookup is offered a slot for exactly the listed evidence, keyed by evidence id with no alignment |
| AllocationCache.AlignmentSlots | src/main/java/au/edu/wehi/idsv/GreedyVariantAllocationCache.java:54-66 | the read-pair lookup is offered exactly the read-pair evidence, under its read name with its pair alignment, and the read lookup exactly the single-read evidence, under name#segment with its read alignment |
| AllocationCache.PutEach | src/main/java/au/edu/wehi/idsv/GreedyVariantAllocationCache.java:40-45 | offering an event to a list of slots keeps an untracked lookup untracked and a tracked one tracked |
| AllocationCache.PutEachFrame | src/main/java/au/edu/wehi/idsv/GreedyVariantAllocationCache.java:40-45 | a key no slot names keeps its entry, or its absence |
| AllocationCache.PutEachKeepsStronger | src/main/java/au/edu/wehi/idsv/GreedyVariantAllocationCache.java:40-45 | a key already holding at least the offered score keeps its entry whatever is offered to it |
| AllocationCache.PutEachRecords | src/main/java/au/edu/wehi/idsv/GreedyVariantAllocationCache.java:40-45 | a key offered with one alignment only, whose earlier entry (if any) scores strictly lower, ends up holding the event, score and alignment |
| AllocationCache.VariantOutscoringIsBest | src/main/java/au/edu/wehi/idsv/GreedyVariantAllocationCache.java:68-86 | after a variant is offered all its evidence, a listed evidence whose recorded scores it beats, reached through one alignment, passes isBestBreakpoint for the variant's event |
| AllocationCache.StrongerEventKeepsEvidence | src/main/java/au/edu/wehi/idsv/GreedyVariantAllocationCache.java:68-72 | evidence already held by another event with at least the variant's score still fails isBestBreakpoint for the variant after the offers |
| AllocationCache.GreedyVariantAllocationCache.constructor | src/main/java/au/edu/wehi/idsv/GreedyVariantAllocationCache.java:29-33 | each lookup is tracked exactly when its uniqueness option is on, and starts empty |
| AllocationCache.GreedyVariantAllocationCache.AddBreakpoint | src/main/java/au/edu/wehi/idsv/GreedyVariantAllocationCache.java:37-39 | the evidence lookup and, by evidence kind, the read-pair or read lookup are updated by Put and the other is unchanged; a score above every recorded one makes this event the best |
| AllocationCache.GreedyVariantAllocationCache.OfferAll | src/main/java/au/edu/wehi/idsv/GreedyVariantAllocationCache.java:40-45 | the loop leaves each of the three lookups equal to Put applied, in list order, at every listed evidence's slot in that lookup |
| AllocationCache.GreedyVariantAllocationCache.AddVariant | src/main/java/au/edu/wehi/idsv/GreedyVariantAllocationCache.java:40-48 | the three lookups become the in-order Put of the variant's event and quality at every evidence's slot; afterwards every listed evidence the variant outscores, reaching its read (pair) through one alignment, has the variant as its best breakpoint |
| AllocationCache.GreedyVariantAllocationCache.IsBestBreakpoint | src/main/java/au/edu/wehi/idsv/GreedyVariantAllocationCache.java:68-86 | unrecorded evidence fails; another best event means no; whenever the evidence lookup is off or names this event, the answer is exactly the alignment check |
| AllocationCache.GreedyVariantAllocationCache.AtMostOneBestEvent | src/main/java/au/edu/wehi/idsv/GreedyVariantAllocationCache.java:68-72 | with evidence tracking on, at most one event is best for a piece of evidence |
| AllocationCache.GreedyVariantAllocationCache.AtMostOneBestAlignment | src/main/java/au/edu/wehi/idsv/GreedyVariantAllocationCache.java:73-77 | with read-pair tracking on, two different alignments of one read pair are never both accepted |
| SoftClip.Create | src/main/java/au/edu/wehi/idsv/SoftClipEvidence.java:27-46 | creation fails on a null record or direction and yields evidence exactly for a mapped read with bases and a soft clip on the given side |
| SoftClip.CreateLocation | src/main/java/au/edu/wehi/idsv/SoftClipEvidence.java:47-53 | the breakend is a single position on the read's contig: the alignment end for forward clips, the alignment start for backward clips |
| SoftClip.EvidenceIdShape | src/main/java/au/edu/wehi/idsv/SoftClipEvidence.java:57-61 | the id is the direction letter, the read name and, for paired reads, a read number suffix |
| SoftClip.EvidenceIdInjective | src/main/java/au/edu/wehi/idsv/SoftClipEvidence.java:57-61 | equal ids of reads with the same pairing mean equal direction, read name and read number |
| SoftClip.LocalBaseLength | src/main/java/au/edu/wehi/idsv/SoftClipEvidence.java:133-135 | the anchor length plus both soft clips is the read length |
| SoftClip.AlignedPercentIdentity | src/main/java/au/edu/wehi/idsv/SoftClipEvidence.java:95-112 | identity is defined exactly when the NM tag is present, over the anchor length, as matching bases out of anchor bases |
| SoftClip.IdentityFullWhenOnlyIndels | src/main/java/au/edu/wehi/idsv/SoftClipEvidence.java:95-112 | an edit distance made only of indels gives 100% identity |
| SoftClip.IdentityAntitoneInEditDistance | src/main/java/au/edu/wehi/idsv/SoftClipEvidence.java:95-112 | a larger edit distance never raises identity past a threshold a smaller one missed |
| SoftClip.ScanLength | src/main/java/au/edu/wehi/idsv/SoftClipEvidence.java:209-219 | the adapter scan compares bases while both the adapter and the read last, and stops exactly at the first offset outside the read |
| SoftClip.MatchesAdapterSequence | src/main/java/au/edu/wehi/idsv/SoftClipEvidence.java:209-219 | the loop answers exactly whether no compared base mismatches |
| SoftClip.AdapterSequenceMatchesOutsideRead | src/main/java/au/edu/wehi/idsv/SoftClipEvidence.java:209-219 | a scan starting outside the read compares nothing and matches |
| SoftClip.AdapterSequenceMatchesItself | src/main/java/au/edu/wehi/idsv/SoftClipEvidence.java:209-219 | an adapter matches a read equal to it |
| SoftClip.MatchesAdapterFR | src/main/java/au/edu/wehi/idsv/SoftClipEvidence.java:191-208 | the loop over anchor offsets answers exactly whether the adapter matches at some offset within the mapped-base window |
| SoftClip.ShortAnchorMatchesEveryAdapter | src/main/java/au/edu/wehi/idsv/SoftClipEvidence.java:191-208 | an anchor shorter than the mapped-base window matches every adapter |
| SoftClip.IsAdapterSoftClip | src/main/java/au/edu/wehi/idsv/SoftClipEvidence.java:170-185 | with adapters and a non-Illumina orientation it fails; otherwise it is true exactly for a 3' clip matching some adapter |
| SoftClip.IsDovetailingAsWritten | src/main/java/au/edu/wehi/idsv/SoftClipEvidence.java:230-241 | unpaired reads and unmapped mates never dovetail, and a yes needs the boxed contig indices to be the same object |
| SoftClip.IsDovetailing | src/main/java/au/edu/wehi/idsv/SoftClipEvidence.java:230-241 | non-Illumina orientations fail; otherwise dovetailing is a paired read with mapped mate on the same contig, starts within the margin, and a 3' clip |
| SoftClip.DovetailingAgreesInsideIntegerCache | src/main/java/au/edu/wehi/idsv/SoftClipEvidence.java:234 | for contig indices from -128 to 127 the code as written and the intended test agree |
| SoftClip.DovetailingAsWrittenMissesLargeContigIndex | src/main/java/au/edu/wehi/idsv/SoftClipEvidence.java:234 | a dovetailing read on contig 200 is rejected by the code as written |
| SoftClip.MeetsEvidenceCriteria | src/main/java/au/edu/wehi/idsv/SoftClipEvidence.java:158-164 | evidence passes exactly when mapq, clip length and anchor identity reach their minimums, it does not dovetail, and it is not an adapter clip; it fails exactly when mapq and clip length pass and then the identity cannot be computed (no NM tag), or the identity passes and the dovetail test or, after it, the adapter test meets a non-Illumina orientation |
| VirusBreakend.FirstBracket | src/main/java/gridss/VirusBreakendFilter.java:133-148 | the first bracket of an ALT is found with no bracket before it |
| VirusBreakend.LastColon | src/main/java/gridss/VirusBreakendFilter.java:133-148 | the last colon of a mate position is found with no colon after it |
| VirusBreakend.ParseMatePositionRoundTrip | src/main/java/gridss/VirusBreakendFilter.java:133-148 | "chr:pos" parses back to its contig and position |
| VirusBreakend.FirstBracketAt | src/main/java/gridss/VirusBreakendFilter.java:133-148 | a bracket-free prefix puts the first bracket right after it |
| VirusBreakend.MatePositionHasNoBrackets | src/main/java/gridss/VirusBreakendFilter.java:133-148 | a mate position of a bracket-free contig has no brackets |
| VirusBreakend.ParseForwardAlt | src/main/java/gridss/VirusBreakendFilter.java:133-148 | an ALT of bases then bracketed mate position parses as forward with those bases |
| VirusBreakend.ParseBackwardAlt | src/main/java/gridss/VirusBreakendFilter.java:133-148 | an ALT of bracketed mate position then bases parses as backward with those bases |
| VirusBreakend.BreakendAltRoundTrip | src/main/java/gridss/VirusBreakendFilter.java:133-148 | every breakend ALT the filter writes parses back to its anchor, inserted sequence, orientations and mate position |
| VirusBreakend.HostPosition | src/main/java/gridss/VirusBreakendFilter.java:100-102 | the host breakend is the alignment's last reference base when the breakpoint is at its end, else its first |
| VirusBreakend.VirusInsertedSequence | src/main/java/gridss/VirusBreakendFilter.java:108-119 | the substring succeeds exactly when within bounds, and is a prefix of the breakend sequence for a forward viral breakend, a suffix otherwise |
| VirusBreakend.TransformToBreakpointNotation | src/main/java/gridss/VirusBreakendFilter.java:96-169 | the rewrite succeeds exactly when its substrings are in bounds, giving a _virus and a _host record that name each other as mates in one event, the host keeping the filters, quality and the copied INFO fields |
| VirusBreakend.TransformFields | src/main/java/gridss/VirusBreakendFilter.java:96-169 | the rewritten records' contigs, positions, reference alleles and ALT alleles are the ones the code builds |
| VirusBreakend.InsertedSequencesHaveNoBrackets | src/main/java/gridss/VirusBreakendFilter.java:108-125 | inserted sequences taken from a bracket-free ALT have no brackets |
| VirusBreakend.TransformedRecordsAreMates | src/main/java/gridss/VirusBreakendFilter.java:133-148 | each rewritten ALT parses to the other record's contig and position, with crossed orientations |
| VirusBreakend.HostInsertIsReverseComplementIffSameOrientation | src/main/java/gridss/VirusBreakendFilter.java:125 | the host insert is the reverse complement exactly when both sides face the same way, and reverse complementing maps one view to the other |
| VirusBreakend.BreakendSequenceAndAnchor | src/main/java/gridss/VirusBreakendFilter.java:106-107 | the single-breakend ALT is its anchor, breakend sequence and final character, the anchor taken from the side the breakend faces |
| VirusBreakend.RepeatRangeListCoverage | src/main/java/gridss/VirusBreakendFilter.java:197-206 | an offset is covered exactly when some simple or low-complexity repeat alignment spans it |
| VirusBreakend.RepeatRangeListSources | src/main/java/gridss/VirusBreakendFilter.java:197-206 | every range comes from a simple or low-complexity repeat alignment |
| VirusBreakend.RepeatRanges | src/main/java/gridss/VirusBreakendFilter.java:197-206 | the loop over repeat alignments builds the specified ranges, which cover exactly the repeat offsets |
| VirusBreakend.CoveredCount | src/main/java/gridss/VirusBreakendFilter.java:182-183 | the repeat overlap never exceeds the width of the host alignment |
| VirusBreakend.CoveredCountExtremes | src/main/java/gridss/VirusBreakendFilter.java:182-183 | no covered offset gives overlap 0, and full coverage gives the full width |
| VirusBreakend.SameCoverageSameCount | src/main/java/gridss/VirusBreakendFilter.java:182-183 | the overlap depends only on which offsets are covered, as a merged range set's measure does |
| VirusBreakend.ShouldKeep | src/main/java/gridss/VirusBreakendFilter.java:171-187 | a breakend is kept exactly when it is single and some host alignment passes the host-overlap test and has repeat overlap below the threshold |

## Left out

- ReadErrorCorrection.ReadErrorCorrector.constructor: requires k at most 31. The throwing public constructor is modelled by `Create`, and k is a natural number.
- Non-positive or NaN `collapseMultiple` is excluded (`collapseMultiple > 0`). With 0, `maxCount / 0f` would be +Infinity and every k-mer would count as rare; that case is not modelled. Its float arithmetic is modelled as exact reals.
- Reads with bases other than A, C, G and T are not modelled. The 2-bit packing follows base order A, C, G, T. The packed `long` k-mer is a sequence of bases.
- ReadErrorCorrection.Neighbours: the order of `neighbourXORLookup` comes from KmerEncodingHelper.neighbouringStates, which is not part of this model. The model assumes base position 0 first, then codes XOR 1, 2 and 3 at each position. That order decides which neighbour bestNeighbour keeps when counts tie.
- The static `errorCorrect` driver (ReadErrorCorrector.java:44-65) is not modelled. It collects unique reads, counts k-mers both ways, corrects and logs. Its per-read steps are CountKmers and ErrorCorrect.
- SAMRecord base writing and the `SAMRecord` type are abstracted to an array of bases.
- The allocation lookups' `put` and `isBestAlignment` live in a superclass that is not part of this model. They are specified by the behaviour the cache relies on: higher score wins and the first wins ties.
- 128-bit hashes are taken as collision-free, so keys are the strings themselves.
- `getReadPairAlignment` and `getReadAlignment` are opaque strings on the evidence.
- Breakend overlap, `withMargin` and the orderings come from BreakendSummary and BreakpointSummary, which are not part of this model. They are stated as the annotator uses them. Linear coordinates are taken to be the local breakend's start and end.
- EvidenceAnnotator.ByScoreAscPositionDesc: a null event id or id raises a NullPointerException in Guava's ComparisonChain. The model orders None first instead. The `float` cast of the call quality is an exact real.
- EvidenceAnnotator.CompareStringAntisymmetric: Java compares UTF-16 code units, and so does `JavaStringHash`. Strings here are sequences of Dafny chars.
- Progress tracking (TrackedBuffer), logging and the CSV writer are not modelled. Building the annotated call (StructuralVariationCallBuilder) is abstracted to the call and its support list. The dump is a sequence of rows.
- `Defaults.SANITY_CHECK_ITERATORS` is a constructor parameter. The iterators are sequences with cursors.
- The full assertion on evidence order is not modelled.
- SoftClip.Create: the overload that combines evidence with a realigned record (SoftClipEvidence.java:24) is not modelled. Read lengths of records without bases count as 0.
- SoftClip.AlignedPercentIdentity: the float percentage is an exact real.
- SoftClip.Create: BreakendDirection.java is not part of this model. Its `%s` text in the "not soft clipped" message is taken to be the enum constant's name, `Forward` or `Backward`.
- SoftClip.MeetsEvidenceCriteria: it uses the intended value comparison of contig indices (IsDovetailing). For contig indices outside -128..127 it therefore differs from the as-written reference comparison at SoftClipEvidence.java:162 and 234; see Findings.
- Adapters and read bases are ASCII characters.
- Reading `ChimericAlignment` from SA-tag strings and `infoToChimeric` (VirusBreakendFilter.java:188-196) are not modelled. The alignments arrive parsed. Line 191 discards its `Collections.emptyList()` instead of returning it. So when the first value is empty, `new ChimericAlignment("", "[|:]")` is asked to parse an empty string; what that does is not modelled.
- The ordering of host alignments by mapping quality and aligned length (ChimericAlignment.ByMapqAlignedLength) is not modelled. TransformToBreakpointNotation takes the list already sorted and uses its head.
- VirusBreakend.ShouldKeep and VirusBreakend.RepeatRanges require `first <= last + 1` for every alignment. Guava's `Range` throws on an inverted range, and that path is not modelled.
- INFO keys are an enumeration rather than their VCF strings.
- The picocli entry point, `doWork` and VCF reading and writing are not modelled.
- VirusBreakend.TransformToBreakpointNotation: the sequence dictionary is not modelled. Contig names are kept as strings.

## Findings

| source | as written | input that shows it | evidently intended | confidence | as-written member | corrected member |
|---|---|---|---|---|---|---|
| src/main/java/au/edu/wehi/idsv/debruijn/ReadErrorCorrector.java:104-122 | the flanking loop runs while `i < length - k + 1`, so its last offset reads a right k-mer ending one base past the read | a 5-base read with k = 4: offset 1 reads bases 2 to 5, but the read has bases 0 to 4 | loop while `i < length - k`, visiting exactly the offsets whose flanking k-mers lie in the read | not executed | ReadErrorCorrection.FlankingAsWrittenExample | ReadErrorCorrection.FlankVisitedExactlyInRead |
| src/main/java/au/edu/wehi/idsv/SoftClipEvidence.java:234 | `getMateReferenceIndex() == getReferenceIndex()` compares two boxed `Integer` objects by identity | a dovetailing pair on contig index 200, outside the `Integer` cache of -128..127 | compare the index values | not executed; depends on htsjdk boxing the two indices separately | SoftClip.DovetailingAsWrittenMissesLargeContigIndex | SoftClip.IsDovetailing |
