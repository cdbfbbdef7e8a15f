/**
 * Soft-clipped reads as structural-variant evidence (SoftClipEvidence).
 *
 * A read whose alignment ends (or starts) with soft-clipped bases is evidence
 * for a breakend at the last (or first) aligned reference position. Creation
 * validates the record; the acceptance predicate combines mapping quality,
 * clip length, anchor identity, a dovetail test and an adapter read-through
 * test.
 */
module SoftClip {
  import opened Common
  import opened Breakends

  /** htsjdk SamPairUtil.PairOrientation. */
  datatype PairOrientation = FR | RF | TANDEM

  /** Slack, in bases, between read and mate start for a dovetail. */
  const DOVETAIL_ERROR_MARGIN: int := 2
  /** How many anchored bases an adapter match may start inside the alignment. */
  const MAX_ADAPTER_MAPPED_BASES: nat := 6

  /** Message of the exception thrown for pair orientations other than FR. */
  const UNSUPPORTED_ORIENTATION: string := "Not Yet Implemented: handling of orientations other than Illumina read pair orientation."
  /** Message of the exception thrown when only the MD tag is present. */
  const MD_ONLY_IDENTITY: string := "Sanity Check Failure: Not Yet Implemented: calculation from reads with MD tag but not NM tag as per Socrates implementation"

  /**
   * The fields of a SAM record the evidence reads. `bases` is None for a null
   * or NULL_SEQUENCE read sequence; `startClip`/`endClip` are the soft clip
   * lengths at the start and end of the alignment; `nm` and `md` are the NM and
   * MD tags; `insertedBases`/`deletedBases` are the CIGAR's I and D totals.
   */
  datatype SamRecord = SamRecord(
    readName: string,
    unmapped: bool,
    bases: Option<string>,
    paired: bool,
    firstOfPair: bool,
    negativeStrand: bool,
    mateUnmapped: bool,
    mappingQuality: int,
    referenceIndex: int,
    mateReferenceIndex: int,
    alignmentStart: int,
    alignmentEnd: int,
    mateAlignmentStart: int,
    startClip: nat,
    endClip: nat,
    nm: Option<int>,
    md: Option<string>,
    insertedBases: nat,
    deletedBases: nat)

  /** getReadLength: the number of read bases, 0 when there are none. */
  function ReadLength(r: SamRecord): nat {
    if r.bases.Some? then |r.bases.value| else 0
  }

  /** Thresholds of SoftClipParameters the acceptance test uses. */
  datatype SoftClipParameters = SoftClipParameters(
    minReadMapq: int,
    minLength: int,
    minAnchorIdentity: real,
    adapterSequences: Option<seq<string>>)

  /** getSoftClipLength(direction, record). */
  function ClipLength(direction: Direction, r: SamRecord): nat {
    if direction == Forward then r.endClip else r.startClip
  }

  datatype SoftClipEvidence = SoftClipEvidence(record: SamRecord, location: Breakend)
  {
    /** What create establishes. */
    predicate Valid() {
      && !record.unmapped
      && record.bases.Some?
      && ClipLength(location.direction, record) > 0
      && location.referenceIndex == record.referenceIndex
      && location.start == location.end == BreakendPosition(location.direction, record)
    }

    function SoftClipLength(): nat {
      ClipLength(location.direction, record)
    }
  }

  /** The breakend position: the last aligned base for a forward clip, the first for a backward one. */
  function BreakendPosition(direction: Direction, r: SamRecord): int {
    if direction == Forward then r.alignmentEnd else r.alignmentStart
  }

  // ---------------------------------------------------------------------------
  // create
  // ---------------------------------------------------------------------------

  /**
   * create without a realignment: the record checks in the order the source
   * makes them, then the zero-length clip check on the constructed evidence.
   */
  function Create(direction: Option<Direction>, record: Option<SamRecord>): (r: Result<SoftClipEvidence>)
    ensures r.Success? <==>
      && record.Some? && direction.Some? && !record.value.unmapped && record.value.bases.Some?
      && ClipLength(direction.value, record.value) != 0
    ensures record.None? ==> r == Failure("record is null")
    ensures record.Some? && direction.None? ==> r == Failure("direction is null")
    ensures r.Success? ==> r.value.Valid() && r.value.record == record.value && r.value.location.direction == direction.value
  {
    if record.None? then Failure("record is null")
    else if direction.None? then Failure("direction is null")
    else
      var rec := record.value;
      var dir := direction.value;
      if rec.unmapped then Failure("record " + rec.readName + " is unmapped")
      else if rec.bases.None? then Failure("record " + rec.readName + " missing sequence information")
      else
        var pos := BreakendPosition(dir, rec);
        var ev := SoftClipEvidence(rec, Breakend(rec.referenceIndex, dir, pos, pos));
        if ev.SoftClipLength() == 0 then Failure("record " + rec.readName + " is not " + DirectionName(dir) + " soft clipped")
        else Success(ev)
  }

  /** The text `%s` gives for a direction: the enum constant's name. */
  function DirectionName(direction: Direction): string {
    match direction
    case Forward => "Forward"
    case Backward => "Backward"
  }

  /** A forward clip's breakend is at the alignment end, a backward clip's at its start. */
  lemma CreateLocation(direction: Direction, record: SamRecord)
    requires Create(Some(direction), Some(record)).Success?
    ensures var loc := Create(Some(direction), Some(record)).value.location;
      && loc.start == loc.end
      && loc.referenceIndex == record.referenceIndex
      && (direction == Forward ==> loc.start == record.alignmentEnd)
      && (direction == Backward ==> loc.start == record.alignmentStart)
  {
  }

  // ---------------------------------------------------------------------------
  // Evidence identifier.
  // ---------------------------------------------------------------------------

  /** The "/1" or "/2" suffix of a paired read, empty otherwise. */
  function ReadNumber(r: SamRecord): string {
    if r.paired then (if r.firstOfPair then "/1" else "/2") else ""
  }

  /** getEvidenceID: "f" or "b", the read name, then the read number suffix. */
  function EvidenceId(direction: Direction, r: SamRecord): string {
    (if direction == Forward then "f" else "b") + r.readName + ReadNumber(r)
  }

  /** The identifier starts with 'f' exactly for forward clips and has the read name after it. */
  lemma EvidenceIdShape(direction: Direction, r: SamRecord)
    ensures var id := EvidenceId(direction, r);
      && |id| == 1 + |r.readName| + (if r.paired then 2 else 0)
      && (id[0] == 'f' <==> direction == Forward)
      && id[1..1 + |r.readName|] == r.readName
  {
  }

  /**
   * Among reads with the same pairing flag, the identifier determines the
   * direction, the read name and which read of the pair it is.
   */
  lemma EvidenceIdInjective(d1: Direction, r1: SamRecord, d2: Direction, r2: SamRecord)
    requires r1.paired == r2.paired
    requires EvidenceId(d1, r1) == EvidenceId(d2, r2)
    ensures d1 == d2
    ensures r1.readName == r2.readName
    ensures r1.paired ==> r1.firstOfPair == r2.firstOfPair
  {
    var id := EvidenceId(d1, r1);
    EvidenceIdShape(d1, r1);
    EvidenceIdShape(d2, r2);
    assert |r1.readName| == |r2.readName|;
    if r1.paired {
      assert id[|id| - 1] == (if r1.firstOfPair then '1' else '2');
      assert EvidenceId(d2, r2)[|id| - 1] == (if r2.firstOfPair then '1' else '2');
    }
  }

  // ---------------------------------------------------------------------------
  // Local base length and anchor identity.
  // ---------------------------------------------------------------------------

  /** getLocalBaseLength: read length less both soft clips. */
  function LocalBaseLength(r: SamRecord): (n: int)
    ensures n + r.startClip + r.endClip == ReadLength(r)
  {
    ReadLength(r) - r.startClip - r.endClip
  }

  /** A percentage as the quotient numerator / denominator of the source's float division. */
  datatype Percent = Percent(numerator: int, denominator: int)

  /**
   * getAlignedPercentIdentity: 100 times the reference-matching aligned bases
   * over the aligned bases, from the NM tag; an MD tag alone is not supported
   * and a missing NM tag is an error.
   */
  function AlignedPercentIdentity(r: SamRecord): (p: Result<Percent>)
    ensures p.Success? <==> r.nm.Some?
    ensures p.Success? ==> p.value.denominator == LocalBaseLength(r)
    ensures p.Success? ==>
      p.value.numerator == 100 * (LocalBaseLength(r) - r.nm.value + r.insertedBases + r.deletedBases)
  {
    if r.nm.Some? then
      var refBasesToConsider := LocalBaseLength(r);
      var refBaseMatches := refBasesToConsider - r.nm.value + r.insertedBases + r.deletedBases;
      Success(Percent(100 * refBaseMatches, refBasesToConsider))
    else if r.md.Some? && r.md.value != "" then
      Failure(MD_ONLY_IDENTITY)
    else
      Failure("Read " + r.readName + " missing NM tag")
  }

  /** An edit distance made only of indels gives 100% identity. */
  lemma IdentityFullWhenOnlyIndels(r: SamRecord)
    requires r.nm == Some(r.insertedBases + r.deletedBases as int)
    requires LocalBaseLength(r) > 0
    ensures var p := AlignedPercentIdentity(r).value;
      QuotientAtLeast(p.numerator, p.denominator, 100.0) && !QuotientBelow(p.numerator, p.denominator, 100.0)
  {
    var p := AlignedPercentIdentity(r).value;
    assert p.numerator == 100 * p.denominator;
    QuotientPositiveDenominator(p.numerator, p.denominator, 100.0);
  }

  /** A larger edit distance never raises identity above a threshold it failed. */
  lemma IdentityAntitoneInEditDistance(r: SamRecord, nm1: int, nm2: int, t: real)
    requires nm1 <= nm2 && LocalBaseLength(r) > 0
    ensures var p1 := AlignedPercentIdentity(r.(nm := Some(nm1))).value;
      var p2 := AlignedPercentIdentity(r.(nm := Some(nm2))).value;
      QuotientAtLeast(p2.numerator, p2.denominator, t) ==> QuotientAtLeast(p1.numerator, p1.denominator, t)
  {
    var p1 := AlignedPercentIdentity(r.(nm := Some(nm1))).value;
    var p2 := AlignedPercentIdentity(r.(nm := Some(nm2))).value;
    assert p1.denominator == p2.denominator == LocalBaseLength(r);
    QuotientPositiveDenominator(p1.numerator, p1.denominator, t);
    QuotientPositiveDenominator(p2.numerator, p2.denominator, t);
  }

  // ---------------------------------------------------------------------------
  // Adapter read-through.
  // ---------------------------------------------------------------------------

  /** Read offset of the i-th compared base. */
  function ScanOffset(start: int, readDirection: int, i: int): int {
    start + i * readDirection
  }

  /** The number of adapter bases compared before the scan leaves the read or the adapter. */
  function ScanLength(adapterLength: nat, readLength: nat, start: int, readDirection: int): (n: nat)
    requires readDirection == 1 || readDirection == -1
    ensures n <= adapterLength
    ensures forall i :: 0 <= i < n ==> 0 <= ScanOffset(start, readDirection, i) < readLength
    ensures n < adapterLength ==> !(0 <= ScanOffset(start, readDirection, n) < readLength)
  {
    if !(0 <= start < readLength) then 0
    else if readDirection == 1 then (if adapterLength <= readLength - start then adapterLength else readLength - start)
    else (if adapterLength <= start + 1 then adapterLength else start + 1)
  }

  /** The adapter base at i, complemented when asked. */
  function AdapterBase(adapter: string, i: nat, complementAdapter: bool): char
    requires i < |adapter|
  {
    if complementAdapter then ComplementChar(adapter[i]) else adapter[i]
  }

  /** A compared position disagrees when the read base is a valid base different from the adapter base. */
  predicate Mismatch(adapter: string, read: string, start: int, readDirection: int, complementAdapter: bool, i: nat)
    requires i < |adapter| && 0 <= ScanOffset(start, readDirection, i) < |read|
  {
    var readBase := read[ScanOffset(start, readDirection, i)];
    IsValidBase(readBase) && readBase != AdapterBase(adapter, i, complementAdapter)
  }

  /** matchesAdapterSequence: no compared position disagrees (ambiguous read bases match anything). */
  predicate AdapterSequenceMatches(adapter: string, read: string, start: int, readDirection: int, complementAdapter: bool)
    requires readDirection == 1 || readDirection == -1
  {
    forall i :: 0 <= i < ScanLength(|adapter|, |read|, start, readDirection) ==>
      !Mismatch(adapter, read, start, readDirection, complementAdapter, i)
  }

  /** matchesAdapterSequence, with the source's loop. */
  method MatchesAdapterSequence(adapter: string, read: string, start: int, readDirection: int, complementAdapter: bool)
    returns (matches: bool)
    requires readDirection == 1 || readDirection == -1
    ensures matches <==> AdapterSequenceMatches(adapter, read, start, readDirection, complementAdapter)
  {
    var n := ScanLength(|adapter|, |read|, start, readDirection);
    var i := 0;
    while start + i * readDirection < |read| && start + i * readDirection >= 0 && i < |adapter|
      invariant 0 <= i <= n
      invariant forall j :: 0 <= j < i ==> !Mismatch(adapter, read, start, readDirection, complementAdapter, j)
      decreases |adapter| - i
    {
      var readBase := read[start + i * readDirection];
      var adapterBase := adapter[i];
      if complementAdapter {
        adapterBase := ComplementChar(adapterBase);
      }
      if IsValidBase(readBase) && readBase != adapterBase {
        assert Mismatch(adapter, read, start, readDirection, complementAdapter, i);
        return false;
      }
      i := i + 1;
    }
    return true;
  }

  /** A scan that starts outside the read compares nothing, so it matches every adapter. */
  lemma AdapterSequenceMatchesOutsideRead(adapter: string, read: string, start: int, readDirection: int, complementAdapter: bool)
    requires readDirection == 1 || readDirection == -1
    requires !(0 <= start < |read|)
    ensures AdapterSequenceMatches(adapter, read, start, readDirection, complementAdapter)
  {
  }

  /** A read base agreeing with a valid adapter base never mismatches: the read equal to the adapter matches it. */
  lemma AdapterSequenceMatchesItself(adapter: string)
    ensures AdapterSequenceMatches(adapter, adapter, 0, 1, false)
  {
  }

  /** The read offset where the i-th attempt of matchesAdapterFR starts, and its scan direction. */
  function AdapterStart(e: SoftClipEvidence, i: int): int {
    if e.location.direction == Forward then ReadLength(e.record) - e.SoftClipLength() - i
    else e.SoftClipLength() + i - 1
  }

  function AdapterDirection(e: SoftClipEvidence): int {
    if e.location.direction == Forward then 1 else -1
  }

  /** matchesAdapterFR: the adapter matches when started 0 to 6 bases into the alignment. */
  predicate AdapterFRMatches(e: SoftClipEvidence, adapter: string)
    requires e.Valid()
  {
    exists i :: 0 <= i <= MAX_ADAPTER_MAPPED_BASES &&
      AdapterSequenceMatches(adapter, e.record.bases.value, AdapterStart(e, i), AdapterDirection(e), e.location.direction == Backward)
  }

  method MatchesAdapterFR(e: SoftClipEvidence, adapter: string) returns (matches: bool)
    requires e.Valid()
    ensures matches <==> AdapterFRMatches(e, adapter)
  {
    var read := e.record.bases.value;
    var i := 0;
    while i <= MAX_ADAPTER_MAPPED_BASES
      invariant 0 <= i <= MAX_ADAPTER_MAPPED_BASES + 1
      invariant forall j :: 0 <= j < i ==>
        !AdapterSequenceMatches(adapter, read, AdapterStart(e, j), AdapterDirection(e), e.location.direction == Backward)
    {
      matches := MatchesAdapterSequence(adapter, read, AdapterStart(e, i), AdapterDirection(e), e.location.direction == Backward);
      if matches {
        return;
      }
      i := i + 1;
    }
    return false;
  }

  /**
   * When fewer than MAX_ADAPTER_MAPPED_BASES bases precede the clip on the
   * read, the last attempt starts outside the read and every adapter matches.
   */
  lemma ShortAnchorMatchesEveryAdapter(e: SoftClipEvidence, adapter: string)
    requires e.Valid()
    requires ReadLength(e.record) - e.SoftClipLength() < MAX_ADAPTER_MAPPED_BASES
    ensures AdapterFRMatches(e, adapter)
  {
    var read := e.record.bases.value;
    var i := MAX_ADAPTER_MAPPED_BASES;
    AdapterSequenceMatchesOutsideRead(adapter, read, AdapterStart(e, i), AdapterDirection(e), e.location.direction == Backward);
  }

  /** The clip is on the read's 3' end: forward on the positive strand, backward on the negative strand. */
  predicate ThreePrimeClip(e: SoftClipEvidence) {
    (e.location.direction == Forward && !e.record.negativeStrand)
    || (e.location.direction == Backward && e.record.negativeStrand)
  }

  /** Orientation the FR-only checks accept: FR or unknown. */
  predicate IlluminaOrientation(po: Option<PairOrientation>) {
    po.None? || po.value == FR
  }

  /**
   * isAdapterSoftClip: false without adapters or for a 5' clip, otherwise
   * whether some adapter matches; orientations other than FR are unsupported.
   */
  method IsAdapterSoftClip(e: SoftClipEvidence, adapters: Option<seq<string>>, po: Option<PairOrientation>)
    returns (r: Result<bool>)
    requires e.Valid()
    ensures r.Failure? <==> adapters.Some? && !IlluminaOrientation(po)
    ensures r.Success? ==> (r.value <==>
      adapters.Some? && ThreePrimeClip(e) && exists a :: a in adapters.value && AdapterFRMatches(e, a))
  {
    if adapters.None? {
      return Success(false);
    }
    if !IlluminaOrientation(po) {
      return Failure(UNSUPPORTED_ORIENTATION);
    }
    if e.location.direction == Forward && e.record.negativeStrand {
      return Success(false);
    }
    if e.location.direction == Backward && !e.record.negativeStrand {
      return Success(false);
    }
    var list := adapters.value;
    var i := 0;
    while i < |list|
      invariant 0 <= i <= |list|
      invariant forall j :: 0 <= j < i ==> !AdapterFRMatches(e, list[j])
    {
      var m := MatchesAdapterFR(e, list[i]);
      if m {
        return Success(true);
      }
      i := i + 1;
    }
    return Success(false);
  }

  // ---------------------------------------------------------------------------
  // Dovetailing.
  // ---------------------------------------------------------------------------

  function Abs(x: int): nat {
    if x < 0 then -x else x
  }

  /**
   * Java `==` on two separately boxed Integer values: identical objects only
   * inside the Integer cache (-128 .. 127).
   */
  predicate BoxedIntegersIdentical(a: int, b: int) {
    a == b && -128 <= a <= 127
  }

  /** The dovetail signature under FR orientation, with the contig test as a parameter. */
  predicate DovetailSignature(e: SoftClipEvidence, sameContig: bool) {
    && sameContig
    && Abs(e.record.alignmentStart - e.record.mateAlignmentStart) <= DOVETAIL_ERROR_MARGIN
    && ThreePrimeClip(e)
  }

  /**
   * isDovetailing as written: the contig indices are compared with `==` on
   * the boxed Integers getMateReferenceIndex and getReferenceIndex return.
   */
  function IsDovetailingAsWritten(e: SoftClipEvidence, po: Option<PairOrientation>): (r: Result<bool>)
    ensures !e.record.paired || e.record.mateUnmapped ==> r == Success(false)
    ensures r.Success? && r.value ==> BoxedIntegersIdentical(e.record.mateReferenceIndex, e.record.referenceIndex)
  {
    if !e.record.paired || e.record.mateUnmapped then Success(false)
    else if IlluminaOrientation(po) then
      Success(DovetailSignature(e, BoxedIntegersIdentical(e.record.mateReferenceIndex, e.record.referenceIndex)))
    else Failure(UNSUPPORTED_ORIENTATION)
  }

  /** isDovetailing comparing contig indices by value. */
  function IsDovetailing(e: SoftClipEvidence, po: Option<PairOrientation>): (r: Result<bool>)
    ensures r.Failure? <==> e.record.paired && !e.record.mateUnmapped && !IlluminaOrientation(po)
    ensures r.Success? ==> (r.value <==>
      && e.record.paired && !e.record.mateUnmapped
      && e.record.mateReferenceIndex == e.record.referenceIndex
      && -DOVETAIL_ERROR_MARGIN <= e.record.alignmentStart - e.record.mateAlignmentStart <= DOVETAIL_ERROR_MARGIN
      && ThreePrimeClip(e))
  {
    if !e.record.paired || e.record.mateUnmapped then Success(false)
    else if IlluminaOrientation(po) then
      Success(DovetailSignature(e, e.record.mateReferenceIndex == e.record.referenceIndex))
    else Failure(UNSUPPORTED_ORIENTATION)
  }

  /** The two agree whenever the contig index is inside the Integer cache. */
  lemma DovetailingAgreesInsideIntegerCache(e: SoftClipEvidence, po: Option<PairOrientation>)
    requires -128 <= e.record.referenceIndex <= 127
    ensures IsDovetailingAsWritten(e, po) == IsDovetailing(e, po)
  {
  }

  /** A read on contig 200 whose mate starts at the same position is a dovetail, but not as written. */
  lemma DovetailingAsWrittenMissesLargeContigIndex()
    ensures var r := SamRecord("r", false, Some("ACGTACGTAC"), true, true, false, false, 60,
                               200, 200, 100, 104, 100, 0, 5, Some(0), None, 0, 0);
      var e := SoftClipEvidence(r, Breakend(200, Forward, 104, 104));
      && e.Valid()
      && IsDovetailing(e, Some(FR)) == Success(true)
      && IsDovetailingAsWritten(e, Some(FR)) == Success(false)
  {
  }

  // ---------------------------------------------------------------------------
  // The acceptance predicate.
  // ---------------------------------------------------------------------------

  /** The identity test `getAlignedPercentIdentity() >= minAnchorIdentity`, failing like the identity does. */
  function IdentityAtLeast(r: SamRecord, threshold: real): Result<bool> {
    match AlignedPercentIdentity(r)
    case Failure(msg) => Failure(msg)
    case Success(p) => Success(QuotientAtLeast(p.numerator, p.denominator, threshold))
  }

  /** meetsEvidenceCritera: the adapter test is only run when the four tests before it pass. */
  method MeetsEvidenceCriteria(e: SoftClipEvidence, p: SoftClipParameters, po: Option<PairOrientation>)
    returns (r: Result<bool>)
    requires e.Valid()
    ensures r.Success? && r.value <==>
      && e.record.mappingQuality >= p.minReadMapq
      && e.SoftClipLength() >= p.minLength
      && IdentityAtLeast(e.record, p.minAnchorIdentity) == Success(true)
      && IsDovetailing(e, po) == Success(false)
      && !(p.adapterSequences.Some? && ThreePrimeClip(e) && exists a :: a in p.adapterSequences.value && AdapterFRMatches(e, a))
      && (p.adapterSequences.Some? ==> IlluminaOrientation(po))
    ensures r.Failure? <==>
      && e.record.mappingQuality >= p.minReadMapq
      && e.SoftClipLength() >= p.minLength
      && (|| IdentityAtLeast(e.record, p.minAnchorIdentity).Failure?
          || (&& IdentityAtLeast(e.record, p.minAnchorIdentity) == Success(true)
              && (|| IsDovetailing(e, po).Failure?
                  || (IsDovetailing(e, po) == Success(false) && p.adapterSequences.Some? && !IlluminaOrientation(po)))))
    ensures e.record.nm.None? && e.record.mappingQuality >= p.minReadMapq && e.SoftClipLength() >= p.minLength ==> r.Failure?
  {
    if !(e.record.mappingQuality >= p.minReadMapq) {
      return Success(false);
    }
    if !(e.SoftClipLength() >= p.minLength) {
      return Success(false);
    }
    var identity := IdentityAtLeast(e.record, p.minAnchorIdentity);
    if identity.Failure? {
      return Failure(identity.error);
    }
    if !identity.value {
      return Success(false);
    }
    var dovetail := IsDovetailing(e, po);
    if dovetail.Failure? {
      return Failure(dovetail.error);
    }
    if dovetail.value {
      return Success(false);
    }
    var adapter := IsAdapterSoftClip(e, p.adapterSequences, po);
    if adapter.Failure? {
      return Failure(adapter.error);
    }
    return Success(!adapter.value);
  }
}
