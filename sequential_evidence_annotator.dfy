/**
 * Annotating sorted variant calls with their supporting evidence
 * (SequentialEvidenceAnnotator).
 *
 * Calls and evidence arrive as two streams sorted by start position. Calls
 * are held in a window (a deque) while the evidence that can reach them is
 * read; each piece of evidence is attributed to every overlapping buffered
 * call, or only to the best one, and each call leaves the window, in input
 * order, with the evidence attributed to it.
 */
module EvidenceAnnotator {
  import opened Common
  import opened Breakends

  /**
   * A call of the input stream: its ID (None when the record has none), its
   * MATEID and EVENT attributes, its quality and its location.
   */
  datatype Call = Call(id: Option<string>, mateIdAttribute: Option<string>, eventIdAttribute: Option<string>, qual: real, location: Location)

  /** What allocateToHighBreakend distinguishes among evidence types. */
  datatype EvidenceKind =
    | ReadPairKind(readName: string, secondOfPair: bool)
    | RemoteKind(localEvidenceId: string)
    | CallKind(eventIdAttribute: Option<string>)
    | OtherKind

  datatype Evidence = Evidence(evidenceId: string, location: Location, kind: EvidenceKind)

  /** A buffered call with the evidence attributed to it so far; `index` is its position in the call stream. */
  datatype ActiveVariant = ActiveVariant(
    index: nat,
    id: Option<string>,
    mateId: Option<string>,
    eventId: Option<string>,
    startLocation: int,
    location: Location,
    score: real,
    support: seq<Evidence>)

  /** A call leaving the annotator, with its supporting evidence. */
  datatype Annotated = Annotated(call: Call, support: seq<Evidence>)

  /** A row of the evidence dump: the evidence and the call it supports (None when it supports none). */
  datatype DumpRow = DumpRow(evidence: Evidence, call: Option<nat>)

  /** new ActiveVariant(call): the mate ID is only read when the call has an ID. */
  function Activate(call: Call, index: nat): (v: ActiveVariant)
    ensures v.index == index && v.support == [] && v.location == call.location
    ensures v.id == call.id && v.eventId == call.eventIdAttribute && v.score == call.qual
    ensures v.mateId == (if call.id.Some? then call.mateIdAttribute else None)
    ensures v.startLocation == StartLinear(call.location)
  {
    ActiveVariant(index, call.id, if call.id.Some? then call.mateIdAttribute else None,
                  call.eventIdAttribute, StartLinear(call.location), call.location, call.qual, [])
  }

  /** attributeEvidence. */
  function Attribute(v: ActiveVariant, e: Evidence): ActiveVariant {
    v.(support := v.support + [e])
  }

  // ---------------------------------------------------------------------------
  // StringUtils.isNotBlank.
  // ---------------------------------------------------------------------------

  /**
   * Character.isWhitespace: tab to carriage return, the separators 28 to 31,
   * and the Unicode space, line and paragraph separators other than the
   * non-breaking spaces U+00A0, U+2007 and U+202F.
   */
  predicate IsWhitespace(c: char) {
    var u := c as int;
    || 9 <= u <= 13 || 28 <= u <= 32
    || u == 0x1680 || 0x2000 <= u <= 0x2006 || 0x2008 <= u <= 0x200A
    || u == 0x2028 || u == 0x2029 || u == 0x205F || u == 0x3000
  }

  predicate NotBlank(s: Option<string>) {
    s.Some? && exists i :: 0 <= i < |s.value| && !IsWhitespace(s.value[i])
  }

  /** Non-blank IDs are pairwise distinct. */
  predicate UniqueIds(calls: seq<Call>) {
    forall i, j :: 0 <= i < j < |calls| && NotBlank(calls[i].id) ==> calls[i].id != calls[j].id
  }

  // ---------------------------------------------------------------------------
  // The ordering ByScoreAscPositionDesc.
  // ---------------------------------------------------------------------------

  function CompareReal(a: real, b: real): (r: int)
    ensures r == 0 <==> a == b
    ensures r > 0 <==> a > b
  {
    if a < b then -1 else if a > b then 1 else 0
  }

  /** String.compareTo, by sign: character by character, a proper prefix first. */
  function CompareString(a: string, b: string): int {
    if a == [] && b == [] then 0
    else if a == [] then -1
    else if b == [] then 1
    else Then(Sign(a[0] as int, b[0] as int), CompareString(a[1..], b[1..]))
  }

  lemma {:induction false} CompareStringAntisymmetric(a: string, b: string)
    ensures CompareString(a, b) == -CompareString(b, a)
    ensures CompareString(a, b) == 0 <==> a == b
  {
    if a != [] && b != [] {
      CompareStringAntisymmetric(a[1..], b[1..]);
      if a[0] == b[0] && a[1..] == b[1..] {
        assert a == [a[0]] + a[1..] && b == [b[0]] + b[1..];
      }
    }
  }

  /** Absent identifiers order first (the source dereferences them). */
  function CompareOption(a: Option<string>, b: Option<string>): int {
    match (a, b)
    case (None, None) => 0
    case (None, Some(_)) => -1
    case (Some(_), None) => 1
    case (Some(x), Some(y)) => CompareString(x, y)
  }

  lemma CompareOptionAntisymmetric(a: Option<string>, b: Option<string>)
    ensures CompareOption(a, b) == -CompareOption(b, a)
    ensures CompareOption(a, b) == 0 <==> a == b
  {
    if a.Some? && b.Some? {
      CompareStringAntisymmetric(a.value, b.value);
    }
  }

  /** Positional step: ByLowHigh when both are breakpoints, ByStartEnd on the local breakends otherwise. */
  function ComparePosition(a: Location, b: Location): int {
    if a.BreakpointAt? && b.BreakpointAt? then ByLowHigh(a, b) else ByStartEnd(a.local, b.local)
  }

  /** Score ascending, then position descending, then event ID: everything but the final ID tie-break. */
  function RankBeforeId(a: ActiveVariant, b: ActiveVariant): int {
    Then(CompareReal(a.score, b.score), Then(ComparePosition(b.location, a.location), CompareOption(a.eventId, b.eventId)))
  }

  /** ByScoreAscPositionDesc.compare. */
  function ByScoreAscPositionDesc(a: ActiveVariant, b: ActiveVariant): int {
    Then(RankBeforeId(a, b), CompareOption(a.id, b.id))
  }

  /** The ordering is antisymmetric, and it only ties variants equal in score, position, event and ID. */
  lemma ByScoreAscPositionDescAntisymmetric(a: ActiveVariant, b: ActiveVariant)
    ensures ByScoreAscPositionDesc(a, b) == -ByScoreAscPositionDesc(b, a)
    ensures ByScoreAscPositionDesc(a, b) == 0 ==> a.score == b.score && a.eventId == b.eventId && a.id == b.id
  {
    CompareOptionAntisymmetric(a.eventId, b.eventId);
    CompareOptionAntisymmetric(a.id, b.id);
    if a.location.BreakpointAt? && b.location.BreakpointAt? {
      ByLowHighAntisymmetric(a.location, b.location);
    } else {
      ByStartEndAntisymmetric(a.location.local, b.location.local);
    }
  }

  /** A higher score always wins; a lower score always loses. */
  lemma HigherScoreWins(a: ActiveVariant, b: ActiveVariant)
    ensures a.score > b.score ==> ByScoreAscPositionDesc(a, b) > 0
    ensures ByScoreAscPositionDesc(a, b) > 0 ==> a.score >= b.score
  {
  }

  /**
   * Both sides of a breakpoint rank the same against any other breakpoint
   * call up to the ID tie-break, so paired evidence goes to corresponding
   * sides of one event.
   */
  lemma MatesRankAlike(a: ActiveVariant, b: ActiveVariant, c: ActiveVariant)
    requires a.location.BreakpointAt? && b.location == Mirror(a.location) && c.location.BreakpointAt?
    requires a.score == b.score && a.eventId == b.eventId
    ensures RankBeforeId(a, c) == RankBeforeId(b, c)
  {
    ByLowHighMirror(a.location, c.location);
  }

  // ---------------------------------------------------------------------------
  // allocateToHighBreakend.
  // ---------------------------------------------------------------------------

  const TWO_TO_32: nat := 0x1_0000_0000

  /** String.hashCode as an unsigned 32-bit value: h = 31 * h + c, wrapping. */
  function JavaStringHash(s: string): (h: nat)
    ensures h < TWO_TO_32
  {
    if s == [] then 0 else (31 * JavaStringHash(s[..|s| - 1]) + s[|s| - 1] as int) % TWO_TO_32
  }

  /** Integer.bitCount of a 32-bit value. */
  function BitCount(h: nat): nat {
    if h == 0 then 0 else h % 2 + BitCount(h / 2)
  }

  /** The identifier both sides of the evidence share, and whether this side flips the allocation. */
  function CommonIdentifier(e: Evidence): (string, bool) {
    match e.kind
    case ReadPairKind(readName, secondOfPair) => (readName, secondOfPair)
    case RemoteKind(localEvidenceId) => (localEvidenceId, true)
    case CallKind(eventIdAttribute) => (if eventIdAttribute.Some? then eventIdAttribute.value else e.evidenceId, false)
    case OtherKind => (e.evidenceId, false)
  }

  /** allocateToHighBreakend: the parity of the identifier's hash, flipped for the second side. */
  function AllocateToHighBreakend(e: Evidence): bool {
    var (identifier, flip) := CommonIdentifier(e);
    (BitCount(JavaStringHash(identifier)) % 2 == 1) != flip
  }

  /** Local evidence and its remote view are allocated to opposite sides. */
  lemma LocalAndRemoteDiverge(local: Evidence, remote: Evidence)
    requires local.kind == OtherKind && remote.kind == RemoteKind(local.evidenceId)
    ensures AllocateToHighBreakend(local) != AllocateToHighBreakend(remote)
  {
  }

  /** The two reads of a discordant pair are allocated to opposite sides. */
  lemma ReadPairSidesDiverge(first: Evidence, second: Evidence, readName: string)
    requires first.kind == ReadPairKind(readName, false) && second.kind == ReadPairKind(readName, true)
    ensures AllocateToHighBreakend(first) != AllocateToHighBreakend(second)
  {
  }

  // ---------------------------------------------------------------------------
  // The scans over the buffered calls.
  // ---------------------------------------------------------------------------

  /** How many buffered calls the scan visits: it stops at the first call starting after endLocation. */
  function ScanLimit(buffer: seq<ActiveVariant>, endLocation: int): (n: nat)
    ensures n <= |buffer|
  {
    if buffer == [] || buffer[0].startLocation > endLocation then 0
    else 1 + ScanLimit(buffer[1..], endLocation)
  }

  /** The scan visits exactly the calls before the first one starting after endLocation. */
  lemma {:induction false} ScanLimitStops(buffer: seq<ActiveVariant>, endLocation: int)
    ensures forall j :: 0 <= j < ScanLimit(buffer, endLocation) ==> buffer[j].startLocation <= endLocation
    ensures ScanLimit(buffer, endLocation) < |buffer| ==> buffer[ScanLimit(buffer, endLocation)].startLocation > endLocation
  {
    if buffer != [] && buffer[0].startLocation <= endLocation {
      ScanLimitStops(buffer[1..], endLocation);
    }
  }

  /** Buffered calls in start order, each with its start position cached from its location. */
  predicate SortedByStart(buffer: seq<ActiveVariant>) {
    && (forall i :: 0 <= i < |buffer| ==> buffer[i].startLocation == StartLinear(buffer[i].location))
    && (forall i, j :: 0 <= i < j < |buffer| ==> buffer[i].startLocation <= buffer[j].startLocation)
  }

  /** With calls sorted by start, the scan's early stop misses no overlapping call. */
  lemma ScanMissesNothingWhenSorted(buffer: seq<ActiveVariant>, bs: Location, j: nat)
    requires SortedByStart(buffer)
    requires ScanLimit(buffer, EndLinear(bs)) <= j < |buffer|
    ensures !Overlaps(buffer[j].location, bs)
  {
    var n := ScanLimit(buffer, EndLinear(bs));
    ScanLimitStops(buffer, EndLinear(bs));
    assert buffer[n].startLocation <= buffer[j].startLocation;
    if Overlaps(buffer[j].location, bs) {
      OverlapsBounds(buffer[j].location, bs);
    }
  }

  /** The single-best scan from position j on: a call replaces the best so far only when it ranks strictly higher. */
  function BestFrom(buffer: seq<ActiveVariant>, n: nat, bs: Location, j: nat, best: Option<nat>): (r: Option<nat>)
    requires n <= |buffer| && (best.Some? ==> best.value < n)
    ensures r.Some? ==> r.value < n
    decreases n - j
  {
    if j >= n then best
    else if Overlaps(buffer[j].location, bs) && (best.None? || ByScoreAscPositionDesc(buffer[j], buffer[best.value]) > 0)
    then BestFrom(buffer, n, bs, j + 1, Some(j))
    else BestFrom(buffer, n, bs, j + 1, best)
  }

  /**
   * The single-best scan finds a call exactly when some visited call
   * overlaps; the call it finds overlaps and has the highest score among the
   * overlapping visited calls.
   */
  lemma {:induction false} BestFromIsBest(buffer: seq<ActiveVariant>, n: nat, bs: Location, j: nat, best: Option<nat>)
    requires n <= |buffer| && (best.Some? ==> best.value < n)
    requires best.Some? ==> Overlaps(buffer[best.value].location, bs)
    requires best.Some? ==> forall i :: 0 <= i < j && i < n && Overlaps(buffer[i].location, bs) ==> buffer[i].score <= buffer[best.value].score
    requires best.None? ==> forall i :: 0 <= i < j && i < n ==> !Overlaps(buffer[i].location, bs)
    ensures var r := BestFrom(buffer, n, bs, j, best);
      && (r.None? <==> forall i :: 0 <= i < n ==> !Overlaps(buffer[i].location, bs))
      && (r.Some? ==> Overlaps(buffer[r.value].location, bs))
      && (r.Some? ==> forall i :: 0 <= i < n && Overlaps(buffer[i].location, bs) ==> buffer[i].score <= buffer[r.value].score)
    decreases n - j
  {
    if j < n {
      if Overlaps(buffer[j].location, bs) && (best.None? || ByScoreAscPositionDesc(buffer[j], buffer[best.value]) > 0) {
        if best.Some? {
          HigherScoreWins(buffer[j], buffer[best.value]);
        }
        BestFromIsBest(buffer, n, bs, j + 1, Some(j));
      } else {
        if best.Some? && Overlaps(buffer[j].location, bs) {
          HigherScoreWins(buffer[j], buffer[best.value]);
        }
        BestFromIsBest(buffer, n, bs, j + 1, best);
      }
    }
  }

  /**
   * Ties in score are settled by the whole ordering: no overlapping call
   * visited after the one the scan keeps ranks strictly above it under
   * ByScoreAscPositionDesc, so among equals the earliest stays.
   */
  lemma {:induction false} BestFromBeatsLater(buffer: seq<ActiveVariant>, n: nat, bs: Location, j: nat, best: Option<nat>)
    requires n <= |buffer| && (best.Some? ==> best.value < n)
    requires best.Some? ==> forall i :: best.value < i < j && i < n && Overlaps(buffer[i].location, bs) ==>
      ByScoreAscPositionDesc(buffer[i], buffer[best.value]) <= 0
    ensures var r := BestFrom(buffer, n, bs, j, best);
      r.Some? ==> forall i :: r.value < i < n && Overlaps(buffer[i].location, bs) ==>
        ByScoreAscPositionDesc(buffer[i], buffer[r.value]) <= 0
    decreases n - j
  {
    if j < n {
      if Overlaps(buffer[j].location, bs) && (best.None? || ByScoreAscPositionDesc(buffer[j], buffer[best.value]) > 0) {
        BestFromBeatsLater(buffer, n, bs, j + 1, Some(j));
      } else {
        BestFromBeatsLater(buffer, n, bs, j + 1, best);
      }
    }
  }

  /** The single-best loop of assignEvidence. */
  method ScanBest(buffer: seq<ActiveVariant>, endLocation: int, bs: Location) returns (best: Option<nat>)
    ensures best == BestFrom(buffer, ScanLimit(buffer, endLocation), bs, 0, None)
    ensures best.Some? ==> best.value < |buffer| && Overlaps(buffer[best.value].location, bs)
  {
    ghost var n := ScanLimit(buffer, endLocation);
    ScanLimitStops(buffer, endLocation);
    best := None;
    var j := 0;
    while j < |buffer|
      invariant 0 <= j <= n
      invariant best.Some? ==> best.value < j
      invariant BestFrom(buffer, n, bs, j, best) == BestFrom(buffer, n, bs, 0, None)
    {
      var v := buffer[j];
      if v.startLocation > endLocation {
        break;
      }
      if Overlaps(v.location, bs) {
        if best.None? || ByScoreAscPositionDesc(v, buffer[best.value]) > 0 {
          best := Some(j);
        }
      }
      j := j + 1;
    }
    BestFromIsBest(buffer, n, bs, 0, None);
  }

  /** The attribute-to-all loop of assignEvidence: every visited call that overlaps receives the evidence. */
  method AttributeToAll(buffer: seq<ActiveVariant>, e: Evidence, bs: Location) returns (result: seq<ActiveVariant>, called: bool)
    ensures |result| == |buffer|
    ensures forall i :: 0 <= i < |buffer| ==>
      result[i] == if i < ScanLimit(buffer, EndLinear(bs)) && Overlaps(buffer[i].location, bs) then Attribute(buffer[i], e) else buffer[i]
    ensures called <==> exists i :: 0 <= i < ScanLimit(buffer, EndLinear(bs)) && Overlaps(buffer[i].location, bs)
  {
    ghost var n := ScanLimit(buffer, EndLinear(bs));
    ScanLimitStops(buffer, EndLinear(bs));
    var endLocation := EndLinear(bs);
    result := buffer;
    called := false;
    var j := 0;
    while j < |result|
      invariant 0 <= j <= n && |result| == |buffer|
      invariant forall i :: 0 <= i < |buffer| ==>
        result[i] == if i < j && Overlaps(buffer[i].location, bs) then Attribute(buffer[i], e) else buffer[i]
      invariant called <==> exists i :: 0 <= i < j && Overlaps(buffer[i].location, bs)
    {
      if result[j].startLocation > endLocation {
        break;
      }
      if Overlaps(result[j].location, bs) {
        result := result[j := Attribute(result[j], e)];
        called := true;
      }
      j := j + 1;
    }
  }

  /** Every piece of evidence attributed to a call overlaps it once widened by the margin. */
  predicate SupportOverlaps(buffer: seq<ActiveVariant>, margin: int) {
    forall j, e :: 0 <= j < |buffer| && e in buffer[j].support ==> Overlaps(buffer[j].location, WithMargin(e.location, margin))
  }

  /** Attributing evidence to calls it overlaps keeps the calls and keeps their support overlapping. */
  lemma AttributionKeepsSupportOverlap(buffer: seq<ActiveVariant>, result: seq<ActiveVariant>, e: Evidence, margin: int, targets: set<nat>)
    requires SupportOverlaps(buffer, margin) && |result| == |buffer|
    requires forall j :: 0 <= j < |buffer| ==> result[j] == if j in targets then Attribute(buffer[j], e) else buffer[j]
    requires forall j :: j in targets ==> j < |buffer| && Overlaps(buffer[j].location, WithMargin(e.location, margin))
    ensures SupportOverlaps(result, margin)
    ensures forall j :: 0 <= j < |buffer| ==> result[j].(support := []) == buffer[j].(support := [])
  {
    forall j, f | 0 <= j < |result| && f in result[j].support
      ensures Overlaps(result[j].location, WithMargin(f.location, margin))
    {
      if j in targets && f !in buffer[j].support {
        assert f == e;
      }
    }
  }

  /** The call stream is sorted by start position. */
  predicate CallsSorted(calls: seq<Call>) {
    forall i, j :: 0 <= i < j < |calls| ==> StartLinear(calls[i].location) <= StartLinear(calls[j].location)
  }

  /** Buffer positions assignEvidence attributes the evidence to. */
  function Targets(buffer: seq<ActiveVariant>, idMap: map<string, nat>, emitted: nat, e: Evidence, margin: int, single: bool): set<nat>
  {
    var bs := WithMargin(e.location, margin);
    var n := ScanLimit(buffer, EndLinear(bs));
    if !single then
      set j | 0 <= j < n && Overlaps(buffer[j].location, bs)
    else
      match BestFrom(buffer, n, bs, 0, None)
      case None => {}
      case Some(b) => {SingleTarget(buffer, idMap, emitted, e, bs, b)}
  }

  /** The best call, or its buffered mate when the mate overlaps too and the evidence is allocated to it. */
  function SingleTarget(buffer: seq<ActiveVariant>, idMap: map<string, nat>, emitted: nat, e: Evidence, bs: Location, b: nat): nat
    requires b < |buffer|
  {
    var mateId := buffer[b].mateId;
    if mateId.Some? && mateId.value in idMap && emitted <= idMap[mateId.value] < emitted + |buffer|
      && Overlaps(buffer[idMap[mateId.value] - emitted].location, bs) && AllocateToHighBreakend(e)
    then idMap[mateId.value] - emitted
    else b
  }

  /** Single-breakpoint mode attributes each piece of evidence to at most one call. */
  lemma SingleModeAtMostOneTarget(buffer: seq<ActiveVariant>, idMap: map<string, nat>, emitted: nat, e: Evidence, margin: int)
    ensures |Targets(buffer, idMap, emitted, e, margin, true)| <= 1
  {
  }

  /** Every target overlaps the evidence widened by the margin. */
  lemma TargetsOverlap(buffer: seq<ActiveVariant>, idMap: map<string, nat>, emitted: nat, e: Evidence, margin: int, single: bool, j: nat)
    requires j in Targets(buffer, idMap, emitted, e, margin, single)
    ensures j < |buffer| && Overlaps(buffer[j].location, WithMargin(e.location, margin))
  {
    var bs := WithMargin(e.location, margin);
    var n := ScanLimit(buffer, EndLinear(bs));
    if single {
      BestFromIsBest(buffer, n, bs, 0, None);
    }
  }

  /** With calls sorted by start, attribute-to-all mode reaches every buffered call the evidence overlaps. */
  lemma AllModeReachesEveryOverlap(buffer: seq<ActiveVariant>, idMap: map<string, nat>, emitted: nat, e: Evidence, margin: int, j: nat)
    requires SortedByStart(buffer) && j < |buffer|
    ensures j in Targets(buffer, idMap, emitted, e, margin, false) <==> Overlaps(buffer[j].location, WithMargin(e.location, margin))
  {
    var bs := WithMargin(e.location, margin);
    if j >= ScanLimit(buffer, EndLinear(bs)) {
      ScanMissesNothingWhenSorted(buffer, bs, j);
    }
  }

  /** Dump rows written when a call is emitted: one per attributed piece of evidence. */
  function DumpRows(support: seq<Evidence>, index: nat): (rows: seq<DumpRow>)
    ensures |rows| == |support|
    ensures forall i :: 0 <= i < |support| ==> rows[i] == DumpRow(support[i], Some(index))
  {
    seq(|support|, i requires 0 <= i < |support| => DumpRow(support[i], Some(index)))
  }

  // ---------------------------------------------------------------------------
  // The annotator's state, as values.
  // ---------------------------------------------------------------------------

  /** The buffer holds the calls read but not yet returned, in input order. */
  predicate BufferMatches(calls: seq<Call>, emitted: nat, buffer: seq<ActiveVariant>) {
    && emitted + |buffer| <= |calls|
    && forall j :: 0 <= j < |buffer| ==> buffer[j].(support := []) == Activate(calls[emitted + j], emitted + j)
  }

  /** The ID map only holds non-blank IDs of the buffered calls, with their stream index. */
  predicate IdMapSound(calls: seq<Call>, emitted: nat, callCursor: nat, idMap: map<string, nat>) {
    && callCursor <= |calls|
    && forall id :: id in idMap ==> NotBlank(Some(id)) && emitted <= idMap[id] < callCursor && calls[idMap[id]].id == Some(id)
  }

  /** With unique IDs, every buffered call with a non-blank ID is in the map. */
  predicate IdMapComplete(calls: seq<Call>, emitted: nat, callCursor: nat, idMap: map<string, nat>) {
    && callCursor <= |calls|
    && (UniqueIds(calls) ==> forall i :: emitted <= i < callCursor && NotBlank(calls[i].id) ==>
          calls[i].id.value in idMap && idMap[calls[i].id.value] == i)
  }

  function PushId(calls: seq<Call>, callCursor: nat, idMap: map<string, nat>): map<string, nat>
    requires callCursor < |calls|
  {
    if NotBlank(calls[callCursor].id) then idMap[calls[callCursor].id.value := callCursor] else idMap
  }

  /** The buffer entries for calls lo .. hi - 1, each freshly activated with an empty support. */
  function ActivateRun(calls: seq<Call>, lo: nat, hi: nat): (run: seq<ActiveVariant>)
    requires lo <= hi <= |calls|
    ensures |run| == hi - lo
    decreases hi
  {
    if hi == lo then [] else ActivateRun(calls, lo, hi - 1) + [Activate(calls[hi - 1], hi - 1)]
  }

  /** Entry j of the run is call lo + j, activated. */
  lemma {:induction false} ActivateRunAt(calls: seq<Call>, lo: nat, hi: nat)
    requires lo <= hi <= |calls|
    ensures forall j :: 0 <= j < hi - lo ==> ActivateRun(calls, lo, hi)[j] == Activate(calls[lo + j], lo + j)
    decreases hi
  {
    if hi > lo {
      ActivateRunAt(calls, lo, hi - 1);
    }
  }

  /** The id-map puts of buffering calls lo .. hi - 1, in stream order. */
  function PushIds(calls: seq<Call>, lo: nat, hi: nat, idMap: map<string, nat>): map<string, nat>
    requires lo <= hi <= |calls|
    decreases hi
  {
    if hi == lo then idMap else PushId(calls, hi - 1, PushIds(calls, lo, hi - 1, idMap))
  }

  /** After buffering calls lo .. hi - 1, every non-blank ID among them names the latest of those calls carrying it. */
  lemma {:induction false} PushIdsLatest(calls: seq<Call>, lo: nat, hi: nat, idMap: map<string, nat>)
    requires lo <= hi <= |calls|
    ensures forall j :: lo <= j < hi && NotBlank(calls[j].id) ==>
      && calls[j].id.value in PushIds(calls, lo, hi, idMap)
      && j <= PushIds(calls, lo, hi, idMap)[calls[j].id.value] < hi
      && calls[PushIds(calls, lo, hi, idMap)[calls[j].id.value]].id == calls[j].id
    decreases hi
  {
    if hi > lo {
      PushIdsLatest(calls, lo, hi - 1, idMap);
    }
  }

  /** Buffering calls lo .. hi - 1 keeps the entry of every key none of them carries. */
  lemma {:induction false} PushIdsFrame(calls: seq<Call>, lo: nat, hi: nat, idMap: map<string, nat>, id: string)
    requires lo <= hi <= |calls|
    requires id in idMap && forall j :: lo <= j < hi ==> calls[j].id != Some(id)
    ensures id in PushIds(calls, lo, hi, idMap) && PushIds(calls, lo, hi, idMap)[id] == idMap[id]
    decreases hi
  {
    if hi > lo {
      PushIdsFrame(calls, lo, hi - 1, idMap, id);
    }
  }

  function PopId(id: Option<string>, idMap: map<string, nat>): map<string, nat> {
    if NotBlank(id) then idMap - {id.value} else idMap
  }

  /** A window of a sorted call stream is sorted. */
  lemma BufferSortedWhenCallsSorted(calls: seq<Call>, emitted: nat, buffer: seq<ActiveVariant>)
    requires BufferMatches(calls, emitted, buffer) && CallsSorted(calls)
    ensures SortedByStart(buffer)
  {
    forall i | 0 <= i < |buffer|
      ensures buffer[i].startLocation == StartLinear(buffer[i].location) == StartLinear(calls[emitted + i].location)
    {
      assert buffer[i].(support := []) == Activate(calls[emitted + i], emitted + i);
    }
  }

  lemma BufferPush(calls: seq<Call>, emitted: nat, buffer: seq<ActiveVariant>, margin: int)
    requires BufferMatches(calls, emitted, buffer) && SupportOverlaps(buffer, margin) && emitted + |buffer| < |calls|
    ensures var pushed := buffer + [Activate(calls[emitted + |buffer|], emitted + |buffer|)];
      BufferMatches(calls, emitted, pushed) && SupportOverlaps(pushed, margin)
  {
  }

  lemma BufferPop(calls: seq<Call>, emitted: nat, buffer: seq<ActiveVariant>, margin: int)
    requires BufferMatches(calls, emitted, buffer) && SupportOverlaps(buffer, margin) && |buffer| > 0
    ensures BufferMatches(calls, emitted + 1, buffer[1..]) && SupportOverlaps(buffer[1..], margin)
    ensures buffer[0].id == calls[emitted].id && buffer[0].location == calls[emitted].location
  {
    assert buffer[0].(support := []) == Activate(calls[emitted], emitted);
  }

  /** Reading a call keeps the ID map sound and complete. */
  lemma IdMapPush(calls: seq<Call>, emitted: nat, callCursor: nat, idMap: map<string, nat>)
    requires IdMapSound(calls, emitted, callCursor, idMap) && IdMapComplete(calls, emitted, callCursor, idMap)
    requires emitted <= callCursor < |calls|
    ensures IdMapSound(calls, emitted, callCursor + 1, PushId(calls, callCursor, idMap))
    ensures IdMapComplete(calls, emitted, callCursor + 1, PushId(calls, callCursor, idMap))
  {
    if UniqueIds(calls) {
      forall i | emitted <= i < callCursor && NotBlank(calls[i].id)
        ensures calls[i].id != calls[callCursor].id
      {
      }
    }
  }

  /** Returning the oldest call and dropping its ID keeps the ID map sound and complete. */
  lemma IdMapPop(calls: seq<Call>, emitted: nat, callCursor: nat, idMap: map<string, nat>)
    requires IdMapSound(calls, emitted, callCursor, idMap) && IdMapComplete(calls, emitted, callCursor, idMap)
    requires emitted < callCursor
    ensures IdMapSound(calls, emitted + 1, callCursor, PopId(calls[emitted].id, idMap))
    ensures IdMapComplete(calls, emitted + 1, callCursor, PopId(calls[emitted].id, idMap))
  {
    if UniqueIds(calls) {
      forall i | emitted < i < callCursor && NotBlank(calls[i].id)
        ensures calls[i].id != calls[emitted].id
      {
      }
    }
  }

  /** assignEvidence on the buffer: attributes the evidence to its targets and says whether there were any. */
  method AssignTo(buffer: seq<ActiveVariant>, idMap: map<string, nat>, emitted: nat, e: Evidence, margin: int, single: bool)
    returns (result: seq<ActiveVariant>, called: bool)
    ensures |result| == |buffer|
    ensures forall j :: 0 <= j < |buffer| ==>
      result[j] == if j in Targets(buffer, idMap, emitted, e, margin, single) then Attribute(buffer[j], e) else buffer[j]
    ensures called <==> Targets(buffer, idMap, emitted, e, margin, single) != {}
  {
    var bs := WithMargin(e.location, margin);
    ghost var targets := Targets(buffer, idMap, emitted, e, margin, single);
    result := buffer;
    called := false;
    if single {
      var best := ScanBest(buffer, EndLinear(bs), bs);
      if best.Some? {
        var target := best.value;
        var mateId := buffer[target].mateId;
        if mateId.Some? && mateId.value in idMap && emitted <= idMap[mateId.value] < emitted + |buffer| {
          var mate := idMap[mateId.value] - emitted;
          if Overlaps(buffer[mate].location, bs) && AllocateToHighBreakend(e) {
            target := mate;
          }
        }
        assert targets == {target};
        result := buffer[target := Attribute(buffer[target], e)];
        called := true;
      }
    } else {
      result, called := AttributeToAll(buffer, e, bs);
      assert called <==> targets != {} by {
        if called {
          var i :| 0 <= i < ScanLimit(buffer, EndLinear(bs)) && Overlaps(buffer[i].location, bs);
          assert i in targets;
        }
      }
    }
  }

  /** Attribution keeps the buffered calls and their support overlapping. */
  lemma AssignKeepsBuffer(calls: seq<Call>, buffer: seq<ActiveVariant>, result: seq<ActiveVariant>, idMap: map<string, nat>,
                          emitted: nat, e: Evidence, margin: int, single: bool)
    requires BufferMatches(calls, emitted, buffer) && SupportOverlaps(buffer, margin) && |result| == |buffer|
    requires forall j :: 0 <= j < |buffer| ==>
      result[j] == if j in Targets(buffer, idMap, emitted, e, margin, single) then Attribute(buffer[j], e) else buffer[j]
    ensures BufferMatches(calls, emitted, result) && SupportOverlaps(result, margin)
  {
    var targets := Targets(buffer, idMap, emitted, e, margin, single);
    forall j | j in targets
      ensures j < |buffer| && Overlaps(buffer[j].location, WithMargin(e.location, margin))
    {
      TargetsOverlap(buffer, idMap, emitted, e, margin, single, j);
    }
    AttributionKeepsSupportOverlap(buffer, result, e, margin, targets);
  }

  /** The buffer with the evidence attributed to the calls at the target positions. */
  function Assigned(buffer: seq<ActiveVariant>, targets: set<nat>, e: Evidence): (r: seq<ActiveVariant>)
    ensures |r| == |buffer|
    ensures forall j :: 0 <= j < |buffer| ==> r[j] == if j in targets then Attribute(buffer[j], e) else buffer[j]
  {
    seq(|buffer|, j requires 0 <= j < |buffer| => if j in targets then Attribute(buffer[j], e) else buffer[j])
  }

  /** assignEvidence once its targets are known: the evidence attributed to them, and a dump row when there are none. */
  function AssignStep(buffer: seq<ActiveVariant>, dump: seq<DumpRow>, targets: set<nat>, e: Evidence, dumpEnabled: bool)
    : (seq<ActiveVariant>, seq<DumpRow>)
  {
    (Assigned(buffer, targets, e), dump + if dumpEnabled && targets == {} then [DumpRow(e, None)] else [])
  }

  /** With calls sorted by start, attribute-to-all mode attributes the evidence to exactly the buffered calls it overlaps. */
  lemma AllModeAssigned(calls: seq<Call>, buffer: seq<ActiveVariant>, idMap: map<string, nat>, emitted: nat, e: Evidence, margin: int)
    requires BufferMatches(calls, emitted, buffer) && CallsSorted(calls)
    ensures forall j :: 0 <= j < |buffer| ==>
      Assigned(buffer, Targets(buffer, idMap, emitted, e, margin, false), e)[j]
        == if Overlaps(buffer[j].location, WithMargin(e.location, margin)) then Attribute(buffer[j], e) else buffer[j]
  {
    BufferSortedWhenCallsSorted(calls, emitted, buffer);
    forall j | 0 <= j < |buffer|
      ensures j in Targets(buffer, idMap, emitted, e, margin, false) <==> Overlaps(buffer[j].location, WithMargin(e.location, margin))
    {
      AllModeReachesEveryOverlap(buffer, idMap, emitted, e, margin, j);
    }
  }

  /** The targets assignEvidence picks, as a function of the buffer and the evidence. */
  function TargetsOf(idMap: map<string, nat>, emitted: nat, margin: int, single: bool): (seq<ActiveVariant>, Evidence) -> set<nat> {
    (buffer, e) => Targets(buffer, idMap, emitted, e, margin, single)
  }

  /** Evidence lo..hi-1 of the stream assigned in turn, each to the targets targetsOf picks, as processEvidenceBefore does. */
  function AssignAll(buffer: seq<ActiveVariant>, dump: seq<DumpRow>, targetsOf: (seq<ActiveVariant>, Evidence) -> set<nat>,
                     evidence: seq<Evidence>, lo: nat, hi: nat, dumpEnabled: bool): (seq<ActiveVariant>, seq<DumpRow>)
    requires lo <= hi <= |evidence|
    decreases hi
  {
    if hi == lo then (buffer, dump)
    else
      var before := AssignAll(buffer, dump, targetsOf, evidence, lo, hi - 1, dumpEnabled);
      AssignStep(before.0, before.1, targetsOf(before.0, evidence[hi - 1]), evidence[hi - 1], dumpEnabled)
  }

  /** b is a at its start, followed by elements of es. */
  predicate ExtendsWith<T>(a: seq<T>, b: seq<T>, es: set<T>) {
    |a| <= |b| && b[..|a|] == a && forall i :: |a| <= i < |b| ==> b[i] in es
  }

  lemma ExtendsWithStep<T>(a: seq<T>, b: seq<T>, c: seq<T>, es: set<T>)
    requires ExtendsWith(a, b, es) && ExtendsWith(b, c, es)
    ensures ExtendsWith(a, c, es)
  {
    assert c[..|a|] == c[..|b|][..|a|];
  }

  /** One step keeps every call, extends each support by the evidence at most, and the dump by a row with no call at most. */
  lemma AssignStepExtends(buffer: seq<ActiveVariant>, dump: seq<DumpRow>, targets: set<nat>, e: Evidence, dumpEnabled: bool)
    ensures var (b, d) := AssignStep(buffer, dump, targets, e, dumpEnabled);
      && |b| == |buffer|
      && (forall j :: 0 <= j < |buffer| ==> b[j].(support := []) == buffer[j].(support := []))
      && (forall j :: 0 <= j < |buffer| ==> ExtendsWith(buffer[j].support, b[j].support, {e}))
      && ExtendsWith(dump, d, {DumpRow(e, None)})
  {
    var (b, d) := AssignStep(buffer, dump, targets, e, dumpEnabled);
    forall j | 0 <= j < |buffer|
      ensures ExtendsWith(buffer[j].support, b[j].support, {e})
    {
      assert b[j].support == buffer[j].support || b[j].support == buffer[j].support + [e];
    }
  }

  /** Assigning a run of evidence keeps every call, changing only its support. */
  lemma {:induction false} AssignAllKeepsCalls(buffer: seq<ActiveVariant>, dump: seq<DumpRow>,
                                               targetsOf: (seq<ActiveVariant>, Evidence) -> set<nat>,
                                               evidence: seq<Evidence>, lo: nat, hi: nat, dumpEnabled: bool)
    requires lo <= hi <= |evidence|
    ensures var b := AssignAll(buffer, dump, targetsOf, evidence, lo, hi, dumpEnabled).0;
      && |b| == |buffer|
      && forall j :: 0 <= j < |buffer| ==> b[j].(support := []) == buffer[j].(support := [])
    decreases hi
  {
    if hi > lo {
      AssignAllKeepsCalls(buffer, dump, targetsOf, evidence, lo, hi - 1, dumpEnabled);
      var (b0, d0) := AssignAll(buffer, dump, targetsOf, evidence, lo, hi - 1, dumpEnabled);
      AssignStepExtends(b0, d0, targetsOf(b0, evidence[hi - 1]), evidence[hi - 1], dumpEnabled);
    }
  }

  /** Assigning a run of evidence only appends evidence of the run to each call's support. */
  lemma {:induction false} AssignAllExtendsSupport(buffer: seq<ActiveVariant>, dump: seq<DumpRow>,
                                                   targetsOf: (seq<ActiveVariant>, Evidence) -> set<nat>,
                                                   evidence: seq<Evidence>, lo: nat, hi: nat, dumpEnabled: bool)
    requires lo <= hi <= |evidence|
    ensures var b := AssignAll(buffer, dump, targetsOf, evidence, lo, hi, dumpEnabled).0;
      && |b| == |buffer|
      && forall j :: 0 <= j < |buffer| ==> ExtendsWith(buffer[j].support, b[j].support, set i | lo <= i < hi :: evidence[i])
    decreases hi
  {
    if hi > lo {
      var all := set i | lo <= i < hi :: evidence[i];
      AssignAllExtendsSupport(buffer, dump, targetsOf, evidence, lo, hi - 1, dumpEnabled);
      var (b0, d0) := AssignAll(buffer, dump, targetsOf, evidence, lo, hi - 1, dumpEnabled);
      var targets := targetsOf(b0, evidence[hi - 1]);
      AssignStepExtends(b0, d0, targets, evidence[hi - 1], dumpEnabled);
      var b := AssignStep(b0, d0, targets, evidence[hi - 1], dumpEnabled).0;
      assert (set i | lo <= i < hi - 1 :: evidence[i]) <= all && evidence[hi - 1] in all;
      forall j | 0 <= j < |buffer|
        ensures ExtendsWith(buffer[j].support, b[j].support, all)
      {
        ExtendsWithStep(buffer[j].support, b0[j].support, b[j].support, all);
      }
    }
  }

  /** Assigning a run of evidence only appends rows for evidence of the run, with no call, to the dump. */
  lemma {:induction false} AssignAllExtendsDump(buffer: seq<ActiveVariant>, dump: seq<DumpRow>,
                                                targetsOf: (seq<ActiveVariant>, Evidence) -> set<nat>,
                                                evidence: seq<Evidence>, lo: nat, hi: nat, dumpEnabled: bool)
    requires lo <= hi <= |evidence|
    ensures ExtendsWith(dump, AssignAll(buffer, dump, targetsOf, evidence, lo, hi, dumpEnabled).1,
                        set i | lo <= i < hi :: DumpRow(evidence[i], None))
    decreases hi
  {
    if hi > lo {
      var rows := set i | lo <= i < hi :: DumpRow(evidence[i], None);
      AssignAllExtendsDump(buffer, dump, targetsOf, evidence, lo, hi - 1, dumpEnabled);
      var (b0, d0) := AssignAll(buffer, dump, targetsOf, evidence, lo, hi - 1, dumpEnabled);
      var targets := targetsOf(b0, evidence[hi - 1]);
      AssignStepExtends(b0, d0, targets, evidence[hi - 1], dumpEnabled);
      var d := AssignStep(b0, d0, targets, evidence[hi - 1], dumpEnabled).1;
      assert (set i | lo <= i < hi - 1 :: DumpRow(evidence[i], None)) <= rows && DumpRow(evidence[hi - 1], None) in rows;
      ExtendsWithStep(dump, d0, d, rows);
    }
  }

  /** Every target a targets function picks overlaps the evidence widened by the margin. */
  ghost predicate TargetsOverlapping(targetsOf: (seq<ActiveVariant>, Evidence) -> set<nat>, margin: int) {
    forall b: seq<ActiveVariant>, e: Evidence, j: nat :: j in targetsOf(b, e) ==> j < |b| && Overlaps(b[j].location, WithMargin(e.location, margin))
  }

  lemma TargetsOfOverlapping(idMap: map<string, nat>, emitted: nat, margin: int, single: bool)
    ensures TargetsOverlapping(TargetsOf(idMap, emitted, margin, single), margin)
  {
    forall b: seq<ActiveVariant>, e: Evidence, j: nat | j in TargetsOf(idMap, emitted, margin, single)(b, e)
      ensures j < |b| && Overlaps(b[j].location, WithMargin(e.location, margin))
    {
      TargetsOverlap(b, idMap, emitted, e, margin, single, j);
    }
  }

  /** Assigning a run of evidence to overlapping targets keeps every support overlapping its call. */
  /** One assignment step with overlapping targets keeps the support overlapping. */
  lemma AssignStepKeepsOverlap(buffer: seq<ActiveVariant>, dump: seq<DumpRow>, targetsOf: (seq<ActiveVariant>, Evidence) -> set<nat>,
                               e: Evidence, dumpEnabled: bool, margin: int)
    requires SupportOverlaps(buffer, margin) && TargetsOverlapping(targetsOf, margin)
    ensures SupportOverlaps(AssignStep(buffer, dump, targetsOf(buffer, e), e, dumpEnabled).0, margin)
  {
    var targets := targetsOf(buffer, e);
    AttributionKeepsSupportOverlap(buffer, AssignStep(buffer, dump, targets, e, dumpEnabled).0, e, margin, targets);
  }

  /** The last step of a run keeps the support overlapping. */
  lemma AssignAllLastKeepsOverlap(buffer: seq<ActiveVariant>, dump: seq<DumpRow>,
                                  targetsOf: (seq<ActiveVariant>, Evidence) -> set<nat>,
                                  evidence: seq<Evidence>, lo: nat, hi: nat, dumpEnabled: bool, margin: int)
    requires lo < hi <= |evidence| && TargetsOverlapping(targetsOf, margin)
    requires SupportOverlaps(AssignAll(buffer, dump, targetsOf, evidence, lo, hi - 1, dumpEnabled).0, margin)
    ensures SupportOverlaps(AssignAll(buffer, dump, targetsOf, evidence, lo, hi, dumpEnabled).0, margin)
  {
    var before := AssignAll(buffer, dump, targetsOf, evidence, lo, hi - 1, dumpEnabled);
    AssignStepKeepsOverlap(before.0, before.1, targetsOf, evidence[hi - 1], dumpEnabled, margin);
  }

  lemma {:induction false} AssignAllKeepsOverlap(buffer: seq<ActiveVariant>, dump: seq<DumpRow>,
                                                 targetsOf: (seq<ActiveVariant>, Evidence) -> set<nat>,
                                                 evidence: seq<Evidence>, lo: nat, hi: nat, dumpEnabled: bool, margin: int)
    requires lo <= hi <= |evidence|
    requires SupportOverlaps(buffer, margin) && TargetsOverlapping(targetsOf, margin)
    ensures SupportOverlaps(AssignAll(buffer, dump, targetsOf, evidence, lo, hi, dumpEnabled).0, margin)
    decreases hi
  {
    if hi > lo {
      AssignAllKeepsOverlap(buffer, dump, targetsOf, evidence, lo, hi - 1, dumpEnabled, margin);
      AssignAllLastKeepsOverlap(buffer, dump, targetsOf, evidence, lo, hi, dumpEnabled, margin);
    }
  }

  /** assignEvidence on the buffer and the dump. */
  method AssignOne(buffer: seq<ActiveVariant>, dump: seq<DumpRow>, idMap: map<string, nat>, emitted: nat,
                   e: Evidence, margin: int, single: bool, dumpEnabled: bool)
    returns (buffer': seq<ActiveVariant>, dump': seq<DumpRow>)
    ensures (buffer', dump') == AssignStep(buffer, dump, Targets(buffer, idMap, emitted, e, margin, single), e, dumpEnabled)
  {
    ghost var targets := Targets(buffer, idMap, emitted, e, margin, single);
    var called;
    buffer', called := AssignTo(buffer, idMap, emitted, e, margin, single);
    assert buffer' == Assigned(buffer, targets, e);
    dump' := dump;
    if !called && dumpEnabled {
      dump' := dump + [DumpRow(e, None)];
    }
    assert dump' == dump + if dumpEnabled && targets == {} then [DumpRow(e, None)] else [];
  }

  /** Evidence lo..hi-1 all start, less the margin, at or before the position. */
  predicate StartsBy(evidence: seq<Evidence>, lo: nat, hi: nat, margin: int, position: int)
    requires lo <= hi <= |evidence|
    decreases hi
  {
    hi == lo || (StartsBy(evidence, lo, hi - 1, margin, position) && StartLinear(evidence[hi - 1].location) - margin <= position)
  }

  lemma {:induction false} StartsByEach(evidence: seq<Evidence>, lo: nat, hi: nat, margin: int, position: int)
    requires lo <= hi <= |evidence| && StartsBy(evidence, lo, hi, margin, position)
    ensures forall i :: lo <= i < hi ==> StartLinear(evidence[i].location) - margin <= position
    decreases hi
  {
    if hi > lo {
      StartsByEach(evidence, lo, hi - 1, margin, position);
    }
  }

  /**
   * targetsOf picks assignEvidence's targets. The trigger keeps the fact
   * dormant until a Targets term is already present.
   */
  ghost predicate TargetsAre(targetsOf: (seq<ActiveVariant>, Evidence) -> set<nat>,
                             idMap: map<string, nat>, emitted: nat, margin: int, single: bool) {
    forall b: seq<ActiveVariant>, e: Evidence {:trigger Targets(b, idMap, emitted, e, margin, single)} ::
      targetsOf(b, e) == Targets(b, idMap, emitted, e, margin, single)
  }

  lemma TargetsOfAre(idMap: map<string, nat>, emitted: nat, margin: int, single: bool)
    ensures TargetsAre(TargetsOf(idMap, emitted, margin, single), idMap, emitted, margin, single)
  {
  }

  /** One more piece of evidence extends the run by an assignEvidence step with the annotator's targets. */
  lemma AssignAllNext(buffer: seq<ActiveVariant>, dump: seq<DumpRow>, targetsOf: (seq<ActiveVariant>, Evidence) -> set<nat>,
                      idMap: map<string, nat>, emitted: nat,
                      evidence: seq<Evidence>, lo: nat, hi: nat, margin: int, single: bool, dumpEnabled: bool)
    requires lo <= hi < |evidence| && TargetsAre(targetsOf, idMap, emitted, margin, single)
    ensures var before := AssignAll(buffer, dump, targetsOf, evidence, lo, hi, dumpEnabled);
      AssignAll(buffer, dump, targetsOf, evidence, lo, hi + 1, dumpEnabled)
      == AssignStep(before.0, before.1, Targets(before.0, idMap, emitted, evidence[hi], margin, single), evidence[hi], dumpEnabled)
  {
  }

  /** Assigns evidence[hi], extending the run lo..hi-1 by one. */
  method AssignNext(buffer: seq<ActiveVariant>, dump: seq<DumpRow>, ghost targetsOf: (seq<ActiveVariant>, Evidence) -> set<nat>,
                    idMap: map<string, nat>, emitted: nat,
                    evidence: seq<Evidence>, lo: nat, hi: nat, margin: int, single: bool, dumpEnabled: bool,
                    current: seq<ActiveVariant>, currentDump: seq<DumpRow>)
    returns (buffer': seq<ActiveVariant>, dump': seq<DumpRow>)
    requires lo <= hi < |evidence| && TargetsAre(targetsOf, idMap, emitted, margin, single)
    requires (current, currentDump) == AssignAll(buffer, dump, targetsOf, evidence, lo, hi, dumpEnabled)
    ensures (buffer', dump') == AssignAll(buffer, dump, targetsOf, evidence, lo, hi + 1, dumpEnabled)
  {
    AssignAllNext(buffer, dump, targetsOf, idMap, emitted, evidence, lo, hi, margin, single, dumpEnabled);
    buffer', dump' := AssignOne(current, currentDump, idMap, emitted, evidence[hi], margin, single, dumpEnabled);
  }

  /** processEvidenceBefore on the buffer and the dump: assigns the evidence from the cursor while it starts, less the margin, by the position. */
  method AssignBefore(buffer: seq<ActiveVariant>, dump: seq<DumpRow>, ghost targetsOf: (seq<ActiveVariant>, Evidence) -> set<nat>,
                      idMap: map<string, nat>, emitted: nat,
                      evidence: seq<Evidence>, cursor: nat, position: int, margin: int, single: bool, dumpEnabled: bool)
    returns (buffer': seq<ActiveVariant>, dump': seq<DumpRow>, cursor': nat)
    requires cursor <= |evidence| && TargetsAre(targetsOf, idMap, emitted, margin, single)
    ensures cursor <= cursor' <= |evidence|
    ensures forall i :: cursor <= i < cursor' ==> StartLinear(evidence[i].location) - margin <= position
    ensures cursor' == |evidence| || StartLinear(evidence[cursor'].location) - margin > position
    ensures (buffer', dump') == AssignAll(buffer, dump, targetsOf, evidence, cursor, cursor', dumpEnabled)
  {
    buffer', dump', cursor' := buffer, dump, cursor;
    while cursor' < |evidence| && StartLinear(evidence[cursor'].location) - margin <= position
      invariant cursor <= cursor' <= |evidence|
      invariant StartsBy(evidence, cursor, cursor', margin, position)
      invariant (buffer', dump') == AssignAll(buffer, dump, targetsOf, evidence, cursor, cursor', dumpEnabled)
      decreases |evidence| - cursor'
    {
      buffer', dump' := AssignNext(buffer, dump, targetsOf, idMap, emitted, evidence, cursor, cursor', margin, single, dumpEnabled, buffer', dump');
      cursor' := cursor' + 1;
    }
    StartsByEach(evidence, cursor, cursor', margin, position);
  }

  /** Buffering a run of calls keeps the buffer matching the call stream and its support overlapping. */
  lemma {:induction false} ActivateRunKeepsBuffer(calls: seq<Call>, emitted: nat, buffer: seq<ActiveVariant>, hi: nat, margin: int)
    requires BufferMatches(calls, emitted, buffer) && SupportOverlaps(buffer, margin)
    requires emitted + |buffer| <= hi <= |calls|
    ensures BufferMatches(calls, emitted, buffer + ActivateRun(calls, emitted + |buffer|, hi))
    ensures SupportOverlaps(buffer + ActivateRun(calls, emitted + |buffer|, hi), margin)
    decreases hi
  {
    var lo := emitted + |buffer|;
    if hi > lo {
      ActivateRunKeepsBuffer(calls, emitted, buffer, hi - 1, margin);
      var before := buffer + ActivateRun(calls, lo, hi - 1);
      ActivateRunAt(calls, lo, hi - 1);
      BufferPush(calls, emitted, before, margin);
      assert buffer + ActivateRun(calls, lo, hi) == before + [Activate(calls[hi - 1], hi - 1)];
    }
  }

  /** Buffering a run of calls keeps the id map sound and complete. */
  lemma {:induction false} PushIdsKeepsIdMap(calls: seq<Call>, emitted: nat, lo: nat, hi: nat, idMap: map<string, nat>)
    requires IdMapSound(calls, emitted, lo, idMap) && IdMapComplete(calls, emitted, lo, idMap)
    requires emitted <= lo <= hi <= |calls|
    ensures IdMapSound(calls, emitted, hi, PushIds(calls, lo, hi, idMap))
    ensures IdMapComplete(calls, emitted, hi, PushIds(calls, lo, hi, idMap))
    decreases hi
  {
    if hi > lo {
      PushIdsKeepsIdMap(calls, emitted, lo, hi - 1, idMap);
      IdMapPush(calls, emitted, hi - 1, PushIds(calls, lo, hi - 1, idMap));
    }
  }

  /** buffer(variant) on the buffer and the id map: append the activated call; put its ID only when it is not blank. */
  method BufferOne(calls: seq<Call>, buffer: seq<ActiveVariant>, idMap: map<string, nat>, cursor: nat)
    returns (buffer': seq<ActiveVariant>, idMap': map<string, nat>)
    requires cursor < |calls|
    ensures buffer' == buffer + [Activate(calls[cursor], cursor)]
    ensures idMap' == PushId(calls, cursor, idMap)
    ensures NotBlank(calls[cursor].id) ==> calls[cursor].id.value in idMap' && idMap'[calls[cursor].id.value] == cursor
  {
    var av := Activate(calls[cursor], cursor);
    buffer' := buffer + [av];
    idMap' := idMap;
    if NotBlank(av.id) {
      idMap' := idMap[av.id.value := cursor];
    }
  }

  /**
   * bufferVariantsBefore on the buffer and the id map: buffers calls from the
   * cursor while the buffer is empty or its last call starts by the position.
   */
  method BufferBefore(calls: seq<Call>, emitted: nat, buffer: seq<ActiveVariant>, idMap: map<string, nat>,
                      cursor: nat, position: int)
    returns (buffer': seq<ActiveVariant>, idMap': map<string, nat>, cursor': nat)
    requires emitted + |buffer| == cursor <= |calls| && BufferMatches(calls, emitted, buffer)
    ensures cursor <= cursor' <= |calls|
    ensures buffer' == buffer + ActivateRun(calls, cursor, cursor')
    ensures idMap' == PushIds(calls, cursor, cursor', idMap)
    ensures cursor' == |calls| || (|buffer'| > 0 && buffer'[|buffer'| - 1].startLocation > position)
    ensures forall j :: emitted <= j && cursor <= j + 1 < cursor' ==> StartLinear(calls[j].location) <= position
  {
    buffer', idMap', cursor' := buffer, idMap, cursor;
    while cursor' < |calls| && (|buffer'| == 0 || buffer'[|buffer'| - 1].startLocation <= position)
      invariant cursor <= cursor' <= |calls| && emitted + |buffer'| == cursor'
      invariant buffer' == buffer + ActivateRun(calls, cursor, cursor')
      invariant idMap' == PushIds(calls, cursor, cursor', idMap)
      invariant |buffer'| > 0 ==> buffer'[|buffer'| - 1].startLocation == StartLinear(calls[cursor' - 1].location)
      invariant forall j :: emitted <= j && cursor <= j + 1 < cursor' ==> StartLinear(calls[j].location) <= position
      decreases |calls| - cursor'
    {
      if cursor' == cursor && |buffer'| > 0 {
        assert buffer'[|buffer'| - 1].(support := []) == Activate(calls[emitted + |buffer'| - 1], emitted + |buffer'| - 1);
      }
      buffer', idMap' := BufferOne(calls, buffer', idMap', cursor');
      cursor' := cursor' + 1;
    }
  }

  // ---------------------------------------------------------------------------
  // The annotator.
  // ---------------------------------------------------------------------------

  class SequentialEvidenceAnnotator {
    const calls: seq<Call>
    const evidence: seq<Evidence>
    const maxCallRange: int
    const breakendMargin: int
    const assignEvidenceToSingleBreakpoint: bool
    const dumpEnabled: bool
    const sanityCheckIterators: bool
    /** Calls read from the call stream. */
    var callCursor: nat
    /** Evidence read from the evidence stream. */
    var evidenceCursor: nat
    /** Calls returned so far. */
    var emitted: nat
    var variantBuffer: seq<ActiveVariant>
    /** bufferedVariantId, holding the stream index of the buffered call with each ID. */
    var bufferedVariantId: map<string, nat>
    var dump: seq<DumpRow>

    ghost predicate Valid()
      reads this`callCursor, this`evidenceCursor, this`emitted, this`variantBuffer, this`bufferedVariantId
    {
      && callCursor <= |calls| && evidenceCursor <= |evidence|
      && emitted + |variantBuffer| == callCursor
      && BufferMatches(calls, emitted, variantBuffer)
      && SupportOverlaps(variantBuffer, breakendMargin)
      && IdMapSound(calls, emitted, callCursor, bufferedVariantId)
      && IdMapComplete(calls, emitted, callCursor, bufferedVariantId)
    }

    constructor (calls: seq<Call>, evidence: seq<Evidence>, maxCallWindowSize: int, breakendMargin: int,
                 assignEvidenceToSingleBreakpoint: bool, dumpEnabled: bool, sanityCheckIterators: bool)
      ensures Valid()
      ensures this.calls == calls && this.evidence == evidence && this.maxCallRange == maxCallWindowSize
      ensures this.breakendMargin == breakendMargin && this.assignEvidenceToSingleBreakpoint == assignEvidenceToSingleBreakpoint
      ensures this.dumpEnabled == dumpEnabled && this.sanityCheckIterators == sanityCheckIterators
      ensures callCursor == 0 && evidenceCursor == 0 && emitted == 0
      ensures variantBuffer == [] && bufferedVariantId == map[] && dump == []
    {
      this.calls := calls;
      this.evidence := evidence;
      this.maxCallRange := maxCallWindowSize;
      this.breakendMargin := breakendMargin;
      this.assignEvidenceToSingleBreakpoint := assignEvidenceToSingleBreakpoint;
      this.dumpEnabled := dumpEnabled;
      this.sanityCheckIterators := sanityCheckIterators;
      callCursor := 0;
      evidenceCursor := 0;
      emitted := 0;
      variantBuffer := [];
      bufferedVariantId := map[];
      dump := [];
    }

    /** buffer(callIt.next()): append the next call; record its ID only when it is not blank. */
    method Buffer()
      requires Valid() && callCursor < |calls|
      modifies this`variantBuffer, this`callCursor, this`bufferedVariantId
      ensures Valid()
      ensures callCursor == old(callCursor) + 1
      ensures variantBuffer == old(variantBuffer) + [Activate(calls[old(callCursor)], old(callCursor))]
      ensures bufferedVariantId == PushId(calls, old(callCursor), old(bufferedVariantId))
    {
      var cursor := callCursor;
      BufferPush(calls, emitted, variantBuffer, breakendMargin);
      IdMapPush(calls, emitted, cursor, bufferedVariantId);
      variantBuffer, bufferedVariantId := BufferOne(calls, variantBuffer, bufferedVariantId, cursor);
      callCursor := cursor + 1;
    }

    /** bufferVariantsBefore: read calls while the buffer is empty or its last call starts at or before the position. */
    method BufferVariantsBefore(position: int)
      requires Valid()
      modifies this`variantBuffer, this`callCursor, this`bufferedVariantId
      ensures Valid()
      ensures callCursor >= old(callCursor)
      ensures variantBuffer[..|old(variantBuffer)|] == old(variantBuffer)
      ensures callCursor == |calls| || (|variantBuffer| > 0 && variantBuffer[|variantBuffer| - 1].startLocation > position)
      ensures forall j :: emitted <= j && old(callCursor) <= j + 1 < callCursor ==> StartLinear(calls[j].location) <= position
      ensures variantBuffer == old(variantBuffer) + ActivateRun(calls, old(callCursor), callCursor)
      ensures bufferedVariantId == PushIds(calls, old(callCursor), callCursor, old(bufferedVariantId))
    {
      var buffer, ids, cursor := BufferBefore(calls, emitted, variantBuffer, bufferedVariantId, callCursor, position);
      ActivateRunKeepsBuffer(calls, emitted, variantBuffer, cursor, breakendMargin);
      PushIdsKeepsIdMap(calls, emitted, callCursor, cursor, bufferedVariantId);
      assert buffer[..|variantBuffer|] == variantBuffer;
      variantBuffer, bufferedVariantId, callCursor := buffer, ids, cursor;
    }

    /** assignEvidence: attribute to the targets, or dump the evidence when it supports no call. */
    method AssignEvidence(e: Evidence)
      requires Valid()
      modifies this`variantBuffer, this`dump
      ensures Valid()
      ensures |variantBuffer| == |old(variantBuffer)|
      ensures (variantBuffer, dump) ==
        AssignStep(old(variantBuffer), old(dump),
                   Targets(old(variantBuffer), bufferedVariantId, emitted, e, breakendMargin, assignEvidenceToSingleBreakpoint), e, dumpEnabled)
      ensures !assignEvidenceToSingleBreakpoint && CallsSorted(calls) ==> forall j :: 0 <= j < |variantBuffer| ==>
        variantBuffer[j] == if Overlaps(old(variantBuffer[j]).location, WithMargin(e.location, breakendMargin))
          then Attribute(old(variantBuffer[j]), e) else old(variantBuffer[j])
    {
      if !assignEvidenceToSingleBreakpoint && CallsSorted(calls) {
        AllModeAssigned(calls, variantBuffer, bufferedVariantId, emitted, e, breakendMargin);
      }
      var buffer;
      buffer, dump := AssignOne(variantBuffer, dump, bufferedVariantId, emitted, e, breakendMargin,
                                assignEvidenceToSingleBreakpoint, dumpEnabled);
      AssignKeepsBuffer(calls, variantBuffer, buffer, bufferedVariantId, emitted, e, breakendMargin, assignEvidenceToSingleBreakpoint);
      variantBuffer := buffer;
    }

    /** processEvidenceBefore: assign evidence while its start, less the breakend margin, is at or before the position. */
    method ProcessEvidenceBefore(position: int)
      requires Valid()
      modifies this`variantBuffer, this`dump, this`evidenceCursor
      ensures Valid()
      ensures |variantBuffer| == |old(variantBuffer)|
      ensures evidenceCursor >= old(evidenceCursor)
      ensures forall i :: old(evidenceCursor) <= i < evidenceCursor ==> StartLinear(evidence[i].location) - breakendMargin <= position
      ensures evidenceCursor == |evidence| || StartLinear(evidence[evidenceCursor].location) - breakendMargin > position
      ensures (variantBuffer, dump) == AssignAll(old(variantBuffer), old(dump),
        TargetsOf(bufferedVariantId, emitted, breakendMargin, assignEvidenceToSingleBreakpoint),
        evidence, old(evidenceCursor), evidenceCursor, dumpEnabled)
    {
      ghost var targetsOf := TargetsOf(bufferedVariantId, emitted, breakendMargin, assignEvidenceToSingleBreakpoint);
      TargetsOfAre(bufferedVariantId, emitted, breakendMargin, assignEvidenceToSingleBreakpoint);
      var buffer, cursor;
      buffer, dump, cursor := AssignBefore(variantBuffer, dump, targetsOf, bufferedVariantId, emitted, evidence, evidenceCursor, position,
                                           breakendMargin, assignEvidenceToSingleBreakpoint, dumpEnabled);
      AssignAllKeepsCalls(variantBuffer, old(dump), targetsOf, evidence, evidenceCursor, cursor, dumpEnabled);
      TargetsOfOverlapping(bufferedVariantId, emitted, breakendMargin, assignEvidenceToSingleBreakpoint);
      AssignAllKeepsOverlap(variantBuffer, old(dump), targetsOf, evidence, evidenceCursor, cursor, dumpEnabled, breakendMargin);
      variantBuffer, evidenceCursor := buffer, cursor;
    }

    /**
     * computeNext: returns the oldest buffered call once the calls and the
     * evidence that can reach it have been read; None at the end of the calls.
     */
    method Next() returns (r: Option<Annotated>)
      requires Valid()
      modifies this
      ensures Valid()
      ensures r.None? <==> old(|variantBuffer|) == 0 && old(callCursor) == |calls|
      ensures r.None? ==> emitted == old(emitted) && (sanityCheckIterators ==> evidenceCursor == |evidence|)
      ensures r.Some? ==> emitted == old(emitted) + 1 && r.value.call == calls[old(emitted)]
      ensures r.Some? ==> forall e :: e in r.value.support ==>
        Overlaps(r.value.call.location, WithMargin(e.location, breakendMargin))
      ensures callCursor >= old(callCursor) && evidenceCursor >= old(evidenceCursor)
    {
      if |variantBuffer| == 0 {
        if callCursor == |calls| {
          if sanityCheckIterators {
            while evidenceCursor < |evidence|
              invariant Valid() && |variantBuffer| == 0 && callCursor == |calls| && emitted == old(emitted)
              invariant evidenceCursor >= old(evidenceCursor)
              decreases |evidence| - evidenceCursor
            {
              AssignEvidence(evidence[evidenceCursor]);
              evidenceCursor := evidenceCursor + 1;
            }
          }
          return None;
        }
        Buffer();
      }
      var variant := variantBuffer[0];
      BufferVariantsBefore(variant.startLocation + 2 * (maxCallRange + 1));
      ProcessEvidenceBefore(variant.startLocation + maxCallRange + 1);
      r := Poll();
    }

    /** variantBuffer.poll(), the ID map update, and callVariant's dump of the call's evidence. */
    method Poll() returns (r: Option<Annotated>)
      requires Valid() && |variantBuffer| > 0
      modifies this`variantBuffer, this`bufferedVariantId, this`emitted, this`dump
      ensures Valid()
      ensures emitted == old(emitted) + 1
      ensures variantBuffer == old(variantBuffer[1..])
      ensures bufferedVariantId == PopId(old(variantBuffer[0].id), old(bufferedVariantId))
      ensures r == Some(Annotated(calls[old(emitted)], old(variantBuffer[0].support)))
      ensures forall e :: e in r.value.support ==> Overlaps(r.value.call.location, WithMargin(e.location, breakendMargin))
      ensures dump == old(dump) + if dumpEnabled then DumpRows(old(variantBuffer[0].support), old(emitted)) else []
    {
      var variant := variantBuffer[0];
      var index := emitted;
      BufferPop(calls, index, variantBuffer, breakendMargin);
      IdMapPop(calls, index, callCursor, bufferedVariantId);
      assert forall e :: e in variant.support ==> Overlaps(variant.location, WithMargin(e.location, breakendMargin));
      variantBuffer := variantBuffer[1..];
      if NotBlank(variant.id) {
        bufferedVariantId := bufferedVariantId - {variant.id.value};
      }
      if dumpEnabled {
        dump := dump + DumpRows(variant.support, index);
      }
      r := Some(Annotated(calls[index], variant.support));
      emitted := index + 1;
    }

    /** Iterating the annotator to exhaustion returns every remaining call exactly once, in input order. */
    method AnnotateAll() returns (out: seq<Annotated>)
      requires Valid()
      modifies this
      ensures Valid()
      ensures |out| == |calls| - old(emitted)
      ensures forall i :: 0 <= i < |out| ==> out[i].call == calls[old(emitted) + i]
      ensures emitted == |calls| && variantBuffer == []
    {
      out := [];
      while true
        invariant Valid()
        invariant emitted == old(emitted) + |out|
        invariant forall i :: 0 <= i < |out| ==> out[i].call == calls[old(emitted) + i]
        decreases |calls| - emitted
      {
        var r := Next();
        if r.None? {
          return;
        }
        out := out + [r.value];
      }
    }
  }
}
