/**
 * Greedy allocation of evidence to variant calls (GreedyVariantAllocationCache).
 *
 * Three optional lookups remember, per evidence identifier, per read pair and
 * per read segment, the highest scoring variant event offered so far together
 * with the alignment it came from. A breakpoint is the best one for a piece of
 * evidence when it is the evidence's recorded event and the evidence comes from
 * the recorded alignment of its read (pair).
 *
 * Hash128bit fingerprints are modelled by the strings they are computed from,
 * that is, as collision free.
 */
module AllocationCache {
  import opened Common

  /** The score, event and alignment remembered for one key. */
  datatype Node = Node(event: string, score: real, alignment: Option<string>)

  /** A lookup; None when its uniqueness constraint is switched off. */
  type Lookup = Option<map<string, Node>>

  /**
   * GreedyAllocationCache.put: a switched-off lookup ignores the offer; an
   * absent key or a strictly higher score stores it; otherwise the earlier node
   * stays (the first offer wins ties).
   */
  function Put(lookup: Lookup, key: string, alignment: Option<string>, event: string, score: real): (r: Lookup)
    ensures r.Some? <==> lookup.Some?
    ensures r.Some? ==> r.value.Keys == lookup.value.Keys + {key}
    ensures r.Some? ==> forall k :: k in lookup.value && k != key ==> r.value[k] == lookup.value[k]
    ensures r.Some? ==> r.value[key].score >= score
    ensures r.Some? && key in lookup.value ==> r.value[key].score >= lookup.value[key].score
    ensures r.Some? && r.value[key] != Node(event, score, alignment) ==> key in lookup.value && r.value[key] == lookup.value[key]
  {
    if lookup.None? then None
    else if key !in lookup.value || lookup.value[key].score < score then Some(lookup.value[key := Node(event, score, alignment)])
    else lookup
  }

  /**
   * GreedyAllocationCache.isBestAlignment: true when the lookup is switched
   * off; otherwise whether the stored node came from this alignment, and a
   * NullPointerException for a key that was never offered.
   */
  function IsBestAlignment(lookup: Lookup, key: string, alignment: string): (r: Result<bool>)
    ensures r.Failure? <==> lookup.Some? && key !in lookup.value
    ensures r.Success? ==> (r.value <==> lookup.None? || lookup.value[key].alignment == Some(alignment))
  {
    if lookup.None? then Success(true)
    else if key !in lookup.value then Failure("NullPointerException")
    else Success(lookup.value[key].alignment == Some(alignment))
  }

  /** An offer made to one key: event, score and alignment. */
  datatype Offer = Offer(event: string, score: real, alignment: Option<string>)

  /** The offers made to one key, in order. */
  function PutAll(lookup: Lookup, key: string, offers: seq<Offer>): Lookup
  {
    if offers == [] then lookup
    else
      var last := offers[|offers| - 1];
      Put(PutAll(lookup, key, offers[..|offers| - 1]), key, last.alignment, last.event, last.score)
  }

  /** offers[i] has the highest score, and every earlier offer a strictly lower one. */
  predicate FirstBest(offers: seq<Offer>, i: int) {
    && 0 <= i < |offers|
    && (forall j :: 0 <= j < |offers| ==> offers[j].score <= offers[i].score)
    && (forall j :: 0 <= j < i ==> offers[j].score < offers[i].score)
  }

  /** Appending an offer: a strictly higher score becomes the first best, otherwise the first best stays. */
  lemma FirstBestAppend(init: seq<Offer>, i: int, last: Offer)
    requires FirstBest(init, i)
    ensures init[i].score < last.score ==> FirstBest(init + [last], |init|)
    ensures init[i].score >= last.score ==> FirstBest(init + [last], i)
  {
    var offers := init + [last];
    assert forall j :: 0 <= j < |init| ==> offers[j] == init[j];
  }

  /**
   * Starting from an absent key, the stored node is the earliest offer with
   * the highest score: greedy allocation keeps the best offer, and ties go to
   * the first.
   */
  lemma {:induction false} PutAllKeepsFirstBest(m: map<string, Node>, key: string, offers: seq<Offer>)
    requires key !in m && |offers| > 0
    ensures PutAll(Some(m), key, offers).Some?
    ensures key in PutAll(Some(m), key, offers).value
    ensures var node := PutAll(Some(m), key, offers).value[key];
      exists i :: FirstBest(offers, i) && node == Node(offers[i].event, offers[i].score, offers[i].alignment)
  {
    var n := |offers|;
    var last := offers[n - 1];
    var init := offers[..n - 1];
    assert offers == init + [last];
    if n == 1 {
      assert PutAll(Some(m), key, init) == Some(m);
      assert FirstBest(offers, 0);
    } else {
      PutAllKeepsFirstBest(m, key, init);
      var before := PutAll(Some(m), key, init).value;
      var i :| FirstBest(init, i) && before[key] == Node(init[i].event, init[i].score, init[i].alignment);
      FirstBestAppend(init, i, last);
      if before[key].score < last.score {
        assert FirstBest(offers, n - 1);
      } else {
        assert FirstBest(offers, i) && offers[i] == init[i];
      }
    }
  }

  // ---------------------------------------------------------------------------
  // Evidence and its keys.
  // ---------------------------------------------------------------------------

  /**
   * The evidence kinds the cache distinguishes: a discordant read pair, keyed
   * by read name with the pair's alignment fingerprint, and single-read
   * evidence, keyed by read name and segment index with the read's alignment.
   */
  datatype DirectedEvidence =
    | ReadPairEvidence(evidenceId: string, readName: string, pairAlignment: string)
    | SingleReadEvidence(evidenceId: string, readName: string, segmentIndex: int, readAlignment: string)

  /** The key of a single read: name, '#', then the segment index in decimal. */
  function ReadKey(readName: string, segmentIndex: int): string {
    readName + "#" + IntToString(segmentIndex)
  }

  /** In name + "#" + rest, the first '#' follows the name when the name has none. */
  lemma FirstHashAfterName(name: string, rest: string)
    requires '#' !in name
    ensures (name + "#" + rest)[|name|] == '#'
    ensures forall i :: 0 <= i < |name| ==> (name + "#" + rest)[i] != '#'
  {
    assert forall i :: 0 <= i < |name| ==> (name + "#" + rest)[i] == name[i];
  }

  /** For read names without '#', the read key determines the name and the segment index. */
  lemma ReadKeyInjective(name1: string, index1: int, name2: string, index2: int)
    requires '#' !in name1 && '#' !in name2
    requires ReadKey(name1, index1) == ReadKey(name2, index2)
    ensures name1 == name2 && index1 == index2
  {
    var key := ReadKey(name1, index1);
    var s1 := IntToString(index1);
    var s2 := IntToString(index2);
    forall c | c in s1 ensures c != '#' { IntToStringChars(index1, c); }
    forall c | c in s2 ensures c != '#' { IntToStringChars(index2, c); }
    assert key == name1 + "#" + s1 && key == name2 + "#" + s2;
    assert |name1| == |name2| by {
      FirstHashAfterName(name1, s1);
      FirstHashAfterName(name2, s2);
    }
    assert name1 == key[..|name1|];
    assert name2 == key[..|name2|];
    assert s1 == key[|name1| + 1..];
    assert s2 == key[|name2| + 1..];
    IntToStringRoundTrip(index1);
    IntToStringRoundTrip(index2);
  }

  /** A called breakpoint: its EVENT identifier and its breakpoint quality. */
  datatype BreakpointVariant = BreakpointVariant(eventId: string, breakpointQual: real)

  /** The score is above every score recorded for the evidence and for its read (pair). */
  predicate OutscoresRecorded(byEvidence: Lookup, byReadPair: Lookup, byRead: Lookup, score: real, evidence: DirectedEvidence) {
    && (byEvidence.Some? && evidence.evidenceId in byEvidence.value ==> byEvidence.value[evidence.evidenceId].score < score)
    && (evidence.ReadPairEvidence? && byReadPair.Some? && evidence.readName in byReadPair.value ==>
          byReadPair.value[evidence.readName].score < score)
    && (evidence.SingleReadEvidence? && byRead.Some? && ReadKey(evidence.readName, evidence.segmentIndex) in byRead.value ==>
          byRead.value[ReadKey(evidence.readName, evidence.segmentIndex)].score < score)
  }

  /** Where a piece of evidence is offered in one lookup: the key and the alignment it comes from. */
  datatype Slot = Slot(key: string, alignment: Option<string>)

  /** The evidence lookup's slot: the evidence identifier, with no alignment. */
  function EvidenceSlot(e: DirectedEvidence): Slot {
    Slot(e.evidenceId, None)
  }

  /** The read-pair or read lookup's slot: the read (pair) key and the alignment. */
  function AlignmentSlot(e: DirectedEvidence): Slot {
    match e
    case ReadPairEvidence(_, readName, pairAlignment) => Slot(readName, Some(pairAlignment))
    case SingleReadEvidence(_, readName, segmentIndex, readAlignment) => Slot(ReadKey(readName, segmentIndex), Some(readAlignment))
  }

  /** The evidence slots of a list of evidence, in order. */
  function EvidenceSlots(evidence: seq<DirectedEvidence>): (r: seq<Slot>)
    ensures forall s :: s in r <==> exists e :: e in evidence && s == EvidenceSlot(e)
  {
    if evidence == [] then []
    else
      var init := evidence[..|evidence| - 1];
      assert forall e :: e in evidence <==> e in init || e == evidence[|evidence| - 1];
      EvidenceSlots(init) + [EvidenceSlot(evidence[|evidence| - 1])]
  }

  /** The alignment slots of the read-pair evidence (readPairs) or of the single-read evidence (!readPairs), in order. */
  function AlignmentSlots(evidence: seq<DirectedEvidence>, readPairs: bool): (r: seq<Slot>)
    ensures forall s :: s in r <==> exists e :: e in evidence && e.ReadPairEvidence? == readPairs && s == AlignmentSlot(e)
  {
    if evidence == [] then []
    else
      var init := evidence[..|evidence| - 1];
      var last := evidence[|evidence| - 1];
      assert forall e :: e in evidence <==> e in init || e == last;
      AlignmentSlots(init, readPairs) + if last.ReadPairEvidence? == readPairs then [AlignmentSlot(last)] else []
  }

  /** One event with one score offered to each slot in turn. */
  function PutEach(lookup: Lookup, slots: seq<Slot>, event: string, score: real): (r: Lookup)
    ensures r.Some? <==> lookup.Some?
  {
    if slots == [] then lookup
    else
      var last := slots[|slots| - 1];
      Put(PutEach(lookup, slots[..|slots| - 1], event, score), last.key, last.alignment, event, score)
  }

  /** Offering one more slot is one more Put. */
  lemma PutEachAppend(lookup: Lookup, slots: seq<Slot>, last: Slot, event: string, score: real)
    ensures PutEach(lookup, slots + [last], event, score) == Put(PutEach(lookup, slots, event, score), last.key, last.alignment, event, score)
  {
    assert (slots + [last])[..|slots|] == slots;
  }

  /** The slots of one more piece of evidence. */
  lemma SlotsAppend(evidence: seq<DirectedEvidence>, i: nat)
    requires i < |evidence|
    ensures EvidenceSlots(evidence[..i + 1]) == EvidenceSlots(evidence[..i]) + [EvidenceSlot(evidence[i])]
    ensures AlignmentSlots(evidence[..i + 1], evidence[i].ReadPairEvidence?) == AlignmentSlots(evidence[..i], evidence[i].ReadPairEvidence?) + [AlignmentSlot(evidence[i])]
    ensures AlignmentSlots(evidence[..i + 1], !evidence[i].ReadPairEvidence?) == AlignmentSlots(evidence[..i], !evidence[i].ReadPairEvidence?)
  {
    assert evidence[..i + 1][..i] == evidence[..i];
  }

  /** A key no slot names keeps its entry, or its absence. */
  lemma {:induction false} PutEachFrame(lookup: Lookup, slots: seq<Slot>, event: string, score: real, k: string)
    requires lookup.Some? && forall j :: 0 <= j < |slots| ==> slots[j].key != k
    ensures var r := PutEach(lookup, slots, event, score).value;
      (k in r <==> k in lookup.value) && (k in lookup.value ==> r[k] == lookup.value[k])
  {
    if slots != [] {
      PutEachFrame(lookup, slots[..|slots| - 1], event, score, k);
    }
  }

  /** A key already holding at least this score keeps its entry, whatever is offered to it. */
  lemma {:induction false} PutEachKeepsStronger(lookup: Lookup, slots: seq<Slot>, event: string, score: real, k: string)
    requires lookup.Some? && k in lookup.value && lookup.value[k].score >= score
    ensures k in PutEach(lookup, slots, event, score).value
    ensures PutEach(lookup, slots, event, score).value[k] == lookup.value[k]
  {
    if slots != [] {
      PutEachKeepsStronger(lookup, slots[..|slots| - 1], event, score, k);
    }
  }

  /**
   * A key that is offered, whose every offer carries the same alignment, and
   * whose earlier entry (if any) scores strictly lower ends up holding the
   * event with that alignment.
   */
  lemma {:induction false} PutEachRecords(lookup: Lookup, slots: seq<Slot>, event: string, score: real, k: string, a: Option<string>)
    requires lookup.Some? && Slot(k, a) in slots
    requires forall j :: 0 <= j < |slots| && slots[j].key == k ==> slots[j].alignment == a
    requires k !in lookup.value || lookup.value[k].score < score
    ensures k in PutEach(lookup, slots, event, score).value
    ensures PutEach(lookup, slots, event, score).value[k] == Node(event, score, a)
  {
    var init := slots[..|slots| - 1];
    var last := slots[|slots| - 1];
    assert slots == init + [last];
    if Slot(k, a) in init {
      PutEachRecords(lookup, init, event, score, k, a);
    } else {
      assert last == Slot(k, a);
      assert forall j :: 0 <= j < |init| ==> slots[j] == init[j];
      PutEachFrame(lookup, init, event, score, k);
    }
  }

  /** isBestAlignment against the read-pair or read lookup, by evidence kind. */
  function AlignmentCheckIn(byReadPair: Lookup, byRead: Lookup, evidence: DirectedEvidence): Result<bool> {
    match evidence
    case ReadPairEvidence(_, readName, pairAlignment) =>
      IsBestAlignment(byReadPair, readName, pairAlignment)
    case SingleReadEvidence(_, readName, segmentIndex, readAlignment) =>
      IsBestAlignment(byRead, ReadKey(readName, segmentIndex), readAlignment)
  }

  /** isBestBreakpoint(event, evidence) against the three lookups. */
  function IsBestIn(byEvidence: Lookup, byReadPair: Lookup, byRead: Lookup, event: string, evidence: DirectedEvidence): Result<bool> {
    if byEvidence.Some? && evidence.evidenceId !in byEvidence.value then
      Failure("NullPointerException")
    else if byEvidence.Some? && event != byEvidence.value[evidence.evidenceId].event then
      Success(false)
    else
      AlignmentCheckIn(byReadPair, byRead, evidence)
  }

  /** Every listed evidence with the read (pair) key of e carries e's alignment. */
  predicate OneAlignmentPerRead(evidence: seq<DirectedEvidence>, e: DirectedEvidence) {
    forall e2 :: e2 in evidence && e2.ReadPairEvidence? == e.ReadPairEvidence? && AlignmentSlot(e2).key == AlignmentSlot(e).key
      ==> AlignmentSlot(e2) == AlignmentSlot(e)
  }

  /**
   * After a variant is offered all its evidence, a listed piece of evidence
   * whose recorded scores it beats, and whose read (pair) it reaches through
   * one alignment only, is allocated to this variant.
   */
  lemma VariantOutscoringIsBest(byEvidence: Lookup, byReadPair: Lookup, byRead: Lookup,
                                variant: BreakpointVariant, evidence: seq<DirectedEvidence>, e: DirectedEvidence)
    requires e in evidence && OneAlignmentPerRead(evidence, e)
    requires OutscoresRecorded(byEvidence, byReadPair, byRead, variant.breakpointQual, e)
    ensures IsBestIn(PutEach(byEvidence, EvidenceSlots(evidence), variant.eventId, variant.breakpointQual),
                     PutEach(byReadPair, AlignmentSlots(evidence, true), variant.eventId, variant.breakpointQual),
                     PutEach(byRead, AlignmentSlots(evidence, false), variant.eventId, variant.breakpointQual),
                     variant.eventId, e) == Success(true)
  {
    var event, score := variant.eventId, variant.breakpointQual;
    if byEvidence.Some? {
      var slots := EvidenceSlots(evidence);
      assert EvidenceSlot(e) in slots;
      forall j | 0 <= j < |slots| && slots[j].key == e.evidenceId
        ensures slots[j].alignment == None
      {
        assert slots[j] in slots;
      }
      PutEachRecords(byEvidence, slots, event, score, e.evidenceId, None);
    }
    var slot := AlignmentSlot(e);
    var lookup := if e.ReadPairEvidence? then byReadPair else byRead;
    if lookup.Some? {
      var slots := AlignmentSlots(evidence, e.ReadPairEvidence?);
      assert slot in slots;
      forall j | 0 <= j < |slots| && slots[j].key == slot.key
        ensures slots[j].alignment == slot.alignment
      {
        assert slots[j] in slots;
      }
      PutEachRecords(lookup, slots, event, score, slot.key, slot.alignment);
    }
  }

  /**
   * Evidence already recorded for another event with at least the variant's
   * score stays with that event: greedy allocation never moves evidence to a
   * call that does not beat it.
   */
  lemma StrongerEventKeepsEvidence(byEvidence: Lookup, byReadPair: Lookup, byRead: Lookup,
                                   variant: BreakpointVariant, evidence: seq<DirectedEvidence>, e: DirectedEvidence)
    requires byEvidence.Some? && e.evidenceId in byEvidence.value
    requires byEvidence.value[e.evidenceId].score >= variant.breakpointQual
    requires byEvidence.value[e.evidenceId].event != variant.eventId
    ensures IsBestIn(PutEach(byEvidence, EvidenceSlots(evidence), variant.eventId, variant.breakpointQual),
                     PutEach(byReadPair, AlignmentSlots(evidence, true), variant.eventId, variant.breakpointQual),
                     PutEach(byRead, AlignmentSlots(evidence, false), variant.eventId, variant.breakpointQual),
                     variant.eventId, e) == Success(false)
  {
    PutEachKeepsStronger(byEvidence, EvidenceSlots(evidence), variant.eventId, variant.breakpointQual, e.evidenceId);
  }

  // ---------------------------------------------------------------------------
  // The cache.
  // ---------------------------------------------------------------------------

  class GreedyVariantAllocationCache {
    var bestReadPairAlignment: Lookup
    var bestReadAlignment: Lookup
    var bestEventForEvidence: Lookup

    /** Each lookup exists exactly when its uniqueness constraint is requested. */
    constructor (ensureUniqueReadPairAlignment: bool, ensureUniqueReadAlignment: bool, ensureUniqueEvidenceAllocation: bool)
      ensures bestReadPairAlignment == if ensureUniqueReadPairAlignment then Some(map[]) else None
      ensures bestReadAlignment == if ensureUniqueReadAlignment then Some(map[]) else None
      ensures bestEventForEvidence == if ensureUniqueEvidenceAllocation then Some(map[]) else None
    {
      bestReadPairAlignment := if ensureUniqueReadPairAlignment then Some(map[]) else None;
      bestReadAlignment := if ensureUniqueReadAlignment then Some(map[]) else None;
      bestEventForEvidence := if ensureUniqueEvidenceAllocation then Some(map[]) else None;
    }

    /**
     * addBreakpoint(event, score, evidence): offers the event to the evidence
     * lookup and to the lookup of the evidence's read pair or read segment.
     */
    method AddBreakpoint(event: string, score: real, evidence: DirectedEvidence)
      modifies this
      ensures bestEventForEvidence == Put(old(bestEventForEvidence), evidence.evidenceId, None, event, score)
      ensures evidence.ReadPairEvidence? ==>
        && bestReadPairAlignment == Put(old(bestReadPairAlignment), evidence.readName, Some(evidence.pairAlignment), event, score)
        && bestReadAlignment == old(bestReadAlignment)
      ensures evidence.SingleReadEvidence? ==>
        && bestReadAlignment == Put(old(bestReadAlignment), ReadKey(evidence.readName, evidence.segmentIndex), Some(evidence.readAlignment), event, score)
        && bestReadPairAlignment == old(bestReadPairAlignment)
      ensures OutscoresRecorded(old(bestEventForEvidence), old(bestReadPairAlignment), old(bestReadAlignment), score, evidence) ==>
        IsBestBreakpoint(event, evidence) == Success(true)
    {
      bestEventForEvidence := Put(bestEventForEvidence, evidence.evidenceId, None, event, score);
      match evidence
      case ReadPairEvidence(_, readName, pairAlignment) =>
        bestReadPairAlignment := Put(bestReadPairAlignment, readName, Some(pairAlignment), event, score);
      case SingleReadEvidence(_, readName, segmentIndex, readAlignment) =>
        bestReadAlignment := Put(bestReadAlignment, ReadKey(readName, segmentIndex), Some(readAlignment), event, score);
    }

    /** The loop of addBreakpoint(variant, evidence): every piece of evidence is offered the event and score, in list order. */
    method OfferAll(event: string, score: real, evidence: seq<DirectedEvidence>)
      modifies this
      ensures bestEventForEvidence == PutEach(old(bestEventForEvidence), EvidenceSlots(evidence), event, score)
      ensures bestReadPairAlignment == PutEach(old(bestReadPairAlignment), AlignmentSlots(evidence, true), event, score)
      ensures bestReadAlignment == PutEach(old(bestReadAlignment), AlignmentSlots(evidence, false), event, score)
    {
      ghost var byEvidence, byReadPair, byRead := bestEventForEvidence, bestReadPairAlignment, bestReadAlignment;
      var i := 0;
      while i < |evidence|
        invariant 0 <= i <= |evidence|
        invariant bestEventForEvidence == PutEach(byEvidence, EvidenceSlots(evidence[..i]), event, score)
        invariant bestReadPairAlignment == PutEach(byReadPair, AlignmentSlots(evidence[..i], true), event, score)
        invariant bestReadAlignment == PutEach(byRead, AlignmentSlots(evidence[..i], false), event, score)
      {
        var e := evidence[i];
        SlotsAppend(evidence, i);
        PutEachAppend(byEvidence, EvidenceSlots(evidence[..i]), EvidenceSlot(e), event, score);
        PutEachAppend(byReadPair, AlignmentSlots(evidence[..i], true), AlignmentSlot(e), event, score);
        PutEachAppend(byRead, AlignmentSlots(evidence[..i], false), AlignmentSlot(e), event, score);
        AddBreakpoint(event, score, e);
        i := i + 1;
      }
      assert evidence[..i] == evidence;
    }

    /**
     * addBreakpoint(variant, evidence): the variant's event and quality are
     * offered to every piece of evidence; evidence it outscores, reached
     * through one alignment of its read (pair), is then allocated to it.
     */
    method AddVariant(variant: BreakpointVariant, evidence: seq<DirectedEvidence>)
      modifies this
      ensures bestEventForEvidence == PutEach(old(bestEventForEvidence), EvidenceSlots(evidence), variant.eventId, variant.breakpointQual)
      ensures bestReadPairAlignment == PutEach(old(bestReadPairAlignment), AlignmentSlots(evidence, true), variant.eventId, variant.breakpointQual)
      ensures bestReadAlignment == PutEach(old(bestReadAlignment), AlignmentSlots(evidence, false), variant.eventId, variant.breakpointQual)
      ensures forall e ::
        (e in evidence && OneAlignmentPerRead(evidence, e)
         && OutscoresRecorded(old(bestEventForEvidence), old(bestReadPairAlignment), old(bestReadAlignment), variant.breakpointQual, e))
        ==> IsBestBreakpointVariant(variant, e) == Success(true)
    {
      ghost var byEvidence, byReadPair, byRead := bestEventForEvidence, bestReadPairAlignment, bestReadAlignment;
      OfferAll(variant.eventId, variant.breakpointQual, evidence);
      forall e | e in evidence && OneAlignmentPerRead(evidence, e)
        && OutscoresRecorded(byEvidence, byReadPair, byRead, variant.breakpointQual, e)
        ensures IsBestBreakpointVariant(variant, e) == Success(true)
      {
        VariantOutscoringIsBest(byEvidence, byReadPair, byRead, variant, evidence, e);
      }
    }

    /** The key and alignment the evidence is checked against, and the lookup that holds them. */
    function AlignmentCheck(evidence: DirectedEvidence): Result<bool>
      reads this
    {
      AlignmentCheckIn(bestReadPairAlignment, bestReadAlignment, evidence)
    }

    /**
     * isBestBreakpoint(event, evidence): false when another event is the
     * evidence's best; otherwise whether the evidence comes from its read's
     * best alignment. Evidence never offered to an enabled lookup raises a
     * NullPointerException.
     */
    function IsBestBreakpoint(event: string, evidence: DirectedEvidence): (r: Result<bool>)
      reads this
      ensures bestEventForEvidence.Some? && evidence.evidenceId !in bestEventForEvidence.value ==> r.Failure?
      ensures r == Success(true) ==>
        bestEventForEvidence.Some? ==> bestEventForEvidence.value[evidence.evidenceId].event == event
      ensures r == Success(true) ==> AlignmentCheck(evidence) == Success(true)
      ensures bestEventForEvidence.Some? && evidence.evidenceId in bestEventForEvidence.value
        && bestEventForEvidence.value[evidence.evidenceId].event != event
        ==> r == Success(false)
      ensures bestEventForEvidence.None?
        || (evidence.evidenceId in bestEventForEvidence.value && bestEventForEvidence.value[evidence.evidenceId].event == event)
        ==> r == AlignmentCheck(evidence)
    {
      IsBestIn(bestEventForEvidence, bestReadPairAlignment, bestReadAlignment, event, evidence)
    }

    /** isBestBreakpoint(variant, evidence): the check for the variant's EVENT identifier. */
    function IsBestBreakpointVariant(variant: BreakpointVariant, evidence: DirectedEvidence): Result<bool>
      reads this
    {
      IsBestBreakpoint(variant.eventId, evidence)
    }

    /** With unique evidence allocation, no evidence supports two different events. */
    lemma AtMostOneBestEvent(event1: string, event2: string, evidence: DirectedEvidence)
      requires bestEventForEvidence.Some?
      requires IsBestBreakpoint(event1, evidence) == Success(true)
      requires IsBestBreakpoint(event2, evidence) == Success(true)
      ensures event1 == event2
    {
    }

    /** Two alignments of one read (pair) are never both the best one. */
    lemma AtMostOneBestAlignment(event: string, evidence1: DirectedEvidence, evidence2: DirectedEvidence)
      requires evidence1.ReadPairEvidence? && evidence2.ReadPairEvidence?
      requires evidence1.readName == evidence2.readName && evidence1.pairAlignment != evidence2.pairAlignment
      requires bestReadPairAlignment.Some?
      requires IsBestBreakpoint(event, evidence1) == Success(true)
      ensures IsBestBreakpoint(event, evidence2) != Success(true)
    {
    }
  }
}
