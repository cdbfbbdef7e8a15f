/**
 * Rewriting and filtering viral integration breakends (VirusBreakendFilter).
 *
 * A single breakend on a viral contig whose inserted sequence aligns to the
 * host genome is kept when enough of the inserted sequence aligns to the
 * host outside simple and low-complexity repeats, and is rewritten as a pair
 * of mated breakends, one on the virus and one on the host, in the breakend
 * ALT notation of section 5.4 of the VCF 4.2 specification.
 */
module VirusBreakend {
  import opened Common

  /** The fields of a chimeric (SA-tag style) alignment this filter reads. */
  datatype ChimericAlignment = ChimericAlignment(
    rname: string,
    pos: int,
    isNegativeStrand: bool,
    /** cigar.getReferenceLength() */
    referenceLength: int,
    firstAlignedBaseReadOffset: int,
    lastAlignedBaseReadOffset: int)

  /** The INFO keys the rewriting reads or writes (VcfInfoAttributes and VcfSvConstants). */
  datatype InfoKey =
    | BreakendAlignments
    | InsertedSequenceNcbiTaxonomyId
    | InsertedSequenceRepeatMaskerSaTag
    | InsertedSequenceRepeatMaskerOverlap
    | InsertedSequenceRepeatMaskerRepeatType
    | InsertedSequenceRepeatMaskerRepeatClass
    | InsertedSequenceRepeatMaskerOrientation
    | BreakendEventId
    | MateBreakendId
    | SvTypeKey
    | OtherKey(name: string)

  /** The INFO fields copied from the single breakend to the host record. */
  const HOST_COPIED_KEYS: set<InfoKey> := {
    BreakendAlignments, InsertedSequenceNcbiTaxonomyId, InsertedSequenceRepeatMaskerSaTag,
    InsertedSequenceRepeatMaskerOverlap, InsertedSequenceRepeatMaskerRepeatType,
    InsertedSequenceRepeatMaskerRepeatClass, InsertedSequenceRepeatMaskerOrientation }

  const BND: string := "BND"
  const HOST_SUFFIX: string := "_host"
  const VIRUS_SUFFIX: string := "_virus"
  const INDEX_OUT_OF_BOUNDS: string := "IndexOutOfBoundsException"
  const STRING_INDEX_OUT_OF_BOUNDS: string := "StringIndexOutOfBoundsException"

  /** A VCF record with one ALT allele. */
  datatype VcfRecord = VcfRecord(
    contig: string,
    start: int,
    end: int,
    id: string,
    ref: string,
    alt: string,
    log10PError: real,
    filters: set<string>,
    info: map<InfoKey, string>)

  // ---------------------------------------------------------------------------
  // Breakend ALT notation (section 5.4 of VCF 4.2).
  // ---------------------------------------------------------------------------

  /** `]` when the remote breakend faces forward, `[` otherwise. */
  function Bracket(forward: bool): string {
    if forward then "]" else "["
  }

  /**
   * The ALT of a breakend whose local side faces `localForward` and whose
   * mate at chr:pos faces `remoteForward`: the anchor and inserted bases
   * stand before the brackets when the local side faces forward, after them
   * (inserted bases first) otherwise.
   */
  function BreakendAlt(anchor: string, inserted: string, localForward: bool, remoteForward: bool, chr: string, pos: int): string {
    (if localForward then anchor + inserted else "")
    + Bracket(remoteForward) + MatePosition(chr, pos) + Bracket(remoteForward)
    + (if localForward then "" else inserted + anchor)
  }

  /** `chr:pos` */
  function MatePosition(chr: string, pos: int): string {
    chr + ":" + IntToString(pos)
  }

  predicate IsBracket(c: char) {
    c == '[' || c == ']'
  }

  predicate NoBrackets(s: string) {
    forall i :: 0 <= i < |s| ==> !IsBracket(s[i])
  }

  /** Index of the first bracket, or |s| when there is none. */
  function FirstBracket(s: string): (i: nat)
    ensures i <= |s|
    ensures forall j :: 0 <= j < i ==> !IsBracket(s[j])
    ensures i < |s| ==> IsBracket(s[i])
  {
    if s == [] || IsBracket(s[0]) then 0 else 1 + FirstBracket(s[1..])
  }

  /** Index of the last colon. */
  function LastColon(s: string): (r: Option<nat>)
    ensures r.Some? ==> r.value < |s| && s[r.value] == ':' && forall j :: r.value < j < |s| ==> s[j] != ':'
    ensures r.None? ==> forall j :: 0 <= j < |s| ==> s[j] != ':'
  {
    if s == [] then None
    else if s[|s| - 1] == ':' then Some(|s| - 1)
    else LastColon(s[..|s| - 1])
  }

  /** The parts of a breakend ALT: the bases outside the brackets, both orientations and the mate position. */
  datatype BreakendAltParts = BreakendAltParts(bases: string, localForward: bool, remoteForward: bool, chr: string, pos: int)

  /** `chr:pos`, split at the last colon. */
  function ParseMatePosition(m: string): Option<(string, int)> {
    match LastColon(m)
    case None => None
    case Some(c) =>
      match ParseInt(m[c + 1..])
      case None => None
      case Some(pos) => Some((m[..c], pos))
  }

  /** Reads back the parts of a breakend ALT. */
  function ParseBreakendAlt(alt: string): Option<BreakendAltParts> {
    if alt == [] then None
    else if IsBracket(alt[0]) then
      var j := 1 + FirstBracket(alt[1..]);
      if j >= |alt| || alt[j] != alt[0] then None
      else match ParseMatePosition(alt[1..j])
        case None => None
        case Some((chr, pos)) => Some(BreakendAltParts(alt[j + 1..], false, alt[0] == ']', chr, pos))
    else
      var i := FirstBracket(alt);
      if i + 1 >= |alt| || alt[|alt| - 1] != alt[i] then None
      else match ParseMatePosition(alt[i + 1..|alt| - 1])
        case None => None
        case Some((chr, pos)) => Some(BreakendAltParts(alt[..i], true, alt[i] == ']', chr, pos))
  }

  lemma ParseMatePositionRoundTrip(chr: string, pos: int)
    ensures ParseMatePosition(MatePosition(chr, pos)) == Some((chr, pos))
  {
    var m := MatePosition(chr, pos);
    forall j | |chr| < j < |m|
      ensures m[j] != ':'
    {
      assert m[j] in IntToString(pos) by {
        assert m[j] == IntToString(pos)[j - |chr| - 1];
      }
      IntToStringChars(pos, m[j]);
    }
    assert m[|chr|] == ':';
    assert LastColon(m) == Some(|chr|);
    assert m[..|chr|] == chr;
    assert m[|chr| + 1..] == IntToString(pos);
    IntToStringRoundTrip(pos);
  }

  lemma FirstBracketAt(s: string, t: string)
    requires NoBrackets(s) && t != [] && IsBracket(t[0])
    ensures FirstBracket(s + t) == |s|
  {
    assert (s + t)[|s|] == t[0];
    assert forall j :: 0 <= j < |s| ==> (s + t)[j] == s[j];
  }

  lemma MatePositionHasNoBrackets(chr: string, pos: int)
    requires NoBrackets(chr)
    ensures NoBrackets(MatePosition(chr, pos))
  {
    var m := MatePosition(chr, pos);
    forall j | 0 <= j < |m|
      ensures !IsBracket(m[j])
    {
      if j > |chr| {
        assert m[j] in IntToString(pos) by {
          assert m[j] == IntToString(pos)[j - |chr| - 1];
        }
        IntToStringChars(pos, m[j]);
      }
    }
  }

  /** An ALT made of bracket-free bases, then a bracketed position closed by the same bracket, parses as forward-facing. */
  lemma ParseForwardLayout(alt: string, i: nat)
    requires 1 <= i && i + 1 < |alt| && NoBrackets(alt[..i]) && IsBracket(alt[i]) && alt[|alt| - 1] == alt[i]
    requires ParseMatePosition(alt[i + 1..|alt| - 1]).Some?
    ensures var p := ParseMatePosition(alt[i + 1..|alt| - 1]).value;
      ParseBreakendAlt(alt) == Some(BreakendAltParts(alt[..i], true, alt[i] == ']', p.0, p.1))
  {
    forall j | 0 <= j < i
      ensures !IsBracket(alt[j])
    {
      assert alt[..i][j] == alt[j];
    }
  }

  /** `bases` followed by a bracketed mate position reads back as a forward-facing ALT. */
  lemma ParseForwardAlt(bases: string, b: string, m: string)
    requires |bases| >= 1 && NoBrackets(bases) && NoBrackets(m) && |b| == 1 && IsBracket(b[0])
    requires ParseMatePosition(m).Some?
    ensures ParseBreakendAlt(bases + b + m + b)
      == Some(BreakendAltParts(bases, true, b[0] == ']', ParseMatePosition(m).value.0, ParseMatePosition(m).value.1))
  {
    var alt := bases + b + m + b;
    assert alt[..|bases|] == bases;
    assert alt[|bases|] == alt[|alt| - 1] == b[0];
    assert alt[|bases| + 1..|alt| - 1] == m;
    ParseForwardLayout(alt, |bases|);
  }

  /** A bracketed mate position followed by `bases` reads back as a backward-facing ALT. */
  lemma ParseBackwardAlt(bases: string, b: string, m: string)
    requires NoBrackets(m) && |b| == 1 && IsBracket(b[0])
    requires ParseMatePosition(m).Some?
    ensures ParseBreakendAlt(b + m + b + bases)
      == Some(BreakendAltParts(bases, false, b[0] == ']', ParseMatePosition(m).value.0, ParseMatePosition(m).value.1))
  {
    var alt := b + m + b + bases;
    assert alt[1..] == m + (b + bases);
    FirstBracketAt(m, b + bases);
    assert alt[1..1 + |m|] == m;
    assert alt[1 + |m| + 1..] == bases;
  }

  /** The two layouts of a breakend ALT, by local orientation. */
  lemma BreakendAltShape(anchor: string, inserted: string, localForward: bool, remoteForward: bool, chr: string, pos: int)
    ensures var b := Bracket(remoteForward);
      var m := MatePosition(chr, pos);
      BreakendAlt(anchor, inserted, localForward, remoteForward, chr, pos)
        == if localForward then (anchor + inserted) + b + m + b else b + m + b + (inserted + anchor)
  {
    var b := Bracket(remoteForward);
    var m := MatePosition(chr, pos);
    if localForward {
      assert (anchor + inserted) + b + m + b + "" == (anchor + inserted) + b + m + b;
    } else {
      assert "" + b + m + b == b + m + b;
    }
  }

  lemma NoBracketsSwap(anchor: string, inserted: string)
    requires NoBrackets(anchor + inserted)
    ensures NoBrackets(inserted + anchor)
  {
    forall i | 0 <= i < |inserted + anchor|
      ensures !IsBracket((inserted + anchor)[i])
    {
      if i < |inserted| {
        assert (inserted + anchor)[i] == (anchor + inserted)[|anchor| + i];
      } else {
        assert (inserted + anchor)[i] == (anchor + inserted)[i - |inserted|];
      }
    }
  }

  /** Formatting a breakend ALT and reading it back gives its parts, for bracket-free bases and contig names. */
  lemma BreakendAltRoundTrip(anchor: string, inserted: string, localForward: bool, remoteForward: bool, chr: string, pos: int)
    requires |anchor| == 1 && NoBrackets(anchor + inserted) && NoBrackets(chr)
    ensures ParseBreakendAlt(BreakendAlt(anchor, inserted, localForward, remoteForward, chr, pos))
      == Some(BreakendAltParts(if localForward then anchor + inserted else inserted + anchor, localForward, remoteForward, chr, pos))
  {
    var m := MatePosition(chr, pos);
    var b := Bracket(remoteForward);
    ParseMatePositionRoundTrip(chr, pos);
    MatePositionHasNoBrackets(chr, pos);
    BreakendAltShape(anchor, inserted, localForward, remoteForward, chr, pos);
    if localForward {
      ParseForwardAlt(anchor + inserted, b, m);
    } else {
      NoBracketsSwap(anchor, inserted);
      ParseBackwardAlt(inserted + anchor, b, m);
    }
  }

  // ---------------------------------------------------------------------------
  // transformToBreakpointNotation.
  // ---------------------------------------------------------------------------

  /** A single breakend ALT starting with '.' has the viral sequence on the negative strand. */
  predicate ViralNegative(alt: string) {
    |alt| > 0 && alt[0] == '.'
  }

  /** The breakpoint is at the end of the host alignment when the viral and host strands differ. */
  predicate BreakpointAtEndOfHostAlignment(alt: string, host: ChimericAlignment) {
    ViralNegative(alt) != host.isNegativeStrand
  }

  function HostPosition(host: ChimericAlignment, atEnd: bool): (p: int)
    ensures atEnd ==> p == host.pos + host.referenceLength - 1
    ensures !atEnd ==> p == host.pos
  {
    host.pos + (if atEnd then host.referenceLength - 1 else 0)
  }

  /** The ALT without its first and last characters. */
  function BreakendSequence(alt: string): string
    requires |alt| >= 2
  {
    alt[1..|alt| - 1]
  }

  /** The anchor base: the last character when the ALT starts with '.', the first otherwise. */
  function AnchorBase(alt: string): char
    requires |alt| >= 2
  {
    if alt[0] == '.' then alt[|alt| - 1] else alt[0]
  }

  /**
   * The bases between the virus and the host alignment: those before the
   * host alignment for a positive viral strand, those after it otherwise.
   */
  function VirusInsertedSequence(breakendSeq: string, host: ChimericAlignment, viralNegative: bool): (r: Result<string>)
    ensures r.Success? <==> if !viralNegative
      then 0 <= host.firstAlignedBaseReadOffset <= |breakendSeq|
      else 0 <= host.lastAlignedBaseReadOffset + 1 <= |breakendSeq|
    ensures r.Success? ==> |r.value| <= |breakendSeq|
    ensures r.Success? && !viralNegative ==> breakendSeq == r.value + breakendSeq[|r.value|..]
    ensures r.Success? && viralNegative ==> breakendSeq == breakendSeq[..|breakendSeq| - |r.value|] + r.value
  {
    if !viralNegative then
      var insertLength := host.firstAlignedBaseReadOffset;
      if 0 <= insertLength <= |breakendSeq| then Success(breakendSeq[..insertLength])
      else Failure(STRING_INDEX_OUT_OF_BOUNDS)
    else
      var insertOffset := host.lastAlignedBaseReadOffset;
      if 0 <= insertOffset + 1 <= |breakendSeq| then Success(breakendSeq[insertOffset + 1..])
      else Failure(STRING_INDEX_OUT_OF_BOUNDS)
  }

  /** The inserted sequence as the host side reads it: reverse-complemented when both sides face the same way. */
  function HostInsertedSequence(virusInserted: string, virusForward: bool, hostForward: bool): string {
    if virusForward == hostForward then ReverseComplementString(virusInserted) else virusInserted
  }

  /** The host INFO: the copied fields of the single breakend, then the event, mate and type. */
  function HostInfo(vc: VcfRecord): map<InfoKey, string> {
    (map k | k in vc.info && k in HOST_COPIED_KEYS :: vc.info[k])
      [BreakendEventId := vc.id][MateBreakendId := vc.id + VIRUS_SUFFIX][SvTypeKey := BND]
  }

  /** The virus INFO: every field of the single breakend, then the event, mate and type. */
  function VirusInfo(vc: VcfRecord): map<InfoKey, string> {
    vc.info[BreakendEventId := vc.id][MateBreakendId := vc.id + HOST_SUFFIX][SvTypeKey := BND]
  }

  /**
   * transformToBreakpointNotation, given the breakend alignments in
   * ByMapqAlignedLength order: the virus record, then the host record.
   */
  function TransformToBreakpointNotation(vc: VcfRecord, alignments: seq<ChimericAlignment>): (r: Result<seq<VcfRecord>>)
    ensures r.Success? <==> TransformDefined(vc, alignments)
    ensures r.Success? ==> |r.value| == 2
    ensures r.Success? ==> r.value[0].id == vc.id + VIRUS_SUFFIX && r.value[1].id == vc.id + HOST_SUFFIX
    ensures r.Success? ==> MatedEvent(r.value[0], r.value[1], vc.id) && MatedEvent(r.value[1], r.value[0], vc.id)
    ensures r.Success? ==> r.value[1].filters == vc.filters && r.value[1].log10PError == vc.log10PError
    ensures r.Success? ==> forall k :: k in HOST_COPIED_KEYS && k in vc.info ==> k in r.value[1].info && r.value[1].info[k] == vc.info[k]
  {
    if |alignments| == 0 then Failure(INDEX_OUT_OF_BOUNDS)
    else
      var host := alignments[0];
      var viralNegative := ViralNegative(vc.alt);
      var atEnd := BreakpointAtEndOfHostAlignment(vc.alt, host);
      var hostPosition := HostPosition(host, atEnd);
      if |vc.alt| < 2 then Failure(STRING_INDEX_OUT_OF_BOUNDS)
      else
        var anchor := [AnchorBase(vc.alt)];
        match VirusInsertedSequence(BreakendSequence(vc.alt), host, viralNegative)
        case Failure(err) => Failure(err)
        case Success(virusInserted) =>
          var virusForward := !viralNegative;
          var hostForward := atEnd;
          var hostInserted := HostInsertedSequence(virusInserted, virusForward, hostForward);
          var hostRecord := VcfRecord(host.rname, hostPosition, hostPosition, vc.id + HOST_SUFFIX, "N",
            BreakendAlt("N", hostInserted, hostForward, virusForward, vc.contig, vc.start),
            vc.log10PError, vc.filters, HostInfo(vc));
          var virusRecord := vc.(id := vc.id + VIRUS_SUFFIX, ref := anchor,
            alt := BreakendAlt(anchor, virusInserted, virusForward, hostForward, host.rname, hostPosition),
            info := VirusInfo(vc));
          Success([virusRecord, hostRecord])
  }

  /** The record names its mate and the shared event, and is a breakend (BND) record. */
  predicate MatedEvent(record: VcfRecord, mate: VcfRecord, eventId: string) {
    && MateBreakendId in record.info && record.info[MateBreakendId] == mate.id
    && BreakendEventId in record.info && record.info[BreakendEventId] == eventId
    && SvTypeKey in record.info && record.info[SvTypeKey] == BND
  }

  /** When the rewriting does not throw: there is a host alignment, the ALT has two characters, and the insert lies in it. */
  predicate TransformDefined(vc: VcfRecord, alignments: seq<ChimericAlignment>) {
    && |alignments| > 0
    && |vc.alt| >= 2
    && VirusInsertedSequence(BreakendSequence(vc.alt), alignments[0], ViralNegative(vc.alt)).Success?
  }

  /** The fields of the two records that the mate property reads. */
  lemma TransformFields(vc: VcfRecord, alignments: seq<ChimericAlignment>)
    requires TransformDefined(vc, alignments)
    ensures var r := TransformToBreakpointNotation(vc, alignments).value;
      var host := alignments[0];
      var atEnd := BreakpointAtEndOfHostAlignment(vc.alt, host);
      var virusInserted := VirusInsertedSequence(BreakendSequence(vc.alt), host, ViralNegative(vc.alt)).value;
      && r[0].contig == vc.contig && r[0].start == vc.start
      && r[1].contig == host.rname && r[1].start == HostPosition(host, atEnd)
      && r[0].alt == BreakendAlt([AnchorBase(vc.alt)], virusInserted, !ViralNegative(vc.alt), atEnd, host.rname, HostPosition(host, atEnd))
      && r[1].alt == BreakendAlt("N", HostInsertedSequence(virusInserted, !ViralNegative(vc.alt), atEnd), atEnd, !ViralNegative(vc.alt), vc.contig, vc.start)
  {
  }

  /** Bases taken from a bracket-free ALT are bracket-free, and so is their reverse complement. */
  lemma InsertedSequencesHaveNoBrackets(alt: string, host: ChimericAlignment, virusForward: bool, hostForward: bool)
    requires |alt| >= 2 && NoBrackets(alt)
    requires VirusInsertedSequence(BreakendSequence(alt), host, ViralNegative(alt)).Success?
    ensures var virusInserted := VirusInsertedSequence(BreakendSequence(alt), host, ViralNegative(alt)).value;
      && NoBrackets([AnchorBase(alt)] + virusInserted)
      && NoBrackets("N" + HostInsertedSequence(virusInserted, virusForward, hostForward))
  {
    var breakendSeq := BreakendSequence(alt);
    var virusInserted := VirusInsertedSequence(breakendSeq, host, ViralNegative(alt)).value;
    assert NoBrackets(virusInserted) by {
      forall c | c in virusInserted
        ensures !IsBracket(c)
      {
        assert c in breakendSeq;
        assert c in alt;
      }
    }
    var hostInserted := HostInsertedSequence(virusInserted, virusForward, hostForward);
    assert NoBrackets(hostInserted) by {
      forall c | c in hostInserted
        ensures !IsBracket(c)
      {
        if virusForward == hostForward {
          ReverseComplementStringChars(virusInserted, c);
        }
      }
    }
    assert AnchorBase(alt) in alt;
  }

  /**
   * The two records are mates in the ALT notation: each ALT names the other
   * record's position, each side's remote orientation is the other side's
   * local orientation, and the virus faces forward exactly when the ALT does
   * not start with '.'.
   */
  lemma TransformedRecordsAreMates(vc: VcfRecord, alignments: seq<ChimericAlignment>)
    requires TransformDefined(vc, alignments)
    requires NoBrackets(vc.alt) && NoBrackets(vc.contig) && NoBrackets(alignments[0].rname)
    ensures var r := TransformToBreakpointNotation(vc, alignments).value;
      var virus := ParseBreakendAlt(r[0].alt);
      var host := ParseBreakendAlt(r[1].alt);
      && virus.Some? && host.Some?
      && virus.value.chr == r[1].contig && virus.value.pos == r[1].start
      && host.value.chr == r[0].contig && host.value.pos == r[0].start
      && virus.value.remoteForward == host.value.localForward
      && host.value.remoteForward == virus.value.localForward
      && virus.value.localForward == !ViralNegative(vc.alt)
      && host.value.localForward == BreakpointAtEndOfHostAlignment(vc.alt, alignments[0])
  {
    var host := alignments[0];
    var virusForward := !ViralNegative(vc.alt);
    var atEnd := BreakpointAtEndOfHostAlignment(vc.alt, host);
    var virusInserted := VirusInsertedSequence(BreakendSequence(vc.alt), host, ViralNegative(vc.alt)).value;
    TransformFields(vc, alignments);
    InsertedSequencesHaveNoBrackets(vc.alt, host, virusForward, atEnd);
    BreakendAltRoundTrip([AnchorBase(vc.alt)], virusInserted, virusForward, atEnd, host.rname, HostPosition(host, atEnd));
    BreakendAltRoundTrip("N", HostInsertedSequence(virusInserted, virusForward, atEnd), atEnd, virusForward, vc.contig, vc.start);
  }

  /** The host inserted sequence is the reverse complement of the virus's exactly when both sides face the same way. */
  lemma HostInsertIsReverseComplementIffSameOrientation(virusInserted: string, virusForward: bool, hostForward: bool)
    ensures virusForward == hostForward ==> HostInsertedSequence(virusInserted, virusForward, hostForward) == ReverseComplementString(virusInserted)
    ensures virusForward != hostForward ==> HostInsertedSequence(virusInserted, virusForward, hostForward) == virusInserted
    ensures ReverseComplementString(HostInsertedSequence(virusInserted, virusForward, hostForward))
      == if virusForward == hostForward then virusInserted else ReverseComplementString(virusInserted)
  {
    ReverseComplementStringInvolution(virusInserted);
  }

  /** The breakend sequence and anchor are taken from the ALT as the notation places them. */
  lemma BreakendSequenceAndAnchor(alt: string)
    requires |alt| >= 2
    ensures alt == [alt[0]] + BreakendSequence(alt) + [alt[|alt| - 1]]
    ensures AnchorBase(alt) == if ViralNegative(alt) then alt[|alt| - 1] else alt[0]
  {
  }

  // ---------------------------------------------------------------------------
  // repeatRanges and shouldKeep.
  // ---------------------------------------------------------------------------

  /** A half-open integer range [lower, upper). */
  datatype HalfOpen = HalfOpen(lower: int, upper: int)

  predicate InRange(r: HalfOpen, x: int) {
    r.lower <= x < r.upper
  }

  /** Membership in the union of the ranges, as the range set holds it. */
  predicate Covered(ranges: seq<HalfOpen>, x: int) {
    exists i :: 0 <= i < |ranges| && InRange(ranges[i], x)
  }

  /** A repeatmasker alignment to a simple or low-complexity repeat. */
  predicate IsLowComplexityRepeat(a: ChimericAlignment) {
    Contains(a.rname, "Simple_repeat") || Contains(a.rname, "Low_complexity")
  }

  /** The read offsets an alignment covers, [first, last + 1). */
  function AlignedOffsets(a: ChimericAlignment): HalfOpen {
    HalfOpen(a.firstAlignedBaseReadOffset, a.lastAlignedBaseReadOffset + 1)
  }

  /** Range constructors reject an upper endpoint below the lower one. */
  predicate WellFormed(a: ChimericAlignment) {
    a.firstAlignedBaseReadOffset <= a.lastAlignedBaseReadOffset + 1
  }

  /** The ranges repeatRanges adds, in alignment order: [first, last + 1) of each simple or low-complexity repeat. */
  function RepeatRangeList(repeats: seq<ChimericAlignment>): seq<HalfOpen> {
    if repeats == [] then []
    else
      var last := repeats[|repeats| - 1];
      RepeatRangeList(repeats[..|repeats| - 1]) + (if IsLowComplexityRepeat(last) then [AlignedOffsets(last)] else [])
  }

  /** The range set holds exactly the offsets aligned by some simple or low-complexity repeat alignment. */
  lemma {:induction false} RepeatRangeListCoverage(repeats: seq<ChimericAlignment>, x: int)
    ensures Covered(RepeatRangeList(repeats), x)
      <==> exists i :: 0 <= i < |repeats| && IsLowComplexityRepeat(repeats[i]) && InRange(AlignedOffsets(repeats[i]), x)
  {
    if repeats != [] {
      var front := repeats[..|repeats| - 1];
      var last := repeats[|repeats| - 1];
      RepeatRangeListCoverage(front, x);
      var before := RepeatRangeList(front);
      var ranges := RepeatRangeList(repeats);
      if Covered(ranges, x) {
        var j :| 0 <= j < |ranges| && InRange(ranges[j], x);
        if j < |before| {
          assert InRange(before[j], x);
          var i :| 0 <= i < |front| && IsLowComplexityRepeat(front[i]) && InRange(AlignedOffsets(front[i]), x);
          assert repeats[i] == front[i];
        } else {
          assert IsLowComplexityRepeat(repeats[|repeats| - 1]) && InRange(AlignedOffsets(repeats[|repeats| - 1]), x);
        }
      }
      if exists i :: 0 <= i < |repeats| && IsLowComplexityRepeat(repeats[i]) && InRange(AlignedOffsets(repeats[i]), x) {
        var i :| 0 <= i < |repeats| && IsLowComplexityRepeat(repeats[i]) && InRange(AlignedOffsets(repeats[i]), x);
        if i < |front| {
          assert front[i] == repeats[i];
          var j :| 0 <= j < |before| && InRange(before[j], x);
          assert ranges[j] == before[j];
        } else {
          assert ranges[|before|] == AlignedOffsets(last);
        }
      }
    }
  }

  /** Every range comes from a simple or low-complexity repeat alignment. */
  lemma {:induction false} RepeatRangeListSources(repeats: seq<ChimericAlignment>, j: nat)
    requires j < |RepeatRangeList(repeats)|
    ensures exists i :: 0 <= i < |repeats| && IsLowComplexityRepeat(repeats[i]) && RepeatRangeList(repeats)[j] == AlignedOffsets(repeats[i])
  {
    var front := repeats[..|repeats| - 1];
    if j < |RepeatRangeList(front)| {
      RepeatRangeListSources(front, j);
      var i :| 0 <= i < |front| && IsLowComplexityRepeat(front[i]) && RepeatRangeList(front)[j] == AlignedOffsets(front[i]);
      assert repeats[i] == front[i];
    } else {
      assert RepeatRangeList(repeats)[j] == AlignedOffsets(repeats[|repeats| - 1]);
    }
  }

  /** repeatRanges: adds [first, last + 1) for each simple or low-complexity repeat alignment. */
  method RepeatRanges(repeats: seq<ChimericAlignment>) returns (ranges: seq<HalfOpen>)
    requires forall i :: 0 <= i < |repeats| ==> WellFormed(repeats[i])
    ensures ranges == RepeatRangeList(repeats)
    ensures forall x :: Covered(ranges, x) <==> exists i :: 0 <= i < |repeats| && IsLowComplexityRepeat(repeats[i]) && InRange(AlignedOffsets(repeats[i]), x)
  {
    ranges := [];
    var n := 0;
    while n < |repeats|
      invariant n <= |repeats|
      invariant ranges == RepeatRangeList(repeats[..n])
    {
      assert repeats[..n + 1][..n] == repeats[..n];
      var ca := repeats[n];
      if Contains(ca.rname, "Simple_repeat") || Contains(ca.rname, "Low_complexity") {
        ranges := ranges + [HalfOpen(ca.firstAlignedBaseReadOffset, ca.lastAlignedBaseReadOffset + 1)];
      }
      n := n + 1;
    }
    assert repeats[..n] == repeats;
    forall x
      ensures Covered(ranges, x) <==> exists i :: 0 <= i < |repeats| && IsLowComplexityRepeat(repeats[i]) && InRange(AlignedOffsets(repeats[i]), x)
    {
      RepeatRangeListCoverage(repeats, x);
    }
  }

  /** The number of covered offsets in [lower, upper): the measure of the range set's intersection with that range. */
  function CoveredCount(ranges: seq<HalfOpen>, lower: int, upper: int): (c: nat)
    ensures c <= if upper > lower then upper - lower else 0
    decreases upper - lower
  {
    if upper <= lower then 0
    else CoveredCount(ranges, lower, upper - 1) + (if Covered(ranges, upper - 1) then 1 else 0)
  }

  /** With no repeat covering the alignment, its repeat overlap is zero; with it all covered, the overlap is its length. */
  lemma {:induction false} CoveredCountExtremes(ranges: seq<HalfOpen>, lower: int, upper: int)
    ensures (forall x :: lower <= x < upper ==> !Covered(ranges, x)) ==> CoveredCount(ranges, lower, upper) == 0
    ensures (forall x :: lower <= x < upper ==> Covered(ranges, x)) && lower <= upper ==> CoveredCount(ranges, lower, upper) == upper - lower
    decreases upper - lower
  {
    if upper > lower {
      CoveredCountExtremes(ranges, lower, upper - 1);
    }
  }

  /** The overlap depends only on which offsets are covered, not on how the ranges are split or merged. */
  lemma {:induction false} SameCoverageSameCount(a: seq<HalfOpen>, b: seq<HalfOpen>, lower: int, upper: int)
    requires forall x :: Covered(a, x) <==> Covered(b, x)
    ensures CoveredCount(a, lower, upper) == CoveredCount(b, lower, upper)
    decreases upper - lower
  {
    if upper > lower {
      SameCoverageSameCount(a, b, lower, upper - 1);
    }
  }

  /**
   * A host alignment covers enough of the breakend sequence (the length
   * test does not fail; a NaN quotient passes it) and lies mostly outside
   * repeats.
   */
  predicate SupportsIntegration(a: ChimericAlignment, ranges: seq<HalfOpen>, breakendLength: int, minimumHostOverlap: real, minimumRepeatOverlap: real) {
    var hostAlignmentLength := a.lastAlignedBaseReadOffset - a.firstAlignedBaseReadOffset + 1;
    && !QuotientBelow(hostAlignmentLength, breakendLength, minimumHostOverlap)
    && QuotientBelow(CoveredCount(ranges, a.firstAlignedBaseReadOffset, a.lastAlignedBaseReadOffset + 1), hostAlignmentLength, minimumRepeatOverlap)
  }

  /**
   * shouldKeep: only single breakends are kept, and only when some host
   * alignment covers enough of the breakend sequence and lies mostly outside
   * simple and low-complexity repeats.
   */
  method ShouldKeep(alt: string, hosts: seq<ChimericAlignment>, repeats: seq<ChimericAlignment>,
                    minimumHostOverlap: real, minimumRepeatOverlap: real) returns (keep: bool)
    requires forall i :: 0 <= i < |repeats| ==> WellFormed(repeats[i])
    requires forall i :: 0 <= i < |hosts| ==> WellFormed(hosts[i])
    ensures keep <==> (Contains(alt, ".")
      && exists i :: 0 <= i < |hosts| && SupportsIntegration(hosts[i], RepeatRangeList(repeats), |alt| - 2, minimumHostOverlap, minimumRepeatOverlap))
  {
    if !Contains(alt, ".") {
      return false;
    }
    var breakendLength := |alt| - 2;
    var ranges := RepeatRanges(repeats);
    var n := 0;
    while n < |hosts|
      invariant n <= |hosts|
      invariant forall i :: 0 <= i < n ==> !SupportsIntegration(hosts[i], ranges, breakendLength, minimumHostOverlap, minimumRepeatOverlap)
    {
      var hca := hosts[n];
      var hostAlignmentLength := hca.lastAlignedBaseReadOffset - hca.firstAlignedBaseReadOffset + 1;
      if QuotientBelow(hostAlignmentLength, breakendLength, minimumHostOverlap) {
        n := n + 1;
        continue;
      }
      var overlap := CoveredCount(ranges, hca.firstAlignedBaseReadOffset, hca.lastAlignedBaseReadOffset + 1);
      if QuotientBelow(overlap, hostAlignmentLength, minimumRepeatOverlap) {
        return true;
      }
      n := n + 1;
    }
    return false;
  }
}
