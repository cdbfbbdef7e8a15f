/**
 * Breakend and breakpoint locations (BreakendSummary, BreakpointSummary).
 *
 * Positions are taken to be linear genomic coordinates already: the contig
 * index is kept for overlap tests and ordering, and the linear start and end
 * of a location are its local breakend's start and end.
 */
module Breakends {

  /** BreakendDirection: the breakend joins the sequence after (Forward) or before (Backward) it. */
  datatype Direction = Forward | Backward

  /** BreakendSummary: a breakend somewhere in [start, end] on a contig. */
  datatype Breakend = Breakend(referenceIndex: int, direction: Direction, start: int, end: int)

  /** A breakend call or piece of evidence, or a breakpoint with its remote breakend. */
  datatype Location =
    | BreakendAt(local: Breakend)
    | BreakpointAt(local: Breakend, remote: Breakend)

  /** Two breakends overlap when on the same contig, in the same direction, with intersecting intervals. */
  predicate BreakendOverlaps(a: Breakend, b: Breakend) {
    a.referenceIndex == b.referenceIndex && a.direction == b.direction && a.start <= b.end && b.start <= a.end
  }

  lemma BreakendOverlapsSymmetric(a: Breakend, b: Breakend)
    ensures BreakendOverlaps(a, b) <==> BreakendOverlaps(b, a)
  {
  }

  /** Location.overlaps: two breakpoints overlap on both sides; otherwise the local breakends must overlap. */
  predicate Overlaps(a: Location, b: Location) {
    && BreakendOverlaps(a.local, b.local)
    && (a.BreakpointAt? && b.BreakpointAt? ==> BreakendOverlaps(a.remote, b.remote))
  }

  /** Overlap is symmetric. */
  lemma OverlapsSymmetric(a: Location, b: Location)
    ensures Overlaps(a, b) <==> Overlaps(b, a)
  {
  }

  /** Overlap implies that the first location starts no later than the second ends. */
  lemma OverlapsBounds(a: Location, b: Location)
    requires Overlaps(a, b)
    ensures StartLinear(a) <= EndLinear(b) && StartLinear(b) <= EndLinear(a)
  {
  }

  function StartLinear(loc: Location): int {
    loc.local.start
  }

  function EndLinear(loc: Location): int {
    loc.local.end
  }

  function Widen(b: Breakend, margin: int): (r: Breakend)
    ensures r.referenceIndex == b.referenceIndex && r.direction == b.direction
  {
    Breakend(b.referenceIndex, b.direction, b.start - margin, b.end + margin)
  }

  /** VariantCallingParameters.withMargin: both breakends widened by the margin on each side. */
  function WithMargin(loc: Location, margin: int): (r: Location)
    ensures r.BreakpointAt? <==> loc.BreakpointAt?
  {
    match loc
    case BreakendAt(local) => BreakendAt(Widen(local, margin))
    case BreakpointAt(local, remote) => BreakpointAt(Widen(local, margin), Widen(remote, margin))
  }

  /** A non-negative margin only adds overlaps. */
  lemma WithMarginMonotone(a: Location, b: Location, margin: nat)
    requires Overlaps(a, b)
    ensures Overlaps(a, WithMargin(b, margin))
  {
  }

  /** The other side of a breakpoint, as its mate call sees it. */
  function Mirror(loc: Location): (r: Location)
    requires loc.BreakpointAt?
    ensures r.BreakpointAt? && r.local == loc.remote && r.remote == loc.local
  {
    BreakpointAt(loc.remote, loc.local)
  }

  // ---------------------------------------------------------------------------
  // Orderings. Comparison results are -1, 0 or 1.
  // ---------------------------------------------------------------------------

  function Sign(a: int, b: int): (r: int)
    ensures r == -1 || r == 0 || r == 1
    ensures r == 0 <==> a == b
    ensures r < 0 <==> a < b
  {
    if a < b then -1 else if a > b then 1 else 0
  }

  /** ComparisonChain: the first non-zero comparison decides. */
  function Then(first: int, next: int): int {
    if first != 0 then first else next
  }

  /** BreakendSummary.ByStartEnd: contig, then start, then end. */
  function ByStartEnd(a: Breakend, b: Breakend): int {
    Then(Sign(a.referenceIndex, b.referenceIndex), Then(Sign(a.start, b.start), Sign(a.end, b.end)))
  }

  lemma ByStartEndAntisymmetric(a: Breakend, b: Breakend)
    ensures ByStartEnd(a, b) == -ByStartEnd(b, a)
  {
  }

  /** The breakend of a breakpoint that comes first by ByStartEnd (the local one on ties). */
  function LowBreakend(p: Location): Breakend
    requires p.BreakpointAt?
  {
    if ByStartEnd(p.local, p.remote) <= 0 then p.local else p.remote
  }

  function HighBreakend(p: Location): Breakend
    requires p.BreakpointAt?
  {
    if ByStartEnd(p.local, p.remote) <= 0 then p.remote else p.local
  }

  /** BreakpointSummary.ByLowHigh: the low breakends, then the high breakends. */
  function ByLowHigh(p: Location, q: Location): int
    requires p.BreakpointAt? && q.BreakpointAt?
  {
    Then(ByStartEnd(LowBreakend(p), LowBreakend(q)), ByStartEnd(HighBreakend(p), HighBreakend(q)))
  }

  /** ByLowHigh does not depend on which side of a breakpoint is local. */
  lemma ByLowHighMirror(p: Location, q: Location)
    requires p.BreakpointAt? && q.BreakpointAt?
    ensures ByLowHigh(Mirror(p), q) == ByLowHigh(p, q)
    ensures ByLowHigh(q, Mirror(p)) == ByLowHigh(q, p)
  {
    ByStartEndAntisymmetric(p.local, p.remote);
  }

  lemma ByLowHighAntisymmetric(p: Location, q: Location)
    requires p.BreakpointAt? && q.BreakpointAt?
    ensures ByLowHigh(p, q) == -ByLowHigh(q, p)
  {
    ByStartEndAntisymmetric(LowBreakend(p), LowBreakend(q));
    ByStartEndAntisymmetric(HighBreakend(p), HighBreakend(q));
  }
}
