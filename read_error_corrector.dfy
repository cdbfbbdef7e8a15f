/**
 * K-mer frequency based read error correction (ReadErrorCorrector).
 *
 * A counting phase records how often every k-mer occurs over a set of reads and
 * tracks the largest count. A collapse lookup, built lazily, sends each rare
 * k-mer to its most frequent Hamming-distance-1 neighbour when that neighbour is
 * at least `collapseMultiple` times as frequent. Reads are then rewritten with at
 * most MAX_BASE_CORRECTIONS rule applications each.
 *
 * K-mers are sequences of bases rather than 2-bit packed longs; the packed read
 * is an array of bases.
 */
module ReadErrorCorrection {
  import opened Common

  datatype Base = A | C | G | T

  type Kmer = seq<Base>

  /** Largest k-mer size a 64-bit packed key can hold. */
  const MAX_K: nat := 31
  /** Cap on the number of corrections applied to one read. */
  const MAX_BASE_CORRECTIONS: nat := 2

  // ---------------------------------------------------------------------------
  // Bases, their 2-bit codes and reverse complement.
  // ---------------------------------------------------------------------------

  function Code(b: Base): bv2 {
    match b
    case A => 0
    case C => 1
    case G => 2
    case T => 3
  }

  function FromCode(c: bv2): (b: Base)
    ensures Code(b) == c
  {
    if c == 0 then A else if c == 1 then C else if c == 2 then G else T
  }

  function ComplementBase(b: Base): Base {
    match b
    case A => T
    case C => G
    case G => C
    case T => A
  }

  function ReverseComplement(s: seq<Base>): (r: seq<Base>)
    ensures |r| == |s|
    ensures forall i :: 0 <= i < |s| ==> r[i] == ComplementBase(s[|s| - 1 - i])
  {
    seq(|s|, i requires 0 <= i < |s| => ComplementBase(s[|s| - 1 - i]))
  }

  lemma ReverseComplementInvolution(s: seq<Base>)
    ensures ReverseComplement(ReverseComplement(s)) == s
  {
  }

  /** The read as PackedSequence stores it: reverse complemented on request. */
  function Oriented(s: seq<Base>, reverseComplement: bool): seq<Base> {
    if reverseComplement then ReverseComplement(s) else s
  }

  /** The k-mers of `s` at every offset 0 .. |s| - k, in order. */
  function Windows(s: seq<Base>, k: nat): (w: seq<Kmer>)
    ensures |w| == if |s| >= k then |s| - k + 1 else 0
    ensures forall i :: 0 <= i < |w| ==> w[i] == s[i..i + k]
  {
    var n := if |s| >= k then |s| - k + 1 else 0;
    seq(n, i requires 0 <= i < n => s[i..i + k])
  }

  /** Count of a k-mer; absent k-mers count 0 (Long2IntOpenHashMap's default). */
  function Count(counts: map<Kmer, nat>, x: Kmer): nat {
    if x in counts then counts[x] else 0
  }

  // ---------------------------------------------------------------------------
  // Hamming-distance-1 neighbours.
  // ---------------------------------------------------------------------------

  /** The base whose 2-bit code is the code of `b` XOR `d`. */
  function Substitute(b: Base, d: bv2): Base {
    FromCode(Code(b) ^ d)
  }

  /**
   * The neighbours of `x`, one substitution at a time: for each position j in
   * order, the codes XOR 1, XOR 2 and XOR 3 at that position.
   */
  function Neighbours(x: Kmer): (ns: seq<Kmer>)
    ensures |ns| == 3 * |x|
  {
    seq(3 * |x|, n requires 0 <= n < 3 * |x| => x[n / 3 := Substitute(x[n / 3], (n % 3 + 1) as bv2)])
  }

  predicate HammingNeighbour(x: Kmer, y: Kmer) {
    && |x| == |y|
    && exists j :: 0 <= j < |x| && x[j] != y[j] && forall i :: 0 <= i < |x| && i != j ==> x[i] == y[i]
  }

  /** Every listed neighbour is at Hamming distance exactly 1. */
  lemma NeighboursAreHammingNeighbours(x: Kmer, n: nat)
    requires n < 3 * |x|
    ensures HammingNeighbour(x, Neighbours(x)[n])
  {
    var j := n / 3;
    var d := (n % 3 + 1) as bv2;
    assert d != 0;
    assert Code(x[j]) ^ d != Code(x[j]);
    var y := Neighbours(x)[n];
    assert y[j] != x[j];
    assert forall i :: 0 <= i < |x| && i != j ==> x[i] == y[i];
  }

  /** Every k-mer at Hamming distance 1 is listed. */
  lemma EveryHammingNeighbourListed(x: Kmer, y: Kmer)
    requires HammingNeighbour(x, y)
    ensures y in Neighbours(x)
  {
    var j :| 0 <= j < |x| && x[j] != y[j] && forall i :: 0 <= i < |x| && i != j ==> x[i] == y[i];
    var d := Code(x[j]) ^ Code(y[j]);
    assert d != 0;
    assert Substitute(x[j], d) == y[j] by {
      assert Code(x[j]) ^ d == Code(y[j]);
      assert FromCode(Code(y[j])) == y[j] by { assert Code(FromCode(Code(y[j]))) == Code(y[j]); }
    }
    var n := 3 * j + (d as int - 1);
    assert n / 3 == j && n % 3 + 1 == d as int;
    assert Neighbours(x)[n] == y;
  }

  /** Every neighbour has the k-mer's length. */
  lemma NeighbourLength(x: Kmer, n: nat)
    requires n < 3 * |x|
    ensures |Neighbours(x)[n]| == |x|
  {
  }

  // ---------------------------------------------------------------------------
  // bestNeighbour: the neighbour with the largest count, the first strictly
  // larger count winning; the k-mer itself when every neighbour counts 0.
  // ---------------------------------------------------------------------------

  /** The scan of `ns` that keeps the first strictly larger count, from (bestK, bestC). */
  function BestAmong(counts: map<Kmer, nat>, ns: seq<Kmer>, bestK: Kmer, bestC: nat): Kmer
    decreases |ns|
  {
    if ns == [] then bestK
    else if Count(counts, ns[0]) > bestC then BestAmong(counts, ns[1..], ns[0], Count(counts, ns[0]))
    else BestAmong(counts, ns[1..], bestK, bestC)
  }

  function BestNeighbourOf(counts: map<Kmer, nat>, x: Kmer): Kmer {
    BestAmong(counts, Neighbours(x), x, 0)
  }

  /** A bound on the head and on every element of the tail bounds the whole list. */
  lemma BoundCons(counts: map<Kmer, nat>, ns: seq<Kmer>, bound: nat)
    requires ns != [] && Count(counts, ns[0]) <= bound
    requires forall m :: 0 <= m < |ns[1..]| ==> Count(counts, ns[1..][m]) <= bound
    ensures forall m :: 0 <= m < |ns| ==> Count(counts, ns[m]) <= bound
  {
    forall m | 0 <= m < |ns| ensures Count(counts, ns[m]) <= bound {
      if m > 0 { assert ns[m] == ns[1..][m - 1]; }
    }
  }

  /** The first maximal element of the tail, beating the head, is the first maximal element of the list. */
  lemma FirstMaximalCons(counts: map<Kmer, nat>, ns: seq<Kmer>, n: nat, b: Kmer)
    requires ns != [] && n < |ns[1..]| && ns[1..][n] == b
    requires Count(counts, ns[0]) < Count(counts, b)
    requires forall m :: 0 <= m < |ns[1..]| ==> Count(counts, ns[1..][m]) <= Count(counts, b)
    requires forall m :: 0 <= m < n ==> Count(counts, ns[1..][m]) < Count(counts, b)
    ensures ns[n + 1] == b
    ensures forall m :: 0 <= m < |ns| ==> Count(counts, ns[m]) <= Count(counts, b)
    ensures forall m :: 0 <= m < n + 1 ==> Count(counts, ns[m]) < Count(counts, b)
  {
    BoundCons(counts, ns, Count(counts, b));
    forall m | 0 <= m < n + 1 ensures Count(counts, ns[m]) < Count(counts, b) {
      if m > 0 { assert ns[m] == ns[1..][m - 1]; }
    }
  }

  /** Either the scan keeps its start, beating nothing, or it picks the first maximal element. */
  lemma {:induction false} BestAmongChoice(counts: map<Kmer, nat>, ns: seq<Kmer>, bestK: Kmer, bestC: nat)
    ensures var b := BestAmong(counts, ns, bestK, bestC);
      || (b == bestK && forall m :: 0 <= m < |ns| ==> Count(counts, ns[m]) <= bestC)
      || (exists n :: 0 <= n < |ns| && ns[n] == b && Count(counts, b) > bestC
            && (forall m :: 0 <= m < |ns| ==> Count(counts, ns[m]) <= Count(counts, b))
            && (forall m :: 0 <= m < n ==> Count(counts, ns[m]) < Count(counts, b)))
  {
    if ns != [] {
      var b := BestAmong(counts, ns, bestK, bestC);
      var c0 := Count(counts, ns[0]);
      var rest := ns[1..];
      // The scan goes on from the head when it beats the start, otherwise from the start.
      var k0, c := if c0 > bestC then ns[0] else bestK, if c0 > bestC then c0 else bestC;
      assert b == BestAmong(counts, rest, k0, c);
      BestAmongChoice(counts, rest, k0, c);
      if b == k0 && forall m :: 0 <= m < |rest| ==> Count(counts, rest[m]) <= c {
        BoundCons(counts, ns, c);
        if c0 > bestC {
          assert ns[0] == b;
        }
      } else {
        var n :| 0 <= n < |rest| && rest[n] == b && Count(counts, b) > c
          && (forall m :: 0 <= m < |rest| ==> Count(counts, rest[m]) <= Count(counts, b))
          && (forall m :: 0 <= m < n ==> Count(counts, rest[m]) < Count(counts, b));
        FirstMaximalCons(counts, ns, n, b);
      }
    }
  }

  /**
   * bestNeighbour returns the k-mer itself exactly when no neighbour has been
   * seen, and otherwise the first neighbour (in enumeration order) whose count
   * is the largest among all neighbours.
   */
  lemma BestNeighbourIsFirstMaximal(counts: map<Kmer, nat>, x: Kmer)
    ensures var b := BestNeighbourOf(counts, x); var ns := Neighbours(x);
      && (b == x <==> forall m :: 0 <= m < |ns| ==> Count(counts, ns[m]) == 0)
      && (b != x ==>
            exists n ::
              && 0 <= n < |ns| && ns[n] == b && Count(counts, b) > 0
              && (forall m :: 0 <= m < |ns| ==> Count(counts, ns[m]) <= Count(counts, b))
              && (forall m :: 0 <= m < n ==> Count(counts, ns[m]) < Count(counts, b)))
  {
    var ns := Neighbours(x);
    var b := BestNeighbourOf(counts, x);
    BestAmongChoice(counts, ns, x, 0);
    if b != x {
      var n :| 0 <= n < |ns| && ns[n] == b && Count(counts, b) > 0;
      assert Count(counts, ns[n]) != 0;
    } else if exists m :: 0 <= m < |ns| && ns[m] == b {
      var m :| 0 <= m < |ns| && ns[m] == b;
      NeighboursAreHammingNeighbours(x, m);
      assert false;
    }
  }

  /** bestNeighbour returns the k-mer itself or one of its Hamming-distance-1 neighbours. */
  lemma BestNeighbourIsSelfOrNeighbour(counts: map<Kmer, nat>, x: Kmer)
    ensures var b := BestNeighbourOf(counts, x); b == x || HammingNeighbour(x, b)
  {
    BestNeighbourIsFirstMaximal(counts, x);
    var b := BestNeighbourOf(counts, x);
    if b != x {
      var n :| 0 <= n < |Neighbours(x)| && Neighbours(x)[n] == b;
      NeighboursAreHammingNeighbours(x, n);
    }
  }

  /** bestNeighbour, with the loop of the source over the precomputed neighbour list. */
  method BestNeighbour(counts: map<Kmer, nat>, x: Kmer) returns (best: Kmer)
    ensures best == BestNeighbourOf(counts, x)
    ensures best == x || HammingNeighbour(x, best)
  {
    var ns := Neighbours(x);
    best := x;
    var bestCount: nat := 0;
    var i := 0;
    while i < |ns|
      invariant 0 <= i <= |ns|
      invariant bestCount == Count(counts, best) || (best == x && bestCount == 0)
      invariant BestAmong(counts, ns[i..], best, bestCount) == BestNeighbourOf(counts, x)
    {
      var count := Count(counts, ns[i]);
      assert ns[i..][1..] == ns[i + 1..];
      if count > bestCount {
        best := ns[i];
        bestCount := count;
      }
      i := i + 1;
    }
    BestNeighbourIsSelfOrNeighbour(counts, x);
  }

  // ---------------------------------------------------------------------------
  // The collapse lookup.
  // ---------------------------------------------------------------------------

  /** `(int) Math.floor(maxCount / collapseMultiple)`. */
  function MaxCollapseCount(maxCount: nat, collapseMultiple: real): int
    requires collapseMultiple > 0.0
  {
    ((maxCount as real) / collapseMultiple).Floor
  }

  /** A k-mer is collapsed when rare enough and its best neighbour is collapseMultiple times as frequent. */
  predicate Collapses(counts: map<Kmer, nat>, maxCount: nat, collapseMultiple: real, x: Kmer)
    requires collapseMultiple > 0.0
  {
    var count := Count(counts, x);
    && count <= MaxCollapseCount(maxCount, collapseMultiple)
    && (count as real) * collapseMultiple <= Count(counts, BestNeighbourOf(counts, x)) as real
  }

  function CollapseLookupOf(counts: map<Kmer, nat>, maxCount: nat, collapseMultiple: real): map<Kmer, Kmer>
    requires collapseMultiple > 0.0
  {
    map x | x in counts && Collapses(counts, maxCount, collapseMultiple, x) :: BestNeighbourOf(counts, x)
  }

  /**
   * With a collapse multiple above 1, every collapsed k-mer is sent to a
   * Hamming-distance-1 neighbour that is at least collapseMultiple times as
   * frequent, never to itself.
   */
  lemma CollapseTargetIsStrongerNeighbour(counts: map<Kmer, nat>, maxCount: nat, collapseMultiple: real, x: Kmer)
    requires collapseMultiple > 1.0
    requires x in counts && counts[x] >= 1
    requires x in CollapseLookupOf(counts, maxCount, collapseMultiple)
    ensures var y := CollapseLookupOf(counts, maxCount, collapseMultiple)[x];
      && HammingNeighbour(x, y)
      && (Count(counts, x) as real) * collapseMultiple <= Count(counts, y) as real
      && Count(counts, x) < Count(counts, y)
  {
    var y := BestNeighbourOf(counts, x);
    assert Collapses(counts, maxCount, collapseMultiple, x);
    assert CollapseLookupOf(counts, maxCount, collapseMultiple)[x] == y;
    var c := counts[x] as real;
    assert c * collapseMultiple - c == c * (collapseMultiple - 1.0);
    BestNeighbourIsSelfOrNeighbour(counts, x);
  }

  /**
   * With a collapse multiple of at most 1, a k-mer none of whose neighbours has
   * been seen is sent to itself.
   */
  lemma CollapseToSelfWhenMultipleAtMostOne(counts: map<Kmer, nat>, maxCount: nat, collapseMultiple: real, x: Kmer)
    requires 0.0 < collapseMultiple <= 1.0
    requires x in counts && counts[x] <= MaxCollapseCount(maxCount, collapseMultiple)
    requires forall y :: HammingNeighbour(x, y) ==> Count(counts, y) == 0
    ensures x in CollapseLookupOf(counts, maxCount, collapseMultiple)
    ensures CollapseLookupOf(counts, maxCount, collapseMultiple)[x] == x
  {
    var ns := Neighbours(x);
    forall m | 0 <= m < |ns| ensures Count(counts, ns[m]) == 0 {
      NeighboursAreHammingNeighbours(x, m);
    }
    BestNeighbourIsFirstMaximal(counts, x);
    var c := counts[x] as real;
    assert c * collapseMultiple <= c;
  }

  // ---------------------------------------------------------------------------
  // Correction rules on the packed read.
  // ---------------------------------------------------------------------------

  /** The first `n` bases of `x` (all of them when shorter; none when n <= 0). */
  function Leading(x: seq<Base>, n: int): seq<Base> {
    if n <= 0 then [] else if n >= |x| then x else x[..n]
  }

  /** The last `n` bases of `x` (all of them when shorter; none when n <= 0). */
  function Trailing(x: seq<Base>, n: int): seq<Base> {
    if n <= 0 then [] else if n >= |x| then x else x[|x| - n..]
  }

  /** PackedSequence.setKmer: overwrite the bases at offset i with t. */
  function SetKmer(s: seq<Base>, t: Kmer, i: nat): (r: seq<Base>)
    requires i + |t| <= |s|
    ensures |r| == |s|
  {
    s[..i] + t + s[i + |t|..]
  }

  /** Writing a k-mer at i replaces exactly the bases i .. i + |t| - 1. */
  lemma SetKmerEffect(s: seq<Base>, t: Kmer, i: nat)
    requires i + |t| <= |s|
    ensures var r := SetKmer(s, t, i);
      && r[i..i + |t|] == t
      && (forall j :: i <= j < i + |t| ==> r[j] == t[j - i])
      && (forall j :: 0 <= j < |s| && !(i <= j < i + |t|) ==> r[j] == s[j])
  {
  }

  /** Lookup values are k-mers of the lookup's keys' length. */
  predicate LookupWellFormed(lookup: map<Kmer, Kmer>, k: nat) {
    forall x :: x in lookup ==> |x| == k && |lookup[x]| == k
  }

  /**
   * The flanking rule at i: the k-mers at i - 1 and i + 1 both have collapse
   * targets, and these agree on the k - 2 bases the two windows share.
   */
  predicate FlankFiresAt(s: seq<Base>, lookup: map<Kmer, Kmer>, k: nat, i: int) {
    && 1 <= i && i + 1 + k <= |s|
    && s[i - 1..i - 1 + k] in lookup
    && s[i + 1..i + 1 + k] in lookup
    && Trailing(lookup[s[i - 1..i - 1 + k]], k - 2) == Leading(lookup[s[i + 1..i + 1 + k]], k - 2)
  }

  /** The first flanking position at or after i. */
  function FirstFlankFrom(s: seq<Base>, lookup: map<Kmer, Kmer>, k: nat, i: nat): (r: Option<nat>)
    requires i >= 1
    ensures r.Some? ==> i <= r.value && FlankFiresAt(s, lookup, k, r.value)
    decreases |s| - i
  {
    if i + 1 + k > |s| then None
    else if FlankFiresAt(s, lookup, k, i) then Some(i)
    else FirstFlankFrom(s, lookup, k, i + 1)
  }

  /** The search finds the first firing position at or after i, and finds none only when none exists. */
  lemma {:induction false} FirstFlankFromIsFirst(s: seq<Base>, lookup: map<Kmer, Kmer>, k: nat, i: nat)
    requires i >= 1
    decreases |s| - i
    ensures var r := FirstFlankFrom(s, lookup, k, i);
      && (r.Some? ==> forall j :: i <= j < r.value ==> !FlankFiresAt(s, lookup, k, j))
      && (r.None? ==> forall j :: i <= j ==> !FlankFiresAt(s, lookup, k, j))
  {
    if i + 1 + k <= |s| && !FlankFiresAt(s, lookup, k, i) {
      FirstFlankFromIsFirst(s, lookup, k, i + 1);
    }
  }

  /** A position where the rule does not fire passes the search on. */
  lemma FirstFlankFromSkip(s: seq<Base>, lookup: map<Kmer, Kmer>, k: nat, i: nat)
    requires i >= 1 && !FlankFiresAt(s, lookup, k, i)
    ensures FirstFlankFrom(s, lookup, k, i) == FirstFlankFrom(s, lookup, k, i + 1)
  {
  }

  /** The search ends at the first position where the rule fires, and FlankRule rewrites there. */
  lemma FlankRuleAt(s: seq<Base>, lookup: map<Kmer, Kmer>, k: nat, i: nat)
    requires LookupWellFormed(lookup, k)
    requires FirstFlankFrom(s, lookup, k, 1) == Some(i)
    ensures i >= 1 && i + 1 + k <= |s| && s[i - 1..i - 1 + k] in lookup
    ensures FlankRule(s, lookup, k) == Some(SetKmer(s, lookup[s[i - 1..i - 1 + k]], i - 1))
  {
  }

  /** The loop of error_correct_flanking_kmers: the first position where the flanking rule fires. */
  method FindFlank(s: seq<Base>, lookup: map<Kmer, Kmer>, k: nat) returns (at: Option<nat>)
    ensures at == FirstFlankFrom(s, lookup, k, 1)
  {
    var i := 1;
    while i < |s| - k
      invariant 1 <= i
      invariant FirstFlankFrom(s, lookup, k, i) == FirstFlankFrom(s, lookup, k, 1)
      decreases |s| - i
    {
      var leftKmer := s[i - 1..i - 1 + k];
      var rightKmer := s[i + 1..i + 1 + k];
      if leftKmer in lookup && rightKmer in lookup {
        var leftTransform := lookup[leftKmer];
        var rightTransform := lookup[rightKmer];
        if Trailing(leftTransform, k - 2) == Leading(rightTransform, k - 2) {
          assert FlankFiresAt(s, lookup, k, i);
          return Some(i);
        }
      }
      FirstFlankFromSkip(s, lookup, k, i);
      i := i + 1;
    }
    return None;
  }

  /** The start rule: the first k-mer has a target that only differs in its two leading bases. */
  predicate StartFires(s: seq<Base>, lookup: map<Kmer, Kmer>, k: nat) {
    && k <= |s|
    && s[..k] in lookup
    && Trailing(s[..k], k - 2) == Trailing(lookup[s[..k]], k - 2)
  }

  /** The end rule: the last k-mer has a target that differs in its two trailing bases. */
  predicate EndFires(s: seq<Base>, lookup: map<Kmer, Kmer>, k: nat) {
    && k <= |s|
    && s[|s| - k..] in lookup
    && Trailing(s[|s| - k..], 2) != Trailing(lookup[s[|s| - k..]], 2)
  }

  /** error_correct_flanking_kmers: the read rewritten at the first flanking position, if any. */
  function FlankRule(s: seq<Base>, lookup: map<Kmer, Kmer>, k: nat): Option<seq<Base>>
    requires LookupWellFormed(lookup, k)
  {
    match FirstFlankFrom(s, lookup, k, 1)
    case Some(i) => Some(SetKmer(s, lookup[s[i - 1..i - 1 + k]], i - 1))
    case None => None
  }

  /** error_correct_start. */
  function StartRule(s: seq<Base>, lookup: map<Kmer, Kmer>, k: nat): Option<seq<Base>>
    requires LookupWellFormed(lookup, k)
  {
    if StartFires(s, lookup, k) then Some(SetKmer(s, lookup[s[..k]], 0)) else None
  }

  /** error_correct_end. */
  function EndRule(s: seq<Base>, lookup: map<Kmer, Kmer>, k: nat): Option<seq<Base>>
    requires LookupWellFormed(lookup, k)
  {
    if EndFires(s, lookup, k) then Some(SetKmer(s, lookup[s[|s| - k..]], |s| - k)) else None
  }

  /** One pass of `flanking || start || end`: the rewritten read, or None when no rule fires. */
  function Step(s: seq<Base>, lookup: map<Kmer, Kmer>, k: nat): (r: Option<seq<Base>>)
    requires LookupWellFormed(lookup, k)
    ensures r.Some? ==> |r.value| == |s|
  {
    if FlankRule(s, lookup, k).Some? then FlankRule(s, lookup, k)
    else if StartRule(s, lookup, k).Some? then StartRule(s, lookup, k)
    else EndRule(s, lookup, k)
  }

  /** error_correct: apply Step until nothing fires or `budget` corrections were made. */
  function Run(s: seq<Base>, lookup: map<Kmer, Kmer>, k: nat, budget: nat): (seq<Base>, nat)
    requires LookupWellFormed(lookup, k)
    decreases budget, 2
  {
    if budget == 0 then (s, 0) else RunRound(s, lookup, k, budget)
  }

  /** A run with budget left: one round, then the rest. */
  function RunRound(s: seq<Base>, lookup: map<Kmer, Kmer>, k: nat, budget: nat): (seq<Base>, nat)
    requires LookupWellFormed(lookup, k) && budget > 0
    decreases budget, 1
  {
    Continue(s, Step(s, lookup, k), lookup, k, budget)
  }

  /** The rest of a run once a round has produced `step`. */
  function Continue(s: seq<Base>, step: Option<seq<Base>>, lookup: map<Kmer, Kmer>, k: nat, budget: nat): (seq<Base>, nat)
    requires LookupWellFormed(lookup, k) && budget > 0
    decreases budget, 0
  {
    match step
    case None => (s, 0)
    case Some(t) => var rest := Run(t, lookup, k, budget - 1); (rest.0, rest.1 + 1)
  }

  /** One turn of the error_correct loop. */
  lemma RunStep(s: seq<Base>, lookup: map<Kmer, Kmer>, k: nat, budget: nat)
    requires LookupWellFormed(lookup, k) && budget > 0
    ensures Step(s, lookup, k).None? ==> Run(s, lookup, k, budget) == (s, 0)
    ensures Step(s, lookup, k).Some? ==>
      var t := Step(s, lookup, k).value;
      Run(s, lookup, k, budget) == (Run(t, lookup, k, budget - 1).0, Run(t, lookup, k, budget - 1).1 + 1)
  {
    assert Run(s, lookup, k, budget) == RunRound(s, lookup, k, budget) == Continue(s, Step(s, lookup, k), lookup, k, budget);
  }

  /** After `changes` rounds of a run from s0 the read is s, and the rest of the run is the run from s. */
  predicate RunAfter(s0: seq<Base>, lookup: map<Kmer, Kmer>, k: nat, budget: nat, s: seq<Base>, changes: nat)
    requires LookupWellFormed(lookup, k)
  {
    changes <= budget
    && var rest := Run(s, lookup, k, budget - changes);
    Run(s0, lookup, k, budget) == (rest.0, rest.1 + changes)
  }

  /** One turn of the error_correct loop, as the rounds of the run from s0 see it. */
  lemma RunTurn(s0: seq<Base>, lookup: map<Kmer, Kmer>, k: nat, budget: nat, before: seq<Base>, after: seq<Base>, fired: bool, changes: nat)
    requires LookupWellFormed(lookup, k) && changes < budget
    requires RunAfter(s0, lookup, k, budget, before, changes)
    requires fired == Step(before, lookup, k).Some?
    requires after == if fired then Step(before, lookup, k).value else before
    ensures !fired ==> Run(s0, lookup, k, budget) == (after, changes)
    ensures fired ==> RunAfter(s0, lookup, k, budget, after, changes + 1)
    ensures fired && changes + 1 == budget ==> Run(s0, lookup, k, budget) == (after, changes + 1)
  {
    assert Run(before, lookup, k, budget - changes) == RunRound(before, lookup, k, budget - changes)
      == Continue(before, Step(before, lookup, k), lookup, k, budget - changes);
    ContinueTurn(s0, lookup, k, budget, before, Step(before, lookup, k), after, fired, changes);
  }

  /** RunTurn for whatever round result `step` the read gave. */
  lemma ContinueTurn(s0: seq<Base>, lookup: map<Kmer, Kmer>, k: nat, budget: nat, before: seq<Base>, step: Option<seq<Base>>,
                     after: seq<Base>, fired: bool, changes: nat)
    requires LookupWellFormed(lookup, k) && changes < budget
    requires var rest := Continue(before, step, lookup, k, budget - changes); Run(s0, lookup, k, budget) == (rest.0, rest.1 + changes)
    requires fired == step.Some? && after == if fired then step.value else before
    ensures !fired ==> Run(s0, lookup, k, budget) == (after, changes)
    ensures fired ==> RunAfter(s0, lookup, k, budget, after, changes + 1)
    ensures fired && changes + 1 == budget ==> Run(s0, lookup, k, budget) == (after, changes + 1)
  {
    if fired && changes + 1 == budget {
      assert Run(after, lookup, k, 0) == (after, 0);
    }
  }

  /**
   * The correction count never exceeds the budget; the run stops early only
   * when no rule fires on its result; no correction means no change; the read
   * keeps its length.
   */
  lemma {:induction false} RunBounded(s: seq<Base>, lookup: map<Kmer, Kmer>, k: nat, budget: nat)
    requires LookupWellFormed(lookup, k)
    decreases budget
    ensures var (r, n) := Run(s, lookup, k, budget);
      && n <= budget
      && |r| == |s|
      && (n < budget ==> Step(r, lookup, k).None?)
      && (n == 0 ==> r == s)
  {
    if budget > 0 {
      assert Run(s, lookup, k, budget) == RunRound(s, lookup, k, budget) == Continue(s, Step(s, lookup, k), lookup, k, budget);
      match Step(s, lookup, k)
      case None =>
      case Some(t) => RunBounded(t, lookup, k, budget - 1);
    }
  }

  // ---------------------------------------------------------------------------
  // The flanking loop's range of window positions (see README, Findings).
  // ---------------------------------------------------------------------------

  /** Both k-mers the flanking rule reads at i, at offsets i - 1 and i + 1, lie inside a read of this length. */
  predicate FlankWindowsInRead(length: int, k: nat, i: int) {
    0 <= i - 1 && i + 1 + k <= length
  }

  /** The positions the flanking loop visits as written: `1 <= i < length - k + 1`. */
  predicate FlankVisitedAsWritten(length: int, k: nat, i: int) {
    1 <= i < length - k + 1
  }

  /** The positions the modelled loop visits: `1 <= i < length - k`. */
  predicate FlankVisited(length: int, k: nat, i: int) {
    1 <= i < length - k
  }

  /** As written, whenever the read is longer than k the last visited position reads past the end. */
  lemma FlankingAsWrittenReadsPastEnd(length: int, k: nat)
    requires length > k
    ensures FlankVisitedAsWritten(length, k, length - k)
    ensures !FlankWindowsInRead(length, k, length - k)
  {
  }

  /** Concretely: a 5-base read with k = 4 visits i = 1, whose right k-mer would need bases 2..5. */
  lemma FlankingAsWrittenExample()
    ensures FlankVisitedAsWritten(5, 4, 1) && !FlankWindowsInRead(5, 4, 1)
  {
  }

  /** The corrected range visits exactly the positions where both k-mers fit in the read. */
  lemma FlankVisitedExactlyInRead(length: int, k: nat, i: int)
    ensures FlankVisited(length, k, i) <==> FlankWindowsInRead(length, k, i)
    ensures FlankVisited(length, k, i) ==> FlankVisitedAsWritten(length, k, i)
  {
  }

  // ---------------------------------------------------------------------------
  // The counting table.
  // ---------------------------------------------------------------------------

  /** Counts are positive counts of k-mers and maxCount is their maximum (0 when nothing was counted). */
  predicate CountTable(counts: map<Kmer, nat>, maxCount: nat, k: nat) {
    && (forall x :: x in counts ==> |x| == k && 1 <= counts[x] <= maxCount)
    && (maxCount > 0 ==> exists x :: x in counts && counts[x] == maxCount)
  }

  /** Long2IntOpenHashMap.addTo(x, 1). */
  function Increment(counts: map<Kmer, nat>, x: Kmer): (r: map<Kmer, nat>)
    ensures forall y :: Count(r, y) == Count(counts, y) + (if y == x then 1 else 0)
  {
    counts[x := Count(counts, x) + 1]
  }

  function Max(a: nat, b: nat): nat {
    if a >= b then a else b
  }

  /** Counting one more k-mer of length k, and raising maxCount to its count, keeps the table. */
  lemma IncrementKeepsTable(counts: map<Kmer, nat>, maxCount: nat, k: nat, x: Kmer)
    requires CountTable(counts, maxCount, k) && |x| == k
    ensures CountTable(Increment(counts, x), Max(maxCount, Count(counts, x) + 1), k)
  {
    var r := Increment(counts, x);
    var c := Count(counts, x) + 1;
    assert r[x] == c;
    if c <= maxCount && maxCount > 0 {
      var w :| w in counts && counts[w] == maxCount;
      assert w != x;
      assert r[w] == maxCount;
    }
  }

  /** Counting the window w[i] extends the multiset of counted windows by one. */
  lemma CountWindowStep(before: map<Kmer, nat>, counts: map<Kmer, nat>, w: seq<Kmer>, i: nat)
    requires i < |w|
    requires forall x :: Count(counts, x) == Count(before, x) + multiset(w[..i])[x]
    ensures forall x :: Count(Increment(counts, w[i]), x) == Count(before, x) + multiset(w[..i + 1])[x]
  {
    assert w[..i + 1] == w[..i] + [w[i]];
  }

  /** The collapse lookup restricted to the k-mers of `keys`. */
  function PartialLookup(counts: map<Kmer, nat>, maxCount: nat, collapseMultiple: real, keys: set<Kmer>): map<Kmer, Kmer>
    requires collapseMultiple > 0.0
  {
    map x | x in keys && Collapses(counts, maxCount, collapseMultiple, x) :: BestNeighbourOf(counts, x)
  }

  lemma PartialLookupStep(counts: map<Kmer, nat>, maxCount: nat, collapseMultiple: real, keys: set<Kmer>, x: Kmer)
    requires collapseMultiple > 0.0 && x !in keys
    ensures PartialLookup(counts, maxCount, collapseMultiple, keys + {x}) ==
      if Collapses(counts, maxCount, collapseMultiple, x)
      then PartialLookup(counts, maxCount, collapseMultiple, keys)[x := BestNeighbourOf(counts, x)]
      else PartialLookup(counts, maxCount, collapseMultiple, keys)
  {
  }

  /** The collapse lookup of a count table maps k-mers to k-mers of the same length. */
  lemma CollapseLookupWellFormed(counts: map<Kmer, nat>, maxCount: nat, collapseMultiple: real, k: nat)
    requires collapseMultiple > 0.0 && CountTable(counts, maxCount, k)
    ensures LookupWellFormed(CollapseLookupOf(counts, maxCount, collapseMultiple), k)
  {
    var lookup := CollapseLookupOf(counts, maxCount, collapseMultiple);
    forall x | x in lookup ensures |x| == k && |lookup[x]| == k {
      BestNeighbourIsSelfOrNeighbour(counts, x);
    }
  }

  /** The loop of countKmers: every window of the read is counted once more. */
  method CountWindows(ps: seq<Base>, k: nat, counts0: map<Kmer, nat>, maxCount0: nat) returns (counts: map<Kmer, nat>, mc: nat)
    requires CountTable(counts0, maxCount0, k)
    ensures CountTable(counts, mc, k) && mc >= maxCount0
    ensures forall x :: Count(counts, x) == Count(counts0, x) + multiset(Windows(ps, k))[x]
  {
    ghost var w := Windows(ps, k);
    counts := counts0;
    mc := maxCount0;
    var i := 0;
    while i < |ps| - k + 1
      invariant 0 <= i <= |w|
      invariant CountTable(counts, mc, k)
      invariant mc >= maxCount0
      invariant forall x :: Count(counts, x) == Count(counts0, x) + multiset(w[..i])[x]
    {
      var kmer := ps[i..i + k];
      assert kmer == w[i];
      var count := Count(counts, kmer) + 1;
      IncrementKeepsTable(counts, mc, k, kmer);
      CountWindowStep(counts0, counts, w, i);
      counts := Increment(counts, kmer);
      mc := Max(mc, count);
      i := i + 1;
    }
    assert i == |w| && w[..i] == w;
  }

  /** The body of createCollapseLookup's loop for one k-mer: its target, when it collapses. */
  method CollapseTarget(counts: map<Kmer, nat>, maxCount: nat, collapseMultiple: real, maxCollapseCount: int, kmer: Kmer)
    returns (target: Option<Kmer>)
    requires collapseMultiple > 0.0 && maxCollapseCount == MaxCollapseCount(maxCount, collapseMultiple)
    ensures target.Some? <==> Collapses(counts, maxCount, collapseMultiple, kmer)
    ensures target.Some? ==> target.value == BestNeighbourOf(counts, kmer)
  {
    var count := Count(counts, kmer);
    if count <= maxCollapseCount {
      var bestNeighbourKmer := BestNeighbour(counts, kmer);
      var bestNeighbourCount := Count(counts, bestNeighbourKmer);
      if (count as real) * collapseMultiple <= bestNeighbourCount as real {
        return Some(bestNeighbourKmer);
      }
    }
    return None;
  }

  /** Overwrites ps[i .. i + |t|) with t. */
  method WriteKmer(ps: array<Base>, t: Kmer, i: nat)
    requires i + |t| <= ps.Length
    modifies ps
    ensures ps[..] == SetKmer(old(ps[..]), t, i)
  {
    SetKmerEffect(old(ps[..]), t, i);
    forall j | 0 <= j < |t| {
      ps[i + j] := t[j];
    }
  }

  // ---------------------------------------------------------------------------
  // The corrector object.
  // ---------------------------------------------------------------------------

  class ReadErrorCorrector {
    const k: nat
    const collapseMultiple: real
    var kmerCounts: map<Kmer, nat>
    var maxCount: nat
    /** None stands for the invalidated (null) lookup. */
    var collapseLookup: Option<map<Kmer, Kmer>>

    ghost predicate CountsValid()
      reads this
    {
      k <= MAX_K && collapseMultiple > 0.0 && CountTable(kmerCounts, maxCount, k)
    }

    /** The lookup, when present, is the one the current counts determine. */
    ghost predicate Valid()
      reads this
    {
      && CountsValid()
      && (collapseLookup.Some? ==> collapseLookup.value == CollapseLookupOf(kmerCounts, maxCount, collapseMultiple))
    }

    /** The lookup is present and maps k-mers to k-mers. */
    ghost predicate LookupReady()
      reads this
    {
      collapseLookup.Some? && LookupWellFormed(collapseLookup.value, k)
    }

    constructor (k: nat, collapseMultiple: real)
      requires k <= MAX_K && collapseMultiple > 0.0
      ensures Valid()
      ensures this.k == k && this.collapseMultiple == collapseMultiple
      ensures kmerCounts == map[] && maxCount == 0 && collapseLookup == None
    {
      this.k := k;
      this.collapseMultiple := collapseMultiple;
      kmerCounts := map[];
      maxCount := 0;
      collapseLookup := None;
    }

    /** The public constructor: k above 31 is an invalid argument. */
    static method Create(k: nat, collapseMultiple: real) returns (r: Result<ReadErrorCorrector>)
      requires collapseMultiple > 0.0
      ensures r.Failure? <==> k > MAX_K
      ensures r.Success? ==> fresh(r.value) && r.value.Valid()
      ensures r.Success? ==> r.value.k == k && r.value.collapseMultiple == collapseMultiple
      ensures r.Success? ==> r.value.kmerCounts == map[] && r.value.maxCount == 0
    {
      if k > MAX_K {
        return Failure("k cannot exceed 31");
      }
      var ec := new ReadErrorCorrector(k, collapseMultiple);
      return Success(ec);
    }

    /**
     * countKmers: adds one to the count of every k-mer window of the (oriented)
     * read, keeps maxCount the largest count and invalidates the collapse lookup.
     */
    method CountKmers(read: seq<Base>, reverseComplement: bool)
      requires Valid()
      modifies this
      ensures Valid()
      ensures forall x :: Count(kmerCounts, x) == Count(old(kmerCounts), x) + multiset(Windows(Oriented(read, reverseComplement), k))[x]
      ensures maxCount >= old(maxCount)
      ensures collapseLookup == None
    {
      var counts, mc := CountWindows(Oriented(read, reverseComplement), k, kmerCounts, maxCount);
      kmerCounts := counts;
      maxCount := mc;
      collapseLookup := None;
    }

    /** createCollapseLookup: every counted k-mer is examined once. */
    method CreateCollapseLookup() returns (lookup: map<Kmer, Kmer>)
      requires CountsValid()
      ensures lookup == CollapseLookupOf(kmerCounts, maxCount, collapseMultiple)
    {
      var counts := kmerCounts;
      var cm := collapseMultiple;
      var mc := maxCount;
      lookup := map[];
      var maxCollapseCount := MaxCollapseCount(mc, cm);
      var todo := counts.Keys;
      ghost var done: set<Kmer> := {};
      while todo != {}
        invariant todo !! done && todo + done == counts.Keys
        invariant lookup == PartialLookup(counts, mc, cm, done)
        decreases todo
      {
        var kmer :| kmer in todo;
        PartialLookupStep(counts, mc, cm, done, kmer);
        var target := CollapseTarget(counts, mc, cm, maxCollapseCount, kmer);
        if target.Some? {
          lookup := lookup[kmer := target.value];
        }
        todo := todo - {kmer};
        done := done + {kmer};
      }
    }

    method EnsureCollapseLookup()
      requires Valid()
      modifies this`collapseLookup
      ensures Valid() && LookupReady()
      ensures old(collapseLookup).Some? ==> collapseLookup == old(collapseLookup)
    {
      if collapseLookup.None? {
        var lookup := CreateCollapseLookup();
        collapseLookup := Some(lookup);
      }
      CollapseLookupWellFormed(kmerCounts, maxCount, collapseMultiple, k);
    }

    /** error_correct_flanking_kmers over the corrected range of positions. */
    method CorrectFlankingKmers(ps: array<Base>) returns (fired: bool)
      requires LookupReady()
      modifies ps
      ensures var r := FlankRule(old(ps[..]), collapseLookup.value, k);
        fired == r.Some? && ps[..] == if fired then r.value else old(ps[..])
    {
      var lookup := collapseLookup.value;
      var s := ps[..];
      var at := FindFlank(s, lookup, k);
      match at
      case Some(i) =>
        FlankRuleAt(s, lookup, k, i);
        WriteKmer(ps, lookup[s[i - 1..i - 1 + k]], i - 1);
        return true;
      case None =>
        return false;
    }

    /** error_correct_start. */
    method CorrectStart(ps: array<Base>) returns (fired: bool)
      requires LookupReady() && ps.Length >= k
      modifies ps
      ensures var r := StartRule(old(ps[..]), collapseLookup.value, k);
        fired == r.Some? && ps[..] == if fired then r.value else old(ps[..])
    {
      var lookup := collapseLookup.value;
      var kmer := ps[..k];
      if kmer in lookup {
        var transform := lookup[kmer];
        if Trailing(kmer, k - 2) == Trailing(transform, k - 2) {
          WriteKmer(ps, transform, 0);
          return true;
        }
      }
      return false;
    }

    /** error_correct_end. */
    method CorrectEnd(ps: array<Base>) returns (fired: bool)
      requires LookupReady() && ps.Length >= k
      modifies ps
      ensures var r := EndRule(old(ps[..]), collapseLookup.value, k);
        fired == r.Some? && ps[..] == if fired then r.value else old(ps[..])
    {
      var lookup := collapseLookup.value;
      var start := ps.Length - k;
      var kmer := ps[start..];
      if kmer in lookup {
        var transform := lookup[kmer];
        if Trailing(kmer, 2) != Trailing(transform, 2) {
          WriteKmer(ps, transform, start);
          return true;
        }
      }
      return false;
    }

    /** One pass of `flanking || start || end`. */
    method CorrectOnce(ps: array<Base>) returns (fired: bool)
      requires LookupReady() && ps.Length >= k
      modifies ps
      ensures var step := Step(old(ps[..]), collapseLookup.value, k);
        && fired == step.Some?
        && ps[..] == (if fired then step.value else old(ps[..]))
    {
      fired := CorrectFlankingKmers(ps);
      if !fired {
        fired := CorrectStart(ps);
        if !fired {
          fired := CorrectEnd(ps);
        }
      }
    }

    /** error_correct: the counting loop over `flanking || start || end`, capped at two corrections. */
    method ErrorCorrectPacked(ps: array<Base>) returns (changes: nat)
      requires LookupReady() && ps.Length >= k
      modifies ps
      ensures (ps[..], changes) == Run(old(ps[..]), collapseLookup.value, k, MAX_BASE_CORRECTIONS)
    {
      ghost var lookup := collapseLookup.value;
      ghost var s0 := ps[..];
      changes := 0;
      while true
        invariant changes < MAX_BASE_CORRECTIONS
        invariant RunAfter(s0, lookup, k, MAX_BASE_CORRECTIONS, ps[..], changes)
        decreases MAX_BASE_CORRECTIONS - changes
      {
        ghost var before := ps[..];
        var fired := CorrectOnce(ps);
        RunTurn(s0, lookup, k, MAX_BASE_CORRECTIONS, before, ps[..], fired, changes);
        if !fired {
          return;
        }
        changes := changes + 1;
        if changes >= MAX_BASE_CORRECTIONS {
          return;
        }
      }
    }

    /**
     * errorCorrect: reads shorter than k are left alone; otherwise the oriented
     * read is corrected and, when anything changed, written back in the read's
     * own orientation.
     */
    method ErrorCorrect(read: array<Base>, reverseComplement: bool) returns (changes: nat)
      requires Valid()
      modifies this`collapseLookup, read
      ensures Valid()
      ensures read.Length < k ==> changes == 0 && read[..] == old(read[..]) && collapseLookup == old(collapseLookup)
      ensures read.Length >= k ==> LookupReady()
      ensures read.Length >= k ==>
        var (fixed, n) := Run(Oriented(old(read[..]), reverseComplement), collapseLookup.value, k, MAX_BASE_CORRECTIONS);
        && changes == n
        && read[..] == if n > 0 then Oriented(fixed, reverseComplement) else old(read[..])
      ensures changes <= MAX_BASE_CORRECTIONS
    {
      if read.Length < k {
        return 0;
      }
      EnsureCollapseLookup();
      var s := Oriented(read[..], reverseComplement);
      var ps := new Base[|s|](i requires 0 <= i < |s| => s[i]);
      assert ps[..] == s;
      changes := ErrorCorrectPacked(ps);
      RunBounded(s, collapseLookup.value, k, MAX_BASE_CORRECTIONS);
      if changes > 0 {
        var fixed := Oriented(ps[..], reverseComplement);
        forall j | 0 <= j < read.Length {
          read[j] := fixed[j];
        }
        assert read[..] == fixed;
      }
    }
  }
}
