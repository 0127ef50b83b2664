/** Split-conformal inclusion: the p-value of a score among calibration scores, and the coverage it gives. */
module ConformalRouting {

  ghost predicate Ascending(s: seq<real>) {
    forall i, j | 0 <= i < j < |s| :: s[i] <= s[j]
  }

  /** Where `bisect_right` inserts: everything before is at most the score, everything after is above it. */
  function BisectRight(scores: seq<real>, score: real, lo: nat, hi: nat): (k: nat)
    requires lo <= hi <= |scores|
    requires forall i | 0 <= i < lo :: scores[i] <= score
    requires forall i | hi <= i < |scores| :: score < scores[i]
    requires Ascending(scores)
    ensures lo <= k <= hi
    ensures forall i | 0 <= i < k :: scores[i] <= score
    ensures forall i | k <= i < |scores| :: score < scores[i]
    decreases hi - lo
  {
    if lo == hi then lo
    else
      var mid := (lo + hi) / 2;
      if score < scores[mid] then BisectRight(scores, score, lo, mid) else BisectRight(scores, score, mid + 1, hi)
  }

  /** A quotient of counts, kept as its two counts. */
  datatype Fraction = Fraction(numerator: nat, denominator: nat)

  function PValue(calibration: seq<real>, score: real): Fraction
    requires Ascending(calibration)
  {
    Fraction(1 + BisectRight(calibration, score, 0, |calibration|), |calibration| + 1)
  }

  /** The part epsilon of each denominator. */
  type Share = nat -> real

  function ShareOf(epsilon: real): Share {
    (d: nat) => epsilon * d as real
  }

  predicate Exceeds(p: Fraction, share: Share) {
    p.numerator as real > share(p.denominator)
  }

  /** Comparing by cross-multiplication is comparing the quotient. */
  lemma ExceedsMeans(p: Fraction, epsilon: real)
    requires 0 < p.denominator
    ensures Exceeds(p, ShareOf(epsilon)) <==> p.numerator as real / p.denominator as real > epsilon
  {
    var n, d := p.numerator as real, p.denominator as real;
    assert n == (n / d) * d;
  }

  /** The inclusion test. */
  predicate Clears(calibration: seq<real>, score: real, share: Share)
    requires Ascending(calibration)
  {
    Exceeds(PValue(calibration, score), share)
  }

  // ---------------------------------------------------------------- counting

  /** How many scores are at most a given one. */
  function CountAtMost(s: seq<real>, score: real): nat {
    if s == [] then 0
    else CountAtMost(s[..|s| - 1], score) + if s[|s| - 1] <= score then 1 else 0
  }

  lemma {:induction false} InsertionPointCounts(s: seq<real>, score: real, k: nat)
    requires k <= |s|
    requires forall i | 0 <= i < k :: s[i] <= score
    requires forall i | k <= i < |s| :: score < s[i]
    ensures CountAtMost(s, score) == k
  {
    if s != [] {
      InsertionPointCounts(s[..|s| - 1], score, if k == |s| then k - 1 else k);
    }
  }

  lemma {:induction false} CountSplit(a: seq<real>, b: seq<real>, score: real)
    ensures CountAtMost(a + b, score) == CountAtMost(a, score) + CountAtMost(b, score)
  {
    if b == [] {
      assert a + b == a;
    } else {
      var front := b[..|b| - 1];
      CountSplit(a, front, score);
      assert (a + b)[..|a + b| - 1] == a + front;
    }
  }

  lemma CountWithout(s: seq<real>, i: nat, score: real)
    requires i < |s|
    ensures CountAtMost(s, score) == CountAtMost(s[..i] + s[i + 1..], score) + if s[i] <= score then 1 else 0
    ensures multiset(s) == multiset(s[..i] + s[i + 1..]) + multiset{s[i]}
  {
    assert s == (s[..i] + [s[i]]) + s[i + 1..];
    CountSplit(s[..i] + [s[i]], s[i + 1..], score);
    CountSplit(s[..i], s[i + 1..], score);
    assert (s[..i] + [s[i]])[..i] == s[..i];
  }

  /** Counting does not depend on the order of the scores. */
  lemma {:induction false} CountReordered(a: seq<real>, b: seq<real>, score: real)
    requires multiset(a) == multiset(b)
    ensures CountAtMost(a, score) == CountAtMost(b, score)
    decreases |a|
  {
    assert |a| == |multiset(a)| == |multiset(b)| == |b|;
    if a != [] {
      var n := |a| - 1;
      assert a[n] in multiset(b);
      var i :| 0 <= i < |b| && b[i] == a[n];
      CountWithout(a, n, score);
      assert a[..n] + a[n + 1..] == a[..n];
      CountWithout(b, i, score);
      assert multiset(a[..n]) == multiset(a) - multiset{a[n]};
      CountReordered(a[..n], b[..i] + b[i + 1..], score);
    }
  }

  lemma LeftOutRank(scores: seq<real>, i: nat, calibration: seq<real>)
    requires i < |scores| && Ascending(calibration)
    requires multiset(calibration) == multiset(scores) - multiset{scores[i]}
    ensures |calibration| + 1 == |scores|
    ensures BisectRight(calibration, scores[i], 0, |calibration|) + 1 == CountAtMost(scores, scores[i])
  {
    var score := scores[i];
    InsertionPointCounts(calibration, score, BisectRight(calibration, score, 0, |calibration|));
    var all := calibration + [score];
    assert scores[i] in multiset(scores);
    assert multiset(all) == multiset(scores);
    assert |multiset(all)| == |all| && |multiset(scores)| == |scores|;
    CountReordered(all, scores, score);
    assert all[..|all| - 1] == calibration;
  }

  /** The p-value of a score left out of n + 1 is its rank among all of them over n + 1. */
  lemma LeftOutPValue(scores: seq<real>, i: nat, calibration: seq<real>)
    requires i < |scores| && Ascending(calibration)
    requires multiset(calibration) == multiset(scores) - multiset{scores[i]}
    ensures PValue(calibration, scores[i]) == Fraction(CountAtMost(scores, scores[i]), |scores|)
  {
    LeftOutRank(scores, i, calibration);
  }

  // ---------------------------------------------------------------- coverage

  ghost predicate LeaveOneOut(scores: seq<real>, calibrations: seq<seq<real>>) {
    && |calibrations| == |scores|
    && forall i | 0 <= i < |scores| ::
         Ascending(calibrations[i]) && multiset(calibrations[i]) == multiset(scores) - multiset{scores[i]}
  }

  /** The scores that the inclusion test rejects when each is tested against all the others. */
  ghost function Excluded(scores: seq<real>, calibrations: seq<seq<real>>, share: Share): set<nat>
    requires LeaveOneOut(scores, calibrations)
  {
    set i | 0 <= i < |scores| && !Clears(calibrations[i], scores[i], share)
  }

  lemma {:induction false} Highest(scores: seq<real>, some: set<nat>) returns (top: nat)
    requires some != {} && forall i | i in some :: i < |scores|
    ensures top in some && forall i | i in some :: scores[i] <= scores[top]
    decreases |some|
  {
    var x :| x in some;
    top := x;
    if some != {x} {
      assert some - {x} != {};
      var y := Highest(scores, some - {x});
      top := if scores[x] < scores[y] then y else x;
      forall i | i in some ensures scores[i] <= scores[top] {
        assert i == x || i in some - {x};
      }
    }
  }

  lemma {:induction false} CountIsSize(scores: seq<real>, score: real, some: set<nat>)
    requires forall i | i in some :: i < |scores| && scores[i] <= score
    ensures |some| <= CountAtMost(scores, score)
    decreases |scores|
  {
    if scores == [] {
      assert some == {};
    } else {
      var n := |scores| - 1;
      CountIsSize(scores[..n], score, some - {n});
    }
  }

  /** The inclusion test on a left-out score compares its rank with epsilon times n + 1. */
  lemma RankDecides(scores: seq<real>, calibration: seq<real>, share: Share, i: nat)
    requires i < |scores| && Ascending(calibration)
    requires multiset(calibration) == multiset(scores) - multiset{scores[i]}
    ensures Clears(calibration, scores[i], share)
       <==> Exceeds(Fraction(CountAtMost(scores, scores[i]), |scores|), share)
  {
    LeftOutPValue(scores, i, calibration);
  }

  /** Fewer fail than the rank of the highest failing score, and that rank decides. */
  lemma {:induction false} FewFail(scores: seq<real>, calibrations: seq<seq<real>>, share: Share)
    requires LeaveOneOut(scores, calibrations) && 0.0 <= share(|scores|)
    ensures |Excluded(scores, calibrations, share)| <= share(|scores|).Floor
  {
    var out := Excluded(scores, calibrations, share);
    if out != {} {
      var top := Highest(scores, out);
      RankDecides(scores, calibrations[top], share, top);
      CountIsSize(scores, scores[top], out);
    }
  }

  /** Marginal coverage by counting: of n + 1 exchangeable scores, each tested against the sorted others, at
      most epsilon times n + 1 fail, and so at most the whole part of it. */
  lemma Coverage(scores: seq<real>, calibrations: seq<seq<real>>, epsilon: real)
    requires 2 <= |scores| && LeaveOneOut(scores, calibrations) && 0.0 < epsilon < 1.0
    ensures |Excluded(scores, calibrations, ShareOf(epsilon))| <= (epsilon * |scores| as real).Floor
  {
    FewFail(scores, calibrations, ShareOf(epsilon));
  }

  /** A higher score never has a lower p-value, so what clears epsilon is upward closed. */
  lemma PValueMonotone(calibration: seq<real>, low: real, high: real)
    requires Ascending(calibration) && low <= high
    ensures PValue(calibration, low).denominator == PValue(calibration, high).denominator
    ensures PValue(calibration, low).numerator <= PValue(calibration, high).numerator
  {
    var k := BisectRight(calibration, low, 0, |calibration|);
    var l := BisectRight(calibration, high, 0, |calibration|);
    if 0 < k {
      assert calibration[k - 1] <= low;
      assert k - 1 < l;
    }
  }

  lemma ClearsUpward(calibration: seq<real>, share: Share, low: real, high: real)
    requires Ascending(calibration) && low <= high && Clears(calibration, low, share)
    ensures Clears(calibration, high, share)
  {
    PValueMonotone(calibration, low, high);
  }

  // ---------------------------------------------------------------- generation

  datatype Scored = Scored(fact: nat, amplitude: real)

  /** The documents that clear epsilon, in ranking order. */
  function Included(calibration: seq<real>, share: Share, ranked: seq<Scored>): seq<Scored>
    requires Ascending(calibration)
  {
    if ranked == [] then []
    else
      (if Clears(calibration, ranked[0].amplitude, share) then [ranked[0]] else []) +
      Included(calibration, share, ranked[1..])
  }

  ghost predicate BestFirst(ranked: seq<Scored>) {
    forall i, j | 0 <= i < j < |ranked| :: ranked[i].amplitude >= ranked[j].amplitude
  }

  /** On a best-first ranking the inclusion test cuts a prefix, so bounding the candidates keeps exactly the
      highest-scoring of those that clear epsilon. */
  lemma {:induction false} IncludedIsPrefix(calibration: seq<real>, share: Share, ranked: seq<Scored>)
    requires Ascending(calibration) && BestFirst(ranked)
    ensures Included(calibration, share, ranked) <= ranked
    ensures forall i | 0 <= i < |ranked| ::
              i < |Included(calibration, share, ranked)| <==> Clears(calibration, ranked[i].amplitude, share)
  {
    if ranked != [] {
      var rest := ranked[1..];
      IncludedIsPrefix(calibration, share, rest);
      forall i | 0 < i < |ranked| && Clears(calibration, ranked[i].amplitude, share)
        ensures Clears(calibration, ranked[0].amplitude, share)
      {
        ClearsUpward(calibration, share, ranked[i].amplitude, ranked[0].amplitude);
      }
      if !Clears(calibration, ranked[0].amplitude, share) {
        if rest != [] {
          assert rest[0] == ranked[1];
          assert !Clears(calibration, rest[0].amplitude, share);
        }
        assert Included(calibration, share, ranked) == [];
      } else {
        assert ranked == [ranked[0]] + rest;
      }
    }
  }
}
