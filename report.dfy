/**
 * The portfolio summary that `main` prints: one audit per configured path
 * that exists, the running total and count (32-bit counters), the four score
 * buckets, the truncating average, and the status tier shown on each line.
 */
module Report {
  import opened Wrappers
  import opened Listing
  import opened Sequences
  import opened Auditor

  /** The range of the `u32` counters `total_score` and `count`. */
  const U32: nat := 0x1_0000_0000

  // ---------------------------------------------------------------------------
  // Status tier of one result line
  // ---------------------------------------------------------------------------

  /** The status glyph of a result line, as a token: the top tier, the shared
      warning glyph of the two middle arms, and the low tier. */
  datatype Status = Top | Warning | Low

  /** The `match audit.score` of the result line, arm by arm. */
  function StatusOf(score: nat): Status {
    if 90 <= score <= 100 then Top
    else if 70 <= score <= 89 then Warning
    else if 50 <= score <= 69 then Warning
    else Low
  }

  /** On an audited repository the tier is decided by the number of badges:
      the top tier is exactly Rhodium certification, two or three badges give
      the warning, and at most one badge gives the low tier. */
  lemma StatusOfAudit(path: string, dir: Dir)
    ensures var a := Audit(path, dir);
            (StatusOf(a.score) == Top <==> a.badges.IsRhodium()) &&
            (StatusOf(a.score) == Warning <==> 2 <= a.badges.Earned() <= 3) &&
            (StatusOf(a.score) == Low <==> a.badges.Earned() <= 1)
  {
    var a := Audit(path, dir);
    ScoreIsQuarterPerBadge(path, dir);
    RhodiumIffPerfect(a.badges);
  }

  // ---------------------------------------------------------------------------
  // Score buckets of the summary
  // ---------------------------------------------------------------------------

  /** The four summary buckets: perfect, good (70 to 99), needs work (50 to 69)
      and critical (below 50). */
  datatype Bucket = Perfect | Good | NeedsWork | Critical

  /** The filter closure of each bucket's count. */
  predicate InBucket(score: nat, b: Bucket) {
    match b
    case Perfect => score == 100
    case Good => 70 <= score < 100
    case NeedsWork => 50 <= score < 70
    case Critical => score < 50
  }

  /** Selects the results whose score lies in bucket `b`. */
  function Selects(b: Bucket): RepoAudit -> bool {
    (r: RepoAudit) => InBucket(r.score, b)
  }

  /** `results.iter().filter(..).count()` for bucket `b`. */
  function CountIn(results: seq<RepoAudit>, b: Bucket): nat {
    |Filter(results, Selects(b))|
  }

  /** One bucket count: a pass over the results. */
  method CountInBucket(results: seq<RepoAudit>, b: Bucket) returns (n: nat)
    ensures n == CountIn(results, b)
  {
    n := 0;
    for i := 0 to |results|
      invariant n == CountIn(results[..i], b)
    {
      assert results[..i + 1] == results[..i] + [results[i]];
      FilterPush(results[..i], results[i], Selects(b));
      if InBucket(results[i].score, b) {
        n := n + 1;
      }
    }
    assert results[..|results|] == results;
  }

  /** Scores that do not exceed 100 fall in exactly one bucket, so the four
      counts add up to the number of results. */
  lemma {:induction false} BucketsPartition(results: seq<RepoAudit>)
    requires forall i :: 0 <= i < |results| ==> results[i].score <= 100
    ensures CountIn(results, Perfect) + CountIn(results, Good) +
            CountIn(results, NeedsWork) + CountIn(results, Critical) == |results|
  {
    if results != [] {
      var xs, x := Init(results), Last(results);
      assert results == xs + [x];
      BucketsPartition(xs);
      FilterPush(xs, x, Selects(Perfect));
      FilterPush(xs, x, Selects(Good));
      FilterPush(xs, x, Selects(NeedsWork));
      FilterPush(xs, x, Selects(Critical));
    }
  }

  /** On audited scores the status tier and the buckets agree: the top tier
      is the perfect bucket, the warning tier the good and needs-work buckets,
      and the low tier the critical bucket. */
  lemma StatusMatchesBucket(score: nat)
    requires score in {0, 25, 50, 75, 100}
    ensures StatusOf(score) == Top <==> InBucket(score, Perfect)
    ensures StatusOf(score) == Warning <==> InBucket(score, Good) || InBucket(score, NeedsWork)
    ensures StatusOf(score) == Low <==> InBucket(score, Critical)
  {
  }

  // ---------------------------------------------------------------------------
  // The tally loop
  // ---------------------------------------------------------------------------

  /** Whether a configured path exists; the file system is the map `fs` from
      existing paths to what listing them shows. */
  function Found(fs: map<string, Dir>): string -> bool {
    p => p in fs
  }

  /** The `results` vector: the audit of every configured path that exists,
      in configuration order. */
  function AuditAll(repos: seq<string>, fs: map<string, Dir>): seq<RepoAudit> {
    if repos == [] then []
    else
      var rest := AuditAll(Init(repos), fs);
      var p := Last(repos);
      if p in fs then rest + [Audit(p, fs[p])] else rest
  }

  /** The exact sum of the result scores. */
  function SumScores(results: seq<RepoAudit>): nat {
    if results == [] then 0 else SumScores(Init(results)) + Last(results).score
  }

  /** `total_score / count` when `count > 0`: the truncating average, absent
      for an empty portfolio. */
  function Average(total: nat, count: nat): (avg: Option<nat>)
    ensures avg.Some? <==> count > 0
    ensures avg.Some? ==> avg.value * count <= total < (avg.value + 1) * count
  {
    if count > 0 then Some(total / count) else None
  }

  /** What the summary reports: the results, the two `u32` counters, the four
      bucket counts and the average. */
  datatype Summary = Summary(
    results: seq<RepoAudit>,
    total: nat, count: nat,
    perfect: nat, good: nat, needsWork: nat, critical: nat,
    average: Option<nat>)

  /** The loop of `main` over the configured paths: a path that does not
      exist is skipped, every other one is audited and its result pushed.
      `total_score` and `count` are `u32` and wrap around as in a release
      build. */
  method Tally(repos: seq<string>, fs: map<string, Dir>)
    returns (results: seq<RepoAudit>, total: nat, count: nat)
    ensures results == AuditAll(repos, fs)
    ensures total == SumScores(results) % U32
    ensures count == |results| % U32
  {
    results, total, count := [], 0, 0;
    for i := 0 to |repos|
      invariant results == AuditAll(repos[..i], fs)
      invariant total == SumScores(results) % U32
      invariant count == |results| % U32
    {
      var p := repos[i];
      assert Init(repos[..i + 1]) == repos[..i] && Last(repos[..i + 1]) == p;
      if p in fs {
        var audit := AuditRepo(p, fs[p]);
        TallyStep(results, audit, total, count);
        total := (total + audit.score) % U32;
        count := (count + 1) % U32;
        results := results + [audit];
      }
    }
    assert repos[..|repos|] == repos;
  }

  /** One iteration's counter updates keep the counters equal to the wrapped
      sum and length of the results. */
  lemma TallyStep(results: seq<RepoAudit>, audit: RepoAudit, total: nat, count: nat)
    requires total == SumScores(results) % U32 && count == |results| % U32
    ensures (total + audit.score) % U32 == SumScores(results + [audit]) % U32
    ensures (count + 1) % U32 == |results + [audit]| % U32
  {
    assert Init(results + [audit]) == results && Last(results + [audit]) == audit;
    ModAdd(SumScores(results), audit.score);
    ModAdd(|results|, 1);
  }

  /** The four bucket counts of the summary. Every score is at most 100, so
      each result lands in exactly one bucket. */
  method CountBuckets(results: seq<RepoAudit>)
    returns (perfect: nat, good: nat, needsWork: nat, critical: nat)
    requires forall i :: 0 <= i < |results| ==> results[i].score <= 100
    ensures perfect == CountIn(results, Perfect) && good == CountIn(results, Good)
    ensures needsWork == CountIn(results, NeedsWork) && critical == CountIn(results, Critical)
    ensures perfect + good + needsWork + critical == |results|
  {
    BucketsPartition(results);
    perfect := CountInBucket(results, Perfect);
    good := CountInBucket(results, Good);
    needsWork := CountInBucket(results, NeedsWork);
    critical := CountInBucket(results, Critical);
  }

  /** The summary `main` prints after the loop: the tally, the bucket counts
      and the average. */
  method Summarize(repos: seq<string>, fs: map<string, Dir>) returns (s: Summary)
    ensures s.results == AuditAll(repos, fs)
    ensures s.total == SumScores(s.results) % U32
    ensures s.count == |s.results| % U32
    ensures s.perfect == CountIn(s.results, Perfect) && s.good == CountIn(s.results, Good)
    ensures s.needsWork == CountIn(s.results, NeedsWork) && s.critical == CountIn(s.results, Critical)
    ensures s.perfect + s.good + s.needsWork + s.critical == |s.results|
    ensures s.average == Average(s.total, s.count)
  {
    var results, total, count := Tally(repos, fs);
    ScoresBounded(repos, fs);
    var perfect, good, needsWork, critical := CountBuckets(results);
    var average := if count > 0 then Some(total / count) else None;
    s := Summary(results, total, count, perfect, good, needsWork, critical, average);
  }

  // ---------------------------------------------------------------------------
  // Properties of the tally
  // ---------------------------------------------------------------------------

  /** Every result's score is a multiple of 25 between 0 and 100. */
  lemma {:induction false} ScoresBounded(repos: seq<string>, fs: map<string, Dir>)
    ensures forall i :: 0 <= i < |AuditAll(repos, fs)| ==>
              AuditAll(repos, fs)[i].score in {0, 25, 50, 75, 100}
  {
    if repos != [] {
      var p := Last(repos);
      ScoresBounded(Init(repos), fs);
      if p in fs {
        ScoreIsQuarterPerBadge(p, fs[p]);
      }
    }
  }

  /** The results are, position by position, the audits of the configured
      paths that exist. */
  lemma {:induction false} ResultsAreAuditsOfFound(repos: seq<string>, fs: map<string, Dir>)
    ensures var found := Filter(repos, Found(fs));
            |AuditAll(repos, fs)| == |found| &&
            forall i :: 0 <= i < |found| ==>
              found[i] in fs && AuditAll(repos, fs)[i] == Audit(found[i], fs[found[i]])
  {
    if repos != [] {
      var xs, p := Init(repos), Last(repos);
      assert repos == xs + [p];
      ResultsAreAuditsOfFound(xs, fs);
      FilterPush(xs, p, Found(fs));
      FilterMembership(xs, Found(fs), p);
    }
  }

  /** A configured path that does not exist contributes nothing: the results,
      and with them the total, the count and the buckets, are those of the
      list without it. */
  lemma {:induction false} MissingPathIgnored(before: seq<string>, p: string, after: seq<string>,
                                              fs: map<string, Dir>)
    requires p !in fs
    ensures AuditAll(before + [p] + after, fs) == AuditAll(before + after, fs)
  {
    if after == [] {
      assert before + [p] + after == before + [p];
      assert Init(before + [p]) == before && Last(before + [p]) == p;
      assert before + after == before;
    } else {
      var a, q := Init(after), Last(after);
      assert after == a + [q];
      MissingPathIgnored(before, p, a, fs);
      assert before + [p] + after == (before + [p] + a) + [q];
      assert before + after == (before + a) + [q];
      assert Init((before + [p] + a) + [q]) == before + [p] + a;
      assert Init((before + a) + [q]) == before + a;
    }
  }

  /** The sum of scores that do not exceed 100 is at most 100 per result. */
  lemma {:induction false} SumBounded(results: seq<RepoAudit>)
    requires forall i :: 0 <= i < |results| ==> results[i].score <= 100
    ensures SumScores(results) <= 100 * |results|
  {
    if results != [] {
      SumBounded(Init(results));
    }
  }

  /** For a non-empty list of fewer than 42949673 results whose scores do not
      exceed 100, neither counter wraps, the average is present, it is the
      truncated mean of the scores, and it is at most 100. */
  lemma AverageOfScores(results: seq<RepoAudit>)
    requires forall i :: 0 <= i < |results| ==> results[i].score <= 100
    requires 0 < |results| && 100 * |results| < U32
    ensures var avg := Average(SumScores(results) % U32, |results| % U32);
            avg == Some(SumScores(results) / |results|) && avg.value <= 100
  {
    var sum, n := SumScores(results), |results|;
    SumBounded(results);
    assert sum % U32 == sum && n % U32 == n;
    DivBounded(sum, n);
  }

  /** A total of at most 100 per item averages to at most 100. */
  lemma DivBounded(total: nat, n: nat)
    requires 0 < n && total <= 100 * n
    ensures total / n <= 100
  {
  }

  /** Adding to a wrapped counter and wrapping again is wrapping the exact sum. */
  lemma ModAdd(x: nat, y: nat)
    ensures (x % U32 + y) % U32 == (x + y) % U32
  {
    var q := x / U32;
    assert x == q * U32 + x % U32;
    ModMultiple(q, x % U32 + y);
  }

  /** Whole multiples of the counter range vanish under wrap-around. */
  lemma {:induction false} ModMultiple(q: nat, r: nat)
    ensures (q * U32 + r) % U32 == r % U32
  {
    if q > 0 {
      ModMultiple(q - 1, r);
      assert q * U32 + r == (q - 1) * U32 + r + U32;
    }
  }
}
