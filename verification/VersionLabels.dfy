/** Finding a version label that no version of the document uses yet. */
module VersionLabels {
  import opened FiniteSets
  import opened Outcomes
  import opened Text

  datatype LabelError = BlankLabel

  function Candidate(base: string, suffix: nat): string {
    base + "-" + Decimal(suffix)
  }

  lemma CandidatesDiffer(base: string, i: nat, j: nat)
    requires Candidate(base, i) == Candidate(base, j)
    ensures i == j
  {
    var n := |base| + 1;
    assert Candidate(base, i)[n..] == Decimal(i) && Candidate(base, j)[n..] == Decimal(j);
    DecimalInjective(i, j);
  }

  lemma CandidateIsNotBase(base: string, suffix: nat)
    ensures Candidate(base, suffix) != base
  {
    assert |Candidate(base, suffix)| > |base|;
  }

  ghost function Tried(base: string, limit: nat): set<string> {
    set k: nat | 2 <= k < limit :: Candidate(base, k)
  }

  lemma {:induction false} TriedSize(base: string, limit: nat)
    requires limit >= 2
    ensures |Tried(base, limit)| == limit - 2
  {
    if limit == 2 {
      assert Tried(base, 2) == {};
    } else {
      TriedSize(base, limit - 1);
      var c := Candidate(base, limit - 1);
      if c in Tried(base, limit - 1) {
        var k: nat :| 2 <= k < limit - 1 && Candidate(base, k) == c;
        CandidatesDiffer(base, k, limit - 1);
      }
      assert Tried(base, limit) == Tried(base, limit - 1) + {c};
    }
  }

  /** If the base and every candidate below the limit are taken, so many labels exist. */
  lemma Pigeonhole(existing: set<string>, base: string, limit: nat)
    requires limit >= 2 && base in existing && Tried(base, limit) <= existing
    ensures limit <= |existing| + 1
  {
    TriedSize(base, limit);
    forall k: nat ensures Candidate(base, k) != base { CandidateIsNotBase(base, k); }
    SubsetSize(Tried(base, limit) + {base}, existing);
  }

  /** The least free suffix, if the candidates below `suffix` are all taken. */
  ghost function LeastFree(existing: set<string>, base: string, suffix: nat): (k: nat)
    requires suffix >= 2 && base in existing && Tried(base, suffix) <= existing
    ensures suffix <= k <= |existing| + 1 && Candidate(base, k) !in existing
    ensures Tried(base, k) <= existing
    decreases |existing| + 2 - suffix
  {
    Pigeonhole(existing, base, suffix);
    if Candidate(base, suffix) !in existing then suffix
    else
      assert Tried(base, suffix + 1) == Tried(base, suffix) + {Candidate(base, suffix)};
      Pigeonhole(existing, base, suffix + 1);
      LeastFree(existing, base, suffix + 1)
  }

  ghost function UniqueLabel(existing: set<string>, versionLabel: string): Result<string, LabelError> {
    var base := Strip(versionLabel);
    if base == [] then Err(BlankLabel)
    else if base !in existing then Ok(base)
    else Ok(Candidate(base, LeastFree(existing, base, 2)))
  }

  lemma UniqueLabelIsFresh(existing: set<string>, versionLabel: string)
    ensures UniqueLabel(existing, versionLabel).Ok? ==> UniqueLabel(existing, versionLabel).value !in existing
  {
  }

  lemma UniqueLabelForm(existing: set<string>, versionLabel: string)
    ensures var r := UniqueLabel(existing, versionLabel);
      r.Ok? ==> r.value == Strip(versionLabel)
                || exists k: nat :: k >= 2 && r.value == Strip(versionLabel) + "-" + Decimal(k)
  {
    hide Strip, Decimal;
    var r, base := UniqueLabel(existing, versionLabel), Strip(versionLabel);
    if r.Ok? && r.value != base {
      var k := LeastFree(existing, base, 2);
      assert r.value == base + "-" + Decimal(k);
    }
  }

  /**
   * `_ensure_unique_version_label`.  The search ends, and it ends at the least free suffix, which
   * is at most one more than the number of labels in use.
   */
  method EnsureUniqueVersionLabel(existing: set<string>, versionLabel: string) returns (r: Result<string, LabelError>)
    ensures r == UniqueLabel(existing, versionLabel)
    ensures r.Err? <==> Blank(versionLabel)
    ensures r.Ok? ==> r.value !in existing
    ensures r.Ok? && r.value != Strip(versionLabel) ==>
      exists k: nat :: 2 <= k <= |existing| + 1 && r.value == Candidate(Strip(versionLabel), k)
        && forall j: nat | 2 <= j < k :: Candidate(Strip(versionLabel), j) in existing
  {
    StripEmpty(versionLabel);
    var base := Strip(versionLabel);
    if base == [] { return Err(BlankLabel); }
    if base !in existing { return Ok(base); }
    var suffix := 2;
    while true
      invariant suffix >= 2 && Tried(base, suffix) <= existing
      invariant LeastFree(existing, base, suffix) == LeastFree(existing, base, 2)
      decreases |existing| + 2 - suffix
    {
      var candidate := Candidate(base, suffix);
      Pigeonhole(existing, base, suffix);
      if candidate !in existing {
        assert forall j: nat | 2 <= j < suffix :: Candidate(base, j) in Tried(base, suffix);
        return Ok(candidate);
      }
      assert Tried(base, suffix + 1) == Tried(base, suffix) + {candidate};
      suffix := suffix + 1;
    }
  }
}
