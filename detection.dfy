/** detectionTimeForErrorRate: for an observed error rate, the fastest window
    that can detect it, and the kind that window belongs to. */
module Detection {
  import opened Thresholds

  /** A (kind, entry) pair met while ranging over the threshold table. */
  datatype Candidate = Candidate(kind: string, threshold: ThresholdData)

  /** The (kind, value) pair returned; ("", 0) when no window qualified. */
  datatype Detected = Detected(kind: string, value: real)

  const NoDetection: Detected := Detected("", 0.0)

  /** `th.ErrorThreshold / x`: the candidate detection time, in hours, of one
      window at error rate x. */
  function TimeToDetect(t: ThresholdData, x: real): real
    requires x != 0.0
  {
    t.errorThreshold / x
  }

  /** The window is not rejected: its detection time does not exceed its own
      length (the reject test `v > th.Duration` is strict). */
  predicate Eligible(t: ThresholdData, x: real)
    requires x != 0.0
  {
    TimeToDetect(t, x) <= t.duration
  }

  /** One pass of the inner loop body: the running best after meeting c.
      A value of 0 stands for "nothing yet". */
  function Consider(best: Detected, c: Candidate, x: real): (r: Detected)
    requires x != 0.0
    ensures !Eligible(c.threshold, x) ==> r == best
    ensures r == best || (Eligible(c.threshold, x) && r == Detected(c.kind, TimeToDetect(c.threshold, x)))
  {
    var v := TimeToDetect(c.threshold, x);
    if v > c.threshold.duration then best
    else if best.value == 0.0 || best.value > v then Detected(c.kind, v)
    else best
  }

  /** The running best after meeting the candidates cs, in that order. */
  function Scan(cs: seq<Candidate>, x: real): Detected
    requires x != 0.0
  {
    if cs == [] then NoDetection else Consider(Scan(cs[..|cs| - 1], x), cs[|cs| - 1], x)
  }

  /** The candidates of one kind's list, in list order. */
  function Pairs(k: string, ts: seq<ThresholdData>): (cs: seq<Candidate>)
    ensures |cs| == |ts|
    ensures forall j :: 0 <= j < |ts| ==> cs[j] == Candidate(k, ts[j])
  {
    seq(|ts|, j requires 0 <= j < |ts| => Candidate(k, ts[j]))
  }

  /** Every candidate of the table, with the kinds visited in the given order. */
  function Candidates(m: ThresholdMap, order: seq<string>): seq<Candidate>
    requires forall k :: k in order ==> k in m
  {
    if order == [] then []
    else Candidates(m, order[..|order| - 1]) + Pairs(order[|order| - 1], m[order[|order| - 1]])
  }

  /** The candidates are exactly the entries listed under a visited kind. */
  lemma {:induction false} CandidatesMembers(m: ThresholdMap, order: seq<string>)
    requires forall k :: k in order ==> k in m
    ensures forall c :: c in Candidates(m, order) <==> c.kind in order && c.threshold in m[c.kind]
  {
    if order != [] {
      var init, k := order[..|order| - 1], order[|order| - 1];
      assert order == init + [k];
      CandidatesMembers(m, init);
      forall c: Candidate | c.kind == k && c.threshold in m[k] ensures c in Pairs(k, m[k]) {
        var j :| 0 <= j < |m[k]| && m[k][j] == c.threshold;
        assert Pairs(k, m[k])[j] == c;
      }
    }
  }

  /** Visiting one more kind appends that kind's candidates. */
  lemma CandidatesStep(m: ThresholdMap, order: seq<string>, i: nat)
    requires i < |order|
    requires forall k :: k in order ==> k in m
    ensures Candidates(m, order[..i + 1]) == Candidates(m, order[..i]) + Pairs(order[i], m[order[i]])
  {
    assert order[..i + 1][..i] == order[..i];
  }

  /** `for k, ths := range thresholds` visits every key exactly once, in some
      unspecified order. */
  ghost predicate IsEnumeration(order: seq<string>, keys: set<string>)
  {
    && (forall k :: k in order <==> k in keys)
    && (forall i, j :: 0 <= i < j < |order| ==> order[i] != order[j])
  }

  /** The result of detectionTimeForErrorRate when the table is ranged over in
      the given order. */
  function DetectionTime(m: ThresholdMap, order: seq<string>, x: real): Detected
    requires IsEnumeration(order, m.Keys)
    requires x != 0.0
  {
    Scan(Candidates(m, order), x)
  }

  /** Entry t, listed under kind k, can detect error rate x in time. */
  ghost predicate Accepted(m: ThresholdMap, x: real, k: string, t: ThresholdData)
    requires x != 0.0
  {
    k in m && t in m[k] && Eligible(t, x)
  }

  /** No accepted entry has a detection time of exactly 0, the value the source
      also uses for "nothing yet". */
  ghost predicate NoZeroAccepted(m: ThresholdMap, x: real)
    requires x != 0.0
  {
    forall k, t :: Accepted(m, x, k, t) ==> TimeToDetect(t, x) != 0.0
  }

  // ---- the scan, for any sequence of candidates ----

  /** The result is either "nothing" or the kind and detection time of an
      eligible candidate. */
  lemma {:induction false} ScanAttained(cs: seq<Candidate>, x: real)
    requires x != 0.0
    ensures Scan(cs, x) == NoDetection
         || exists c :: c in cs && Eligible(c.threshold, x)
                        && Scan(cs, x) == Detected(c.kind, TimeToDetect(c.threshold, x))
  {
    if cs != [] {
      var init := cs[..|cs| - 1];
      ScanAttained(init, x);
      if Scan(cs, x) != Scan(init, x) {
        assert Eligible(cs[|cs| - 1].threshold, x);
      } else if Scan(init, x) != NoDetection {
        var c :| c in init && Eligible(c.threshold, x)
                 && Scan(init, x) == Detected(c.kind, TimeToDetect(c.threshold, x));
        assert c in cs;
      }
    }
  }

  /** When no candidate is eligible the result is ("", 0). */
  lemma {:induction false} ScanNone(cs: seq<Candidate>, x: real)
    requires x != 0.0
    requires forall c :: c in cs ==> !Eligible(c.threshold, x)
    ensures Scan(cs, x) == NoDetection
  {
    if cs != [] {
      var init := cs[..|cs| - 1];
      assert forall c :: c in init ==> c in cs;
      ScanNone(init, x);
    }
  }

  /** When no eligible candidate has detection time 0, the result's value is the
      least detection time of the eligible candidates, and is 0 exactly when
      there is none. */
  lemma {:induction false} ScanMinimum(cs: seq<Candidate>, x: real)
    requires x != 0.0
    requires forall c :: c in cs && Eligible(c.threshold, x) ==> TimeToDetect(c.threshold, x) != 0.0
    ensures forall c :: c in cs && Eligible(c.threshold, x) ==> Scan(cs, x).value <= TimeToDetect(c.threshold, x)
    ensures (exists c :: c in cs && Eligible(c.threshold, x)) <==> Scan(cs, x).value != 0.0
  {
    if cs == [] {
      return;
    }
    var init := cs[..|cs| - 1];
    var last := cs[|cs| - 1];
    assert forall c :: c in init ==> c in cs;
    ScanMinimum(init, x);
    forall c | c in cs ensures c in init || c == last {
      var i :| 0 <= i < |cs| && cs[i] == c;
      if i < |cs| - 1 { assert init[i] == c; }
    }
  }

  /** The tie-break: when no eligible candidate has time 0, the scan returns
      the first eligible candidate of least time, because a later candidate
      replaces the running best only when strictly faster. */
  lemma {:induction false} ScanFirstMinimum(cs: seq<Candidate>, x: real, i: nat)
    requires x != 0.0
    requires forall c :: c in cs && Eligible(c.threshold, x) ==> TimeToDetect(c.threshold, x) != 0.0
    requires i < |cs| && Eligible(cs[i].threshold, x)
    requires forall j :: 0 <= j < i && Eligible(cs[j].threshold, x) ==>
               TimeToDetect(cs[j].threshold, x) > TimeToDetect(cs[i].threshold, x)
    requires forall j :: i < j < |cs| && Eligible(cs[j].threshold, x) ==>
               TimeToDetect(cs[j].threshold, x) >= TimeToDetect(cs[i].threshold, x)
    ensures Scan(cs, x) == Detected(cs[i].kind, TimeToDetect(cs[i].threshold, x))
  {
    var init, last := cs[..|cs| - 1], cs[|cs| - 1];
    if i == |cs| - 1 {
      ScanAttained(init, x);
      if Scan(init, x) != NoDetection {
        var c :| c in init && Eligible(c.threshold, x)
                 && Scan(init, x) == Detected(c.kind, TimeToDetect(c.threshold, x));
        var j :| 0 <= j < |init| && init[j] == c;
        assert cs[j] == c;
      }
    } else {
      assert cs[i] in cs;
      forall c | c in init && Eligible(c.threshold, x) ensures TimeToDetect(c.threshold, x) != 0.0 {
        var j :| 0 <= j < |init| && init[j] == c;
        assert cs[j] == c;
      }
      ScanFirstMinimum(init, x, i);
    }
  }

  // ---- the scan over the table, for every visiting order ----

  /** What detectionTimeForErrorRate promises, whatever the visiting order:
      with no accepted entry it returns ("", 0); otherwise a non-"nothing"
      result names a kind of the table and the detection time of one of that
      kind's accepted entries; and, when no accepted entry has detection time
      0, the value is the least detection time over all accepted entries. */
  lemma DetectionSpec(m: ThresholdMap, order: seq<string>, x: real)
    requires IsEnumeration(order, m.Keys)
    requires x != 0.0
    ensures var r := DetectionTime(m, order, x);
            (forall k, t :: !Accepted(m, x, k, t)) ==> r == NoDetection
    ensures var r := DetectionTime(m, order, x);
            r == NoDetection
            || (r.kind in m && exists t :: t in m[r.kind] && Eligible(t, x) && r.value == TimeToDetect(t, x))
    ensures var r := DetectionTime(m, order, x);
            NoZeroAccepted(m, x) ==>
              && (forall k, t :: Accepted(m, x, k, t) ==> r.value <= TimeToDetect(t, x))
              && ((exists k, t :: Accepted(m, x, k, t)) <==> r.value != 0.0)
  {
    var cs := Candidates(m, order);
    CandidatesMembers(m, order);
    var r := Scan(cs, x);
    if forall k, t :: !Accepted(m, x, k, t) {
      forall c | c in cs ensures !Eligible(c.threshold, x) {
        assert !Accepted(m, x, c.kind, c.threshold);
      }
      ScanNone(cs, x);
    }
    ScanAttained(cs, x);
    if NoZeroAccepted(m, x) {
      forall c | c in cs && Eligible(c.threshold, x) ensures TimeToDetect(c.threshold, x) != 0.0 {
        assert Accepted(m, x, c.kind, c.threshold);
      }
      ScanMinimum(cs, x);
      forall k, t | Accepted(m, x, k, t) ensures r.value <= TimeToDetect(t, x) {
        assert Candidate(k, t) in cs;
      }
      if exists k, t :: Accepted(m, x, k, t) {
        var k, t :| Accepted(m, x, k, t);
        assert Candidate(k, t) in cs;
      }
      if r.value != 0.0 {
        var c :| c in cs && Eligible(c.threshold, x);
        assert Accepted(m, x, c.kind, c.threshold);
      }
    }
  }

  /** The detected value does not depend on the order in which the table is
      visited, as long as no accepted entry has detection time 0. */
  lemma DetectionOrderFree(m: ThresholdMap, o1: seq<string>, o2: seq<string>, x: real)
    requires IsEnumeration(o1, m.Keys) && IsEnumeration(o2, m.Keys)
    requires x != 0.0
    requires NoZeroAccepted(m, x)
    ensures DetectionTime(m, o1, x).value == DetectionTime(m, o2, x).value
  {
    var r1, r2 := DetectionTime(m, o1, x), DetectionTime(m, o2, x);
    DetectionSpec(m, o1, x);
    DetectionSpec(m, o2, x);
    if r1.value != 0.0 {
      var t1 :| t1 in m[r1.kind] && Eligible(t1, x) && r1.value == TimeToDetect(t1, x);
      var t2 :| t2 in m[r2.kind] && Eligible(t2, x) && r2.value == TimeToDetect(t2, x);
      assert Accepted(m, x, r1.kind, t1) && Accepted(m, x, r2.kind, t2);
    }
  }

  lemma CandidatesTwo(m: ThresholdMap, k1: string, k2: string)
    requires k1 in m && k2 in m
    ensures Candidates(m, [k1, k2]) == Pairs(k1, m[k1]) + Pairs(k2, m[k2])
  {
    assert [k1, k2][..1] == [k1];
    assert [k1][..0] == [];
    assert Candidates(m, [k1]) == [] + Pairs(k1, m[k1]) == Pairs(k1, m[k1]);
  }

  lemma ScanPair(c1: Candidate, c2: Candidate, x: real)
    requires x != 0.0
    ensures Scan([c1, c2], x) == Consider(Consider(NoDetection, c1, x), c2, x)
  {
    assert [c1, c2][..1] == [c1];
    assert [c1][..0] == [];
    assert Scan([c1], x) == Consider(NoDetection, c1, x);
  }

  /** The scan of a two-entry table visited in order [k1, k2]. */
  lemma ScanTwoKinds(m: ThresholdMap, k1: string, k2: string, x: real)
    requires m.Keys == {k1, k2} && k1 != k2
    requires |m[k1]| == 1 && |m[k2]| == 1
    requires x != 0.0
    ensures IsEnumeration([k1, k2], m.Keys)
    ensures DetectionTime(m, [k1, k2], x)
         == Consider(Consider(NoDetection, Candidate(k1, m[k1][0]), x), Candidate(k2, m[k2][0]), x)
  {
    var c1, c2 := Candidate(k1, m[k1][0]), Candidate(k2, m[k2][0]);
    CandidatesTwo(m, k1, k2);
    assert Pairs(k1, m[k1]) == [c1];
    assert Pairs(k2, m[k2]) == [c2];
    assert Candidates(m, [k1, k2]) == [c1, c2];
    ScanPair(c1, c2, x);
  }

  /** The kind, unlike the value, can depend on the visiting order: with one
      equally fast window per kind, whichever kind is visited first wins. */
  lemma TieBreakFollowsOrder(m: ThresholdMap)
    requires m == map["page" := [ThresholdData(1.0, 2.0)], "ticket" := [ThresholdData(1.0, 2.0)]]
    ensures IsEnumeration(["page", "ticket"], m.Keys) && IsEnumeration(["ticket", "page"], m.Keys)
    ensures DetectionTime(m, ["page", "ticket"], 1.0) == Detected("page", 1.0)
    ensures DetectionTime(m, ["ticket", "page"], 1.0) == Detected("ticket", 1.0)
  {
    ScanTwoKinds(m, "page", "ticket", 1.0);
    ScanTwoKinds(m, "ticket", "page", 1.0);
  }

  /** An accepted entry with detection time 0 (a window of less than an hour
      counts as 0 hours, hence threshold 0) is confused with "nothing yet":
      met first it is overwritten, met last it wins, so both the value and the
      kind then depend on the visiting order. */
  lemma ZeroEntryFollowsOrder(m: ThresholdMap)
    requires m == map["page" := [ThresholdData(0.0, 0.0)], "ticket" := [ThresholdData(1.0, 2.0)]]
    ensures IsEnumeration(["page", "ticket"], m.Keys) && IsEnumeration(["ticket", "page"], m.Keys)
    ensures DetectionTime(m, ["page", "ticket"], 1.0) == Detected("ticket", 1.0)
    ensures DetectionTime(m, ["ticket", "page"], 1.0) == Detected("page", 0.0)
  {
    ScanTwoKinds(m, "page", "ticket", 1.0);
    ScanTwoKinds(m, "ticket", "page", 1.0);
  }

  lemma DivAntitone(t: real, x1: real, x2: real)
    requires t > 0.0 && 0.0 < x1 <= x2
    ensures 0.0 < t / x2 <= t / x1
  {
    assert t / x2 * x2 == t == t / x1 * x1;
  }

  /** Detection time is non-increasing in the error rate: every window that can
      detect x1 can also detect any larger x2, and faster. */
  lemma DetectionNonIncreasing(m: ThresholdMap, o1: seq<string>, o2: seq<string>, x1: real, x2: real)
    requires IsEnumeration(o1, m.Keys) && IsEnumeration(o2, m.Keys)
    requires PositiveThresholds(m)
    requires 0.0 < x1 <= x2
    requires DetectionTime(m, o1, x1) != NoDetection
    ensures DetectionTime(m, o2, x2) != NoDetection
    ensures 0.0 < DetectionTime(m, o2, x2).value <= DetectionTime(m, o1, x1).value
  {
    var r1, r2 := DetectionTime(m, o1, x1), DetectionTime(m, o2, x2);
    forall k, t | Accepted(m, x2, k, t) ensures TimeToDetect(t, x2) != 0.0 {
      DivAntitone(t.errorThreshold, x2, x2);
    }
    DetectionSpec(m, o1, x1);
    DetectionSpec(m, o2, x2);
    var t1 :| t1 in m[r1.kind] && Eligible(t1, x1) && r1.value == TimeToDetect(t1, x1);
    DivAntitone(t1.errorThreshold, x1, x2);
    assert Accepted(m, x2, r1.kind, t1);
    if r2.value <= 0.0 {
      var t2 :| t2 in m[r2.kind] && Eligible(t2, x2) && r2.value == TimeToDetect(t2, x2);
      DivAntitone(t2.errorThreshold, x2, x2);
    }
  }

  /** Meeting entry j of kind k's list is one more step of the scan. */
  lemma InnerStep(done: seq<Candidate>, k: string, ths: seq<ThresholdData>, j: nat, x: real)
    requires j < |ths|
    requires x != 0.0
    ensures Scan(done + Pairs(k, ths[..j + 1]), x)
         == Consider(Scan(done + Pairs(k, ths[..j]), x), Candidate(k, ths[j]), x)
  {
    var before := done + Pairs(k, ths[..j]);
    assert done + Pairs(k, ths[..j + 1]) == before + [Candidate(k, ths[j])];
    assert (before + [Candidate(k, ths[j])])[..|before|] == before;
  }

  /** The inner loop of detectionTimeForErrorRate over the entries ths of kind
      k: continues the running best of the candidates met so far (`done`). */
  method ScanKind(kind0: string, value0: real, ghost done: seq<Candidate>, k: string, ths: seq<ThresholdData>, x: real)
    returns (kind: string, value: real)
    requires x != 0.0
    requires Detected(kind0, value0) == Scan(done, x)
    ensures Detected(kind, value) == Scan(done + Pairs(k, ths), x)
  {
    kind, value := kind0, value0;
    assert done + Pairs(k, ths[..0]) == done;
    for j := 0 to |ths|
      invariant Detected(kind, value) == Scan(done + Pairs(k, ths[..j]), x)
    {
      var th := ths[j];
      InnerStep(done, k, ths, j, x);
      var v := th.errorThreshold / x;
      if v > th.duration {
        continue;
      }
      if value == 0.0 || value > v {
        value := v;
        kind := k;
      }
    }
    assert ths[..|ths|] == ths;
  }

  /** detectionTimeForErrorRate, with the table's keys visited in `order`. */
  method DetectionTimeForErrorRate(thresholds: ThresholdMap, order: seq<string>, x: real)
    returns (kind: string, value: real)
    requires IsEnumeration(order, thresholds.Keys)
    requires x != 0.0
    ensures Detected(kind, value) == DetectionTime(thresholds, order, x)
  {
    kind := "";
    value := 0.0;
    for i := 0 to |order|
      invariant Detected(kind, value) == Scan(Candidates(thresholds, order[..i]), x)
    {
      var k := order[i];
      kind, value := ScanKind(kind, value, Candidates(thresholds, order[..i]), k, thresholds[k], x);
      CandidatesStep(thresholds, order, i);
    }
    assert order[..|order|] == order;
  }
}
