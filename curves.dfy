/** genSLOAlertPoints: sweep the error rate and split the detection times
    into a "ticket" curve and a "page" curve. */
module Curves {
  import opened Grouping
  import opened Thresholds
  import opened Detection

  /** n: the number of samples of the sweep. */
  const SampleCount: nat := 1000

  /** A plotted point: error rate in percent, detection time in hours. */
  datatype Point = Point(x: real, y: real)

  function ResultKinds(rs: seq<Detected>): (ks: seq<string>)
    ensures |ks| == |rs|
    ensures forall i :: 0 <= i < |rs| ==> ks[i] == rs[i].kind
  {
    seq(|rs|, i requires 0 <= i < |rs| => rs[i].kind)
  }

  /** The curve of kind cls: one point per sample whose detection named cls,
      in sample order. */
  function ClassPoints(xs: seq<real>, rs: seq<Detected>, cls: string): seq<Point>
    requires |xs| == |rs|
  {
    var p := Positions(ResultKinds(rs), cls);
    PositionsSound(ResultKinds(rs), cls);
    seq(|p|, j requires 0 <= j < |p| => Point(xs[p[j]] * 100.0, rs[p[j]].value))
  }

  /** The swept error rates are positive, and each sample ranges over the
      table's keys in an order of its own (Go picks one afresh for every range). */
  ghost predicate ValidSweep(xs: seq<real>, orders: seq<seq<string>>, keys: set<string>)
  {
    && |orders| == |xs|
    && forall i :: 0 <= i < |xs| ==> xs[i] > 0.0 && IsEnumeration(orders[i], keys)
  }

  /** The detection result of every sample. */
  function Detections(m: ThresholdMap, orders: seq<seq<string>>, xs: seq<real>): (rs: seq<Detected>)
    requires ValidSweep(xs, orders, m.Keys)
    ensures |rs| == |xs|
  {
    seq(|xs|, i requires 0 <= i < |xs| => DetectionTime(m, orders[i], xs[i]))
  }

  /** One more sample adds its point to the curve of its own kind only. */
  lemma ClassPointsSnoc(xs: seq<real>, rs: seq<Detected>, x: real, r: Detected, cls: string)
    requires |xs| == |rs|
    ensures ClassPoints(xs + [x], rs + [r], cls)
         == ClassPoints(xs, rs, cls) + (if r.kind == cls then [Point(x * 100.0, r.value)] else [])
  {
    assert ResultKinds(rs + [r]) == ResultKinds(rs) + [r.kind];
    PositionsSnoc(ResultKinds(rs), r.kind, cls);
    PositionsSound(ResultKinds(rs), cls);
    var p := Positions(ResultKinds(rs), cls);
    var p' := Positions(ResultKinds(rs + [r]), cls);
    var before := ClassPoints(xs, rs, cls);
    var after := ClassPoints(xs + [x], rs + [r], cls);
    var added := if r.kind == cls then [Point(x * 100.0, r.value)] else [];
    assert |after| == |before| + |added|;
    forall j | 0 <= j < |before| ensures after[j] == before[j] {
      assert p'[j] == p[j] < |xs|;
      assert (xs + [x])[p[j]] == xs[p[j]] && (rs + [r])[p[j]] == rs[p[j]];
    }
    if r.kind == cls {
      assert p'[|p|] == |xs|;
      assert (xs + [x])[|xs|] == x && (rs + [r])[|xs|] == r;
      assert after[|before|] == Point(x * 100.0, r.value);
    }
    assert after == before + added;
  }

  /** A curve holds exactly the samples whose detection named its kind: each
      such sample's point is on it, and each of its points is such a sample's. */
  lemma ClassPointsMembers(xs: seq<real>, rs: seq<Detected>, cls: string)
    requires |xs| == |rs|
    ensures forall i :: 0 <= i < |rs| && rs[i].kind == cls ==> Point(xs[i] * 100.0, rs[i].value) in ClassPoints(xs, rs, cls)
    ensures forall pt :: pt in ClassPoints(xs, rs, cls) ==>
              exists i :: 0 <= i < |rs| && rs[i].kind == cls && pt == Point(xs[i] * 100.0, rs[i].value)
  {
    var p := Positions(ResultKinds(rs), cls);
    var ps := ClassPoints(xs, rs, cls);
    PositionsComplete(ResultKinds(rs), cls);
    PositionsSound(ResultKinds(rs), cls);
    forall i | 0 <= i < |rs| && rs[i].kind == cls ensures Point(xs[i] * 100.0, rs[i].value) in ps {
      var j :| 0 <= j < |p| && p[j] == i;
      assert ps[j] == Point(xs[i] * 100.0, rs[i].value);
    }
    forall pt | pt in ps
      ensures exists i :: 0 <= i < |rs| && rs[i].kind == cls && pt == Point(xs[i] * 100.0, rs[i].value)
    {
      var j :| 0 <= j < |ps| && ps[j] == pt;
      assert ResultKinds(rs)[p[j]] == cls;
    }
  }

  /** Points keep sample order: on an increasing sweep every curve is
      strictly increasing in x. */
  lemma ClassPointsOrdered(xs: seq<real>, rs: seq<Detected>, cls: string)
    requires |xs| == |rs|
    requires forall i, i' :: 0 <= i < i' < |xs| ==> xs[i] < xs[i']
    ensures var ps := ClassPoints(xs, rs, cls);
            forall j, j' :: 0 <= j < j' < |ps| ==> ps[j].x < ps[j'].x
  {
    PositionsSound(ResultKinds(rs), cls);
    PositionsIncreasing(ResultKinds(rs), cls);
  }

  /** Together the two curves have at most one point per sample. */
  lemma CurvesDisjoint(xs: seq<real>, rs: seq<Detected>)
    requires |xs| == |rs|
    ensures |ClassPoints(xs, rs, "ticket")| + |ClassPoints(xs, rs, "page")| <= |xs|
  {
    PositionsDisjoint(ResultKinds(rs), "ticket", "page");
  }

  /** Both curves after sample i: sample i's point is appended to the curve
      its detection names, if any. */
  lemma SampleStep(xs: seq<real>, rs: seq<Detected>, r: Detected,
                   ticket0: seq<Point>, page0: seq<Point>, ticket: seq<Point>, page: seq<Point>)
    requires |rs| < |xs|
    requires ticket0 == ClassPoints(xs[..|rs|], rs, "ticket")
    requires page0 == ClassPoints(xs[..|rs|], rs, "page")
    requires ticket == if r.kind == "ticket" then ticket0 + [Point(xs[|rs|] * 100.0, r.value)] else ticket0
    requires page == if r.kind == "page" then page0 + [Point(xs[|rs|] * 100.0, r.value)] else page0
    ensures ticket == ClassPoints(xs[..|rs| + 1], rs + [r], "ticket")
    ensures page == ClassPoints(xs[..|rs| + 1], rs + [r], "page")
  {
    ClassPointsStep(xs, rs, r, "ticket");
    ClassPointsStep(xs, rs, r, "page");
  }

  /** ClassPointsSnoc over a prefix of the sweep. */
  lemma ClassPointsStep(xs: seq<real>, rs: seq<Detected>, r: Detected, cls: string)
    requires |rs| < |xs|
    ensures ClassPoints(xs[..|rs| + 1], rs + [r], cls)
         == ClassPoints(xs[..|rs|], rs, cls) + (if r.kind == cls then [Point(xs[|rs|] * 100.0, r.value)] else [])
  {
    assert xs[..|rs| + 1] == xs[..|rs|] + [xs[|rs|]];
    ClassPointsSnoc(xs[..|rs|], rs, xs[|rs|], r, cls);
  }

  /** Once every sample is taken, the curves are those of the whole sweep. */
  lemma SweepDone(xs: seq<real>, rs: seq<Detected>, all: seq<Detected>, ticket: seq<Point>, page: seq<Point>)
    requires |rs| == |xs| == |all|
    requires forall j :: 0 <= j < |xs| ==> rs[j] == all[j]
    requires ticket == ClassPoints(xs[..|xs|], rs, "ticket")
    requires page == ClassPoints(xs[..|xs|], rs, "page")
    ensures ticket == ClassPoints(xs, all, "ticket") && page == ClassPoints(xs, all, "page")
    ensures |ticket| + |page| <= |xs|
  {
    assert xs[..|xs|] == xs;
    assert rs == all;
    CurvesDisjoint(xs, rs);
  }

  /** The second loop of genSLOAlertPoints: for each sample, append
      (x*100, value) to the curve of the returned kind, dropping any other kind. */
  method SampleCurves(thresholdMap: ThresholdMap, xs: seq<real>, orders: seq<seq<string>>)
    returns (ticket: seq<Point>, page: seq<Point>)
    requires ValidSweep(xs, orders, thresholdMap.Keys)
    ensures var rs := Detections(thresholdMap, orders, xs);
            ticket == ClassPoints(xs, rs, "ticket") && page == ClassPoints(xs, rs, "page")
    ensures |ticket| + |page| <= |xs|
  {
    ghost var all := Detections(thresholdMap, orders, xs);
    ghost var rs: seq<Detected> := [];
    ticket, page := [], [];
    for i := 0 to |xs|
      invariant |rs| == i
      invariant forall j :: 0 <= j < i ==> rs[j] == all[j]
      invariant ticket == ClassPoints(xs[..i], rs, "ticket")
      invariant page == ClassPoints(xs[..i], rs, "page")
    {
      var x := xs[i];
      assert IsEnumeration(orders[i], thresholdMap.Keys) && x > 0.0;
      assert all[i] == DetectionTime(thresholdMap, orders[i], x);
      var kind, value := DetectionTimeForErrorRate(thresholdMap, orders[i], x);
      var p := Point(x * 100.0, value);
      ghost var ticket0, page0 := ticket, page;
      if kind == "ticket" {
        ticket := ticket + [p];
      } else if kind == "page" {
        page := page + [p];
      }
      SampleStep(xs, rs, Detected(kind, value), ticket0, page0, ticket, page);
      rs := rs + [Detected(kind, value)];
    }
    SweepDone(xs, rs, all, ticket, page);
  }

  /** genSLOAlertPoints: build the threshold table, then sample n error rates. */
  method GenSloAlertPoints(errorBudget: real, windows: seq<Window>, xs: seq<real>, orders: seq<seq<string>>)
    returns (ticket: seq<Point>, page: seq<Point>)
    requires |xs| == SampleCount
    requires ValidSweep(xs, orders, KindSet(windows))
    ensures var rs := Detections(GroupByKind(errorBudget, windows), orders, xs);
            ticket == ClassPoints(xs, rs, "ticket") && page == ClassPoints(xs, rs, "page")
    ensures |ticket| + |page| <= SampleCount
  {
    var thresholdMap := BuildThresholdMap(errorBudget, windows);
    assert thresholdMap.Keys == KindSet(windows);
    ticket, page := SampleCurves(thresholdMap, xs, orders);
  }

  /** With no windows the table is empty and both curves are empty. */
  lemma NoWindowsNoPoints(errorBudget: real, xs: seq<real>, orders: seq<seq<string>>)
    requires ValidSweep(xs, orders, {})
    ensures var rs := Detections(GroupByKind(errorBudget, []), orders, xs);
            ClassPoints(xs, rs, "ticket") == [] && ClassPoints(xs, rs, "page") == []
  {
    var m := GroupByKind(errorBudget, []);
    assert m.Keys == {};
    var rs := Detections(m, orders, xs);
    forall i | 0 <= i < |xs| ensures ResultKinds(rs)[i] == "" {
      DetectionSpec(m, orders[i], xs[i]);
    }
    PositionsAbsent(ResultKinds(rs), "ticket");
    PositionsAbsent(ResultKinds(rs), "page");
  }

  /** On an increasing sweep over windows with positive thresholds, detection
      time never grows along either curve. */
  lemma CurveNonIncreasing(m: ThresholdMap, xs: seq<real>, orders: seq<seq<string>>, cls: string)
    requires ValidSweep(xs, orders, m.Keys)
    requires PositiveThresholds(m)
    requires cls != ""
    requires forall i, i' :: 0 <= i < i' < |xs| ==> xs[i] < xs[i']
    ensures var ps := ClassPoints(xs, Detections(m, orders, xs), cls);
            forall j :: 0 <= j < |ps| ==> 0.0 < ps[j].y
    ensures var ps := ClassPoints(xs, Detections(m, orders, xs), cls);
            forall j, j' :: 0 <= j < j' < |ps| ==> ps[j'].y <= ps[j].y
  {
    var rs := Detections(m, orders, xs);
    var p := Positions(ResultKinds(rs), cls);
    var ps := ClassPoints(xs, rs, cls);
    PositionsSound(ResultKinds(rs), cls);
    PositionsIncreasing(ResultKinds(rs), cls);
    forall j | 0 <= j < |ps| ensures 0.0 < ps[j].y {
      var i := p[j];
      assert ResultKinds(rs)[i] == cls;
      DetectionNonIncreasing(m, orders[i], orders[i], xs[i], xs[i]);
    }
    forall j, j' | 0 <= j < j' < |ps| ensures ps[j'].y <= ps[j].y {
      var i, i' := p[j], p[j'];
      assert ResultKinds(rs)[i] == cls;
      DetectionNonIncreasing(m, orders[i], orders[i'], xs[i], xs[i']);
    }
  }
}
