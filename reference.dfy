/** The policy the program plots: a 99.9% objective with two paging and two
    ticketing windows, and what the model says about it. */
module ReferencePolicy {
  import opened Thresholds
  import opened Detection
  import opened Curves

  /** slo := 99.9 (percent) */
  const Slo: real := 99.9

  /** errorBudget = 1 - slo/100 */
  const Budget: real := 1.0 - Slo / 100.0

  const Windows: seq<Window> := [
    Window(1 * Hour, 14.4, "page"),
    Window(6 * Hour, 6.0, "page"),
    Window(24 * Hour, 3.0, "ticket"),
    Window(72 * Hour, 1.0, "ticket")
  ]

  const Page1: ThresholdData := ThresholdData(0.0144, 1.0)
  const Page6: ThresholdData := ThresholdData(0.036, 6.0)
  const Ticket24: ThresholdData := ThresholdData(0.072, 24.0)
  const Ticket72: ThresholdData := ThresholdData(0.072, 72.0)

  const Table: ThresholdMap := map["page" := [Page1, Page6], "ticket" := [Ticket24, Ticket72]]

  /** Each reference window's entry: burn rate x 0.001 x whole hours. */
  lemma ReferenceThresholds()
    ensures ToThreshold(Budget, Windows[0]) == Page1
    ensures ToThreshold(Budget, Windows[1]) == Page6
    ensures ToThreshold(Budget, Windows[2]) == Ticket24
    ensures ToThreshold(Budget, Windows[3]) == Ticket72
  {
    assert Budget == 0.001;
    assert WholeHours(1 * Hour) == 1;
    assert WholeHours(6 * Hour) == 6;
    assert WholeHours(24 * Hour) == 24;
    assert WholeHours(72 * Hour) == 72;
  }

  /** One more reference window, of kind k and entry t, appended to k's list. */
  lemma TableStep(i: nat, before: ThresholdMap, k: string, t: ThresholdData)
    requires i < |Windows|
    requires Windows[i].kind == k && ToThreshold(Budget, Windows[i]) == t
    requires GroupByKind(Budget, Windows[..i]) == before
    ensures GroupByKind(Budget, Windows[..i + 1]) == before[k := (if k in before then before[k] else []) + [t]]
  {
    assert Windows[..i + 1] == Windows[..i] + [Windows[i]];
    GroupByKindSnoc(Budget, Windows[..i], Windows[i]);
  }

  lemma TableAfterOne()
    ensures GroupByKind(Budget, Windows[..1]) == map["page" := [Page1]]
  {
    ReferenceThresholds();
    var m0: ThresholdMap := map[];
    assert Windows[..0] == [];
    assert GroupByKind(Budget, Windows[..0]) == m0 by {
      assert KindSet([]) == {};
    }
    var none: seq<ThresholdData> := [];
    TableStep(0, m0, "page", Page1);
    assert none + [Page1] == [Page1];
  }

  lemma TableAfterTwo()
    ensures GroupByKind(Budget, Windows[..2]) == map["page" := [Page1, Page6]]
  {
    ReferenceThresholds();
    TableAfterOne();
    TableStep(1, map["page" := [Page1]], "page", Page6);
    assert [Page1] + [Page6] == [Page1, Page6];
  }

  lemma TableAfterThree()
    ensures GroupByKind(Budget, Windows[..3]) == map["page" := [Page1, Page6], "ticket" := [Ticket24]]
  {
    ReferenceThresholds();
    TableAfterTwo();
    var none: seq<ThresholdData> := [];
    TableStep(2, map["page" := [Page1, Page6]], "ticket", Ticket24);
    assert none + [Ticket24] == [Ticket24];
  }

  /** The table built from the reference windows: each window's entry under
      its kind, in input order. */
  lemma ReferenceTable()
    ensures GroupByKind(Budget, Windows) == Table
  {
    TableAfterFour();
    assert Windows[..4] == Windows;
  }

  lemma TableAfterFour()
    ensures GroupByKind(Budget, Windows[..4]) == Table
  {
    ReferenceThresholds();
    TableAfterThree();
    var before := map["page" := [Page1, Page6], "ticket" := [Ticket24]];
    TableStep(3, before, "ticket", Ticket72);
    assert [Ticket24] + [Ticket72] == [Ticket24, Ticket72];
    assert before["ticket" := [Ticket24, Ticket72]] == Table;
  }

  /** A window of positive length accepts error rate x exactly from
      threshold/length on. */
  lemma EligibleFrom(t: ThresholdData, x: real)
    requires t.duration > 0.0 && x > 0.0
    ensures Eligible(t, x) <==> x >= t.errorThreshold / t.duration
  {
    var a, d := t.errorThreshold, t.duration;
    assert a / x * x == a;
    assert a / d * d == a;
    if a / x <= d {
      assert a <= d * x;
    }
    if x >= a / d {
      assert d * x >= a;
    }
  }

  lemma DivLe(a: real, b: real, x: real)
    requires x > 0.0 && a / x <= b / x
    ensures a <= b
  {
    assert a == a / x * x && b == b / x * x;
  }

  /** Which reference entries accept error rate x: each from its own rate on. */
  lemma ReferenceAccepts(x: real)
    requires x > 0.0
    ensures forall k, t :: Accepted(Table, x, k, t) ==> t in [Page1, Page6, Ticket24, Ticket72]
    ensures Accepted(Table, x, "page", Page1) <==> x >= 0.0144
    ensures Accepted(Table, x, "page", Page6) <==> x >= 0.006
    ensures Accepted(Table, x, "ticket", Ticket72) <==> x >= 0.001
    ensures NoZeroAccepted(Table, x)
  {
    EligibleFrom(Page1, x);
    EligibleFrom(Page6, x);
    EligibleFrom(Ticket24, x);
    EligibleFrom(Ticket72, x);
    forall k, t | Accepted(Table, x, k, t) ensures t in [Page1, Page6, Ticket24, Ticket72] && TimeToDetect(t, x) != 0.0 {
      assert t.errorThreshold > 0.0;
    }
  }

  /** Below 0.1% no reference window can detect. */
  lemma ReferenceQuiet(order: seq<string>, x: real)
    requires IsEnumeration(order, Table.Keys)
    requires 0.0 < x < 0.001
    ensures DetectionTime(Table, order, x) == NoDetection
  {
    ReferenceAccepts(x);
    EligibleFrom(Ticket24, x);
    DetectionSpec(Table, order, x);
  }

  /** When some reference window detects, the result is the detection time of
      one of them, under its own kind, and no other detects faster. */
  lemma ReferenceAttained(order: seq<string>, x: real) returns (t: ThresholdData)
    requires IsEnumeration(order, Table.Keys)
    requires x >= 0.001
    ensures Accepted(Table, x, DetectionTime(Table, order, x).kind, t)
    ensures DetectionTime(Table, order, x).value == t.errorThreshold / x
    ensures forall k, t' :: Accepted(Table, x, k, t') ==> t.errorThreshold / x <= t'.errorThreshold / x
  {
    var r := DetectionTime(Table, order, x);
    ReferenceAccepts(x);
    DetectionSpec(Table, order, x);
    t :| t in Table[r.kind] && Eligible(t, x) && r.value == TimeToDetect(t, x);
  }

  /** The reference curve, whatever order the table is visited in: below a
      0.1% error rate nothing detects; up to 0.6% the 24h and 72h ticket
      windows detect in 0.072/x hours; up to 1.44% the 6h page window in
      0.036/x hours; from there on the 1h page window in 0.0144/x hours. */
  lemma ReferenceDetection(order: seq<string>, x: real)
    requires IsEnumeration(order, Table.Keys)
    requires x > 0.0
    ensures x < 0.001 ==> DetectionTime(Table, order, x) == NoDetection
    ensures 0.001 <= x < 0.006 ==> DetectionTime(Table, order, x) == Detected("ticket", 0.072 / x)
    ensures 0.006 <= x < 0.0144 ==> DetectionTime(Table, order, x) == Detected("page", 0.036 / x)
    ensures 0.0144 <= x ==> DetectionTime(Table, order, x) == Detected("page", 0.0144 / x)
  {
    if x < 0.001 {
      ReferenceQuiet(order, x);
    } else {
      var r := DetectionTime(Table, order, x);
      var t := ReferenceAttained(order, x);
      ReferenceAccepts(x);
      if x >= 0.0144 {
        DivLe(t.errorThreshold, 0.0144, x);
      } else if x >= 0.006 {
        EligibleFrom(Page1, x);
        DivLe(t.errorThreshold, 0.036, x);
      } else {
        EligibleFrom(Page1, x);
        EligibleFrom(Page6, x);
      }
    }
  }

  lemma Rescale(a: real, x: real)
    requires x > 0.0
    ensures a / x == (a * 100.0) / (x * 100.0)
  {
  }

  /** One sample of the reference sweep, as a point: its kind is fixed by the
      error rate, and in percent the detection time is 7.2/x on the ticket
      curve and 3.6/x or 1.44/x on the page curve. */
  lemma ReferencePoint(order: seq<string>, x: real)
    requires IsEnumeration(order, Table.Keys)
    requires x > 0.0
    ensures var r := DetectionTime(Table, order, x);
            var pt := Point(x * 100.0, r.value);
            && (r.kind == "ticket" <==> 0.001 <= x < 0.006)
            && (r.kind == "page" <==> 0.006 <= x)
            && (r.kind == "ticket" ==> 0.1 <= pt.x < 0.6 && pt.y == 7.2 / pt.x)
            && (r.kind == "page" ==> 0.6 <= pt.x)
            && (r.kind == "page" && pt.x < 1.44 ==> pt.y == 3.6 / pt.x)
            && (r.kind == "page" && 1.44 <= pt.x ==> pt.y == 1.44 / pt.x)
  {
    ReferenceDetection(order, x);
    Rescale(0.072, x);
    Rescale(0.036, x);
    Rescale(0.0144, x);
  }

  /** The ticket curve of the reference table: exactly the samples from 0.1%
      to below 0.6%, at 7.2/x hours. */
  lemma TicketCurve(xs: seq<real>, orders: seq<seq<string>>)
    requires ValidSweep(xs, orders, Table.Keys)
    ensures var ticket := ClassPoints(xs, Detections(Table, orders, xs), "ticket");
            && (forall i :: 0 <= i < |xs| && 0.001 <= xs[i] < 0.006 ==> Point(xs[i] * 100.0, 0.072 / xs[i]) in ticket)
            && (forall pt :: pt in ticket ==> 0.1 <= pt.x < 0.6 && pt.y == 7.2 / pt.x)
  {
    var rs := Detections(Table, orders, xs);
    ClassPointsMembers(xs, rs, "ticket");
    forall i | 0 <= i < |xs| && 0.001 <= xs[i] < 0.006
      ensures rs[i] == Detected("ticket", 0.072 / xs[i])
    {
      ReferenceDetection(orders[i], xs[i]);
    }
    forall pt | pt in ClassPoints(xs, rs, "ticket") ensures 0.1 <= pt.x < 0.6 && pt.y == 7.2 / pt.x {
      var i :| 0 <= i < |rs| && rs[i].kind == "ticket" && pt == Point(xs[i] * 100.0, rs[i].value);
      ReferencePoint(orders[i], xs[i]);
    }
  }

  /** The page curve of the reference table holds every sample from 0.6% on. */
  lemma PageCurveMembers(xs: seq<real>, orders: seq<seq<string>>)
    requires ValidSweep(xs, orders, Table.Keys)
    ensures var page := ClassPoints(xs, Detections(Table, orders, xs), "page");
            && (forall i :: 0 <= i < |xs| && 0.006 <= xs[i] < 0.0144 ==> Point(xs[i] * 100.0, 0.036 / xs[i]) in page)
            && (forall i :: 0 <= i < |xs| && 0.0144 <= xs[i] ==> Point(xs[i] * 100.0, 0.0144 / xs[i]) in page)
  {
    var rs := Detections(Table, orders, xs);
    ClassPointsMembers(xs, rs, "page");
    forall i | 0 <= i < |xs| && 0.006 <= xs[i] < 0.0144
      ensures rs[i] == Detected("page", 0.036 / xs[i])
    {
      ReferenceDetection(orders[i], xs[i]);
    }
    forall i | 0 <= i < |xs| && 0.0144 <= xs[i]
      ensures rs[i] == Detected("page", 0.0144 / xs[i])
    {
      ReferenceDetection(orders[i], xs[i]);
    }
  }

  /** Every point of the reference page curve is at 0.6% or more, at 3.6/x
      hours below 1.44% and 1.44/x hours from there. */
  lemma PageCurveShape(xs: seq<real>, orders: seq<seq<string>>)
    requires ValidSweep(xs, orders, Table.Keys)
    ensures forall pt :: pt in ClassPoints(xs, Detections(Table, orders, xs), "page") ==>
              && 0.6 <= pt.x
              && (pt.x < 1.44 ==> pt.y == 3.6 / pt.x)
              && (1.44 <= pt.x ==> pt.y == 1.44 / pt.x)
  {
    var rs := Detections(Table, orders, xs);
    ClassPointsMembers(xs, rs, "page");
    forall pt | pt in ClassPoints(xs, rs, "page")
      ensures 0.6 <= pt.x && (pt.x < 1.44 ==> pt.y == 3.6 / pt.x) && (1.44 <= pt.x ==> pt.y == 1.44 / pt.x)
    {
      var i :| 0 <= i < |rs| && rs[i].kind == "page" && pt == Point(xs[i] * 100.0, rs[i].value);
      ReferencePoint(orders[i], xs[i]);
    }
  }

  /** The two curves the program plots for the reference policy, over any
      sweep of positive error rates and any visiting orders: the ticket curve
      holds exactly the samples from 0.1% to below 0.6%, at 7.2/x hours; the
      page curve exactly those from 0.6% on, at 3.6/x hours below 1.44% and
      1.44/x hours from there; samples below 0.1% are on neither. */
  lemma ReferenceCurves(xs: seq<real>, orders: seq<seq<string>>)
    requires ValidSweep(xs, orders, KindSet(Windows))
    ensures var rs := Detections(GroupByKind(Budget, Windows), orders, xs);
            var ticket, page := ClassPoints(xs, rs, "ticket"), ClassPoints(xs, rs, "page");
            && (forall i :: 0 <= i < |xs| && 0.001 <= xs[i] < 0.006 ==> Point(xs[i] * 100.0, 0.072 / xs[i]) in ticket)
            && (forall i :: 0 <= i < |xs| && 0.006 <= xs[i] < 0.0144 ==> Point(xs[i] * 100.0, 0.036 / xs[i]) in page)
            && (forall i :: 0 <= i < |xs| && 0.0144 <= xs[i] ==> Point(xs[i] * 100.0, 0.0144 / xs[i]) in page)
            && (forall pt :: pt in ticket ==> 0.1 <= pt.x < 0.6 && pt.y == 7.2 / pt.x)
            && (forall pt :: pt in page ==> 0.6 <= pt.x)
            && (forall pt :: pt in page && pt.x < 1.44 ==> pt.y == 3.6 / pt.x)
            && (forall pt :: pt in page && 1.44 <= pt.x ==> pt.y == 1.44 / pt.x)
  {
    ReferenceTable();
    assert GroupByKind(Budget, Windows).Keys == KindSet(Windows);
    TicketCurve(xs, orders);
    PageCurveMembers(xs, orders);
    PageCurveShape(xs, orders);
  }
}
