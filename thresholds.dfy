/** From alerting windows to the per-kind threshold table (the first loop of
    genSLOAlertPoints). */
module Thresholds {
  import opened GoInt
  import opened Grouping

  /** A time.Duration: a signed count of nanoseconds. */
  type Duration = int

  /** time.Hour */
  const Hour: Duration := 3_600_000_000_000

  /** One alerting rule: its look-back window, its burn-rate multiplier and its
      severity kind ("page", "ticket", or any other label). */
  datatype Window = Window(duration: Duration, burnRate: real, kind: string)

  /** One entry of the threshold table: the error rate at which the window fires,
      and the window's length in whole hours. */
  datatype ThresholdData = ThresholdData(errorThreshold: real, duration: real)

  /** thresholdMap: kind -> entries of the windows of that kind. */
  type ThresholdMap = map<string, seq<ThresholdData>>

  /** `w.Duration / time.Hour`: whole hours, truncated toward zero. */
  function WholeHours(d: Duration): (h: int)
    ensures d >= 0 ==> 0 <= h && h * Hour <= d < (h + 1) * Hour
    ensures d < 0 ==> h <= 0 && (h - 1) * Hour < d <= h * Hour
  {
    Quo(d, Hour)
  }

  /** The table entry a window contributes. */
  function ToThreshold(errorBudget: real, w: Window): ThresholdData
  {
    var d := WholeHours(w.duration) as real;
    ThresholdData(w.burnRate * errorBudget * d, d)
  }

  /** A window shorter than an hour (either sign) counts as zero hours, so its
      entry is all zeros. */
  lemma SubHourWindow(errorBudget: real, w: Window)
    requires -Hour < w.duration < Hour
    ensures ToThreshold(errorBudget, w) == ThresholdData(0.0, 0.0)
  {
  }

  /** The entry's length is the window's whole hours, and its threshold is
      proportional to the burn rate: scaling the burn rate scales the threshold. */
  lemma ThresholdProportional(errorBudget: real, w: Window, c: real)
    ensures ToThreshold(errorBudget, w).duration == WholeHours(w.duration) as real
    ensures ToThreshold(errorBudget, w.(burnRate := c * w.burnRate)).errorThreshold
         == c * ToThreshold(errorBudget, w).errorThreshold
  {
  }

  /** A window of at least an hour with a positive burn rate and budget yields a
      positive threshold and a positive length. */
  lemma ThresholdPositive(errorBudget: real, w: Window)
    requires errorBudget > 0.0 && w.burnRate > 0.0 && w.duration >= Hour
    ensures ToThreshold(errorBudget, w).duration >= 1.0
    ensures ToThreshold(errorBudget, w).errorThreshold > 0.0
  {
    var d := WholeHours(w.duration) as real;
    assert d >= 1.0;
    assert w.burnRate * errorBudget > 0.0;
  }

  function KindsOf(ws: seq<Window>): (ks: seq<string>)
    ensures |ks| == |ws|
    ensures forall i :: 0 <= i < |ws| ==> ks[i] == ws[i].kind
  {
    seq(|ws|, i requires 0 <= i < |ws| => ws[i].kind)
  }

  function KindSet(ws: seq<Window>): set<string>
  {
    set w | w in ws :: w.kind
  }

  /** The list kept under kind k: the entries of the windows of kind k, in input order. */
  function EntriesFor(errorBudget: real, ws: seq<Window>, k: string): seq<ThresholdData>
  {
    var p := Positions(KindsOf(ws), k);
    PositionsSound(KindsOf(ws), k);
    seq(|p|, j requires 0 <= j < |p| => ToThreshold(errorBudget, ws[p[j]]))
  }

  /** The threshold table, defined as a grouping by kind. */
  function GroupByKind(errorBudget: real, ws: seq<Window>): ThresholdMap
  {
    map k | k in KindSet(ws) :: EntriesFor(errorBudget, ws, k)
  }

  /** Adding a window of kind k' extends the list of k by that window's entry
      when k == k', and leaves it as it was otherwise. */
  lemma EntriesForSnoc(errorBudget: real, ws: seq<Window>, w: Window, k: string)
    ensures EntriesFor(errorBudget, ws + [w], k)
         == EntriesFor(errorBudget, ws, k) + (if w.kind == k then [ToThreshold(errorBudget, w)] else [])
  {
    assert KindsOf(ws + [w]) == KindsOf(ws) + [w.kind];
    PositionsSnoc(KindsOf(ws), w.kind, k);
    PositionsSound(KindsOf(ws), k);
    var p := Positions(KindsOf(ws), k);
    var before, after := EntriesFor(errorBudget, ws, k), EntriesFor(errorBudget, ws + [w], k);
    var added := if w.kind == k then [ToThreshold(errorBudget, w)] else [];
    assert |after| == |before| + |added|;
    forall j | 0 <= j < |before| ensures after[j] == before[j] {
      assert (ws + [w])[p[j]] == ws[p[j]];
    }
    if w.kind == k {
      assert after[|before|] == ToThreshold(errorBudget, w);
    }
    assert after == before + added;
  }

  /** A kind no window carries has an empty list. */
  lemma EntriesForAbsent(errorBudget: real, ws: seq<Window>, k: string)
    requires k !in KindSet(ws)
    ensures EntriesFor(errorBudget, ws, k) == []
  {
    var ks := KindsOf(ws);
    forall i | 0 <= i < |ws| ensures ks[i] != k {
      assert ws[i] in ws;
    }
    PositionsAbsent(ks, k);
  }

  lemma KindSetSnoc(ws: seq<Window>, w: Window)
    ensures KindSet(ws + [w]) == KindSet(ws) + {w.kind}
  {
    forall k | k in KindSet(ws + [w]) ensures k in KindSet(ws) + {w.kind} {
      var v :| v in ws + [w] && v.kind == k;
      if v != w { assert v in ws; }
    }
  }

  /** Adding a window appends its entry to the list of its own kind (creating
      the list if the kind is new) and leaves every other kind's list unchanged. */
  lemma {:induction false} GroupByKindSnoc(errorBudget: real, ws: seq<Window>, w: Window)
    ensures var before := GroupByKind(errorBudget, ws);
            GroupByKind(errorBudget, ws + [w])
            == before[w.kind := (if w.kind in before then before[w.kind] else []) + [ToThreshold(errorBudget, w)]]
  {
    var before := GroupByKind(errorBudget, ws);
    var after := GroupByKind(errorBudget, ws + [w]);
    var expected := before[w.kind := (if w.kind in before then before[w.kind] else []) + [ToThreshold(errorBudget, w)]];
    KindSetSnoc(ws, w);
    assert after.Keys == expected.Keys;
    forall k | k in after
      ensures after[k] == expected[k]
    {
      EntriesForSnoc(errorBudget, ws, w, k);
      if k !in before {
        EntriesForAbsent(errorBudget, ws, k);
      }
    }
  }

  /** Every entry stems from a window of that kind, and every window has its
      entry in its own kind's list. */
  lemma GroupByKindMembers(errorBudget: real, ws: seq<Window>)
    ensures forall k, t :: k in GroupByKind(errorBudget, ws) && t in GroupByKind(errorBudget, ws)[k] ==>
              exists w :: w in ws && w.kind == k && t == ToThreshold(errorBudget, w)
    ensures forall w :: w in ws ==>
              w.kind in GroupByKind(errorBudget, ws) && ToThreshold(errorBudget, w) in GroupByKind(errorBudget, ws)[w.kind]
  {
    var m := GroupByKind(errorBudget, ws);
    forall k, t | k in m && t in m[k]
      ensures exists w :: w in ws && w.kind == k && t == ToThreshold(errorBudget, w)
    {
      var p := Positions(KindsOf(ws), k);
      PositionsSound(KindsOf(ws), k);
      var j :| 0 <= j < |p| && m[k][j] == t;
      assert ws[p[j]] in ws;
    }
    forall w | w in ws
      ensures w.kind in m && ToThreshold(errorBudget, w) in m[w.kind]
    {
      var i :| 0 <= i < |ws| && ws[i] == w;
      var p := Positions(KindsOf(ws), w.kind);
      PositionsComplete(KindsOf(ws), w.kind);
      assert i in p;
      var j :| 0 <= j < |p| && p[j] == i;
      assert m[w.kind][j] == ToThreshold(errorBudget, w);
    }
  }

  /** Every entry of the table has a positive threshold. */
  ghost predicate PositiveThresholds(m: ThresholdMap)
  {
    forall k, t :: k in m && t in m[k] ==> t.errorThreshold > 0.0
  }

  /** Windows of at least an hour, with positive burn rates and a positive
      error budget, give a table of positive thresholds. */
  lemma GroupByKindPositive(errorBudget: real, ws: seq<Window>)
    requires errorBudget > 0.0
    requires forall w :: w in ws ==> w.burnRate > 0.0 && w.duration >= Hour
    ensures PositiveThresholds(GroupByKind(errorBudget, ws))
  {
    var m := GroupByKind(errorBudget, ws);
    GroupByKindMembers(errorBudget, ws);
    forall k: string, t: ThresholdData | k in m && t in m[k] ensures t.errorThreshold > 0.0 {
      var w :| w in ws && w.kind == k && t == ToThreshold(errorBudget, w);
      ThresholdPositive(errorBudget, w);
    }
  }

  /** With no windows the table is empty. */
  lemma GroupByKindEmpty(errorBudget: real)
    ensures GroupByKind(errorBudget, []) == map[]
  {
    assert KindSet([]) == {};
  }

  /** The table as the loop builds it: window by window, each entry appended
      to its kind's list. */
  function ThresholdTable(errorBudget: real, ws: seq<Window>): ThresholdMap
  {
    if ws == [] then map[]
    else
      var m := ThresholdTable(errorBudget, ws[..|ws| - 1]);
      var w := ws[|ws| - 1];
      m[w.kind := (if w.kind in m then m[w.kind] else []) + [ToThreshold(errorBudget, w)]]
  }

  /** Building the table window by window gives the grouping by kind. */
  lemma {:induction false} ThresholdTableGroups(errorBudget: real, ws: seq<Window>)
    ensures ThresholdTable(errorBudget, ws) == GroupByKind(errorBudget, ws)
  {
    if ws == [] {
      GroupByKindEmpty(errorBudget);
    } else {
      var init := ws[..|ws| - 1];
      ThresholdTableGroups(errorBudget, init);
      GroupByKindSnoc(errorBudget, init, ws[|ws| - 1]);
      assert init + [ws[|ws| - 1]] == ws;
    }
  }

  /** Builds thresholdMap, appending one entry per window to its kind's list. */
  method BuildThresholdMap(errorBudget: real, windows: seq<Window>) returns (m: ThresholdMap)
    ensures m == GroupByKind(errorBudget, windows)
  {
    m := map[];
    for i := 0 to |windows|
      invariant m == ThresholdTable(errorBudget, windows[..i])
    {
      var w := windows[i];
      var thresholdPerWindow := if w.kind in m then m[w.kind] else [];
      thresholdPerWindow := thresholdPerWindow + [ToThreshold(errorBudget, w)];
      m := m[w.kind := thresholdPerWindow];
      assert windows[..i + 1][..i] == windows[..i];
    }
    assert windows[..|windows|] == windows;
    ThresholdTableGroups(errorBudget, windows);
  }
}
