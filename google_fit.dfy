/**
 * What the fitness service reads out of Google Fit responses: the step
 * count at a fixed path with 0 as the default, and the heart rate of the
 * latest data point, chosen by a `reduce` that compares `startTimeNanos`
 * as strings.
 */
module GoogleFit {
  import opened Wrappers

  datatype Value = Value(intVal: Option<int>, fpVal: Option<real>)

  datatype DataPoint = DataPoint(startTimeNanos: Option<string>, value: Option<seq<Value>>)

  datatype Dataset = Dataset(point: Option<seq<DataPoint>>)

  datatype Bucket = Bucket(dataset: Option<seq<Dataset>>)

  /** `xs?.[0]` */
  function First<T>(xs: Option<seq<T>>): (r: Option<T>)
    ensures r.Some? <==> xs.Some? && |xs.value| > 0
    ensures r.Some? ==> r.value == xs.value[0]
  {
    if xs.Some? && |xs.value| > 0 then Some(xs.value[0]) else None
  }

  /** `bucket?.[0]?.dataset?.[0]?.point?.[0]?.value?.[0]?.intVal` */
  function FirstIntVal(bucket: Option<seq<Bucket>>): Option<int> {
    match First(bucket)
    case None => None
    case Some(b) =>
      match First(b.dataset)
      case None => None
      case Some(d) =>
        match First(d.point)
        case None => None
        case Some(p) =>
          match First(p.value)
          case None => None
          case Some(v) => v.intVal
  }

  /** The step count: the value at the path, or 0 when any link is missing or the value is 0. */
  function Steps(bucket: Option<seq<Bucket>>): (r: int)
    ensures FirstIntVal(bucket).None? ==> r == 0
    ensures FirstIntVal(bucket).Some? ==> r == FirstIntVal(bucket).value
  {
    match FirstIntVal(bucket)
    case Some(v) => if v != 0 then v else 0
    case None => 0
  }

  // ---------------------------------------------------------------------
  // String order

  /** `a > b` on strings: lexicographic, a proper prefix being smaller. */
  predicate Later(a: string, b: string) {
    if b == [] then a != []
    else if a == [] then false
    else if a[0] != b[0] then a[0] > b[0]
    else Later(a[1..], b[1..])
  }

  lemma {:induction false} LaterIrreflexive(a: string)
    ensures !Later(a, a)
  {
    if a != [] {
      LaterIrreflexive(a[1..]);
    }
  }

  lemma {:induction false} LaterAsymmetric(a: string, b: string)
    ensures Later(a, b) ==> !Later(b, a)
  {
    if a != [] && b != [] && a[0] == b[0] {
      LaterAsymmetric(a[1..], b[1..]);
    }
  }

  lemma {:induction false} LaterTotal(a: string, b: string)
    ensures a == b || Later(a, b) || Later(b, a)
  {
    if a != [] && b != [] && a[0] == b[0] {
      LaterTotal(a[1..], b[1..]);
      if a[1..] == b[1..] {
        assert a == [a[0]] + a[1..] && b == [b[0]] + b[1..];
      }
    }
  }

  lemma {:induction false} LaterTransitive(a: string, b: string, c: string)
    ensures Later(a, b) && Later(b, c) ==> Later(a, c)
  {
    if a != [] && b != [] && c != [] && a[0] == b[0] && b[0] == c[0] {
      LaterTransitive(a[1..], b[1..], c[1..]);
    }
  }

  // ---------------------------------------------------------------------
  // Latest heart-rate point

  /** `startTimeNanos`, with a missing one read as empty (both are falsy). */
  function Nanos(p: DataPoint): string {
    match p.startTimeNanos
    case Some(s) => s
    case None => ""
  }

  predicate HasTime(p: DataPoint) {
    Nanos(p) != ""
  }

  /** The reducer: keep the current choice unless both have a time and the new one is later. */
  function Pick(latest: DataPoint, point: DataPoint): (r: DataPoint)
    ensures r == latest || r == point
    ensures !HasTime(point) || !HasTime(latest) ==> r == latest
    ensures r == point && r != latest ==> Later(Nanos(point), Nanos(latest))
  {
    if !HasTime(point) || !HasTime(latest) then latest
    else if Later(Nanos(point), Nanos(latest)) then point
    else latest
  }

  /** `points.slice(i).reduce(pick, latest)` */
  function ReduceFrom(latest: DataPoint, points: seq<DataPoint>, i: nat): DataPoint
    requires i <= |points|
    decreases |points| - i
  {
    if i == |points| then latest else ReduceFrom(Pick(latest, points[i]), points, i + 1)
  }

  /** `points.reduce(pick, points[0])` */
  function LatestPoint(points: seq<DataPoint>): DataPoint
    requires |points| > 0
  {
    ReduceFrom(points[0], points, 0)
  }

  lemma {:induction false} ReduceFromMember(latest: DataPoint, points: seq<DataPoint>, i: nat)
    requires i <= |points|
    ensures var r := ReduceFrom(latest, points, i);
      r == latest || exists j :: i <= j < |points| && r == points[j]
    decreases |points| - i
  {
    if i < |points| {
      ReduceFromMember(Pick(latest, points[i]), points, i + 1);
    }
  }

  /** The chosen point is one of the points. */
  lemma LatestIsMember(points: seq<DataPoint>)
    requires |points| > 0
    ensures LatestPoint(points) in points
  {
    ReduceFromMember(points[0], points, 0);
  }

  lemma {:induction false} TimelessChoiceStays(latest: DataPoint, points: seq<DataPoint>, i: nat)
    requires i <= |points| && !HasTime(latest)
    ensures ReduceFrom(latest, points, i) == latest
    decreases |points| - i
  {
    if i < |points| {
      TimelessChoiceStays(latest, points, i + 1);
    }
  }

  /** A first point without a time is chosen whatever follows. */
  lemma TimelessFirstChosen(points: seq<DataPoint>)
    requires |points| > 0 && !HasTime(points[0])
    ensures LatestPoint(points) == points[0]
  {
    TimelessChoiceStays(points[0], points, 0);
  }

  /** `points[k]` has a time, no timed point is later, and every timed point before it is earlier. */
  predicate EarliestLatestAt(points: seq<DataPoint>, k: int) {
    0 <= k < |points| && HasTime(points[k])
    && (forall j :: 0 <= j < |points| && HasTime(points[j]) ==> !Later(Nanos(points[j]), Nanos(points[k])))
    && (forall j :: 0 <= j < k && HasTime(points[j]) ==> Later(Nanos(points[k]), Nanos(points[j])))
  }

  lemma ReduceKeepsEarliestLatest(points: seq<DataPoint>, k: nat, i: nat)
    requires 0 <= k < i <= |points| && HasTime(points[k])
    requires forall j :: 0 <= j < i && HasTime(points[j]) ==> !Later(Nanos(points[j]), Nanos(points[k]))
    requires forall j :: 0 <= j < k && HasTime(points[j]) ==> Later(Nanos(points[k]), Nanos(points[j]))
    ensures exists m :: EarliestLatestAt(points, m) && ReduceFrom(points[k], points, i) == points[m]
  {
    var m := ReducedIndex(points, k, i);
  }

  /** The index of the point the reduce ends with, when it starts from the latest of the first `i`. */
  lemma {:induction false} ReducedIndex(points: seq<DataPoint>, k: nat, i: nat) returns (m: nat)
    requires 0 <= k < i <= |points| && HasTime(points[k])
    requires forall j :: 0 <= j < i && HasTime(points[j]) ==> !Later(Nanos(points[j]), Nanos(points[k]))
    requires forall j :: 0 <= j < k && HasTime(points[j]) ==> Later(Nanos(points[k]), Nanos(points[j]))
    ensures EarliestLatestAt(points, m) && ReduceFrom(points[k], points, i) == points[m]
    decreases |points| - i
  {
    if i == |points| {
      m := k;
    } else {
      var cur, p := points[k], points[i];
      if HasTime(p) && Later(Nanos(p), Nanos(cur)) {
        assert Pick(cur, p) == p;
        LaterPointTakesOver(points, k, i);
        m := ReducedIndex(points, i, i + 1);
      } else {
        assert Pick(cur, p) == cur;
        if HasTime(p) {
          LaterTotal(Nanos(p), Nanos(cur));
        }
        m := ReducedIndex(points, k, i + 1);
      }
    }
  }

  /** A point later than the latest so far is the new latest, and strictly later than every point before it. */
  lemma LaterPointTakesOver(points: seq<DataPoint>, k: nat, i: nat)
    requires 0 <= k < i < |points| && HasTime(points[k]) && HasTime(points[i])
    requires Later(Nanos(points[i]), Nanos(points[k]))
    requires forall j :: 0 <= j < i && HasTime(points[j]) ==> !Later(Nanos(points[j]), Nanos(points[k]))
    ensures forall j :: 0 <= j < i + 1 && HasTime(points[j]) ==> !Later(Nanos(points[j]), Nanos(points[i]))
    ensures forall j :: 0 <= j < i && HasTime(points[j]) ==> Later(Nanos(points[i]), Nanos(points[j]))
  {
    var cur, p := points[k], points[i];
    forall j | 0 <= j < i + 1 && HasTime(points[j])
      ensures !Later(Nanos(points[j]), Nanos(p)) && (j < i ==> Later(Nanos(p), Nanos(points[j])))
    {
      if j == i {
        LaterIrreflexive(Nanos(p));
      } else {
        var nj := Nanos(points[j]);
        LaterTotal(nj, Nanos(cur));
        LaterTransitive(Nanos(p), Nanos(cur), nj);
        LaterAsymmetric(Nanos(p), nj);
      }
    }
  }

  /**
   * When the first point has a time, the choice is the earliest of the
   * points with the greatest time in string order.
   */
  lemma LatestIsEarliestGreatest(points: seq<DataPoint>)
    requires |points| > 0 && HasTime(points[0])
    ensures exists m :: EarliestLatestAt(points, m) && LatestPoint(points) == points[m]
  {
    LaterIrreflexive(Nanos(points[0]));
    assert Pick(points[0], points[0]) == points[0];
    ReduceKeepsEarliestLatest(points, 0, 1);
  }

  /** The heart rate: the first `fpVal` of the chosen point, or none when the list is empty or that value is missing or 0. */
  function HeartRate(point: Option<seq<DataPoint>>): (r: Option<real>)
    ensures (point.None? || |point.value| == 0) ==> r.None?
    ensures r.Some? ==> r.value != 0.0
    ensures r.Some? ==>
      (point.Some? && |point.value| > 0
       && First(LatestPoint(point.value).value).Some?
       && r == First(LatestPoint(point.value).value).value.fpVal)
    ensures point.Some? && |point.value| > 0 && First(LatestPoint(point.value).value).Some? ==>
      var fp := First(LatestPoint(point.value).value).value.fpVal;
      fp.Some? && fp.value != 0.0 ==> r == fp
  {
    var points := if point.Some? then point.value else [];
    if |points| == 0 then None
    else
      match First(LatestPoint(points).value)
      case Some(v) =>
        if v.fpVal.Some? && v.fpVal.value != 0.0 then v.fpVal else None
      case None => None
  }
}
