/** An OTLP metrics export, flattened into attributed points, and the slices and
    groups it is packed into. */
module OtlpModel {
  import opened Common

  // Payloads the splitter never looks into.

  type Payload = Bytes

  datatype Data =
    | Gauge(points: seq<Payload>)
    | Sum(points: seq<Payload>, temporality: int, monotonic: bool)
    | Histogram(points: seq<Payload>, temporality: int)
    | ExponentialHistogram(points: seq<Payload>, temporality: int)
    | Summary(points: seq<Payload>)

  datatype Metric = Metric(name: Bytes, description: Bytes, unit: Bytes, metadata: Payload, data: Option<Data>)

  datatype ScopeMetrics = ScopeMetrics(scope: Option<Payload>, metrics: seq<Metric>, schemaUrl: Bytes)

  datatype ResourceMetrics = ResourceMetrics(resource: Option<Payload>, scopeMetrics: seq<ScopeMetrics>,
                                             schemaUrl: Bytes)

  datatype Request = Request(resourceMetrics: seq<ResourceMetrics>)

  function Points(m: Metric): seq<Payload> {
    if m.data.Some? then m.data.value.points else []
  }

  function PointCount(m: Metric): nat {
    match m.data
    case Some(Gauge(points)) => |points|
    case Some(Sum(points, _, _)) => |points|
    case Some(Histogram(points, _)) => |points|
    case Some(ExponentialHistogram(points, _)) => |points|
    case Some(Summary(points)) => |points|
    case None => 0
  }

  /** `m` with its data points replaced: every other field is kept. */
  function WithPoints(m: Metric, points: seq<Payload>): Metric {
    if m.data.None? then m else m.(data := Some(m.data.value.(points := points)))
  }

  function MetricSlice(m: Metric, start: nat, end: nat): (out: Metric)
    requires start <= end <= PointCount(m)
    ensures Points(out) == Points(m)[start..end]
    ensures WithPoints(out, []) == WithPoints(m, [])
    ensures m.data.None? ==> out == m
    ensures m.data.Some? ==>
              0 <= start <= end <= |m.data.value.points|
              && out == m.(data := Some(m.data.value.(points := m.data.value.points[start..end])))
  {
    match m.data
    case Some(Gauge(points)) => m.(data := Some(Gauge(points[start..end])))
    case Some(Sum(points, t, mono)) => m.(data := Some(Sum(points[start..end], t, mono)))
    case Some(Histogram(points, t)) => m.(data := Some(Histogram(points[start..end], t)))
    case Some(ExponentialHistogram(points, t)) => m.(data := Some(ExponentialHistogram(points[start..end], t)))
    case Some(Summary(points)) => m.(data := Some(Summary(points[start..end])))
    case None => m
  }

  // ----- attributed points --------------------------------------------------

  /** One data point with everything it is reported under. */
  datatype Row = Row(resource: Option<Payload>, resourceSchema: Bytes, scope: Option<Payload>, scopeSchema: Bytes,
                     metric: Metric, point: Payload)

  function MetricRows(rm: ResourceMetrics, sm: ScopeMetrics, m: Metric): (rows: seq<Row>)
    ensures |rows| == PointCount(m)
  {
    seq(|Points(m)|, i requires 0 <= i < |Points(m)| =>
      Row(rm.resource, rm.schemaUrl, sm.scope, sm.schemaUrl, WithPoints(m, []), Points(m)[i]))
  }

  /** One row for each point, with the point, the metric without its points, and all that
      is said of its scope and its resource. */
  lemma RowIs(rm: ResourceMetrics, sm: ScopeMetrics, m: Metric, i: nat)
    ensures |MetricRows(rm, sm, m)| == if m.data.Some? then |m.data.value.points| else 0
    ensures i < |MetricRows(rm, sm, m)| ==>
              var row := MetricRows(rm, sm, m)[i];
              && row.point == m.data.value.points[i]
              && row.metric == m.(data := Some(m.data.value.(points := [])))
              && row.scope == sm.scope && row.scopeSchema == sm.schemaUrl
              && row.resource == rm.resource && row.resourceSchema == rm.schemaUrl
  {
    assert m.data.Some? ==> WithPoints(m, []) == m.(data := Some(m.data.value.(points := [])));
  }

  function MetricsRows(rm: ResourceMetrics, sm: ScopeMetrics, ms: seq<Metric>): seq<Row> {
    if ms == [] then []
    else MetricsRows(rm, sm, ms[..|ms| - 1]) + MetricRows(rm, sm, ms[|ms| - 1])
  }

  function ScopesRows(rm: ResourceMetrics, sms: seq<ScopeMetrics>): seq<Row> {
    if sms == [] then []
    else ScopesRows(rm, sms[..|sms| - 1]) + MetricsRows(rm, sms[|sms| - 1], sms[|sms| - 1].metrics)
  }

  function ResourcesRows(rms: seq<ResourceMetrics>): seq<Row> {
    if rms == [] then []
    else ResourcesRows(rms[..|rms| - 1]) + ScopesRows(rms[|rms| - 1], rms[|rms| - 1].scopeMetrics)
  }

  /** The export as the ordered sequence of its attributed points. */
  function Rows(req: Request): seq<Row> {
    ResourcesRows(req.resourceMetrics)
  }

  // ----- point counts -------------------------------------------------------

  function MetricsPoints(ms: seq<Metric>): nat {
    if ms == [] then 0 else MetricsPoints(ms[..|ms| - 1]) + PointCount(ms[|ms| - 1])
  }

  function ScopesPoints(sms: seq<ScopeMetrics>): nat {
    if sms == [] then 0 else ScopesPoints(sms[..|sms| - 1]) + MetricsPoints(sms[|sms| - 1].metrics)
  }

  function ResourcesPoints(rms: seq<ResourceMetrics>): nat {
    if rms == [] then 0 else ResourcesPoints(rms[..|rms| - 1]) + ScopesPoints(rms[|rms| - 1].scopeMetrics)
  }

  /** `iter().flat_map(..).flat_map(..).map(point_count).sum()` */
  function TotalPoints(req: Request): nat {
    ResourcesPoints(req.resourceMetrics)
  }

  lemma {:induction false} MetricsRowsCount(rm: ResourceMetrics, sm: ScopeMetrics, ms: seq<Metric>)
    ensures |MetricsRows(rm, sm, ms)| == MetricsPoints(ms)
  {
    if ms != [] {
      MetricsRowsCount(rm, sm, ms[..|ms| - 1]);
    }
  }

  lemma {:induction false} ScopesRowsCount(rm: ResourceMetrics, sms: seq<ScopeMetrics>)
    ensures |ScopesRows(rm, sms)| == ScopesPoints(sms)
  {
    if sms != [] {
      ScopesRowsCount(rm, sms[..|sms| - 1]);
      MetricsRowsCount(rm, sms[|sms| - 1], sms[|sms| - 1].metrics);
    }
  }

  lemma {:induction false} ResourcesRowsCount(rms: seq<ResourceMetrics>)
    ensures |ResourcesRows(rms)| == ResourcesPoints(rms)
  {
    if rms != [] {
      ResourcesRowsCount(rms[..|rms| - 1]);
      ScopesRowsCount(rms[|rms| - 1], rms[|rms| - 1].scopeMetrics);
    }
  }

  /** The total counted is the number of attributed points. */
  lemma TotalIsRows(req: Request)
    ensures TotalPoints(req) == |Rows(req)|
  {
    ResourcesRowsCount(req.resourceMetrics);
  }

  // ----- slices -------------------------------------------------------------

  /** A piece of a metric, with the positions of the resource and scope it comes from. */
  datatype Slice = Slice(ri: nat, si: nat, metric: Metric)

  function Size(s: Slice): nat {
    PointCount(s.metric)
  }

  function Weight(ss: seq<Slice>): nat {
    if ss == [] then 0 else Weight(ss[..|ss| - 1]) + Size(ss[|ss| - 1])
  }

  /** `ceil(n / max)` */
  function SliceCount(n: nat, max: nat): nat
    requires max >= 1
  {
    (n + max - 1) / max
  }

  /** `k` slices of `max` points do not cover `n` points exactly while `k` is below the count. */
  lemma SliceCountBounds(n: nat, max: nat, k: nat)
    requires max >= 1
    ensures k < SliceCount(n, max) <==> k * max < n
  {
    var c := SliceCount(n, max);
    Quotient(n + max - 1, max);
    if k < c {
      TimesMonotone(k + 1, c, max);
      TimesNext(k, max);
    } else {
      TimesMonotone(c, k, max);
    }
  }

  /** Piece `k` of a metric: its points from `k * max`, `max` of them or what is left. */
  function MetricPiece(ri: nat, si: nat, m: Metric, max: nat, k: nat): (s: Slice)
    requires max >= 1 && k < SliceCount(PointCount(m), max)
    ensures 1 <= Size(s) <= max
  {
    SliceCountBounds(PointCount(m), max, k);
    TimesNext(k, max);
    Slice(ri, si, MetricSlice(m, k * max, Min((k + 1) * max, PointCount(m))))
  }

  function MetricSlices(ri: nat, si: nat, m: Metric, max: nat): (ss: seq<Slice>)
    requires max >= 1
    ensures |ss| == SliceCount(PointCount(m), max)
    ensures forall i :: 0 <= i < |ss| ==> ss[i].ri == ri && ss[i].si == si
  {
    seq(SliceCount(PointCount(m), max), k requires 0 <= k < SliceCount(PointCount(m), max) =>
      MetricPiece(ri, si, m, max, k))
  }

  function ScopeSlices(ri: nat, si: nat, ms: seq<Metric>, max: nat): seq<Slice>
    requires max >= 1
  {
    if ms == [] then []
    else ScopeSlices(ri, si, ms[..|ms| - 1], max) + MetricSlices(ri, si, ms[|ms| - 1], max)
  }

  function ResourceSlices(ri: nat, sms: seq<ScopeMetrics>, max: nat): seq<Slice>
    requires max >= 1
  {
    if sms == [] then []
    else ResourceSlices(ri, sms[..|sms| - 1], max) + ScopeSlices(ri, |sms| - 1, sms[|sms| - 1].metrics, max)
  }

  function RequestSlices(rms: seq<ResourceMetrics>, max: nat): seq<Slice>
    requires max >= 1
  {
    if rms == [] then []
    else RequestSlices(rms[..|rms| - 1], max) + ResourceSlices(|rms| - 1, rms[|rms| - 1].scopeMetrics, max)
  }

  /** All pieces of an export, in source order. */
  function AllSlices(req: Request, max: nat): seq<Slice>
    requires max >= 1
  {
    RequestSlices(req.resourceMetrics, max)
  }

  // ----- where slices belong ------------------------------------------------

  predicate Within(rms: seq<ResourceMetrics>, s: Slice) {
    s.ri < |rms| && s.si < |rms[s.ri].scopeMetrics|
  }

  predicate NotAfter(a: Slice, b: Slice) {
    a.ri < b.ri || (a.ri == b.ri && a.si <= b.si)
  }

  predicate AllWithin(rms: seq<ResourceMetrics>, ss: seq<Slice>) {
    forall i :: 0 <= i < |ss| ==> Within(rms, ss[i])
  }

  /** Slices in source order. */
  predicate InOrder(ss: seq<Slice>) {
    forall i, j :: 0 <= i < j < |ss| ==> NotAfter(ss[i], ss[j])
  }

  predicate Sized(ss: seq<Slice>, max: nat) {
    forall i :: 0 <= i < |ss| ==> 1 <= Size(ss[i]) <= max
  }

  /** The rows of a slice: its points under the shells it was cut from. */
  function SliceRows(rms: seq<ResourceMetrics>, s: Slice): seq<Row>
    requires Within(rms, s)
  {
    MetricRows(rms[s.ri], rms[s.ri].scopeMetrics[s.si], s.metric)
  }

  function SlicesRows(rms: seq<ResourceMetrics>, ss: seq<Slice>): seq<Row>
    requires AllWithin(rms, ss)
  {
    if ss == [] then [] else SlicesRows(rms, ss[..|ss| - 1]) + SliceRows(rms, ss[|ss| - 1])
  }

  lemma SlicesRowsSnoc(rms: seq<ResourceMetrics>, a: seq<Slice>, x: Slice)
    requires AllWithin(rms, a) && Within(rms, x)
    ensures AllWithin(rms, a + [x])
    ensures SlicesRows(rms, a + [x]) == SlicesRows(rms, a) + SliceRows(rms, x)
  {
    assert (a + [x])[..|a|] == a;
  }

  lemma {:induction false} SlicesRowsAppend(rms: seq<ResourceMetrics>, a: seq<Slice>, b: seq<Slice>)
    requires AllWithin(rms, a) && AllWithin(rms, b)
    ensures AllWithin(rms, a + b)
    ensures SlicesRows(rms, a + b) == SlicesRows(rms, a) + SlicesRows(rms, b)
  {
    if b == [] {
      assert a + b == a;
    } else {
      var init, last := b[..|b| - 1], b[|b| - 1];
      assert AllWithin(rms, init) && Within(rms, last);
      hide AllWithin, Within, SlicesRows, SliceRows;
      SlicesRowsAppend(rms, a, init);
      SlicesRowsSnoc(rms, a + init, last);
      SlicesRowsSnoc(rms, init, last);
      Snoc(a, b);
      ConcatAssoc(SlicesRows(rms, a), SlicesRows(rms, init), SliceRows(rms, last));
    }
  }

  lemma {:induction false} WeightAppend(a: seq<Slice>, b: seq<Slice>)
    ensures Weight(a + b) == Weight(a) + Weight(b)
  {
    if b == [] {
      assert a + b == a;
    } else {
      WeightAppend(a, b[..|b| - 1]);
      assert (a + b)[..|a + b| - 1] == a + b[..|b| - 1];
    }
  }

  lemma {:induction false} WeightIsRows(rms: seq<ResourceMetrics>, ss: seq<Slice>)
    requires AllWithin(rms, ss)
    ensures |SlicesRows(rms, ss)| == Weight(ss)
  {
    if ss != [] {
      WeightIsRows(rms, ss[..|ss| - 1]);
    }
  }

  // ----- slicing loses nothing ----------------------------------------------

  lemma TakeSlice<T>(s: seq<T>, lo: nat, hi: nat)
    requires lo <= hi <= |s|
    ensures s[..lo] + s[lo..hi] == s[..hi]
  {
  }

  /** Where the pieces before piece `k` end. */
  function CutAt(n: nat, max: nat, k: nat): (cut: nat)
    ensures cut <= n
  {
    Min(k * max, n)
  }

  lemma PieceRows(rm: ResourceMetrics, sm: ScopeMetrics, ri: nat, si: nat, m: Metric, max: nat, k: nat)
    requires max >= 1 && k < SliceCount(PointCount(m), max)
    ensures var n := PointCount(m);
            CutAt(n, max, k) < CutAt(n, max, k + 1)
            && MetricRows(rm, sm, MetricPiece(ri, si, m, max, k).metric)
               == MetricRows(rm, sm, m)[CutAt(n, max, k)..CutAt(n, max, k + 1)]
  {
    SliceCountBounds(PointCount(m), max, k);
    TimesNext(k, max);
  }

  /** The next slice extends the rows carried so far. */
  lemma OneSliceMore(rms: seq<ResourceMetrics>, ss: seq<Slice>, k: nat, rows: seq<Row>, lo: nat, hi: nat)
    requires AllWithin(rms, ss) && k < |ss| && lo <= hi <= |rows|
    requires SlicesRows(rms, ss[..k]) == rows[..lo] && SliceRows(rms, ss[k]) == rows[lo..hi]
    ensures SlicesRows(rms, ss[..k + 1]) == rows[..hi]
  {
    hide SlicesRows, SliceRows;
    assert ss[..k + 1] == ss[..k] + [ss[k]];
    SlicesRowsSnoc(rms, ss[..k], ss[k]);
    TakeSlice(rows, lo, hi);
  }

  lemma NextPiece(rms: seq<ResourceMetrics>, ri: nat, si: nat, m: Metric, max: nat, k: nat)
    requires max >= 1 && k < SliceCount(PointCount(m), max)
    requires ri < |rms| && si < |rms[ri].scopeMetrics|
    requires SlicesRows(rms, MetricSlices(ri, si, m, max)[..k])
          == MetricRows(rms[ri], rms[ri].scopeMetrics[si], m)[..CutAt(PointCount(m), max, k)]
    ensures SlicesRows(rms, MetricSlices(ri, si, m, max)[..k + 1])
         == MetricRows(rms[ri], rms[ri].scopeMetrics[si], m)[..CutAt(PointCount(m), max, k + 1)]
  {
    var ss := MetricSlices(ri, si, m, max);
    assert ss[k] == MetricPiece(ri, si, m, max, k);
    hide SlicesRows, MetricRows, MetricPiece, MetricSlices, SliceCount, PointCount, CutAt;
    PieceRows(rms[ri], rms[ri].scopeMetrics[si], ri, si, m, max, k);
    OneSliceMore(rms, ss, k, MetricRows(rms[ri], rms[ri].scopeMetrics[si], m), CutAt(PointCount(m), max, k),
                 CutAt(PointCount(m), max, k + 1));
  }

  /** The first `k` pieces of a metric carry its first points, in order. */
  lemma {:induction false} PiecesRows(rms: seq<ResourceMetrics>, ri: nat, si: nat, m: Metric, max: nat, k: nat)
    requires max >= 1 && k <= SliceCount(PointCount(m), max)
    requires ri < |rms| && si < |rms[ri].scopeMetrics|
    ensures SlicesRows(rms, MetricSlices(ri, si, m, max)[..k])
         == MetricRows(rms[ri], rms[ri].scopeMetrics[si], m)[..CutAt(PointCount(m), max, k)]
  {
    if k > 0 {
      hide SlicesRows, MetricRows, MetricSlices, SliceCount, PointCount, CutAt;
      PiecesRows(rms, ri, si, m, max, k - 1);
      NextPiece(rms, ri, si, m, max, k - 1);
    }
  }

  lemma MetricSlicesRows(rms: seq<ResourceMetrics>, ri: nat, si: nat, m: Metric, max: nat)
    requires max >= 1 && ri < |rms| && si < |rms[ri].scopeMetrics|
    ensures SlicesRows(rms, MetricSlices(ri, si, m, max)) == MetricRows(rms[ri], rms[ri].scopeMetrics[si], m)
  {
    var c := SliceCount(PointCount(m), max);
    PiecesRows(rms, ri, si, m, max, c);
    SliceCountBounds(PointCount(m), max, c);
    assert MetricSlices(ri, si, m, max)[..c] == MetricSlices(ri, si, m, max);
  }

  lemma {:induction false} ScopeSlicesRows(rms: seq<ResourceMetrics>, ri: nat, si: nat, ms: seq<Metric>, max: nat)
    requires max >= 1 && ri < |rms| && si < |rms[ri].scopeMetrics|
    ensures AllWithin(rms, ScopeSlices(ri, si, ms, max))
    ensures SlicesRows(rms, ScopeSlices(ri, si, ms, max)) == MetricsRows(rms[ri], rms[ri].scopeMetrics[si], ms)
  {
    if ms != [] {
      var init, last := ms[..|ms| - 1], ms[|ms| - 1];
      hide SlicesRows, MetricSlices, MetricRows;
      ScopeSlicesRows(rms, ri, si, init, max);
      MetricSlicesRows(rms, ri, si, last, max);
      SlicesRowsAppend(rms, ScopeSlices(ri, si, init, max), MetricSlices(ri, si, last, max));
    }
  }

  lemma {:induction false} ResourceSlicesRows(rms: seq<ResourceMetrics>, ri: nat, k: nat, max: nat)
    requires max >= 1 && ri < |rms| && k <= |rms[ri].scopeMetrics|
    ensures AllWithin(rms, ResourceSlices(ri, rms[ri].scopeMetrics[..k], max))
    ensures SlicesRows(rms, ResourceSlices(ri, rms[ri].scopeMetrics[..k], max))
         == ScopesRows(rms[ri], rms[ri].scopeMetrics[..k])
  {
    var sms := rms[ri].scopeMetrics;
    if k > 0 {
      assert sms[..k][..k - 1] == sms[..k - 1];
      assert ScopesRows(rms[ri], sms[..k])
          == ScopesRows(rms[ri], sms[..k - 1]) + MetricsRows(rms[ri], sms[k - 1], sms[k - 1].metrics);
      assert ResourceSlices(ri, sms[..k], max)
          == ResourceSlices(ri, sms[..k - 1], max) + ScopeSlices(ri, k - 1, sms[k - 1].metrics, max);
      hide SlicesRows, ScopesRows, MetricsRows, ResourceSlices, ScopeSlices;
      ResourceSlicesRows(rms, ri, k - 1, max);
      ScopeSlicesRows(rms, ri, k - 1, sms[k - 1].metrics, max);
      SlicesRowsAppend(rms, ResourceSlices(ri, sms[..k - 1], max), ScopeSlices(ri, k - 1, sms[k - 1].metrics, max));
    }
  }

  lemma {:induction false} RequestSlicesRows(rms: seq<ResourceMetrics>, k: nat, max: nat)
    requires max >= 1 && k <= |rms|
    ensures AllWithin(rms, RequestSlices(rms[..k], max))
    ensures SlicesRows(rms, RequestSlices(rms[..k], max)) == ResourcesRows(rms[..k])
  {
    if k > 0 {
      var sms := rms[k - 1].scopeMetrics;
      assert sms[..|sms|] == sms;
      assert rms[..k][..k - 1] == rms[..k - 1];
      assert ResourcesRows(rms[..k]) == ResourcesRows(rms[..k - 1]) + ScopesRows(rms[k - 1], sms);
      assert RequestSlices(rms[..k], max) == RequestSlices(rms[..k - 1], max) + ResourceSlices(k - 1, sms, max);
      hide SlicesRows, ResourcesRows, ScopesRows, RequestSlices, ResourceSlices;
      RequestSlicesRows(rms, k - 1, max);
      ResourceSlicesRows(rms, k - 1, |sms|, max);
      SlicesRowsAppend(rms, RequestSlices(rms[..k - 1], max), ResourceSlices(k - 1, sms, max));
    }
  }

  // ----- slices follow the source -------------------------------------------

  lemma OrderedAppend(a: seq<Slice>, b: seq<Slice>, max: nat)
    requires InOrder(a) && InOrder(b) && Sized(a, max) && Sized(b, max)
    requires forall i, j :: 0 <= i < |a| && 0 <= j < |b| ==> NotAfter(a[i], b[j])
    ensures InOrder(a + b) && Sized(a + b, max)
  {
  }

  lemma {:induction false} ScopeSlicesInOrder(ri: nat, si: nat, ms: seq<Metric>, max: nat)
    requires max >= 1
    ensures var ss := ScopeSlices(ri, si, ms, max);
            InOrder(ss) && Sized(ss, max) && forall i :: 0 <= i < |ss| ==> ss[i].ri == ri && ss[i].si == si
  {
    if ms != [] {
      var init, last := ms[..|ms| - 1], ms[|ms| - 1];
      ScopeSlicesInOrder(ri, si, init, max);
      OrderedAppend(ScopeSlices(ri, si, init, max), MetricSlices(ri, si, last, max), max);
    }
  }

  lemma {:induction false} ResourceSlicesInOrder(ri: nat, sms: seq<ScopeMetrics>, max: nat)
    requires max >= 1
    ensures var ss := ResourceSlices(ri, sms, max);
            InOrder(ss) && Sized(ss, max) && forall i :: 0 <= i < |ss| ==> ss[i].ri == ri && ss[i].si < |sms|
  {
    if sms != [] {
      var init, last := sms[..|sms| - 1], sms[|sms| - 1];
      ResourceSlicesInOrder(ri, init, max);
      ScopeSlicesInOrder(ri, |sms| - 1, last.metrics, max);
      OrderedAppend(ResourceSlices(ri, init, max), ScopeSlices(ri, |sms| - 1, last.metrics, max), max);
    }
  }

  lemma {:induction false} RequestSlicesInOrder(rms: seq<ResourceMetrics>, max: nat)
    requires max >= 1
    ensures var ss := RequestSlices(rms, max);
            InOrder(ss) && Sized(ss, max) && forall i :: 0 <= i < |ss| ==> ss[i].ri < |rms|
  {
    if rms != [] {
      var init, last := rms[..|rms| - 1], rms[|rms| - 1];
      RequestSlicesInOrder(init, max);
      ResourceSlicesInOrder(|rms| - 1, last.scopeMetrics, max);
      OrderedAppend(RequestSlices(init, max), ResourceSlices(|rms| - 1, last.scopeMetrics, max), max);
    }
  }

  /** Slicing keeps every attributed point, once and in order, in pieces of 1 to
      `max` points that follow the source. */
  lemma SlicingConserves(req: Request, max: nat)
    requires max >= 1
    ensures InOrder(AllSlices(req, max)) && Sized(AllSlices(req, max), max)
    ensures AllWithin(req.resourceMetrics, AllSlices(req, max))
    ensures SlicesRows(req.resourceMetrics, AllSlices(req, max)) == Rows(req)
  {
    var rms := req.resourceMetrics;
    RequestSlicesRows(rms, |rms|, max);
    RequestSlicesInOrder(rms, max);
    assert rms[..|rms|] == rms;
  }
}
