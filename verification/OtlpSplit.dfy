/** The splitter itself, with its cursors. */
module OtlpSplit {
  import opened Common
  import opened OtlpModel
  import opened OtlpPacking
  import opened OtlpProject

  /** The protobuf codec of an export request. */
  datatype Wire = Wire(decode: Bytes -> Option<Request>, encode: Request -> Bytes)

  ghost predicate RoundTrips(wire: Wire) {
    forall req :: wire.decode(wire.encode(req)) == Some(req)
  }

  const USIZE_MAX: nat := TWO_64 - 1

  /** An export in memory: no list reaches the cursors' "none" value. */
  predicate InMemory(req: Request) {
    && |req.resourceMetrics| <= USIZE_MAX
    && forall rm :: rm in req.resourceMetrics ==> |rm.scopeMetrics| <= USIZE_MAX
  }

  function Encoded(wire: Wire, req: Request, gs: seq<seq<Slice>>): (out: seq<Bytes>)
    ensures |out| == |gs|
    ensures forall i :: 0 <= i < |gs| ==> out[i] == wire.encode(Project(req.resourceMetrics, gs[i]))
  {
    seq(|gs|, i requires 0 <= i < |gs| => wire.encode(Project(req.resourceMetrics, gs[i])))
  }

  /** The splitter's variables: requests done, the open one, its points, and which
      source resource and scope its open shells mirror. */
  datatype Splitter = Splitter(chunks: seq<Bytes>, current: Request, points: nat, curRi: nat, curSi: nat)

  /** The variables stand for the slices of `open`, all at or before (`ri`, `si`). */
  predicate Tracks(rms: seq<ResourceMetrics>, open: seq<Slice>, st: Splitter) {
    && AllWithin(rms, open)
    && st.current == Project(rms, open)
    && st.points == Weight(open)
    && (if open == [] then st.curRi == USIZE_MAX && st.curSi == USIZE_MAX
        else st.curRi == open[|open| - 1].ri && st.curSi == open[|open| - 1].si
             && UpTo(rms, open, st.curRi, st.curSi))
  }

  // ----- one piece ----------------------------------------------------------

  /** Open the shells a piece needs and push it into them. `closedR`, `closedS` and
      `ms` describe what is open: the resource shells before the piece's, the scope
      shells before the piece's, and the metrics already in its scope. */
  method PushIntoShells(rm: ResourceMetrics, sm: ScopeMetrics, st: Splitter, ri: nat, si: nat, piece: Metric,
                        ghost closedR: seq<ResourceMetrics>, ghost closedS: seq<ScopeMetrics>,
                        ghost ms: seq<Metric>)
    returns (st': Splitter)
    requires ri < USIZE_MAX && si < USIZE_MAX
    requires st.curRi != ri ==> closedS == [] && st.current.resourceMetrics == closedR
    requires st.curRi != ri || st.curSi != si ==> ms == []
    requires st.curRi == ri ==>
               st.current.resourceMetrics
               == closedR + [ResourceShell(rm, closedS + (if st.curSi == si then [ScopeShell(sm, ms)] else []))]
    ensures st'.current.resourceMetrics
         == closedR + [ResourceShell(rm, closedS + [ScopeShell(sm, ms + [piece])])]
    ensures st'.curRi == ri && st'.curSi == si
    ensures st'.chunks == st.chunks && st'.points == st.points + PointCount(piece)
  {
    var current, curRi, curSi := st.current, st.curRi, st.curSi;
    if curRi != ri {
      current := Request(current.resourceMetrics + [ResourceMetrics(rm.resource, [], rm.schemaUrl)]);
      curRi := ri;
      curSi := USIZE_MAX;
    }
    var lastR := |current.resourceMetrics| - 1;
    var curRm := current.resourceMetrics[lastR];
    assert current.resourceMetrics[..lastR] == closedR;
    if curSi != si {
      curRm := curRm.(scopeMetrics := curRm.scopeMetrics + [ScopeMetrics(sm.scope, [], sm.schemaUrl)]);
      curSi := si;
    }
    assert curRm.scopeMetrics == closedS + [ScopeShell(sm, ms)];
    var lastS := |curRm.scopeMetrics| - 1;
    var curSm := curRm.scopeMetrics[lastS];
    curSm := curSm.(metrics := curSm.metrics + [piece]);
    curRm := curRm.(scopeMetrics := curRm.scopeMetrics[..lastS] + [curSm]);
    current := Request(current.resourceMetrics[..lastR] + [curRm]);
    st' := Splitter(st.chunks, current, st.points + PointCount(piece), curRi, curSi);
  }

  predicate Full(open: seq<Slice>, piece: Metric, max: nat) {
    Weight(open) + PointCount(piece) > max && Weight(open) > 0
  }

  /** Close the open request if the piece does not fit: the cursors are forgotten
      with it. */
  method CloseIfFull(wire: Wire, req: Request, ghost p: Packing, st: Splitter, piece: Metric, max: nat)
    returns (st': Splitter)
    requires Tracks(req.resourceMetrics, p.open, st)
    requires st.chunks == Encoded(wire, req, p.closed)
    ensures Tracks(req.resourceMetrics, if Full(p.open, piece, max) then [] else p.open, st')
    ensures st'.chunks == Encoded(wire, req, if Full(p.open, piece, max) then p.closed + [p.open] else p.closed)
  {
    st' := st;
    if st.points + PointCount(piece) > max && st.points > 0 {
      ResourcesAfter(req.resourceMetrics, [], 0, |req.resourceMetrics|);
      st' := Splitter(st.chunks + [wire.encode(st.current)], Request([]), 0, USIZE_MAX, USIZE_MAX);
    }
  }

  lemma TracksAfterPush(rms: seq<ResourceMetrics>, open: seq<Slice>, x: Slice, st: Splitter)
    requires Within(rms, x) && UpTo(rms, open, x.ri, x.si)
    requires st.points == Weight(open) + Size(x) && st.curRi == x.ri && st.curSi == x.si
    requires st.current.resourceMetrics
          == ResourceShells(rms, open, x.ri)
             + [ResourceShell(rms[x.ri], ScopeShells(rms, open, x.ri, x.si)
                  + [ScopeShell(rms[x.ri].scopeMetrics[x.si], MetricsAt(open, x.ri, x.si) + [x.metric])])]
    ensures Tracks(rms, open + [x], st)
    ensures UpTo(rms, open + [x], x.ri, x.si)
  {
    AddSlice(rms, open, x);
    WeightSnoc(open, x);
  }

  lemma LastIsOpen(open: seq<Slice>)
    requires open != []
    ensures MetricsAt(open, open[|open| - 1].ri, open[|open| - 1].si) != []
  {
  }

  lemma {:induction false} HasShell(rms: seq<ResourceMetrics>, g: seq<Slice>, ri: nat, si: nat, k: nat)
    requires ri < |rms| && si < k <= |rms[ri].scopeMetrics|
    requires MetricsAt(g, ri, si) != []
    ensures ScopeShells(rms, g, ri, k) != []
  {
    hide MetricsAt;
    if k - 1 > si {
      HasShell(rms, g, ri, si, k - 1);
    }
  }

  /** What the cursors say is open is what is open. */
  lemma OpenShellsByCursor(rms: seq<ResourceMetrics>, open: seq<Slice>, st: Splitter, ri: nat, si: nat)
    requires ri < |rms| <= USIZE_MAX && si < |rms[ri].scopeMetrics| <= USIZE_MAX
    requires UpTo(rms, open, ri, si) && Tracks(rms, open, st)
    ensures st.curRi != ri ==>
              ScopeShells(rms, open, ri, si) == [] && st.current.resourceMetrics == ResourceShells(rms, open, ri)
    ensures st.curRi != ri || st.curSi != si ==> MetricsAt(open, ri, si) == []
    ensures st.curRi == ri ==>
              st.current.resourceMetrics
              == ResourceShells(rms, open, ri)
                 + [ResourceShell(rms[ri], ScopeShells(rms, open, ri, si)
                      + (if st.curSi == si then [ScopeShell(rms[ri].scopeMetrics[si], MetricsAt(open, ri, si))]
                         else []))]
  {
    OpenShells(rms, open, ri, si);
    MetricsAtEmpty(open, ri, si);
    if st.curRi != ri {
      ScopesAfter(rms, open, ri, 0, si);
      ScopesAfter(rms, open, ri, 0, si + 1);
    } else {
      LastIsOpen(open);
      if st.curSi != si {
        HasShell(rms, open, ri, st.curSi, si);
      }
    }
  }

  /** Push a piece that fits into the open request. */
  method PushFitting(req: Request, ghost open: seq<Slice>, st: Splitter, ri: nat, si: nat, piece: Metric)
    returns (st': Splitter)
    requires InMemory(req) && Within(req.resourceMetrics, Slice(ri, si, piece))
    requires Tracks(req.resourceMetrics, open, st)
    requires UpTo(req.resourceMetrics, open, ri, si)
    ensures Tracks(req.resourceMetrics, open + [Slice(ri, si, piece)], st')
    ensures UpTo(req.resourceMetrics, open + [Slice(ri, si, piece)], ri, si)
    ensures st'.chunks == st.chunks
  {
    var rms := req.resourceMetrics;
    assert rms[ri] in rms;
    OpenShellsByCursor(rms, open, st, ri, si);
    st' := PushIntoShells(rms[ri], rms[ri].scopeMetrics[si], st, ri, si, piece, ResourceShells(rms, open, ri),
                          ScopeShells(rms, open, ri, si), MetricsAt(open, ri, si));
    TracksAfterPush(rms, open, Slice(ri, si, piece), st');
  }

  /** The variables after the slices of `done` have been pushed. */
  function StateAfter(wire: Wire, req: Request, done: seq<Slice>, max: nat): Splitter {
    var p := Pack(done, max);
    Splitter(Encoded(wire, req, p.closed), Project(req.resourceMetrics, p.open), Weight(p.open),
             if p.open == [] then USIZE_MAX else p.open[|p.open| - 1].ri,
             if p.open == [] then USIZE_MAX else p.open[|p.open| - 1].si)
  }

  lemma PlaceIs(p: Packing, x: Slice, max: nat)
    ensures Place(p, x, max) == if Full(p.open, x.metric, max) then Packing(p.closed + [p.open], [] + [x])
                                else Packing(p.closed, p.open + [x])
  {
  }

  lemma TailSnoc<T>(init: seq<T>, x: T, tail: seq<T>)
    requires |tail| <= |init| && tail == init[|init| - |tail|..]
    ensures tail + [x] == (init + [x])[|init| - |tail|..] && [x] == (init + [x])[|init|..]
  {
  }

  predicate IsTail(tail: seq<Slice>, s: seq<Slice>) {
    |tail| <= |s| && tail == s[|s| - |tail|..] && (s != [] ==> tail != [])
  }

  lemma TailStays(open: seq<Slice>, init: seq<Slice>, x: Slice)
    requires IsTail(open, init)
    ensures IsTail(open + [x], init + [x]) && IsTail([] + [x], init + [x])
  {
    TailSnoc(init, x, open);
  }

  /** The open group is the tail of what was pushed. */
  lemma {:induction false} OpenIsTail(done: seq<Slice>, max: nat)
    ensures IsTail(Pack(done, max).open, done)
  {
    if done != [] {
      var init, x := done[..|done| - 1], done[|done| - 1];
      assert done == init + [x];
      hide *;
      OpenIsTail(init, max);
      PackSnoc(init, x, max);
      PlaceIs(Pack(init, max), x, max);
      TailStays(Pack(init, max).open, init, x);
    }
  }

  lemma StateTracks(wire: Wire, req: Request, done: seq<Slice>, max: nat, ri: nat, si: nat)
    requires InOrder(done) && UpTo(req.resourceMetrics, done, ri, si)
    ensures Tracks(req.resourceMetrics, Pack(done, max).open, StateAfter(wire, req, done, max))
    ensures UpTo(req.resourceMetrics, Pack(done, max).open, ri, si)
  {
    hide Pack, Weight, Project;
    OpenIsTail(done, max);
  }

  /** The innermost step: close the open request if the piece does not fit, then
      push the piece. */
  method PushSlice(wire: Wire, req: Request, ghost done: seq<Slice>, st: Splitter, ri: nat, si: nat, piece: Metric,
                   max: nat)
    returns (st': Splitter)
    requires InMemory(req) && Within(req.resourceMetrics, Slice(ri, si, piece))
    requires InOrder(done) && UpTo(req.resourceMetrics, done, ri, si)
    requires st == StateAfter(wire, req, done, max)
    ensures st' == StateAfter(wire, req, done + [Slice(ri, si, piece)], max)
  {
    ghost var p := Pack(done, max);
    StateTracks(wire, req, done, max, ri, si);
    st' := CloseIfFull(wire, req, p, st, piece, max);
    st' := PushFitting(req, if Full(p.open, piece, max) then [] else p.open, st', ri, si, piece);
    PlaceIs(p, Slice(ri, si, piece), max);
    PackSnoc(done, Slice(ri, si, piece), max);
  }

  // ----- the loops ----------------------------------------------------------

  /** Slices at (`ri`, `si`) can follow anything at or before it. */
  lemma StillUpTo(rms: seq<ResourceMetrics>, done: seq<Slice>, more: seq<Slice>, ri: nat, si: nat)
    requires InOrder(done) && UpTo(rms, done, ri, si)
    requires ri < |rms| && si < |rms[ri].scopeMetrics|
    requires forall i :: 0 <= i < |more| ==> more[i].ri == ri && more[i].si == si
    ensures InOrder(done + more) && UpTo(rms, done + more, ri, si)
  {
  }

  function PiecesBefore(ri: nat, si: nat, m: Metric, max: nat, k: nat): (ss: seq<Slice>)
    requires max >= 1
    ensures forall i :: 0 <= i < |ss| ==> ss[i].ri == ri && ss[i].si == si
  {
    var pieces := MetricSlices(ri, si, m, max);
    if k <= |pieces| then pieces[..k] else pieces
  }

  /** The next piece of a metric starts where the last one ended. */
  lemma CutNext(n: nat, max: nat, k: nat)
    requires max >= 1 && CutAt(n, max, k) < n
    ensures CutAt(n, max, k) == k * max && k < SliceCount(n, max)
    ensures CutAt(n, max, k + 1) == Min(CutAt(n, max, k) + max, n)
  {
    hide SliceCount;
    SliceCountBounds(n, max, k);
    TimesNext(k, max);
  }

  lemma MetricStep(done: seq<Slice>, ri: nat, si: nat, m: Metric, max: nat, k: nat)
    requires max >= 1 && CutAt(PointCount(m), max, k) < PointCount(m)
    ensures var start := CutAt(PointCount(m), max, k);
            var end := Min(start + max, PointCount(m));
            && end == CutAt(PointCount(m), max, k + 1)
            && done + PiecesBefore(ri, si, m, max, k + 1)
               == (done + PiecesBefore(ri, si, m, max, k)) + [Slice(ri, si, MetricSlice(m, start, end))]
  {
    CutNext(PointCount(m), max, k);
    var pieces := MetricSlices(ri, si, m, max);
    assert pieces[k] == MetricPiece(ri, si, m, max, k);
    hide SliceCount, MetricSlices, PointCount;
    TimesNext(k, max);
    assert pieces[..k + 1] == pieces[..k] + [pieces[k]];
  }

  lemma MetricDone(ri: nat, si: nat, m: Metric, max: nat, k: nat)
    requires max >= 1 && CutAt(PointCount(m), max, k) == PointCount(m)
    ensures PiecesBefore(ri, si, m, max, k) == MetricSlices(ri, si, m, max)
  {
    SliceCountBounds(PointCount(m), max, k);
  }

  /** `fed` is `done` and the pieces of a metric that end where the next one starts. */
  ghost predicate FedUpTo(done: seq<Slice>, fed: seq<Slice>, ri: nat, si: nat, m: Metric, max: nat, start: nat)
    requires max >= 1
  {
    exists k: nat :: start == CutAt(PointCount(m), max, k) && fed == done + PiecesBefore(ri, si, m, max, k)
  }

  lemma NothingFed(done: seq<Slice>, ri: nat, si: nat, m: Metric, max: nat)
    requires max >= 1
    ensures FedUpTo(done, done, ri, si, m, max, 0)
  {
    assert CutAt(PointCount(m), max, 0) == 0 && done == done + PiecesBefore(ri, si, m, max, 0);
  }

  lemma NextPieceFits(rms: seq<ResourceMetrics>, done: seq<Slice>, fed: seq<Slice>, ri: nat, si: nat, m: Metric,
                      max: nat, start: nat)
    requires max >= 1 && start < PointCount(m) && Within(rms, Slice(ri, si, m))
    requires InOrder(done) && UpTo(rms, done, ri, si) && FedUpTo(done, fed, ri, si, m, max, start)
    ensures InOrder(fed) && UpTo(rms, fed, ri, si)
    ensures var end := Min(start + max, PointCount(m));
            var piece := Slice(ri, si, MetricSlice(m, start, end));
            Within(rms, piece) && FedUpTo(done, fed + [piece], ri, si, m, max, end)
  {
    assert ri < |rms| && si < |rms[ri].scopeMetrics|;
    var k: nat :| start == CutAt(PointCount(m), max, k) && fed == done + PiecesBefore(ri, si, m, max, k);
    MetricStep(done, ri, si, m, max, k);
    hide CutAt, PointCount, InOrder, UpTo, PiecesBefore, MetricSlice;
    StillUpTo(rms, done, PiecesBefore(ri, si, m, max, k), ri, si);
  }

  lemma AllFed(done: seq<Slice>, fed: seq<Slice>, ri: nat, si: nat, m: Metric, max: nat)
    requires max >= 1 && FedUpTo(done, fed, ri, si, m, max, PointCount(m))
    ensures fed == done + MetricSlices(ri, si, m, max)
  {
    var k: nat :| PointCount(m) == CutAt(PointCount(m), max, k) && fed == done + PiecesBefore(ri, si, m, max, k);
    MetricDone(ri, si, m, max, k);
  }

  /** The pieces of one metric, pushed in turn. */
  method SplitMetric(wire: Wire, req: Request, ghost done: seq<Slice>, st: Splitter, ri: nat, si: nat, m: Metric,
                     max: nat)
    returns (st': Splitter)
    requires InMemory(req) && Within(req.resourceMetrics, Slice(ri, si, m)) && max >= 1
    requires InOrder(done) && UpTo(req.resourceMetrics, done, ri, si)
    requires st == StateAfter(wire, req, done, max)
    ensures st' == StateAfter(wire, req, done + MetricSlices(ri, si, m, max), max)
  {
    hide Within, StateAfter, PointCount, InOrder, InMemory, UpTo, MetricSlice, MetricSlices, FedUpTo;
    var n := PointCount(m);
    st' := st;
    var start := 0;
    ghost var fed := done;
    NothingFed(done, ri, si, m, max);
    while start < n
      invariant start <= n && FedUpTo(done, fed, ri, si, m, max, start)
      invariant st' == StateAfter(wire, req, fed, max)
      decreases n - start
    {
      var end := Min(start + max, n);
      NextPieceFits(req.resourceMetrics, done, fed, ri, si, m, max, start);
      st' := PushSlice(wire, req, fed, st', ri, si, MetricSlice(m, start, end), max);
      fed := fed + [Slice(ri, si, MetricSlice(m, start, end))];
      start := end;
    }
    AllFed(done, fed, ri, si, m, max);
  }

  lemma ScopeStep(done: seq<Slice>, ri: nat, si: nat, ms: seq<Metric>, i: nat, max: nat)
    requires i < |ms| && max >= 1
    ensures done + ScopeSlices(ri, si, ms[..i + 1], max)
         == (done + ScopeSlices(ri, si, ms[..i], max)) + MetricSlices(ri, si, ms[i], max)
    ensures PointCount(ms[i]) == 0 ==>
              done + ScopeSlices(ri, si, ms[..i + 1], max) == done + ScopeSlices(ri, si, ms[..i], max)
  {
    assert ms[..i + 1][..i] == ms[..i];
    ConcatAssoc(done, ScopeSlices(ri, si, ms[..i], max), MetricSlices(ri, si, ms[i], max));
    SliceCountBounds(0, max, 0);
  }

  /** The metrics of one scope; those without points are passed over. */
  method SplitScope(wire: Wire, req: Request, ghost done: seq<Slice>, st: Splitter, ri: nat, si: nat, max: nat)
    returns (st': Splitter)
    requires InMemory(req) && ri < |req.resourceMetrics| && si < |req.resourceMetrics[ri].scopeMetrics| && max >= 1
    requires InOrder(done) && UpTo(req.resourceMetrics, done, ri, si)
    requires st == StateAfter(wire, req, done, max)
    ensures st' == StateAfter(wire, req,
                              done + ScopeSlices(ri, si, req.resourceMetrics[ri].scopeMetrics[si].metrics, max), max)
  {
    var ms := req.resourceMetrics[ri].scopeMetrics[si].metrics;
    st' := st;
    assert done + ScopeSlices(ri, si, ms[..0], max) == done;
    hide StateAfter, ScopeSlices, PointCount, InOrder, InMemory;
    for i := 0 to |ms|
      invariant st' == StateAfter(wire, req, done + ScopeSlices(ri, si, ms[..i], max), max)
    {
      ghost var before := done + ScopeSlices(ri, si, ms[..i], max);
      ScopeStep(done, ri, si, ms, i, max);
      if PointCount(ms[i]) == 0 {
        continue;
      }
      ScopeSlicesInOrder(ri, si, ms[..i], max);
      StillUpTo(req.resourceMetrics, done, ScopeSlices(ri, si, ms[..i], max), ri, si);
      st' := SplitMetric(wire, req, before, st', ri, si, ms[i], max);
    }
    assert ms[..|ms|] == ms;
  }

  lemma ResourceStep(done: seq<Slice>, ri: nat, sms: seq<ScopeMetrics>, i: nat, max: nat)
    requires i < |sms| && max >= 1
    ensures done + ResourceSlices(ri, sms[..i + 1], max)
         == (done + ResourceSlices(ri, sms[..i], max)) + ScopeSlices(ri, i, sms[i].metrics, max)
  {
    assert sms[..i + 1][..i] == sms[..i];
    ConcatAssoc(done, ResourceSlices(ri, sms[..i], max), ScopeSlices(ri, i, sms[i].metrics, max));
  }

  lemma RequestStep(rms: seq<ResourceMetrics>, ri: nat, max: nat)
    requires ri < |rms| && max >= 1
    ensures RequestSlices(rms[..ri + 1], max)
         == RequestSlices(rms[..ri], max) + ResourceSlices(ri, rms[ri].scopeMetrics, max)
  {
    assert rms[..ri + 1][..ri] == rms[..ri];
  }

  /** What has been pushed when the loops reach scope `si` of resource `ri`. */
  lemma PushedSoFar(rms: seq<ResourceMetrics>, ri: nat, si: nat, max: nat)
    requires ri < |rms| && si < |rms[ri].scopeMetrics| && max >= 1
    ensures var done := RequestSlices(rms[..ri], max) + ResourceSlices(ri, rms[ri].scopeMetrics[..si], max);
            InOrder(done) && UpTo(rms, done, ri, si)
  {
    RequestSlicesInOrder(rms[..ri], max);
    RequestSlicesRows(rms, ri, max);
    ResourceSlicesInOrder(ri, rms[ri].scopeMetrics[..si], max);
    ResourceSlicesRows(rms, ri, si, max);
  }

  method SplitResource(wire: Wire, req: Request, before: Splitter, ri: nat, max: nat) returns (st: Splitter)
    requires InMemory(req) && max >= 1 && ri < |req.resourceMetrics|
    requires before == StateAfter(wire, req, RequestSlices(req.resourceMetrics[..ri], max), max)
    ensures st == StateAfter(wire, req, RequestSlices(req.resourceMetrics[..ri + 1], max), max)
  {
    var rms := req.resourceMetrics;
    var sms := rms[ri].scopeMetrics;
    ghost var done := RequestSlices(rms[..ri], max);
    st := before;
    assert done + ResourceSlices(ri, sms[..0], max) == done;
    RequestStep(rms, ri, max);
    hide StateAfter, ResourceSlices, RequestSlices, InOrder, InMemory, UpTo;
    for si := 0 to |sms|
      invariant st == StateAfter(wire, req, done + ResourceSlices(ri, sms[..si], max), max)
    {
      PushedSoFar(rms, ri, si, max);
      st := SplitScope(wire, req, done + ResourceSlices(ri, sms[..si], max), st, ri, si, max);
      ResourceStep(done, ri, sms, si, max);
    }
    assert sms[..|sms|] == sms;
  }

  /** All slices of an export, pushed in source order. */
  method SplitAll(wire: Wire, req: Request, max: nat) returns (st: Splitter)
    requires InMemory(req) && max >= 1
    ensures st == StateAfter(wire, req, AllSlices(req, max), max)
  {
    var rms := req.resourceMetrics;
    ResourcesAfter(rms, [], 0, |rms|);
    st := Splitter([], Request([]), 0, USIZE_MAX, USIZE_MAX);
    assert RequestSlices(rms[..0], max) == [];
    for ri := 0 to |rms|
      invariant st == StateAfter(wire, req, RequestSlices(rms[..ri], max), max)
    {
      st := SplitResource(wire, req, st, ri, max);
    }
    assert rms[..|rms|] == rms;
  }

  /** Split a serialized export. With `max` at 0 and points to send the loop would
      never advance; the only caller passes 200. */
  method SplitRequest(wire: Wire, body: Bytes, max: nat) returns (r: Option<seq<Bytes>>)
    requires wire.decode(body).Some? ==>
               InMemory(wire.decode(body).value) && (max >= 1 || TotalPoints(wire.decode(body).value) == 0)
    ensures r.None? <==> wire.decode(body).None?
    ensures r.Some? && TotalPoints(wire.decode(body).value) <= max ==> r.value == [body]
    ensures r.Some? && TotalPoints(wire.decode(body).value) > max ==>
              r.value == Encoded(wire, wire.decode(body).value, Groups(AllSlices(wire.decode(body).value, max), max))
  {
    var decoded := wire.decode(body);
    if decoded.None? {
      return None;
    }
    var req := decoded.value;
    var total := TotalPoints(req);
    if total <= max {
      return Some([body]);
    }
    var st := SplitAll(wire, req, max);
    var chunks := st.chunks;
    if st.points > 0 {
      chunks := chunks + [wire.encode(st.current)];
    }
    r := Some(chunks);
  }
}
