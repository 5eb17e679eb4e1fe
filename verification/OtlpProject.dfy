/** A group of slices rebuilt as a request: the source export with every shell
    that owns no slice of the group taken out. */
module OtlpProject {
  import opened Common
  import opened OtlpModel

  /** The slices of `g` cut from scope `si` of resource `ri`. */
  function MetricsAt(g: seq<Slice>, ri: nat, si: nat): seq<Metric> {
    if g == [] then []
    else
      var init, last := g[..|g| - 1], g[|g| - 1];
      MetricsAt(init, ri, si) + (if last.ri == ri && last.si == si then [last.metric] else [])
  }

  function ScopeShell(sm: ScopeMetrics, metrics: seq<Metric>): ScopeMetrics {
    ScopeMetrics(sm.scope, metrics, sm.schemaUrl)
  }

  function ResourceShell(rm: ResourceMetrics, scopes: seq<ScopeMetrics>): ResourceMetrics {
    ResourceMetrics(rm.resource, scopes, rm.schemaUrl)
  }

  /** Shells of the first `k` scopes of resource `ri`, those without a slice left out. */
  function ScopeShells(rms: seq<ResourceMetrics>, g: seq<Slice>, ri: nat, k: nat): seq<ScopeMetrics>
    requires ri < |rms| && k <= |rms[ri].scopeMetrics|
  {
    if k == 0 then []
    else
      var metrics := MetricsAt(g, ri, k - 1);
      ScopeShells(rms, g, ri, k - 1)
      + (if metrics == [] then [] else [ScopeShell(rms[ri].scopeMetrics[k - 1], metrics)])
  }

  function AllScopeShells(rms: seq<ResourceMetrics>, g: seq<Slice>, ri: nat): seq<ScopeMetrics>
    requires ri < |rms|
  {
    ScopeShells(rms, g, ri, |rms[ri].scopeMetrics|)
  }

  /** Shells of the first `k` resources, those without a slice left out. */
  function ResourceShells(rms: seq<ResourceMetrics>, g: seq<Slice>, k: nat): seq<ResourceMetrics>
    requires k <= |rms|
  {
    if k == 0 then []
    else
      var scopes := AllScopeShells(rms, g, k - 1);
      ResourceShells(rms, g, k - 1) + (if scopes == [] then [] else [ResourceShell(rms[k - 1], scopes)])
  }

  function Project(rms: seq<ResourceMetrics>, g: seq<Slice>): Request {
    Request(ResourceShells(rms, g, |rms|))
  }

  // ----- adding the next slice ----------------------------------------------

  /** `g` in source order, all of it at or before position (`ri`, `si`). */
  predicate UpTo(rms: seq<ResourceMetrics>, g: seq<Slice>, ri: nat, si: nat) {
    AllWithin(rms, g) && forall i :: 0 <= i < |g| ==> g[i].ri < ri || (g[i].ri == ri && g[i].si <= si)
  }

  lemma MetricsAtSnoc(g: seq<Slice>, x: Slice, ri: nat, si: nat)
    ensures MetricsAt(g + [x], ri, si)
         == MetricsAt(g, ri, si) + (if x.ri == ri && x.si == si then [x.metric] else [])
  {
    assert (g + [x])[..|g|] == g;
  }

  lemma {:induction false} MetricsAtEmpty(g: seq<Slice>, ri: nat, si: nat)
    ensures MetricsAt(g, ri, si) == [] <==> forall i :: 0 <= i < |g| ==> g[i].ri != ri || g[i].si != si
  {
    if g != [] {
      MetricsAtEmpty(g[..|g| - 1], ri, si);
    }
  }

  lemma ElsewhereKept(g: seq<Slice>, x: Slice, ri: nat, si: nat)
    requires x.ri != ri || x.si != si
    ensures MetricsAt(g + [x], ri, si) == MetricsAt(g, ri, si)
  {
    MetricsAtSnoc(g, x, ri, si);
    hide MetricsAt;
  }

  /** Scopes before the new slice's are not touched. */
  lemma {:induction false} ScopesBefore(rms: seq<ResourceMetrics>, g: seq<Slice>, x: Slice, ri: nat, k: nat)
    requires ri < |rms| && k <= |rms[ri].scopeMetrics|
    requires x.ri != ri || k <= x.si
    ensures ScopeShells(rms, g + [x], ri, k) == ScopeShells(rms, g, ri, k)
  {
    if k > 0 {
      hide MetricsAt;
      ElsewhereKept(g, x, ri, k - 1);
      ScopesBefore(rms, g, x, ri, k - 1);
    }
  }

  /** Scopes without slices add nothing. */
  lemma {:induction false} ScopesAfter(rms: seq<ResourceMetrics>, g: seq<Slice>, ri: nat, from: nat, k: nat)
    requires ri < |rms| && from <= k <= |rms[ri].scopeMetrics|
    requires forall i :: 0 <= i < |g| ==> g[i].ri != ri || g[i].si < from
    ensures ScopeShells(rms, g, ri, k) == ScopeShells(rms, g, ri, from)
  {
    if from < k {
      ScopesAfter(rms, g, ri, from, k - 1);
      MetricsAtEmpty(g, ri, k - 1);
    }
  }

  lemma ShellsBefore(rms: seq<ResourceMetrics>, g: seq<Slice>, x: Slice, ri: nat)
    requires ri < |rms| && ri < x.ri
    ensures AllScopeShells(rms, g + [x], ri) == AllScopeShells(rms, g, ri)
  {
    hide ScopeShells;
    ScopesBefore(rms, g, x, ri, |rms[ri].scopeMetrics|);
  }

  lemma {:induction false} ResourcesBefore(rms: seq<ResourceMetrics>, g: seq<Slice>, x: Slice, k: nat)
    requires k <= |rms| && k <= x.ri
    ensures ResourceShells(rms, g + [x], k) == ResourceShells(rms, g, k)
  {
    if k > 0 {
      ShellsBefore(rms, g, x, k - 1);
      hide AllScopeShells;
      ResourcesBefore(rms, g, x, k - 1);
    }
  }

  lemma {:induction false} ResourcesAfter(rms: seq<ResourceMetrics>, g: seq<Slice>, from: nat, k: nat)
    requires from <= k <= |rms|
    requires forall i :: 0 <= i < |g| ==> g[i].ri < from
    ensures ResourceShells(rms, g, k) == ResourceShells(rms, g, from)
  {
    if from < k {
      ScopesAfter(rms, g, k - 1, 0, |rms[k - 1].scopeMetrics|);
      assert AllScopeShells(rms, g, k - 1) == [];
      hide ScopeShells, AllScopeShells;
      ResourcesAfter(rms, g, from, k - 1);
    }
  }

  /** The open scope shells of resource `ri`, as far as scope `si`. */
  function OpenScopes(rms: seq<ResourceMetrics>, g: seq<Slice>, ri: nat, si: nat): seq<ScopeMetrics>
    requires ri < |rms| && si < |rms[ri].scopeMetrics|
  {
    ScopeShells(rms, g, ri, si + 1)
  }

  /** What is built so far, seen from position (`ri`, `si`): the closed resource
      shells, then the open one if it has slices. */
  lemma OpenShells(rms: seq<ResourceMetrics>, g: seq<Slice>, ri: nat, si: nat)
    requires ri < |rms| && si < |rms[ri].scopeMetrics| && UpTo(rms, g, ri, si)
    ensures Project(rms, g).resourceMetrics
         == ResourceShells(rms, g, ri)
            + (if OpenScopes(rms, g, ri, si) == [] then [] else [ResourceShell(rms[ri], OpenScopes(rms, g, ri, si))])
  {
    ResourcesAfter(rms, g, ri + 1, |rms|);
    ScopesAfter(rms, g, ri, si + 1, |rms[ri].scopeMetrics|);
  }

  /** Adding a slice at (`ri`, `si`) appends its metric to that scope's shell,
      opening the shell and its resource's if they are not there. */
  lemma AddSlice(rms: seq<ResourceMetrics>, g: seq<Slice>, x: Slice)
    requires Within(rms, x) && UpTo(rms, g, x.ri, x.si)
    ensures UpTo(rms, g + [x], x.ri, x.si)
    ensures Project(rms, g + [x]).resourceMetrics
         == ResourceShells(rms, g, x.ri)
            + [ResourceShell(rms[x.ri], ScopeShells(rms, g, x.ri, x.si)
                 + [ScopeShell(rms[x.ri].scopeMetrics[x.si], MetricsAt(g, x.ri, x.si) + [x.metric])])]
  {
    OpenShells(rms, g + [x], x.ri, x.si);
    ResourcesBefore(rms, g, x, x.ri);
    ScopesBefore(rms, g, x, x.ri, x.si);
    MetricsAtSnoc(g, x, x.ri, x.si);
  }

  // ----- the rows of a projection -------------------------------------------

  lemma ResourcesRowsSnoc(rms: seq<ResourceMetrics>, rm: ResourceMetrics)
    ensures ResourcesRows(rms + [rm]) == ResourcesRows(rms) + ScopesRows(rm, rm.scopeMetrics)
  {
    assert (rms + [rm])[..|rms|] == rms;
  }

  /** Rows only look at the fields a shell keeps. */
  lemma {:induction false} MetricsRowsOfShell(rm: ResourceMetrics, sm: ScopeMetrics, rm': ResourceMetrics,
                                              sm': ScopeMetrics, ms: seq<Metric>)
    requires rm'.resource == rm.resource && rm'.schemaUrl == rm.schemaUrl
    requires sm'.scope == sm.scope && sm'.schemaUrl == sm.schemaUrl
    ensures MetricsRows(rm', sm', ms) == MetricsRows(rm, sm, ms)
  {
    if ms != [] {
      MetricsRowsOfShell(rm, sm, rm', sm', ms[..|ms| - 1]);
    }
  }

  lemma {:induction false} ScopesRowsOfShell(rm: ResourceMetrics, rm': ResourceMetrics, sms: seq<ScopeMetrics>)
    requires rm'.resource == rm.resource && rm'.schemaUrl == rm.schemaUrl
    ensures ScopesRows(rm', sms) == ScopesRows(rm, sms)
  {
    if sms != [] {
      ScopesRowsOfShell(rm, rm', sms[..|sms| - 1]);
      MetricsRowsOfShell(rm, sms[|sms| - 1], rm', sms[|sms| - 1], sms[|sms| - 1].metrics);
    }
  }

  lemma MetricsRowsSnoc(rm: ResourceMetrics, sm: ScopeMetrics, ms: seq<Metric>, m: Metric)
    ensures MetricsRows(rm, sm, ms + [m]) == MetricsRows(rm, sm, ms) + MetricRows(rm, sm, m)
  {
    assert (ms + [m])[..|ms|] == ms;
  }

  lemma ScopesRowsSnoc(rm: ResourceMetrics, sms: seq<ScopeMetrics>, sm: ScopeMetrics)
    ensures ScopesRows(rm, sms + [sm]) == ScopesRows(rm, sms) + MetricsRows(rm, sm, sm.metrics)
  {
    assert (sms + [sm])[..|sms|] == sms;
  }

  /** The rows of the open scope with and without the new slice. */
  lemma OpenScopeRows(rms: seq<ResourceMetrics>, g: seq<Slice>, x: Slice)
    requires Within(rms, x)
    ensures var rm := rms[x.ri]; var sm := rm.scopeMetrics[x.si];
            var ms := MetricsAt(g, x.ri, x.si);
            var closed := ScopeShells(rms, g, x.ri, x.si);
            ScopesRows(rm, closed + [ScopeShell(sm, ms + [x.metric])])
            == ScopesRows(rm, OpenScopes(rms, g, x.ri, x.si)) + SliceRows(rms, x)
  {
    var rm := rms[x.ri];
    var sm := rm.scopeMetrics[x.si];
    var ms := MetricsAt(g, x.ri, x.si);
    var closed := ScopeShells(rms, g, x.ri, x.si);
    var before, after := ScopeShell(sm, ms), ScopeShell(sm, ms + [x.metric]);
    assert ms == [] ==> OpenScopes(rms, g, x.ri, x.si) == closed;
    assert ms != [] ==> OpenScopes(rms, g, x.ri, x.si) == closed + [before];
    assert MetricsRows(rm, sm, []) == [];
    MetricsRowsSnoc(rm, sm, ms, x.metric);
    hide OpenScopes, ScopeShells, MetricsAt, ScopesRows, MetricsRows, MetricRows;
    ScopesRowsSnoc(rm, closed, before);
    ScopesRowsSnoc(rm, closed, after);
    MetricsRowsOfShell(rm, sm, rm, before, ms);
    MetricsRowsOfShell(rm, sm, rm, after, ms + [x.metric]);
    ConcatAssoc(ScopesRows(rm, closed), MetricsRows(rm, sm, ms), SliceRows(rms, x));
  }

  /** The rows of what is built so far, seen from position (`ri`, `si`). */
  lemma RowsSoFar(rms: seq<ResourceMetrics>, g: seq<Slice>, ri: nat, si: nat)
    requires ri < |rms| && si < |rms[ri].scopeMetrics| && UpTo(rms, g, ri, si)
    ensures Rows(Project(rms, g))
         == ResourcesRows(ResourceShells(rms, g, ri)) + ScopesRows(rms[ri], OpenScopes(rms, g, ri, si))
  {
    var closed, open := ResourceShells(rms, g, ri), OpenScopes(rms, g, ri, si);
    var shell := ResourceShell(rms[ri], open);
    OpenShells(rms, g, ri, si);
    assert ScopesRows(rms[ri], []) == [];
    hide ResourceShells, OpenScopes, ScopesRows, ResourcesRows, UpTo;
    ResourcesRowsSnoc(closed, shell);
    ScopesRowsOfShell(rms[ri], shell, open);
    if open == [] {
      assert Project(rms, g).resourceMetrics == closed;
    }
  }

  /** The rows once the next slice is added. */
  lemma RowsGrown(rms: seq<ResourceMetrics>, g: seq<Slice>, x: Slice)
    requires Within(rms, x) && UpTo(rms, g, x.ri, x.si)
    ensures Rows(Project(rms, g + [x]))
         == ResourcesRows(ResourceShells(rms, g, x.ri))
            + (ScopesRows(rms[x.ri], OpenScopes(rms, g, x.ri, x.si)) + SliceRows(rms, x))
  {
    var rm := rms[x.ri];
    var closed := ResourceShells(rms, g, x.ri);
    var grown := ScopeShells(rms, g, x.ri, x.si)
                 + [ScopeShell(rm.scopeMetrics[x.si], MetricsAt(g, x.ri, x.si) + [x.metric])];
    hide ScopeShells, ResourceShells, OpenScopes, MetricsAt, ScopesRows, ResourcesRows, SliceRows, UpTo;
    AddSlice(rms, g, x);
    OpenScopeRows(rms, g, x);
    ResourcesRowsSnoc(closed, ResourceShell(rm, grown));
    ScopesRowsOfShell(rm, ResourceShell(rm, grown), grown);
  }

  lemma AddedRows(rms: seq<ResourceMetrics>, g: seq<Slice>, x: Slice)
    requires Within(rms, x) && UpTo(rms, g, x.ri, x.si)
    ensures Rows(Project(rms, g + [x])) == Rows(Project(rms, g)) + SliceRows(rms, x)
  {
    hide ResourceShells, OpenScopes, ScopesRows, ResourcesRows, SliceRows, UpTo, Rows, Project;
    RowsSoFar(rms, g, x.ri, x.si);
    RowsGrown(rms, g, x);
    ConcatAssoc(ResourcesRows(ResourceShells(rms, g, x.ri)),
                ScopesRows(rms[x.ri], OpenScopes(rms, g, x.ri, x.si)), SliceRows(rms, x));
  }

  /** Rebuilding a group keeps its attributed points, once and in order. */
  lemma {:induction false} ProjectConserves(rms: seq<ResourceMetrics>, g: seq<Slice>)
    requires AllWithin(rms, g) && InOrder(g)
    ensures Rows(Project(rms, g)) == SlicesRows(rms, g)
  {
    if g == [] {
      ResourcesAfter(rms, g, 0, |rms|);
    } else {
      var init, x := g[..|g| - 1], g[|g| - 1];
      assert g == init + [x];
      ProjectConserves(rms, init);
      assert Within(rms, x) && UpTo(rms, init, x.ri, x.si);
      OpenShells(rms, init, x.ri, x.si);
      AddSlice(rms, init, x);
      AddedRows(rms, init, x);
    }
  }

  // ----- shells of a projection ---------------------------------------------

  predicate Increasing(ks: seq<nat>) {
    forall i, j :: 0 <= i < j < |ks| ==> ks[i] < ks[j]
  }

  /** `out` has one shell, never empty, for each scope of `src` at the positions
      `sis`, in source order, holding metrics of 1 to `max` points. */
  predicate ScopesMirror(src: seq<ScopeMetrics>, out: seq<ScopeMetrics>, sis: seq<nat>, max: nat) {
    && |sis| == |out| && Increasing(sis)
    && (forall j :: 0 <= j < |out| ==>
          && sis[j] < |src|
          && out[j].scope == src[sis[j]].scope && out[j].schemaUrl == src[sis[j]].schemaUrl
          && out[j].metrics != []
          && forall m :: m in out[j].metrics ==> 1 <= PointCount(m) <= max)
  }

  ghost predicate ShellMirrors(src: ResourceMetrics, out: ResourceMetrics, max: nat) {
    && out.resource == src.resource && out.schemaUrl == src.schemaUrl
    && out.scopeMetrics != []
    && exists sis :: ScopesMirror(src.scopeMetrics, out.scopeMetrics, sis, max)
  }

  ghost predicate ResourcesMirror(src: seq<ResourceMetrics>, out: seq<ResourceMetrics>, ris: seq<nat>, max: nat) {
    && |ris| == |out| && Increasing(ris)
    && (forall j :: 0 <= j < |out| ==> ris[j] < |src| && ShellMirrors(src[ris[j]], out[j], max))
  }

  /** No empty shell, at most one shell per source resource and one per source
      scope within it, all in source order. */
  ghost predicate WellFormed(src: seq<ResourceMetrics>, out: Request, max: nat) {
    exists ris :: ResourcesMirror(src, out.resourceMetrics, ris, max)
  }

  lemma {:induction false} MetricsSized(g: seq<Slice>, ri: nat, si: nat, max: nat)
    requires Sized(g, max)
    ensures forall m :: m in MetricsAt(g, ri, si) ==> 1 <= PointCount(m) <= max
  {
    if g != [] {
      MetricsSized(g[..|g| - 1], ri, si, max);
      assert 1 <= Size(g[|g| - 1]) <= max;
    }
  }

  lemma ScopesMirrorSnoc(src: seq<ScopeMetrics>, out: seq<ScopeMetrics>, sis: seq<nat>, si: nat,
                         metrics: seq<Metric>, max: nat)
    requires ScopesMirror(src, out, sis, max) && si < |src| && forall i :: 0 <= i < |sis| ==> sis[i] < si
    requires metrics != [] && forall m :: m in metrics ==> 1 <= PointCount(m) <= max
    ensures ScopesMirror(src, out + [ScopeShell(src[si], metrics)], sis + [si], max)
  {
  }

  /** The positions of the scope shells, one scope further. */
  lemma ScopeStep(rms: seq<ResourceMetrics>, g: seq<Slice>, ri: nat, k: nat, max: nat, sis: seq<nat>)
    returns (sis': seq<nat>)
    requires ri < |rms| && k < |rms[ri].scopeMetrics| && Sized(g, max) && forall i :: 0 <= i < |sis| ==> sis[i] < k
    requires ScopesMirror(rms[ri].scopeMetrics, ScopeShells(rms, g, ri, k), sis, max)
    ensures ScopesMirror(rms[ri].scopeMetrics, ScopeShells(rms, g, ri, k + 1), sis', max)
    ensures forall i :: 0 <= i < |sis'| ==> sis'[i] < k + 1
  {
    var metrics, shells := MetricsAt(g, ri, k), ScopeShells(rms, g, ri, k);
    MetricsSized(g, ri, k, max);
    hide MetricsAt, ScopesMirror, Sized, PointCount;
    if metrics == [] {
      sis' := sis;
      assert ScopeShells(rms, g, ri, k + 1) == shells;
    } else {
      ScopesMirrorSnoc(rms[ri].scopeMetrics, shells, sis, k, metrics, max);
      sis' := sis + [k];
    }
  }

  lemma {:induction false} ScopeShellsMirror(rms: seq<ResourceMetrics>, g: seq<Slice>, ri: nat, k: nat, max: nat)
    returns (sis: seq<nat>)
    requires ri < |rms| && k <= |rms[ri].scopeMetrics| && Sized(g, max)
    ensures ScopesMirror(rms[ri].scopeMetrics, ScopeShells(rms, g, ri, k), sis, max)
    ensures forall i :: 0 <= i < |sis| ==> sis[i] < k
  {
    if k == 0 {
      sis := [];
    } else {
      hide ScopeShells, ScopesMirror, Sized;
      sis := ScopeShellsMirror(rms, g, ri, k - 1, max);
      sis := ScopeStep(rms, g, ri, k - 1, max, sis);
    }
  }

  lemma ResourcesMirrorSnoc(src: seq<ResourceMetrics>, out: seq<ResourceMetrics>, ris: seq<nat>, ri: nat,
                            shell: ResourceMetrics, max: nat)
    requires ResourcesMirror(src, out, ris, max) && ri < |src| && forall i :: 0 <= i < |ris| ==> ris[i] < ri
    requires ShellMirrors(src[ri], shell, max)
    ensures ResourcesMirror(src, out + [shell], ris + [ri], max)
  {
    hide ShellMirrors;
  }

  /** The positions of the resource shells, one resource further. */
  lemma ResourceStep(rms: seq<ResourceMetrics>, g: seq<Slice>, k: nat, max: nat, ris: seq<nat>)
    returns (ris': seq<nat>)
    requires k < |rms| && Sized(g, max) && forall i :: 0 <= i < |ris| ==> ris[i] < k
    requires ResourcesMirror(rms, ResourceShells(rms, g, k), ris, max)
    ensures ResourcesMirror(rms, ResourceShells(rms, g, k + 1), ris', max)
    ensures forall i :: 0 <= i < |ris'| ==> ris'[i] < k + 1
  {
    hide ScopeShells, ScopesMirror, ResourcesMirror;
    ris' := ris;
    var scopes := AllScopeShells(rms, g, k);
    if scopes == [] {
      assert ResourceShells(rms, g, k + 1) == ResourceShells(rms, g, k);
    } else {
      var sis := ScopeShellsMirror(rms, g, k, |rms[k].scopeMetrics|, max);
      var shell := ResourceShell(rms[k], scopes);
      assert ShellMirrors(rms[k], shell, max);
      ResourcesMirrorSnoc(rms, ResourceShells(rms, g, k), ris, k, shell, max);
      ris' := ris + [k];
    }
  }

  lemma {:induction false} ResourceShellsMirror(rms: seq<ResourceMetrics>, g: seq<Slice>, k: nat, max: nat)
    returns (ris: seq<nat>)
    requires k <= |rms| && Sized(g, max)
    ensures ResourcesMirror(rms, ResourceShells(rms, g, k), ris, max)
    ensures forall i :: 0 <= i < |ris| ==> ris[i] < k
  {
    if k == 0 {
      ris := [];
    } else {
      hide ResourceShells, ResourcesMirror, Sized;
      ris := ResourceShellsMirror(rms, g, k - 1, max);
      ris := ResourceStep(rms, g, k - 1, max, ris);
    }
  }

  lemma ProjectionWellFormed(rms: seq<ResourceMetrics>, g: seq<Slice>, max: nat)
    requires Sized(g, max)
    ensures WellFormed(rms, Project(rms, g), max)
  {
    var ris := ResourceShellsMirror(rms, g, |rms|, max);
  }
}
