/** Greedy packing of slices into requests: what it is, that it is the only
    packing of its kind, and that no packing uses fewer requests. */
module OtlpPacking {
  import opened Common
  import opened OtlpModel

  /** `ss` cut into contiguous nonempty groups of at most `max` points, where the
      first slice of a group would not have fitted into the group before it. */
  ghost predicate Packed(gs: seq<seq<Slice>>, ss: seq<Slice>, max: nat) {
    && Flat(gs) == ss
    && (forall i :: 0 <= i < |gs| ==> gs[i] != [] && Weight(gs[i]) <= max)
    && (forall i :: 0 <= i < |gs| - 1 ==> Weight(gs[i]) + Size(gs[i + 1][0]) > max)
  }

  /** Closed groups and the open one, slice by slice. */
  datatype Packing = Packing(closed: seq<seq<Slice>>, open: seq<Slice>)

  function Place(p: Packing, x: Slice, max: nat): Packing {
    if Weight(p.open) + Size(x) > max && Weight(p.open) > 0
    then Packing(p.closed + [p.open], [x])
    else Packing(p.closed, p.open + [x])
  }

  function Pack(ss: seq<Slice>, max: nat): Packing {
    if ss == [] then Packing([], []) else Place(Pack(ss[..|ss| - 1], max), ss[|ss| - 1], max)
  }

  function Groups(ss: seq<Slice>, max: nat): seq<seq<Slice>> {
    var p := Pack(ss, max);
    if Weight(p.open) > 0 then p.closed + [p.open] else p.closed
  }

  lemma PackSnoc(ss: seq<Slice>, x: Slice, max: nat)
    ensures Pack(ss + [x], max) == Place(Pack(ss, max), x, max)
  {
    assert (ss + [x])[..|ss|] == ss;
  }

  lemma WeightSnoc(ss: seq<Slice>, x: Slice)
    ensures Weight(ss + [x]) == Weight(ss) + Size(x)
  {
    assert (ss + [x])[..|ss|] == ss;
  }

  lemma WeightPositive(ss: seq<Slice>, max: nat)
    requires Sized(ss, max)
    ensures Weight(ss) > 0 <==> ss != []
  {
  }

  lemma OpensNext(closed: seq<seq<Slice>>, open: seq<Slice>, ss: seq<Slice>, x: Slice, max: nat)
    requires Packed(closed + [open], ss, max)
    requires 1 <= Size(x) <= max && Weight(open) + Size(x) > max
    ensures Packed(closed + [open] + [[x]], ss + [x], max)
  {
    FlatSnoc(closed + [open], [x]);
    WeightSnoc([], x);
  }

  lemma Extends(closed: seq<seq<Slice>>, open: seq<Slice>, ss: seq<Slice>, x: Slice, max: nat)
    requires Packed(closed + [open], ss, max)
    requires Weight(open) + Size(x) <= max
    ensures Packed(closed + [open + [x]], ss + [x], max)
  {
    FlatSnoc(closed, open);
    FlatSnoc(closed, open + [x]);
    WeightSnoc(open, x);
    var gs, gs' := closed + [open], closed + [open + [x]];
    assert gs[|closed|] == open && gs'[|closed|] == open + [x];
    assert forall i :: 0 <= i < |closed| ==> gs'[i] == gs[i];
    assert forall i :: 0 <= i < |gs'| ==> gs'[i] != [] && gs[i][0] == gs'[i][0];
    ConcatAssoc(Flat(closed), open, [x]);
  }

  lemma Starts(x: Slice, max: nat)
    requires 1 <= Size(x) <= max
    ensures Packed([] + [[x]], [x], max)
  {
    WeightSnoc([], x);
    FlatSnoc([], [x]);
  }

  lemma PlaceKeepsPacked(p: Packing, ss: seq<Slice>, x: Slice, max: nat)
    requires Packed(p.closed + [p.open], ss, max) && Weight(p.open) > 0
    requires 1 <= Size(x) <= max
    ensures var q := Place(p, x, max);
            Packed(q.closed + [q.open], ss + [x], max) && Weight(q.open) > 0
  {
    WeightSnoc([], x);
    WeightSnoc(p.open, x);
    if Weight(p.open) + Size(x) > max {
      OpensNext(p.closed, p.open, ss, x, max);
    } else {
      Extends(p.closed, p.open, ss, x, max);
    }
  }

  lemma {:induction false} PackIsPacked(ss: seq<Slice>, max: nat)
    requires Sized(ss, max) && ss != []
    ensures Packed(Pack(ss, max).closed + [Pack(ss, max).open], ss, max)
    ensures Weight(Pack(ss, max).open) > 0
  {
    var init, x := ss[..|ss| - 1], ss[|ss| - 1];
    assert ss == init + [x];
    if init == [] {
      Starts(x, max);
      WeightSnoc([], x);
      assert Pack(ss, max) == Packing([], [x]);
    } else {
      PackIsPacked(init, max);
      PlaceKeepsPacked(Pack(init, max), init, x, max);
    }
  }

  /** The greedy groups are packed, so every slice is in exactly one, in order. */
  lemma GroupsArePacked(ss: seq<Slice>, max: nat)
    requires Sized(ss, max)
    ensures Packed(Groups(ss, max), ss, max)
  {
    if ss != [] {
      PackIsPacked(ss, max);
    }
  }

  // ----- cutting a packed sequence ------------------------------------------

  lemma FlatCut<T>(gs: seq<seq<T>>, k: nat)
    requires k < |gs|
    ensures Flat(gs) == Flat(gs[..k]) + gs[k] + Flat(gs[k + 1..])
    ensures Flat(gs[..k + 1]) == Flat(gs[..k]) + gs[k]
  {
    hide Flat;
    FlatSnoc(gs[..k], gs[k]);
    assert gs[..k + 1] == gs[..k] + [gs[k]];
    FlatAppend(gs[..k + 1], gs[k + 1..]);
    assert gs == gs[..k + 1] + gs[k + 1..];
  }

  lemma WeightOfPart(ss: seq<Slice>, a: nat, b: nat, c: nat, d: nat)
    requires a <= b <= c <= d <= |ss|
    ensures Weight(ss[b..c]) <= Weight(ss[a..d])
  {
    assert ss[a..d] == (ss[a..b] + ss[b..c]) + ss[c..d];
    WeightAppend(ss[a..b] + ss[b..c], ss[c..d]);
    WeightAppend(ss[a..b], ss[b..c]);
  }

  /** A group of a packed sequence together with the slice after it is too heavy. */
  lemma GroupAndNext(gs: seq<seq<Slice>>, ss: seq<Slice>, max: nat, k: nat)
    requires Packed(gs, ss, max) && k < |gs| - 1
    ensures var b := |Flat(gs[..k])|; var e := b + |gs[k]|;
            e < |ss| && Weight(ss[b..e + 1]) > max
  {
    FlatCut(gs, k);
    FlatCut(gs, k + 1);
    var b := |Flat(gs[..k])|;
    var e := b + |gs[k]|;
    assert ss == Flat(gs[..k]) + gs[k] + gs[k + 1] + Flat(gs[k + 2..]);
    assert ss[b..e + 1] == gs[k] + [gs[k + 1][0]];
    WeightSnoc(gs[k], gs[k + 1][0]);
  }

  // ----- optimality ---------------------------------------------------------

  /** Any way of sending the slices in order, `max` points a request at most. */
  ghost predicate Partition(gs: seq<seq<Slice>>, ss: seq<Slice>, max: nat) {
    Flat(gs) == ss && forall i :: 0 <= i < |gs| ==> Weight(gs[i]) <= max
  }

  /** A group starting no later than group `k` of the packed sequence cannot end after it. */
  lemma CannotOvertake(gs: seq<seq<Slice>>, ss: seq<Slice>, max: nat, k: nat, a: nat, a': nat)
    requires Packed(gs, ss, max) && k < |gs| - 1
    requires a <= |Flat(gs[..k])| && a <= a' <= |ss| && Weight(ss[a..a']) <= max
    ensures a' <= |Flat(gs[..k])| + |gs[k]|
  {
    var b' := |Flat(gs[..k])| + |gs[k]|;
    if a' > b' {
      GroupAndNext(gs, ss, max, k);
      WeightOfPart(ss, a, |Flat(gs[..k])|, b' + 1, a');
      assert false;
    }
  }

  /** After the same number of requests, the packed sequence has sent at least as much. */
  lemma {:induction false} StaysAhead(gs: seq<seq<Slice>>, other: seq<seq<Slice>>, ss: seq<Slice>, max: nat, k: nat)
    requires Packed(gs, ss, max) && Partition(other, ss, max)
    requires k <= |gs| && k <= |other|
    ensures |Flat(other[..k])| <= |Flat(gs[..k])|
  {
    if k > 0 {
      hide Weight;
      StaysAhead(gs, other, ss, max, k - 1);
      FlatCut(gs, k - 1);
      FlatCut(other, k - 1);
      var a := |Flat(other[..k - 1])|;
      var a' := a + |other[k - 1]|;
      assert ss[a..a'] == other[k - 1];
      if k < |gs| {
        CannotOvertake(gs, ss, max, k - 1, a, a');
      } else {
        assert gs[..k] == gs;
      }
    }
  }

  /** No order-preserving partition of the slices uses fewer requests. */
  lemma PackedIsOptimal(gs: seq<seq<Slice>>, other: seq<seq<Slice>>, ss: seq<Slice>, max: nat)
    requires Packed(gs, ss, max)
    requires Flat(other) == ss && forall i :: 0 <= i < |other| ==> Weight(other[i]) <= max
    ensures |gs| <= |other|
  {
    if |other| < |gs| {
      var k := |other|;
      FlatCut(gs, k);
      assert other[..k] == other && |gs[k]| >= 1;
      StaysAhead(gs, other, ss, max, k);
      assert false;
    }
  }

  // ----- uniqueness ---------------------------------------------------------

  lemma FirstGroup(gs: seq<seq<Slice>>, ss: seq<Slice>, max: nat)
    requires Packed(gs, ss, max) && gs != []
    ensures |gs[0]| <= |ss| && ss[0..|gs[0]|] == gs[0] && Weight(gs[0]) <= max
    ensures |gs| == 1 ==> ss == gs[0]
  {
    assert Flat(gs) == gs[0] + Flat(gs[1..]);
    hide Weight;
  }

  lemma FirstGroupNotShorter(a: seq<seq<Slice>>, b: seq<seq<Slice>>, ss: seq<Slice>, max: nat)
    requires Packed(a, ss, max) && Packed(b, ss, max) && a != [] && b != []
    ensures |a[0]| >= |b[0]|
  {
    FirstGroup(a, ss, max);
    FirstGroup(b, ss, max);
    assert Flat(a[..0]) == [];
    hide Packed, Weight, Flat;
    if |a[0]| < |b[0]| {
      GroupAndNext(a, ss, max, 0);
      WeightOfPart(ss, 0, 0, |a[0]| + 1, |b[0]|);
    }
  }

  /** Being packed determines the groups, so it says all there is to say about them. */
  lemma {:induction false} PackedIsUnique(a: seq<seq<Slice>>, b: seq<seq<Slice>>, ss: seq<Slice>, max: nat)
    requires Packed(a, ss, max) && Packed(b, ss, max)
    ensures a == b
    decreases |a|
  {
    if a == [] || b == [] {
      assert a != [] ==> Flat(a) != [];
      assert b != [] ==> Flat(b) != [];
    } else {
      FirstGroupNotShorter(a, b, ss, max);
      FirstGroupNotShorter(b, a, ss, max);
      SplitAgree(a[0], Flat(a[1..]), b[0], Flat(b[1..]));
      assert forall i :: 0 <= i < |a| - 1 ==> a[1..][i] == a[i + 1];
      assert forall i :: 0 <= i < |b| - 1 ==> b[1..][i] == b[i + 1];
      PackedIsUnique(a[1..], b[1..], Flat(a[1..]), max);
      assert a == [a[0]] + a[1..] && b == [b[0]] + b[1..];
    }
  }

  // ----- size bounds --------------------------------------------------------

  lemma WeightFlatCons(g: seq<Slice>, gs: seq<seq<Slice>>)
    ensures Weight(Flat([g] + gs)) == Weight(g) + Weight(Flat(gs))
  {
    WeightAppend(g, Flat(gs));
    assert ([g] + gs)[1..] == gs;
  }

  lemma {:induction false} UpperBound(gs: seq<seq<Slice>>, max: nat)
    requires forall i :: 0 <= i < |gs| ==> Weight(gs[i]) <= max
    ensures Weight(Flat(gs)) <= |gs| * max
  {
    if gs != [] {
      UpperBound(gs[1..], max);
      WeightFlatCons(gs[0], gs[1..]);
      assert gs == [gs[0]] + gs[1..];
      TimesNext(|gs| - 1, max);
    }
  }

  lemma OnePairMore(c: nat, max: nat)
    requires c >= 2
    ensures (c / 2) * (max + 1) == (max + 1) + ((c - 2) / 2) * (max + 1)
  {
    assert c / 2 == 1 + (c - 2) / 2;
  }

  predicate HeavyPair(gs: seq<seq<Slice>>, i: nat, max: nat)
    requires i < |gs| - 1
  {
    Weight(gs[i]) + Weight(gs[i + 1]) > max
  }

  lemma {:induction false} PairBound(gs: seq<seq<Slice>>, max: nat)
    requires forall i :: 0 <= i < |gs| - 1 ==> HeavyPair(gs, i, max)
    ensures (|gs| / 2) * (max + 1) <= Weight(Flat(gs))
  {
    if |gs| >= 2 {
      var rest := gs[2..];
      forall i | 0 <= i < |rest| - 1
        ensures HeavyPair(rest, i, max)
      {
        assert HeavyPair(gs, i + 2, max);
      }
      PairBound(rest, max);
      WeightFlatCons(gs[1], rest);
      WeightFlatCons(gs[0], gs[1..]);
      assert gs[1..] == [gs[1]] + rest && gs == [gs[0]] + gs[1..];
      assert HeavyPair(gs, 0, max);
      OnePairMore(|gs|, max);
    }
  }

  lemma FirstSlice(g: seq<Slice>)
    requires g != []
    ensures Size(g[0]) <= Weight(g)
  {
    assert g == [g[0]] + g[1..];
    WeightAppend([g[0]], g[1..]);
    WeightSnoc([], g[0]);
  }

  /** Two consecutive requests carry more than `max` points, so `c` requests for
      `total` points satisfy `ceil(total / max) <= c` and
      `floor(c / 2) * (max + 1) <= total`. */
  lemma PackedBounds(gs: seq<seq<Slice>>, ss: seq<Slice>, max: nat)
    requires Packed(gs, ss, max) && max >= 1
    ensures forall i :: 0 <= i < |gs| - 1 ==> HeavyPair(gs, i, max)
    ensures SliceCount(Weight(ss), max) <= |gs|
    ensures (|gs| / 2) * (max + 1) <= Weight(ss)
  {
    forall i | 0 <= i < |gs| - 1
      ensures HeavyPair(gs, i, max)
    {
      FirstSlice(gs[i + 1]);
    }
    PairBound(gs, max);
    UpperBound(gs, max);
    SliceCountBounds(Weight(ss), max, |gs|);
  }
}
