/** What splitting guarantees, and the sequential send loop it feeds. */
module OtlpSend {
  import opened Common
  import opened OtlpModel
  import opened OtlpPacking
  import opened OtlpProject
  import opened OtlpSplit

  /** The attributed points of a list of encoded requests, in order. */
  function RowsSent(wire: Wire, chunks: seq<Bytes>): seq<Row> {
    if chunks == [] then []
    else
      var last := wire.decode(chunks[|chunks| - 1]);
      RowsSent(wire, chunks[..|chunks| - 1]) + (if last.Some? then Rows(last.value) else [])
  }

  /** The requests an export of more than `max` points is sent as. */
  function SplitChunks(wire: Wire, req: Request, max: nat): seq<Bytes>
    requires max >= 1
  {
    Encoded(wire, req, Groups(AllSlices(req, max), max))
  }

  lemma TailOf(rms: seq<ResourceMetrics>, a: seq<Slice>, b: seq<Slice>)
    requires AllWithin(rms, a + b) && InOrder(a + b)
    ensures AllWithin(rms, a) && AllWithin(rms, b) && InOrder(a) && InOrder(b)
  {
    forall i | 0 <= i < |a|
      ensures (a + b)[i] == a[i]
    {
    }
    forall i | 0 <= i < |b|
      ensures (a + b)[|a| + i] == b[i]
    {
    }
    forall i, j | 0 <= i < j < |b|
      ensures NotAfter(b[i], b[j])
    {
      assert NotAfter((a + b)[|a| + i], (a + b)[|a| + j]);
    }
    forall i, j | 0 <= i < j < |a|
      ensures NotAfter(a[i], a[j])
    {
      assert NotAfter((a + b)[i], (a + b)[j]);
    }
    forall i | 0 <= i < |b|
      ensures Within(rms, b[i])
    {
      assert Within(rms, (a + b)[|a| + i]);
    }
    forall i | 0 <= i < |a|
      ensures Within(rms, a[i])
    {
      assert Within(rms, (a + b)[i]);
    }
  }

  lemma LastGroupRows(wire: Wire, req: Request, init: seq<seq<Slice>>, last: seq<Slice>)
    requires RoundTrips(wire)
    ensures RowsSent(wire, Encoded(wire, req, init + [last]))
         == RowsSent(wire, Encoded(wire, req, init)) + Rows(Project(req.resourceMetrics, last))
  {
    var chunks := Encoded(wire, req, init + [last]);
    assert chunks[..|chunks| - 1] == Encoded(wire, req, init);
    hide Rows, Project;
  }

  lemma {:induction false} GroupsRows(wire: Wire, req: Request, gs: seq<seq<Slice>>)
    requires RoundTrips(wire)
    requires AllWithin(req.resourceMetrics, Flat(gs)) && InOrder(Flat(gs))
    ensures RowsSent(wire, Encoded(wire, req, gs)) == SlicesRows(req.resourceMetrics, Flat(gs))
  {
    var rms := req.resourceMetrics;
    if gs != [] {
      var init, last := gs[..|gs| - 1], gs[|gs| - 1];
      assert gs == init + [last];
      FlatSnoc(init, last);
      TailOf(rms, Flat(init), last);
      hide *;
      LastGroupRows(wire, req, init, last);
      GroupsRows(wire, req, init);
      SlicesRowsAppend(rms, Flat(init), last);
      ProjectConserves(rms, last);
    }
  }

  /** Splitting loses, duplicates, reorders and re-attributes nothing: decoding the
      requests gives the export's attributed points, in order. */
  lemma SplitConserves(wire: Wire, req: Request, max: nat)
    requires RoundTrips(wire) && max >= 1
    ensures RowsSent(wire, SplitChunks(wire, req, max)) == Rows(req)
  {
    var ss := AllSlices(req, max);
    SlicingConserves(req, max);
    GroupsArePacked(ss, max);
    GroupsRows(wire, req, Groups(ss, max));
  }

  lemma {:induction false} PartOfFlat(rms: seq<ResourceMetrics>, gs: seq<seq<Slice>>, i: nat, max: nat)
    requires i < |gs| && AllWithin(rms, Flat(gs)) && InOrder(Flat(gs)) && Sized(Flat(gs), max)
    ensures AllWithin(rms, gs[i]) && InOrder(gs[i]) && Sized(gs[i], max)
  {
    FlatCut(gs, i);
    var before, after := Flat(gs[..i]), Flat(gs[i + 1..]);
    TailOf(rms, before + gs[i], after);
    TailOf(rms, before, gs[i]);
    forall k | 0 <= k < |gs[i]|
      ensures 1 <= Size(gs[i][k]) <= max
    {
      assert Flat(gs)[|before| + k] == gs[i][k];
    }
  }

  /** Every request has 1 to `max` points, no empty shell, at most one shell per
      source resource and scope, in source order; there is at least one request
      when there is a point to send. */
  lemma SplitWellFormed(wire: Wire, req: Request, max: nat)
    requires RoundTrips(wire) && max >= 1
    ensures forall i :: 0 <= i < |SplitChunks(wire, req, max)| ==>
              var q := wire.decode(SplitChunks(wire, req, max)[i]);
              q.Some? && 1 <= TotalPoints(q.value) <= max && WellFormed(req.resourceMetrics, q.value, max)
    ensures TotalPoints(req) > 0 <==> SplitChunks(wire, req, max) != []
  {
    var rms, ss := req.resourceMetrics, AllSlices(req, max);
    var gs := Groups(ss, max);
    SlicingConserves(req, max);
    GroupsArePacked(ss, max);
    forall i | 0 <= i < |gs|
      ensures var q := wire.decode(SplitChunks(wire, req, max)[i]);
              q.Some? && 1 <= TotalPoints(q.value) <= max && WellFormed(rms, q.value, max)
    {
      PartOfFlat(rms, gs, i, max);
      ProjectionWellFormed(rms, gs[i], max);
      ProjectConserves(rms, gs[i]);
      TotalIsRows(Project(rms, gs[i]));
      WeightIsRows(rms, gs[i]);
      WeightPositive(gs[i], max);
    }
    TotalIsRows(req);
    WeightIsRows(rms, ss);
    WeightPositive(ss, max);
    assert gs != [] ==> Flat(gs) != [];
  }

  /** No way of sending the same pieces in order, at most `max` points at a time,
      takes fewer requests; and the number of requests is within the packing
      bounds for the export's points. */
  lemma SplitIsOptimal(wire: Wire, req: Request, max: nat, other: seq<seq<Slice>>)
    requires max >= 1 && Flat(other) == AllSlices(req, max)
    requires forall i :: 0 <= i < |other| ==> Weight(other[i]) <= max
    ensures |SplitChunks(wire, req, max)| <= |other|
    ensures SliceCount(TotalPoints(req), max) <= |SplitChunks(wire, req, max)|
    ensures (|SplitChunks(wire, req, max)| / 2) * (max + 1) <= TotalPoints(req)
  {
    var ss := AllSlices(req, max);
    SlicingConserves(req, max);
    GroupsArePacked(ss, max);
    PackedIsOptimal(Groups(ss, max), other, ss, max);
    PackedBounds(Groups(ss, max), ss, max);
    TotalIsRows(req);
    WeightIsRows(req.resourceMetrics, ss);
  }

  // ----- sending ------------------------------------------------------------

  /** A status line, or no answer at all, in which case the request may or may not
      have been taken. */
  datatype Reply = Status(code: nat) | Lost(taken: bool)

  predicate IsSuccess(reply: Reply) {
    reply.Status? && 200 <= reply.code < 300
  }

  /** How many of the first `n` answers come before one that is not a success. */
  function Leading(reply: nat -> Reply, n: nat): (k: nat)
    ensures k <= n && (k < n ==> !IsSuccess(reply(k)))
    ensures forall i :: 0 <= i < k ==> IsSuccess(reply(i))
  {
    if n == 0 then 0
    else
      var k := Leading(reply, n - 1);
      if k == n - 1 && IsSuccess(reply(k)) then n else k
  }

  /** How many of `n` pieces sent in turn the API takes: the leading successes, and
      the next one if it was taken and its answer lost. A piece answered by anything
      but a success was refused whole. */
  function Taken(reply: nat -> Reply, n: nat): (k: nat)
    ensures k <= n
  {
    var k := Leading(reply, n);
    if k < n && reply(k) == Lost(true) then k + 1 else k
  }

  /** The last answer a sender of `n` pieces sees, if it sees one. */
  function LastStatus(reply: nat -> Reply, n: nat): Option<nat>
    requires n > 0
  {
    var k := Leading(reply, n);
    var last := reply(if k < n then k else n - 1);
    if last.Status? then Some(last.code) else None
  }

  datatype SendError = NoToken | BadBody | Transport | BodyUnread

  /** The first answer that is not a success ends the leading ones. */
  lemma LeadingAt(reply: nat -> Reply, n: nat, i: nat)
    requires i < n && forall k :: 0 <= k < i ==> IsSuccess(reply(k))
    ensures Leading(reply, n) == i <==> !IsSuccess(reply(i))
    ensures Leading(reply, n) >= i
  {
    assert Leading(reply, n) < i ==> !IsSuccess(reply(Leading(reply, n)));
  }

  /** Answer `i` is the first that is not a status between 200 and 299. */
  predicate FirstFailure(reply: nat -> Reply, i: nat) {
    && !(reply(i).Status? && 200 <= reply(i).code < 300)
    && forall k :: 0 <= k < i ==> reply(k).Status? && 200 <= reply(k).code < 300
  }

  predicate AllSucceed(reply: nat -> Reply, n: nat) {
    forall k :: 0 <= k < n ==> reply(k).Status? && 200 <= reply(k).code < 300
  }

  /** With the first failure at piece `i`, the pieces before it were taken, and it too if
      only its answer was lost; the result is its status. */
  predicate EndsAtFailure(pieces: seq<Bytes>, reply: nat -> Reply, readable: bool, result: Result<nat, SendError>,
                          accepted: seq<Bytes>)
  {
    forall i :: 0 <= i < |pieces| && FirstFailure(reply, i) ==>
      && accepted == pieces[..if reply(i) == Lost(true) then i + 1 else i]
      && result == if reply(i).Lost? then Err(Transport)
                   else if readable then Ok(reply(i).code)
                   else Err(BodyUnread)
  }

  /** Send the pieces one after the other, stopping at the first that is not a
      success. `reply(i)` is what becomes of piece `i`; what the API took is the
      first `taken` pieces. */
  method SendPieces(pieces: seq<Bytes>, reply: nat -> Reply) returns (response: Option<nat>, taken: nat)
    requires pieces != []
    ensures taken == Taken(reply, |pieces|)
    ensures response == LastStatus(reply, |pieces|)
    ensures forall i :: 0 <= i < |pieces| && FirstFailure(reply, i) ==>
              && taken == (if reply(i) == Lost(true) then i + 1 else i)
              && response == (if reply(i).Status? then Some(reply(i).code) else None)
    ensures (forall k :: 0 <= k < |pieces| ==> reply(k).Status? && 200 <= reply(k).code < 300) ==>
              taken == |pieces| && response == Some(reply(|pieces| - 1).code)
  {
    response := None;
    taken := 0;
    for i := 0 to |pieces|
      invariant taken == i
      invariant forall k :: 0 <= k < i ==> IsSuccess(reply(k))
      invariant i > 0 ==> response == Some(reply(i - 1).code)
    {
      LeadingAt(reply, |pieces|, i);
      match reply(i) {
        case Lost(wasTaken) =>
          return None, if wasTaken then i + 1 else i;
        case Status(code) =>
          response := Some(code);
          if !(200 <= code < 300) {
            return;
          }
          taken := i + 1;
      }
    }
  }

  /** A success seen last means everything was taken. */
  lemma TakenAll(reply: nat -> Reply, n: nat)
    requires n > 0
    ensures LastStatus(reply, n).Some? && 200 <= LastStatus(reply, n).value < 300 ==>
              Taken(reply, n) == n && AllSucceed(reply, n)
  {
  }

  /** What is taken in the end, and what is reported. */
  predicate EndsAs(pieces: seq<Bytes>, reply: nat -> Reply, readable: bool, result: Result<nat, SendError>,
                   accepted: seq<Bytes>)
    requires pieces != []
  {
    && accepted == pieces[..Taken(reply, |pieces|)]
    && result == match LastStatus(reply, |pieces|)
                 case None => Err(Transport)
                 case Some(code) => if readable then Ok(code) else Err(BodyUnread)
  }

  /** That is what the first failure leaves. */
  lemma EndsThere(pieces: seq<Bytes>, reply: nat -> Reply, readable: bool, result: Result<nat, SendError>,
                  accepted: seq<Bytes>)
    requires pieces != [] && EndsAs(pieces, reply, readable, result, accepted)
    ensures EndsAtFailure(pieces, reply, readable, result, accepted)
  {
    forall i | 0 <= i < |pieces| && FirstFailure(reply, i)
      ensures Leading(reply, |pieces|) == i
    {
      LeadingAt(reply, |pieces|, i);
    }
  }

  /** What an export is sent as, if it decodes: the same bytes within the cap. */
  function Pieces(wire: Wire, body: Bytes, max: nat): Option<seq<Bytes>>
    requires max >= 1
  {
    var req :- wire.decode(body);
    Some(if TotalPoints(req) <= max then [body] else SplitChunks(wire, req, max))
  }

  /** The pieces are never none, and together they carry the export. */
  lemma PiecesCover(wire: Wire, body: Bytes, max: nat, pieces: seq<Bytes>)
    requires wire.decode(body).Some? && max >= 1 && RoundTrips(wire)
    requires var req := wire.decode(body).value;
             pieces == if TotalPoints(req) <= max then [body] else SplitChunks(wire, req, max)
    ensures pieces != [] && RowsSent(wire, pieces) == Rows(wire.decode(body).value)
  {
    var req := wire.decode(body).value;
    if TotalPoints(req) <= max {
      assert [body][..0] == [];
      assert RowsSent(wire, [body]) == [] + Rows(req);
    } else {
      SplitConserves(wire, req, max);
      SplitWellFormed(wire, req, max);
    }
  }

  lemma SplitIntoPieces(wire: Wire, body: Bytes, max: nat, split: Option<seq<Bytes>>)
    requires max >= 1 && RoundTrips(wire)
    requires split.None? <==> wire.decode(body).None?
    requires split.Some? ==>
               var req := wire.decode(body).value;
               split.value == if TotalPoints(req) <= max then [body]
                              else Encoded(wire, req, Groups(AllSlices(req, max), max))
    ensures split == Pieces(wire, body, max)
    ensures split.Some? ==> wire.decode(body).Some? && split.value != []
                            && RowsSent(wire, split.value) == Rows(wire.decode(body).value)
  {
    if split.Some? {
      PiecesCover(wire, body, max, split.value);
    }
  }

  lemma {:induction false} RowsSentPrefix(wire: Wire, pieces: seq<Bytes>, i: nat)
    requires i <= |pieces|
    ensures RowsSent(wire, pieces[..i]) <= RowsSent(wire, pieces)
    decreases |pieces|
  {
    if i == |pieces| {
      assert pieces[..i] == pieces;
    } else {
      var init := pieces[..|pieces| - 1];
      assert init[..i] == pieces[..i];
      RowsSentPrefix(wire, init, i);
    }
  }

  /** What the API has taken is the requests the export splits into, up to the first
      that was not answered by a success (with that one, if only its answer was
      lost), so a prefix of the export's attributed points. The result is the last
      status seen; a success result means all of them. */
  method SendBytes(wire: Wire, haveToken: bool, body: Bytes, max: nat, reply: nat -> Reply, readable: bool)
    returns (result: Result<nat, SendError>, accepted: seq<Bytes>)
    requires wire.decode(body).Some? ==> InMemory(wire.decode(body).value)
    requires max >= 1 && RoundTrips(wire)
    ensures !haveToken ==> result == Err(NoToken) && accepted == []
    ensures haveToken && Pieces(wire, body, max).None? ==> result == Err(BadBody) && accepted == []
    ensures haveToken && Pieces(wire, body, max).Some? ==>
              var pieces := Pieces(wire, body, max).value;
              && pieces != [] && EndsAs(pieces, reply, readable, result, accepted)
              && EndsAtFailure(pieces, reply, readable, result, accepted)
    ensures result.Ok? && 200 <= result.value < 300 ==>
              Pieces(wire, body, max).Some? && AllSucceed(reply, |Pieces(wire, body, max).value|)
    ensures wire.decode(body).Some? ==> RowsSent(wire, accepted) <= Rows(wire.decode(body).value)
    ensures result.Ok? && 200 <= result.value < 300 ==>
              wire.decode(body).Some? && RowsSent(wire, accepted) == Rows(wire.decode(body).value)
  {
    accepted := [];
    if !haveToken {
      return Err(NoToken), accepted;
    }
    hide RowsSent, Rows, SplitChunks, TotalPoints, Taken, LastStatus, FirstFailure, RoundTrips, InMemory, AllSlices,
         Groups, Encoded, IsSuccess, Pieces, AllSucceed, EndsAtFailure;
    var split := SplitRequest(wire, body, max);
    SplitIntoPieces(wire, body, max, split);
    if split.None? {
      return Err(BadBody), accepted;
    }
    var pieces := split.value;
    TakenAll(reply, |pieces|);
    var response, taken := SendPieces(pieces, reply);
    accepted := pieces[..taken];
    RowsSentPrefix(wire, pieces, taken);
    assert pieces[..|pieces|] == pieces;
    result := if response.None? then Err(Transport) else if readable then Ok(response.value) else Err(BodyUnread);
    EndsThere(pieces, reply, readable, result, accepted);
  }
}
