/** Per-stage views of the StageCountry table and the numbering rule both the seeding and the
    migration rely on: every stage's orders, read in table order, are 1, 2, ..., k. */
module Ordering {
  import opened Wrappers
  import opened Seqs
  import opened Models

  /** The rows of one stage, in table order. */
  function RowsOfStage(rows: seq<StageCountry>, sid: Id): seq<StageCountry>
  {
    Filter(rows, (x: StageCountry) => x.stageId == sid)
  }

  function OrdersOf(rows: seq<StageCountry>): seq<int>
  {
    Column(rows, (x: StageCountry) => x.order)
  }

  /** The orders given to one stage, in table order. */
  function StageOrders(rows: seq<StageCountry>, sid: Id): seq<int>
  {
    OrdersOf(RowsOfStage(rows, sid))
  }

  /** The stages one country is placed in, in table order. */
  function StagesOf(rows: seq<StageCountry>, cid: Id): seq<Id>
  {
    Column(Filter(rows, (x: StageCountry) => x.countryId == cid), (x: StageCountry) => x.stageId)
  }

  /** Every stage is numbered 1..k with no gap, repeat or reordering. */
  ghost predicate Contiguous(rows: seq<StageCountry>)
  {
    forall sid :: StageOrders(rows, sid) == OneTo(|RowsOfStage(rows, sid)|)
  }

  /** The next-order query of the seeding: SQL MAX over the stage's orders, with the NULL that
      MAX gives over no rows read as 0. */
  function MaxOrderOrZero(rows: seq<StageCountry>, sid: Id): (r: int)
    ensures StageOrders(rows, sid) == [] ==> r == 0
    ensures StageOrders(rows, sid) != [] ==> r in StageOrders(rows, sid)
    ensures forall i :: 0 <= i < |StageOrders(rows, sid)| ==> StageOrders(rows, sid)[i] <= r
  {
    SqlMax(StageOrders(rows, sid)).GetOr(0)
  }

  lemma RowsOfStageSnoc(rows: seq<StageCountry>, x: StageCountry, sid: Id)
    ensures RowsOfStage(rows + [x], sid) == RowsOfStage(rows, sid) + (if x.stageId == sid then [x] else [])
  {
    assert (rows + [x])[..|rows|] == rows;
  }

  lemma {:induction false} RowsOfStageConcat(a: seq<StageCountry>, b: seq<StageCountry>, sid: Id)
    ensures RowsOfStage(a + b, sid) == RowsOfStage(a, sid) + RowsOfStage(b, sid)
    decreases |b|
  {
    if |b| == 0 {
      assert a + b == a;
    } else {
      var b', x := b[..|b| - 1], b[|b| - 1];
      assert b == b' + [x];
      assert a + b == (a + b') + [x];
      RowsOfStageConcat(a, b', sid);
      RowsOfStageSnoc(a + b', x, sid);
      RowsOfStageSnoc(b', x, sid);
    }
  }

  lemma StagesOfSnoc(rows: seq<StageCountry>, x: StageCountry, cid: Id)
    ensures StagesOf(rows + [x], cid) == StagesOf(rows, cid) + (if x.countryId == cid then [x.stageId] else [])
  {
    assert (rows + [x])[..|rows|] == rows;
  }

  lemma OrdersOfSnoc(rows: seq<StageCountry>, x: StageCountry)
    ensures OrdersOf(rows + [x]) == OrdersOf(rows) + [x.order]
  {
    assert forall i :: 0 <= i < |rows| ==> (rows + [x])[i] == rows[i];
  }

  lemma OrdersOfConcat(a: seq<StageCountry>, b: seq<StageCountry>)
    ensures OrdersOf(a + b) == OrdersOf(a) + OrdersOf(b)
  {
    assert forall i :: 0 <= i < |a| ==> (a + b)[i] == a[i];
    assert forall i :: |a| <= i < |a| + |b| ==> (a + b)[i] == b[i - |a|];
  }

  /** When a stage is numbered 1..k, the next free order the seeding computes is k + 1. */
  lemma NextOrderAfterRun(rows: seq<StageCountry>, sid: Id)
    requires StageOrders(rows, sid) == OneTo(|RowsOfStage(rows, sid)|)
    ensures MaxOrderOrZero(rows, sid) == |RowsOfStage(rows, sid)|
  {
    var n := |RowsOfStage(rows, sid)|;
    if n > 0 {
      SqlMaxOneTo(n);
    }
  }

  /** Appending a row numbered "max existing order in its stage, or 0, plus one" keeps every
      stage numbered 1..k. */
  lemma AppendNextKeepsContiguous(rows: seq<StageCountry>, sid: Id, cid: Id)
    requires Contiguous(rows)
    ensures Contiguous(rows + [StageCountry(sid, cid, MaxOrderOrZero(rows, sid) + 1)])
  {
    var x := StageCountry(sid, cid, MaxOrderOrZero(rows, sid) + 1);
    var n := |RowsOfStage(rows, sid)|;
    NextOrderAfterRun(rows, sid);
    forall s
      ensures StageOrders(rows + [x], s) == OneTo(|RowsOfStage(rows + [x], s)|)
    {
      RowsOfStageSnoc(rows, x, s);
      if s == sid {
        OrdersOfSnoc(RowsOfStage(rows, s), x);
        OneToSnoc(n);
      }
    }
  }
}
