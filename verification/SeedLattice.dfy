/** Writing the corpus's information content back: batches, the checkpoint cadence, and the record of its basis. */
module SeedLattice {
  import opened Outcomes

  const IC_BATCH: nat := 2000

  // ---- the checkpoint cadence ----

  /** The running total passed a multiple of `every` during the last `flushed` rows. */
  predicate Crossed(n: nat, every: int, flushed: int) {
    every > 0 && flushed > 0 && n % every < flushed
  }

  /** Exactly when the interval just covered contains a multiple. */
  lemma CrossedExactly(n: nat, every: int, flushed: nat)
    requires flushed <= n
    ensures Crossed(n, every, flushed) <==> every > 0 && exists q: nat :: n - flushed < q * every <= n
  {
    if every > 0 {
      var d, r := n / every, n % every;
      assert n == d * every + r;
      if r < flushed {
        assert n - flushed < d * every <= n;
      }
      assert (d + 1) * every == d * every + every;
      if q: nat :| n - flushed < q * every <= n {
        if q > d {
          NextMultiple(q, d + 1, every);
        } else {
          NextMultiple(d, q, every);
        }
      }
    }
  }

  lemma NextMultiple(a: nat, b: nat, every: nat)
    requires a >= b
    ensures a * every >= b * every
  {
    assert (a - b) * every >= 0;
    assert a * every == (a - b) * every + b * every;
  }

  // ---- persist_ic ----

  /** A synset row: its id, the stored content if it has one, and the fields this write does not touch. */
  datatype Row = Row(id: string, ic: Option<real>, rest: string)

  /**
   * What reaches the store, in order: a batch, perhaps checkpointed at once, the record of the basis, or a
   * checkpoint.
   */
  datatype Written = Rows(batch: seq<Row>, checkpointed: bool) | Basis(n: nat) | Checkpoint

  /** The row after the measurement, if the corpus measured it and the stored value differs. */
  function Due(row: Row, measured: map<string, real>, normal: string -> string): Option<Row> {
    var name := normal(row.id);
    if name in measured && row.ic != Some(measured[name]) then Some(row.(ic := Some(measured[name]))) else None
  }

  /** The rows that disagree with the measurement, with the measured value, in order. */
  function AllDue(docs: seq<Row>, measured: map<string, real>, normal: string -> string): seq<Row> {
    if docs == [] then []
    else
      var last := Due(docs[|docs| - 1], measured, normal);
      AllDue(docs[..|docs| - 1], measured, normal) + if last.Some? then [last.value] else []
  }

  function RowsIn(e: Written): seq<Row> {
    if e.Rows? then e.batch else []
  }

  /** The rows of a run of writes, put end to end. */
  function RowsOf(log: seq<Written>): seq<Row> {
    if log == [] then []
    else RowsOf(log[..|log| - 1]) + RowsIn(log[|log| - 1])
  }

  lemma {:induction false} RowsOfAppend(a: seq<Written>, b: seq<Written>)
    ensures RowsOf(a + b) == RowsOf(a) + RowsOf(b)
  {
    if b == [] {
      assert a + b == a;
    } else {
      assert (a + b)[..|a + b| - 1] == a + b[..|b| - 1];
      RowsOfAppend(a, b[..|b| - 1]);
    }
  }

  lemma RowsOfOne(a: seq<Written>, e: Written)
    ensures RowsOf(a + [e]) == RowsOf(a) + RowsIn(e)
  {
    assert (a + [e])[..|a|] == a;
  }

  function Batch(rows: seq<Row>, q: nat): seq<Row>
    requires (q + 1) * IC_BATCH <= |rows|
  {
    rows[q * IC_BATCH..(q + 1) * IC_BATCH]
  }

  /** The first `q` full batches, each checkpointed when the total then crossed the cadence. */
  function FullBatches(rows: seq<Row>, q: nat, crosses: nat -> bool): (log: seq<Written>)
    requires q * IC_BATCH <= |rows|
    ensures |log| == q && forall i :: 0 <= i < q ==> log[i] == Rows(Batch(rows, i), crosses((i + 1) * IC_BATCH))
  {
    seq(q, i requires 0 <= i < q => Rows(Batch(rows, i), crosses((i + 1) * IC_BATCH)))
  }

  /**
   * Everything a run writes: the batches, what is left over, a checkpoint, the record of the basis, a last
   * checkpoint.
   */
  function Expected(rows: seq<Row>, crosses: nat -> bool, corpus: nat): seq<Written> {
    var q := |rows| / IC_BATCH;
    FullBatches(rows, q, crosses)
    + (if q * IC_BATCH < |rows| then [Rows(rows[q * IC_BATCH..], false)] else [])
    + [Checkpoint, Basis(corpus), Checkpoint]
  }

  lemma {:induction false} FullBatchesRows(rows: seq<Row>, q: nat, crosses: nat -> bool)
    requires q * IC_BATCH <= |rows|
    ensures RowsOf(FullBatches(rows, q, crosses)) == rows[..q * IC_BATCH]
  {
    if q > 0 {
      FullBatchesRows(rows, q - 1, crosses);
      assert FullBatches(rows, q, crosses)[..q - 1] == FullBatches(rows, q - 1, crosses);
      BatchStep(rows, q - 1);
    }
  }

  lemma BatchStep(rows: seq<Row>, q: nat)
    requires (q + 1) * IC_BATCH <= |rows|
    ensures rows[..(q + 1) * IC_BATCH] == rows[..q * IC_BATCH] + Batch(rows, q)
  {
  }

  /** A run writes each row that disagrees once, in order, whatever the batches and checkpoints. */
  lemma ExpectedRows(rows: seq<Row>, crosses: nat -> bool, corpus: nat)
    ensures RowsOf(Expected(rows, crosses, corpus)) == rows
  {
    var q := |rows| / IC_BATCH;
    var full := FullBatches(rows, q, crosses);
    var left := rows[q * IC_BATCH..];
    var all := full + if q * IC_BATCH < |rows| then [Rows(left, false)] else [];
    FullBatchesRows(rows, q, crosses);
    RowsOfOne(full, Rows(left, false));
    assert rows == rows[..q * IC_BATCH] + left;
    assert left == [] ==> all == full;
    RowsOfAppend(all, [Checkpoint, Basis(corpus), Checkpoint]);
    NothingInTail(corpus);
  }

  lemma NothingInTail(corpus: nat)
    ensures RowsOf([Checkpoint, Basis(corpus), Checkpoint]) == []
  {
    RowsOfOne([], Checkpoint);
    RowsOfOne([Checkpoint], Basis(corpus));
    RowsOfOne([Checkpoint, Basis(corpus)], Checkpoint);
    assert [] + [Checkpoint] == [Checkpoint];
    assert [Checkpoint] + [Basis(corpus)] == [Checkpoint, Basis(corpus)];
    assert [Checkpoint, Basis(corpus)] + [Checkpoint] == [Checkpoint, Basis(corpus), Checkpoint];
  }

  /** How far a run has come: the full batches are written, the rest is in hand. */
  predicate Underway(rows: seq<Row>, q: nat, crosses: nat -> bool, log: seq<Written>, batch: seq<Row>) {
    && q * IC_BATCH <= |rows| && log == FullBatches(rows, q, crosses)
    && batch == rows[q * IC_BATCH..] && |batch| < IC_BATCH
  }

  lemma OneMoreRow(rows: seq<Row>, q: nat, crosses: nat -> bool, log: seq<Written>, batch: seq<Row>, row: Row)
    requires Underway(rows, q, crosses, log, batch)
    ensures var more := batch + [row];
            if |more| < IC_BATCH then Underway(rows + [row], q, crosses, log, more)
            else Underway(rows + [row], q + 1, crosses, log + [Rows(more, crosses((q + 1) * IC_BATCH))], [])
  {
    var all := rows + [row];
    assert forall i :: 0 <= i < q ==> Batch(all, i) == Batch(rows, i);
    assert FullBatches(all, q, crosses) == FullBatches(rows, q, crosses);
    assert all[q * IC_BATCH..] == batch + [row];
    if |batch| + 1 == IC_BATCH {
      assert Batch(all, q) == batch + [row];
    }
  }

  lemma Finished(rows: seq<Row>, q: nat, crosses: nat -> bool, log: seq<Written>, batch: seq<Row>, corpus: nat)
    requires Underway(rows, q, crosses, log, batch)
    ensures (if batch != [] then log + [Rows(batch, false)] else log) + [Checkpoint, Basis(corpus), Checkpoint] ==
            Expected(rows, crosses, corpus)
  {
    assert q == |rows| / IC_BATCH;
  }

  /** The running totals at which a full batch crosses the cadence. */
  function Cadence(every: int): nat -> bool {
    (total: nat) => Crossed(total, every, IC_BATCH)
  }

  method PersistIc(docs: seq<Row>, measured: map<string, real>, corpus: nat, normal: string -> string, every: int)
      returns (n: nat, log: seq<Written>)
    ensures log == Expected(AllDue(docs, measured, normal), Cadence(every), corpus)
    ensures n == |AllDue(docs, measured, normal)|
    ensures RowsOf(log) == AllDue(docs, measured, normal)
  {
    var crosses := Cadence(every);
    n, log := 0, [];
    var batch: seq<Row> := [];
    var k := 0;
    ghost var q := 0;
    while k < |docs|
      invariant 0 <= k <= |docs| && n == q * IC_BATCH
      invariant Underway(AllDue(docs[..k], measured, normal), q, crosses, log, batch)
    {
      assert docs[..k + 1][..k] == docs[..k];
      ghost var rows := AllDue(docs[..k], measured, normal);
      var due := Due(docs[k], measured, normal);
      k := k + 1;
      if due == None {
        assert AllDue(docs[..k], measured, normal) == rows;
        continue;
      }
      OneMoreRow(rows, q, crosses, log, batch, due.value);
      batch := batch + [due.value];
      if |batch| >= IC_BATCH {
        var flushed := |batch|;
        n := n + flushed;
        log := log + [Rows(batch, Crossed(n, every, flushed))];
        batch := [];
        q := q + 1;
      }
    }
    assert docs[..k] == docs;
    ghost var rows := AllDue(docs, measured, normal);
    Finished(rows, q, crosses, log, batch, corpus);
    if batch != [] {
      log := log + [Rows(batch, false)];
      n := n + |batch|;
    }
    log := log + [Checkpoint, Basis(corpus), Checkpoint];
    ExpectedRows(rows, crosses, corpus);
  }

  /** The corpus after the write: every row the measurement disagreed with replaced. */
  function Persisted(docs: seq<Row>, measured: map<string, real>, normal: string -> string): (p: seq<Row>)
    ensures |p| == |docs|
    ensures forall i :: 0 <= i < |docs| ==>
            p[i] == if Due(docs[i], measured, normal).Some? then Due(docs[i], measured, normal).value else docs[i]
  {
    seq(|docs|, i requires 0 <= i < |docs| =>
      if Due(docs[i], measured, normal).Some? then Due(docs[i], measured, normal).value else docs[i])
  }

  // ---- the store the rows are written to ----

  /** What the store holds, by id, once the rows have been put in order. */
  function PutRows(held: map<string, Row>, rows: seq<Row>): map<string, Row> {
    if rows == [] then held else PutRows(held, rows[..|rows| - 1])[rows[|rows| - 1].id := rows[|rows| - 1]]
  }

  ghost predicate DistinctIds(docs: seq<Row>) {
    forall i, j :: 0 <= i < j < |docs| ==> docs[i].id != docs[j].id
  }

  lemma {:induction false} PutRowsHold(docs: seq<Row>, i: nat)
    requires DistinctIds(docs) && i < |docs|
    ensures docs[i].id in PutRows(map[], docs) && PutRows(map[], docs)[docs[i].id] == docs[i]
  {
    if i < |docs| - 1 {
      PutRowsHold(docs[..|docs| - 1], i);
    }
  }

  lemma {:induction false} PutRowsKeys(docs: seq<Row>, id: string)
    ensures id in PutRows(map[], docs) <==> exists i :: 0 <= i < |docs| && docs[i].id == id
  {
    if docs != [] {
      var rest := docs[..|docs| - 1];
      PutRowsKeys(rest, id);
      assert forall i :: 0 <= i < |rest| ==> rest[i] == docs[i];
    }
  }

  /** The rows a run writes, put over any store, leave the measured value under each measured id ... */
  lemma {:induction false} DueLands(held: map<string, Row>, docs: seq<Row>, measured: map<string, real>,
                                    normal: string -> string, i: nat)
    requires DistinctIds(docs) && i < |docs| && Due(docs[i], measured, normal).Some?
    ensures var after := PutRows(held, AllDue(docs, measured, normal));
            docs[i].id in after && after[docs[i].id] == Due(docs[i], measured, normal).value
  {
    DueStep(held, docs, measured, normal);
    if i < |docs| - 1 {
      DistinctInit(docs, i);
      DueLands(held, docs[..|docs| - 1], measured, normal, i);
    }
  }

  lemma DistinctInit(docs: seq<Row>, i: nat)
    requires DistinctIds(docs) && i < |docs| - 1
    ensures DistinctIds(docs[..|docs| - 1]) && docs[..|docs| - 1][i] == docs[i]
    ensures docs[|docs| - 1].id != docs[i].id
  {
    var rest := docs[..|docs| - 1];
    assert forall k :: 0 <= k < |rest| ==> rest[k] == docs[k];
  }

  predicate NotDue(docs: seq<Row>, measured: map<string, real>, normal: string -> string, id: string) {
    forall i :: 0 <= i < |docs| && docs[i].id == id ==> Due(docs[i], measured, normal) == None
  }

  /** ... and the rest alone. */
  lemma {:induction false} DueElsewhere(held: map<string, Row>, docs: seq<Row>, measured: map<string, real>,
                                        normal: string -> string, id: string)
    requires NotDue(docs, measured, normal, id)
    ensures var after := PutRows(held, AllDue(docs, measured, normal));
            (id in after <==> id in held) && (id in after ==> after[id] == held[id])
  {
    if docs != [] {
      var rest := docs[..|docs| - 1];
      assert NotDue(rest, measured, normal, id) by {
        assert forall k :: 0 <= k < |rest| ==> rest[k] == docs[k];
      }
      DueElsewhere(held, rest, measured, normal, id);
      DueStep(held, docs, measured, normal);
    }
  }

  lemma DueStep(held: map<string, Row>, docs: seq<Row>, measured: map<string, real>, normal: string -> string)
    requires docs != []
    ensures var before := PutRows(held, AllDue(docs[..|docs| - 1], measured, normal));
            var due := Due(docs[|docs| - 1], measured, normal);
            PutRows(held, AllDue(docs, measured, normal)) ==
              if due.Some? then before[docs[|docs| - 1].id := due.value] else before
  {
    var rest, due := AllDue(docs[..|docs| - 1], measured, normal), Due(docs[|docs| - 1], measured, normal);
    if due.Some? {
      assert (rest + [due.value])[..|rest|] == rest;
    } else {
      assert rest + [] == rest;
    }
  }

  /** So what a run writes turns the stored corpus into the persisted one, and nothing else. */
  lemma WritesPersist(docs: seq<Row>, measured: map<string, real>, normal: string -> string)
    requires DistinctIds(docs)
    ensures PutRows(PutRows(map[], docs), AllDue(docs, measured, normal)) ==
            PutRows(map[], Persisted(docs, measured, normal))
  {
    var p := Persisted(docs, measured, normal);
    var after := PutRows(PutRows(map[], docs), AllDue(docs, measured, normal));
    forall id
      ensures id in after <==> id in PutRows(map[], p)
      ensures id in after ==> after[id] == PutRows(map[], p)[id]
    {
      PersistAt(docs, measured, normal, id);
    }
  }

  lemma PersistAt(docs: seq<Row>, measured: map<string, real>, normal: string -> string, id: string)
    requires DistinctIds(docs)
    ensures var after := PutRows(PutRows(map[], docs), AllDue(docs, measured, normal));
            var persisted := PutRows(map[], Persisted(docs, measured, normal));
            (id in after <==> id in persisted) && (id in after ==> after[id] == persisted[id])
  {
    var p := Persisted(docs, measured, normal);
    PersistedIds(docs, measured, normal);
    PutRowsKeys(docs, id);
    PutRowsKeys(p, id);
    if i :| 0 <= i < |docs| && docs[i].id == id {
      PutRowsHold(docs, i);
      PutRowsHold(p, i);
      OnlyOneDue(docs, measured, normal, i);
      if Due(docs[i], measured, normal).Some? {
        DueLands(PutRows(map[], docs), docs, measured, normal, i);
      }
    }
    if NotDue(docs, measured, normal, id) {
      DueElsewhere(PutRows(map[], docs), docs, measured, normal, id);
    }
  }

  lemma OnlyOneDue(docs: seq<Row>, measured: map<string, real>, normal: string -> string, i: nat)
    requires DistinctIds(docs) && i < |docs|
    ensures forall j :: 0 <= j < |docs| && docs[j].id == docs[i].id ==> j == i
  {
  }

  /**
   * A second run over the same measurement, reading what the first one left, writes no row; every measured row then
   * holds its measurement.
   */
  lemma PersistIsIdempotent(docs: seq<Row>, again: seq<Row>, measured: map<string, real>, normal: string -> string)
    requires DistinctIds(docs) && DistinctIds(again)
    requires PutRows(map[], again) == PutRows(PutRows(map[], docs), AllDue(docs, measured, normal))
    ensures AllDue(again, measured, normal) == []
    ensures forall i :: 0 <= i < |again| && normal(again[i].id) in measured ==>
            again[i].ic == Some(measured[normal(again[i].id)])
  {
    WritesPersist(docs, measured, normal);
    forall i | 0 <= i < |again|
      ensures Due(again[i], measured, normal) == None
    {
      ReadBack(docs, again, measured, normal, i);
    }
    NothingDue(again, measured, normal);
  }

  lemma PersistedIsSettled(docs: seq<Row>, measured: map<string, real>, normal: string -> string, j: nat)
    requires j < |docs|
    ensures Due(Persisted(docs, measured, normal)[j], measured, normal) == None
  {
  }

  /** What is read back is a persisted row. */
  lemma ReadBack(docs: seq<Row>, again: seq<Row>, measured: map<string, real>, normal: string -> string, i: nat)
    requires DistinctIds(docs) && DistinctIds(again) && i < |again|
    requires PutRows(map[], again) == PutRows(map[], Persisted(docs, measured, normal))
    ensures Due(again[i], measured, normal) == None
  {
    var p := Persisted(docs, measured, normal);
    PersistedIds(docs, measured, normal);
    PutRowsHold(again, i);
    PutRowsKeys(p, again[i].id);
    var j :| 0 <= j < |p| && p[j].id == again[i].id;
    PutRowsHold(p, j);
    PersistedIsSettled(docs, measured, normal, j);
  }

  lemma PersistedIds(docs: seq<Row>, measured: map<string, real>, normal: string -> string)
    ensures forall i :: 0 <= i < |docs| ==> Persisted(docs, measured, normal)[i].id == docs[i].id
    ensures DistinctIds(docs) ==> DistinctIds(Persisted(docs, measured, normal))
  {
  }

  lemma {:induction false} NothingDue(docs: seq<Row>, measured: map<string, real>, normal: string -> string)
    requires forall i :: 0 <= i < |docs| ==> Due(docs[i], measured, normal) == None
    ensures AllDue(docs, measured, normal) == []
  {
    if docs != [] {
      NothingDue(docs[..|docs| - 1], measured, normal);
    }
  }

  /** Nothing is written for a row that was not measured, and a written row keeps all but its content. */
  lemma {:induction false} OnlyTheDisagreeing(docs: seq<Row>, measured: map<string, real>, normal: string -> string,
                                              row: Row)
    ensures row in AllDue(docs, measured, normal) <==>
              exists i :: 0 <= i < |docs| && normal(docs[i].id) in measured &&
                docs[i].ic != Some(measured[normal(docs[i].id)])
                          && row == docs[i].(ic := Some(measured[normal(docs[i].id)]))
  {
    if docs != [] {
      var rest := docs[..|docs| - 1];
      OnlyTheDisagreeing(rest, measured, normal, row);
      assert forall i :: 0 <= i < |rest| ==> rest[i] == docs[i];
      if i :| 0 <= i < |docs| && Due(docs[i], measured, normal) == Some(row) {
        if i < |rest| {
          assert Due(rest[i], measured, normal) == Some(row);
          assert normal(rest[i].id) in measured;
        }
      }
    }
  }
}
