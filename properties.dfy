/** What the three entry points promise, stated over their specifications in
    `RecordDecoder`: which header checks gate a decode, what a rejection leaves behind, where
    each column's value lands, and how the key-only and projected decodes agree with the
    full one. */
module DecoderProperties {
  import opened Results
  import opened Bytes
  import opened Schema
  import opened Dispatch
  import opened Projection
  import opened Passes
  import opened RecordDecoder

  /** The header checks accept the row. */
  predicate Accepted(cfg: Config, key: seq<bv8>, value: seq<bv8>) {
    KeyHeader(key, cfg.commonId, cfg.codecVersion) == Ok(true) && ValueHeader(value, cfg.schemaVersion) == Ok(true)
  }

  /** The header checks reject the row: a key check fails, or both pass and the schema
      version check fails. A later check is not consulted once an earlier one fails. */
  predicate Rejected(cfg: Config, key: seq<bv8>, value: seq<bv8>) {
    var keyOk := KeyHeader(key, cfg.commonId, cfg.codecVersion);
    keyOk == Ok(false) || (keyOk == Ok(true) && ValueHeader(value, cfg.schemaVersion) == Ok(false))
  }

  /** The values of the live columns, in schema-list order, as the full and projected
      decodes read them. */
  function LiveValues(cfg: Config, key: seq<bv8>, value: seq<bv8>): Result<seq<Datum>>
    requires ValidConfig(cfg) && Accepted(cfg, key, value)
  {
    Walk(Input(cfg, key, value), 0, Cursors(KeyPrefixWidth, ValuePrefixWidth))
  }

  /** The values of the first `count` live columns of an accepted row. */
  function LeadingValues(cfg: Config, key: seq<bv8>, value: seq<bv8>, count: nat): Result<seq<Datum>>
    requires ValidConfig(cfg) && Accepted(cfg, key, value)
  {
    WalkPrefix(Input(cfg, key, value), 0, Cursors(KeyPrefixWidth, ValuePrefixWidth), count)
  }

  /** Both decodes of a row return -1 exactly when the headers reject it, and then the
      record is exactly as it was; otherwise they either succeed with 0 or run out of
      bytes. */
  lemma RejectionLeavesRecordUntouched(cfg: Config, key: seq<bv8>, value: seq<bv8>, columnIndexes: seq<int>,
                                       cells: seq<Cell>)
    requires ValidConfig(cfg)
    ensures Rejected(cfg, key, value) <==> FullDecode(cfg, key, value, cells) == Ok(Outcome(-1, cells))
    ensures Rejected(cfg, key, value) <==> ProjectedDecode(cfg, key, value, columnIndexes, cells) == Ok(Outcome(-1, cells))
    ensures FullDecode(cfg, key, value, cells).Ok? ==> FullDecode(cfg, key, value, cells).value.code in {0, -1}
    ensures ProjectedDecode(cfg, key, value, columnIndexes, cells).Ok? ==>
      ProjectedDecode(cfg, key, value, columnIndexes, cells).value.code in {0, -1}
    ensures FullDecode(cfg, key, value, cells).Ok? && FullDecode(cfg, key, value, cells).value.code == -1 ==>
      Rejected(cfg, key, value)
    ensures var out := ProjectedDecode(cfg, key, value, columnIndexes, cells);
      out.Ok? && out.value.code == -1 ==> Rejected(cfg, key, value)
  {
  }

  /** Key-only decode returns -1 exactly when a key check fails, leaving the record as it
      was. */
  lemma KeyRejectionLeavesRecordUntouched(cfg: Config, key: seq<bv8>, cells: seq<Cell>)
    requires ValidConfig(cfg)
    ensures KeyHeader(key, cfg.commonId, cfg.codecVersion) == Ok(false) <==> KeyDecode(cfg, key, cells) == Ok(Outcome(-1, cells))
    ensures KeyDecode(cfg, key, cells).Ok? ==> KeyDecode(cfg, key, cells).value.code in {0, -1}
    ensures KeyDecode(cfg, key, cells).Ok? && KeyDecode(cfg, key, cells).value.code == -1 ==>
      KeyHeader(key, cfg.commonId, cfg.codecVersion) == Ok(false)
  {
  }

  /** A key from another table is rejected by all three decodes, whatever the value bytes
      hold, even when they are too short to carry a schema version. */
  lemma ForeignKeyRejected(cfg: Config, key: seq<bv8>, value: seq<bv8>, columnIndexes: seq<int>, cells: seq<Cell>)
    requires ValidConfig(cfg)
    requires |key| >= KeyPrefixWidth && Int64At(key, 1) != cfg.commonId
    ensures FullDecode(cfg, key, value, cells) == Ok(Outcome(-1, cells))
    ensures KeyDecode(cfg, key, cells) == Ok(Outcome(-1, cells))
    ensures ProjectedDecode(cfg, key, value, columnIndexes, cells) == Ok(Outcome(-1, cells))
  {
  }

  /** A key written by a newer codec is rejected by all three decodes, whatever the value
      bytes hold. */
  lemma NewerCodecRejected(cfg: Config, key: seq<bv8>, value: seq<bv8>, columnIndexes: seq<int>, cells: seq<Cell>)
    requires ValidConfig(cfg)
    requires |key| >= KeyPrefixWidth && Int64At(key, 1) == cfg.commonId && key[|key| - 1] as int > cfg.codecVersion
    ensures FullDecode(cfg, key, value, cells) == Ok(Outcome(-1, cells))
    ensures KeyDecode(cfg, key, cells) == Ok(Outcome(-1, cells))
    ensures ProjectedDecode(cfg, key, value, columnIndexes, cells) == Ok(Outcome(-1, cells))
  {
  }

  /** A value written under a newer schema version is rejected by the full and projected
      decodes; key-only decode does not look at the value and is unaffected. */
  lemma NewerSchemaRejected(cfg: Config, key: seq<bv8>, value: seq<bv8>, columnIndexes: seq<int>, cells: seq<Cell>)
    requires ValidConfig(cfg)
    requires KeyHeader(key, cfg.commonId, cfg.codecVersion) == Ok(true)
    requires |value| >= ValuePrefixWidth && Int32At(value, 0) > cfg.schemaVersion
    ensures FullDecode(cfg, key, value, cells) == Ok(Outcome(-1, cells))
    ensures ProjectedDecode(cfg, key, value, columnIndexes, cells) == Ok(Outcome(-1, cells))
    ensures KeyDecode(cfg, key, cells).Ok? ==> KeyDecode(cfg, key, cells).value.code == 0
  {
  }

  /** Full decode of an accepted row succeeds exactly when every live column can be read;
      the record then has one slot per schema entry, each live column's slot holds the
      value read for it, of the column's type, and every other slot keeps its old value or
      is unset if the resize created it. */
  lemma {:induction false} FullDecodeWritesEveryLiveColumn(cfg: Config, key: seq<bv8>, value: seq<bv8>, cells: seq<Cell>)
    requires ValidConfig(cfg) && UniqueIndexes(cfg.schemas) && Accepted(cfg, key, value)
    ensures FullDecode(cfg, key, value, cells).Ok? <==> LiveValues(cfg, key, value).Ok?
    ensures FullDecode(cfg, key, value, cells).Ok? ==>
      var out, ds, schemas := FullDecode(cfg, key, value, cells).value, LiveValues(cfg, key, value).value, cfg.schemas;
      out.code == 0 && |out.cells| == |schemas| &&
      (forall p :: 0 <= p < |schemas| && schemas[p].Active? ==>
         Rank(schemas, 0, p) < |ds| &&
         out.cells[schemas[p].col.index] == Holds(ds[Rank(schemas, 0, p)]) &&
         ds[Rank(schemas, 0, p)].Kind() == KindOf(schemas[p].col.typ)) &&
      (forall s :: 0 <= s < |schemas| && !Targeted(schemas, 0, s) ==> out.cells[s] == Resized(cells, |schemas|)[s])
  {
    var input := Input(cfg, key, value);
    var start := Cursors(KeyPrefixWidth, ValuePrefixWidth);
    FullFromWrites(input, 0, start, Resized(cells, |cfg.schemas|));
    if LiveValues(cfg, key, value).Ok? {
      WalkTyped(input, 0, start);
    }
  }

  /** Each live column's value in the walk has the column's type. */
  lemma {:induction false} WalkTyped(input: Inputs, i: nat, cur: Cursors)
    requires Valid(input) && i <= |input.schemas| && Fits(input, cur)
    requires Walk(input, i, cur).Ok?
    ensures var ds := Walk(input, i, cur).value;
      forall p :: i <= p < |input.schemas| && input.schemas[p].Active? ==>
        Rank(input.schemas, i, p) < |ds| && ds[Rank(input.schemas, i, p)].Kind() == KindOf(input.schemas[p].col.typ)
    decreases |input.schemas| - i
  {
    if i < |input.schemas| {
      var ds := Walk(input, i, cur).value;
      if input.schemas[i].Dropped? {
        assert Walk(input, i, cur) == Walk(input, i + 1, cur);
        WalkTyped(input, i + 1, cur);
        forall p | i < p < |input.schemas|
          ensures Rank(input.schemas, i, p) == Rank(input.schemas, i + 1, p)
        {
        }
      } else {
        WalkActive(input, i, cur);
        var d := Consume(input.reader, input.schemas[i].col, input.key, input.value, cur).value;
        var rest := Walk(input, i + 1, d.next).value;
        WalkTyped(input, i + 1, d.next);
        forall p | i <= p < |input.schemas| && input.schemas[p].Active?
          ensures Rank(input.schemas, i, p) < |ds| && ds[Rank(input.schemas, i, p)].Kind() == KindOf(input.schemas[p].col.typ)
        {
          RankBelowCount(input.schemas, i, p);
          if p > i {
            assert Rank(input.schemas, i, p) == 1 + Rank(input.schemas, i + 1, p);
            assert ds[Rank(input.schemas, i, p)] == rest[Rank(input.schemas, i + 1, p)];
          }
        }
      }
    }
  }

  /** A row written before its value columns existed, whose value bytes hold only the
      schema version, decodes exactly when its key part does: every live value column then
      gets the absent marker of its type instead of failing. */
  lemma HeaderOnlyValueDecodesAbsent(cfg: Config, key: seq<bv8>, value: seq<bv8>, cells: seq<Cell>, keyCells: seq<Cell>)
    requires ValidConfig(cfg) && UniqueIndexes(cfg.schemas) && Accepted(cfg, key, value)
    requires |value| == ValuePrefixWidth
    ensures FullDecode(cfg, key, value, cells).Ok? <==> KeyDecode(cfg, key, keyCells).Ok?
    ensures FullDecode(cfg, key, value, cells).Ok? ==>
      var out, schemas := FullDecode(cfg, key, value, cells).value, cfg.schemas;
      out.code == 0 &&
      forall p :: 0 <= p < |schemas| && schemas[p].Active? && !schemas[p].col.isKey ==>
        out.cells[schemas[p].col.index] == Holds(Null(KindOf(schemas[p].col.typ)))
  {
    var input := Input(cfg, key, value);
    var start := Cursors(KeyPrefixWidth, ValuePrefixWidth);
    var resized := Resized(keyCells, |cfg.schemas|);
    FullFromWrites(input, 0, start, Resized(cells, |cfg.schemas|));
    KeyFromIgnoresValue(input, key, 0, KeyPrefixWidth, resized);
    assert input.(value := key) == Input(cfg, key, key);
    if Walk(input, 0, start).Ok? {
      KeyFromAgreesWithWalk(input, 0, start, resized);
      WalkPastValueEnd(input, 0, start);
    }
    if KeyFrom(input, 0, KeyPrefixWidth, resized).Ok? {
      WalkFollowsKeyAtValueEnd(input, 0, start, resized);
    }
  }

  /** Key-only decode writes, at each live key column's list position, the value a
      successful full decode of the same key writes to that column's output slot. */
  lemma KeyDecodeMatchesFullDecode(cfg: Config, key: seq<bv8>, value: seq<bv8>, keyCells: seq<Cell>, fullCells: seq<Cell>)
    requires ValidConfig(cfg) && UniqueIndexes(cfg.schemas)
    requires FullDecode(cfg, key, value, fullCells).Ok? && FullDecode(cfg, key, value, fullCells).value.code == 0
    ensures KeyDecode(cfg, key, keyCells).Ok?
    ensures var k, full, schemas := KeyDecode(cfg, key, keyCells).value, FullDecode(cfg, key, value, fullCells).value, cfg.schemas;
      k.code == 0 && |k.cells| == |schemas| &&
      (forall p :: IsKeyAt(schemas, 0, p) ==> k.cells[p] == full.cells[schemas[p].col.index]) &&
      (forall s :: 0 <= s < |schemas| && !IsKeyAt(schemas, 0, s) ==> k.cells[s] == Resized(keyCells, |schemas|)[s])
  {
    var input := Input(cfg, key, value);
    var start := Cursors(KeyPrefixWidth, ValuePrefixWidth);
    var resized := Resized(keyCells, |cfg.schemas|);
    FullFromWrites(input, 0, start, Resized(fullCells, |cfg.schemas|));
    KeyFromAgreesWithWalk(input, 0, start, resized);
    KeyFromIgnoresValue(input, key, 0, KeyPrefixWidth, resized);
    assert input.(value := key) == Input(cfg, key, key);
  }

  /** No two requests name the same live column. */
  predicate DistinctRequests(columnIndexes: seq<int>) {
    forall j, k :: 0 <= j < k < |columnIndexes| ==> columnIndexes[j] != columnIndexes[k]
  }

  /** One past the highest request (0 for no requests): how many live columns a pass that
      stops after its last request reads. */
  function Reach(columnIndexes: seq<int>): (r: nat)
    ensures forall j :: 0 <= j < |columnIndexes| ==> columnIndexes[j] < r
    ensures |columnIndexes| > 0 && (forall j :: 0 <= j < |columnIndexes| ==> 0 <= columnIndexes[j]) ==>
      exists j :: 0 <= j < |columnIndexes| && columnIndexes[j] == r - 1
    ensures columnIndexes == [] ==> r == 0
  {
    if columnIndexes == [] then 0
    else
      var tail := Reach(columnIndexes[1..]);
      assert forall j :: 1 <= j < |columnIndexes| ==> columnIndexes[j] == columnIndexes[1..][j - 1];
      if columnIndexes[0] + 1 > tail then columnIndexes[0] + 1 else tail
  }

  /** Distinct requests sort into a plan whose requests strictly increase and name
      distinct slots. */
  lemma DistinctRequestsIncrease(columnIndexes: seq<int>)
    requires DistinctRequests(columnIndexes)
    ensures var plan := SortPairs(Pairs(columnIndexes));
      forall p, q :: 0 <= p < q < |plan| ==> plan[p].0 < plan[q].0 && plan[p].1 != plan[q].1
  {
    var plan := SortPairs(Pairs(columnIndexes));
    PlanCoversEachSlotOnce(columnIndexes);
    forall p, q | 0 <= p < q < |plan|
      ensures plan[p].0 < plan[q].0 && plan[p].1 != plan[q].1
    {
      assert Less(plan[p], plan[q]);
      assert plan[p].0 != plan[q].0 by {
        assert columnIndexes[plan[p].1] != columnIndexes[plan[q].1];
      }
    }
  }

  /** In a plan of increasing requests, the last entry holds the highest request. */
  lemma PlanEndsAtReach(columnIndexes: seq<int>)
    requires columnIndexes != [] && forall j :: 0 <= j < |columnIndexes| ==> 0 <= columnIndexes[j]
    requires var plan := SortPairs(Pairs(columnIndexes));
      forall p, q :: 0 <= p < q < |plan| ==> plan[p].0 < plan[q].0
    ensures var plan := SortPairs(Pairs(columnIndexes));
      |plan| > 0 && plan[|plan| - 1].0 == Reach(columnIndexes) - 1
  {
    var plan := SortPairs(Pairs(columnIndexes));
    PlanCoversEachSlotOnce(columnIndexes);
    var top :| 0 <= top < |columnIndexes| && columnIndexes[top] == Reach(columnIndexes) - 1;
    var p :| 0 <= p < |plan| && plan[p] == (columnIndexes[top], top);
    var last := plan[|plan| - 1];
    assert last.0 == columnIndexes[last.1];
  }

  /** Distinct requests of live columns give a plan whose requests strictly increase, name
      distinct slots, and end at the highest request. */
  lemma DistinctRequestsPlanAhead(columnIndexes: seq<int>)
    requires DistinctRequests(columnIndexes)
    requires forall j :: 0 <= j < |columnIndexes| ==> 0 <= columnIndexes[j]
    ensures PlanAhead(SortPairs(Pairs(columnIndexes)), 0, 0, Reach(columnIndexes))
  {
    var plan := SortPairs(Pairs(columnIndexes));
    PlanCoversEachSlotOnce(columnIndexes);
    DistinctRequestsIncrease(columnIndexes);
    if columnIndexes != [] {
      PlanEndsAtReach(columnIndexes);
    }
    assert forall p :: 0 <= p < |plan| ==> plan[p].0 == columnIndexes[plan[p].1];
  }

  /** Projected decode of an accepted row, with distinct requests that each name a live
      column, stops after the last requested live column: it succeeds exactly when the live
      columns up to that one can be read, whatever follows them, and output slot `j` then
      holds the value of the live column numbered `columnIndexes[j]`, counting live columns
      only. */
  lemma ProjectionDecodesRequestedColumns(cfg: Config, key: seq<bv8>, value: seq<bv8>, columnIndexes: seq<int>,
                                          cells: seq<Cell>)
    requires ValidConfig(cfg) && Accepted(cfg, key, value)
    requires DistinctRequests(columnIndexes)
    requires forall j :: 0 <= j < |columnIndexes| ==> 0 <= columnIndexes[j] < Rank(cfg.schemas, 0, |cfg.schemas|)
    ensures ProjectedDecode(cfg, key, value, columnIndexes, cells).Ok? <==>
      LeadingValues(cfg, key, value, Reach(columnIndexes)).Ok?
    ensures ProjectedDecode(cfg, key, value, columnIndexes, cells).Ok? ==>
      var out, ds := ProjectedDecode(cfg, key, value, columnIndexes, cells).value,
                     LeadingValues(cfg, key, value, Reach(columnIndexes)).value;
      out.code == 0 && |out.cells| == |columnIndexes| &&
      forall j :: 0 <= j < |columnIndexes| ==> columnIndexes[j] < |ds| && out.cells[j] == Holds(ds[columnIndexes[j]])
  {
    var input := Input(cfg, key, value);
    var start := Cursors(KeyPrefixWidth, ValuePrefixWidth);
    var plan := SortPairs(Pairs(columnIndexes));
    var resized := Resized(cells, |columnIndexes|);
    var count := Reach(columnIndexes);
    PlanCoversEachSlotOnce(columnIndexes);
    DistinctRequestsPlanAhead(columnIndexes);
    assert count <= Rank(cfg.schemas, 0, |cfg.schemas|);
    ProjFromWrites(input, plan, 0, 0, 0, 0, start, resized, count);
    var r := ProjFrom(input, plan, 0, 0, 0, 0, start, resized);
    if r.Ok? {
      var ds := LeadingValues(cfg, key, value, count).value;
      forall j | 0 <= j < |columnIndexes|
        ensures columnIndexes[j] < |ds| && r.value[j] == Holds(ds[columnIndexes[j]])
      {
        assert (columnIndexes[j], j) in plan;
        var p :| 0 <= p < |plan| && plan[p] == (columnIndexes[j], j);
      }
    }
  }

  /** With distinct requests naming live columns, projected decode agrees with a successful
      full decode of the same row: output slot `j` holds what full decode writes to the
      output slot of the live column numbered `columnIndexes[j]`. */
  lemma ProjectionMatchesFullDecode(cfg: Config, key: seq<bv8>, value: seq<bv8>, columnIndexes: seq<int>,
                                    cells: seq<Cell>, fullCells: seq<Cell>)
    requires ValidConfig(cfg) && UniqueIndexes(cfg.schemas)
    requires FullDecode(cfg, key, value, fullCells).Ok? && FullDecode(cfg, key, value, fullCells).value.code == 0
    requires DistinctRequests(columnIndexes)
    requires forall j :: 0 <= j < |columnIndexes| ==> 0 <= columnIndexes[j] < Rank(cfg.schemas, 0, |cfg.schemas|)
    ensures ProjectedDecode(cfg, key, value, columnIndexes, cells).Ok?
    ensures var proj, full, schemas := ProjectedDecode(cfg, key, value, columnIndexes, cells).value,
                                       FullDecode(cfg, key, value, fullCells).value, cfg.schemas;
      proj.code == 0 && |proj.cells| == |columnIndexes| &&
      forall j, p :: 0 <= j < |columnIndexes| && 0 <= p < |schemas| && schemas[p].Active? && Rank(schemas, 0, p) == columnIndexes[j] ==>
        proj.cells[j] == full.cells[schemas[p].col.index]
  {
    FullDecodeWritesEveryLiveColumn(cfg, key, value, fullCells);
    ProjectionDecodesRequestedColumns(cfg, key, value, columnIndexes, cells);
    WalkPrefixOfWalk(Input(cfg, key, value), 0, Cursors(KeyPrefixWidth, ValuePrefixWidth), Reach(columnIndexes));
  }

  /** Requests number live columns only: behind a dropped entry, the one live column is
      request 0, and a request for its list position 1 is never met, so its slot stays
      unset. */
  lemma DroppedEntryIsNotNumbered(cfg: Config, key: seq<bv8>, value: seq<bv8>, col: Column)
    requires ValidConfig(cfg) && cfg.schemas == [Dropped, Active(col)]
    requires Accepted(cfg, key, value) && LiveValues(cfg, key, value).Ok?
    ensures |LiveValues(cfg, key, value).value| == 1
    ensures ProjectedDecode(cfg, key, value, [0], []) == Ok(Outcome(0, [Holds(LiveValues(cfg, key, value).value[0])]))
    ensures ProjectedDecode(cfg, key, value, [1], []) == Ok(Outcome(0, [Unset]))
  {
    var input := Input(cfg, key, value);
    var start := Cursors(KeyPrefixWidth, ValuePrefixWidth);
    var d := Consume(cfg.reader, col, key, value, start);
    assert Walk(input, 0, start) == Walk(input, 1, start);
    assert d.Ok?;
    assert Pairs([1]) == [(1, 0)];
    assert SortPairs([(1, 0)]) == [(1, 0)];
    assert Resized([], 1) == [Unset];
    assert ProjFrom(input, [(1, 0)], 0, 0, 0, 0, start, [Unset])
        == ProjFrom(input, [(1, 0)], 2, 0, 1, 0, d.value.next, [Unset]);
    assert Reach([0]) == 1;
    ProjectionDecodesRequestedColumns(cfg, key, value, [0], []);
    WalkPrefixOfWalk(input, 0, start, 1);
    var out := ProjectedDecode(cfg, key, value, [0], []).value;
    assert out.cells == [out.cells[0]];
  }
}
