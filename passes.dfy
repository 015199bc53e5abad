/** The three passes over the schema list, as functions of the cursors and the record, and
    what they write.

    `Walk` is the reference: the values of the live columns, in schema-list order, read with
    the cursors advancing column by column. Full decode scatters them to the columns' output
    slots; key-only decode stores the key columns' values at their list positions; projected
    decode stores the requested ones at the requesting output slots. */
module Passes {
  import opened Results
  import opened Schema
  import opened Dispatch
  import opened Projection

  /** What a pass reads: the schemas' byte layouts, the schema list, the key and value bytes. */
  datatype Inputs = Inputs(reader: FieldReader, schemas: seq<Slot>, key: seq<bv8>, value: seq<bv8>)

  ghost predicate Valid(input: Inputs) {
    WellBehaved(input.reader) && TypesInTable(input.schemas)
  }

  predicate Fits(input: Inputs, cur: Cursors) {
    cur.key <= |input.key| && cur.value <= |input.value|
  }

  /** How many live columns lie in schemas[i..p]: the number the projection counter gives
      to the column at `p`. */
  function Rank(schemas: seq<Slot>, i: nat, p: nat): (r: nat)
    requires i <= p <= |schemas|
    ensures r <= p - i
    decreases p - i
  {
    if i == p then 0
    else (if schemas[i].Active? then 1 else 0) + Rank(schemas, i + 1, p)
  }

  /** A live column is numbered below the number of live columns. */
  lemma {:induction false} RankBelowCount(schemas: seq<Slot>, i: nat, p: nat)
    requires i <= p < |schemas| && schemas[p].Active?
    ensures Rank(schemas, i, p) < Rank(schemas, i, |schemas|)
    decreases p - i
  {
    if i < p {
      RankBelowCount(schemas, i + 1, p);
    }
  }

  /** Counting one more entry adds one exactly when that entry is live. */
  lemma {:induction false} RankExtend(schemas: seq<Slot>, i: nat, p: nat)
    requires i <= p < |schemas|
    ensures Rank(schemas, i, p + 1) == Rank(schemas, i, p) + (if schemas[p].Active? then 1 else 0)
    decreases p - i
  {
    if i < p {
      RankExtend(schemas, i + 1, p);
    }
  }

  /** The values of the live columns of schemas[i..], read from `cur` on. */
  function Walk(input: Inputs, i: nat, cur: Cursors): (r: Result<seq<Datum>>)
    requires Valid(input) && i <= |input.schemas| && Fits(input, cur)
    ensures r.Ok? ==> |r.value| == Rank(input.schemas, i, |input.schemas|)
    decreases |input.schemas| - i
  {
    if i == |input.schemas| then Ok([])
    else match input.schemas[i]
      case Dropped => Walk(input, i + 1, cur)
      case Active(col) =>
        var d :- Consume(input.reader, col, input.key, input.value, cur);
        var rest :- Walk(input, i + 1, d.next);
        Ok([d.datum] + rest)
  }

  /** The walk at a live column: that column's value, then the walk from the cursors the
      column leaves. */
  lemma WalkActive(input: Inputs, i: nat, cur: Cursors)
    requires Valid(input) && i < |input.schemas| && Fits(input, cur) && input.schemas[i].Active?
    requires Walk(input, i, cur).Ok?
    ensures var d := Consume(input.reader, input.schemas[i].col, input.key, input.value, cur);
      d.Ok? && Walk(input, i + 1, d.value.next).Ok? &&
      Walk(input, i, cur).value == [d.value.datum] + Walk(input, i + 1, d.value.next).value
  {
  }

  /** The values of the first `count` live columns of schemas[i..], read from `cur` on: all
      that a pass stopping after its `count`-th live column reads. */
  function WalkPrefix(input: Inputs, i: nat, cur: Cursors, count: nat): (r: Result<seq<Datum>>)
    requires Valid(input) && i <= |input.schemas| && Fits(input, cur)
    ensures r.Ok? ==> |r.value| == if count <= Rank(input.schemas, i, |input.schemas|) then count
                                   else Rank(input.schemas, i, |input.schemas|)
    decreases |input.schemas| - i
  {
    if count == 0 || i == |input.schemas| then Ok([])
    else match input.schemas[i]
      case Dropped => WalkPrefix(input, i + 1, cur, count)
      case Active(col) =>
        var d :- Consume(input.reader, col, input.key, input.value, cur);
        var rest :- WalkPrefix(input, i + 1, d.next, count - 1);
        Ok([d.datum] + rest)
  }

  /** `WalkPrefix` at a live column, when `count` is positive: that column's value, then the
      prefix one shorter from the cursors the column leaves. */
  lemma WalkPrefixActive(input: Inputs, i: nat, cur: Cursors, count: nat)
    requires Valid(input) && i < |input.schemas| && Fits(input, cur) && input.schemas[i].Active? && count > 0
    ensures var d := Consume(input.reader, input.schemas[i].col, input.key, input.value, cur);
      (d.Overrun? ==> WalkPrefix(input, i, cur, count).Overrun?) &&
      (d.Ok? ==>
         (WalkPrefix(input, i, cur, count).Ok? <==> WalkPrefix(input, i + 1, d.value.next, count - 1).Ok?) &&
         (WalkPrefix(input, i, cur, count).Ok? ==>
            WalkPrefix(input, i, cur, count).value == [d.value.datum] + WalkPrefix(input, i + 1, d.value.next, count - 1).value))
  {
  }

  /** Whenever the whole walk succeeds, every prefix of it does, and reads the same values. */
  lemma {:induction false} WalkPrefixOfWalk(input: Inputs, i: nat, cur: Cursors, count: nat)
    requires Valid(input) && i <= |input.schemas| && Fits(input, cur)
    requires Walk(input, i, cur).Ok?
    ensures WalkPrefix(input, i, cur, count).Ok?
    ensures WalkPrefix(input, i, cur, count).value <= Walk(input, i, cur).value
    decreases |input.schemas| - i
  {
    if count > 0 && i < |input.schemas| {
      if input.schemas[i].Dropped? {
        WalkPrefixOfWalk(input, i + 1, cur, count);
      } else {
        WalkActive(input, i, cur);
        WalkPrefixActive(input, i, cur, count);
        var d := Consume(input.reader, input.schemas[i].col, input.key, input.value, cur).value;
        WalkPrefixOfWalk(input, i + 1, d.next, count - 1);
        var rest, all := WalkPrefix(input, i + 1, d.next, count - 1).value, Walk(input, i + 1, d.next).value;
        assert [d.datum] + rest == ([d.datum] + all)[..1 + |rest|];
      }
    }
  }

  /** Some live column of schemas[i..] has output slot `s`. */
  ghost predicate Targeted(schemas: seq<Slot>, i: nat, s: int) {
    exists p :: i <= p < |schemas| && schemas[p].Active? && schemas[p].col.index == s
  }

  /** Full decode of schemas[i..]: every live column decoded into its output slot, in list
      order; dropped entries are passed over without moving a cursor. Slots no live column
      names keep their contents. */
  function FullFrom(input: Inputs, i: nat, cur: Cursors, cells: seq<Cell>): (r: Result<seq<Cell>>)
    requires Valid(input) && i <= |input.schemas| && Fits(input, cur)
    requires IndexesBelow(input.schemas, |cells|)
    ensures r.Ok? ==> |r.value| == |cells|
    ensures r.Ok? ==> forall s :: 0 <= s < |cells| && !Targeted(input.schemas, i, s) ==> r.value[s] == cells[s]
    decreases |input.schemas| - i
  {
    if i == |input.schemas| then Ok(cells)
    else match input.schemas[i]
      case Dropped => FullFrom(input, i + 1, cur, cells)
      case Active(col) =>
        var step :- ColumnStep(input.reader, col, input.key, input.value, cur, cells, col.index, false);
        FullFrom(input, i + 1, step.cur, step.cells)
  }

  /** A live key column at list position `s` of schemas[i..]. */
  predicate IsKeyAt(schemas: seq<Slot>, i: nat, s: int) {
    i <= s < |schemas| && schemas[s].Active? && schemas[s].col.isKey
  }

  /** Key-only decode of schemas[i..] from key position `k`: the key cursor stands in for
      both cursors, only live key columns are decoded, and each goes to its position in the
      list (dropped entries counted). Every other slot keeps its contents; every key slot
      gets a value of its column's type. */
  function KeyFrom(input: Inputs, i: nat, k: nat, cells: seq<Cell>): (r: Result<seq<Cell>>)
    requires Valid(input) && i <= |input.schemas| && k <= |input.key|
    requires |input.schemas| <= |cells|
    ensures r.Ok? ==> |r.value| == |cells|
    ensures r.Ok? ==> forall s :: 0 <= s < |cells| && !IsKeyAt(input.schemas, i, s) ==> r.value[s] == cells[s]
    ensures r.Ok? ==> forall s :: IsKeyAt(input.schemas, i, s) ==>
      r.value[s].Holds? && r.value[s].datum.Kind() == KindOf(input.schemas[s].col.typ)
    decreases |input.schemas| - i
  {
    if i == |input.schemas| then Ok(cells)
    else if IsKeyAt(input.schemas, i, i) then
      var step :- ColumnStep(input.reader, input.schemas[i].col, input.key, input.key, Cursors(k, k), cells, i, false);
      KeyFrom(input, i + 1, step.cur.key, step.cells)
    else KeyFrom(input, i + 1, k, cells)
  }

  /** Key-only decode never looks at the value bytes. */
  lemma {:induction false} KeyFromIgnoresValue(input: Inputs, value: seq<bv8>, i: nat, k: nat, cells: seq<Cell>)
    requires Valid(input) && i <= |input.schemas| && k <= |input.key|
    requires |input.schemas| <= |cells|
    ensures KeyFrom(input, i, k, cells) == KeyFrom(input.(value := value), i, k, cells)
    decreases |input.schemas| - i
  {
    if i < |input.schemas| {
      if IsKeyAt(input.schemas, i, i) {
        var step := ColumnStep(input.reader, input.schemas[i].col, input.key, input.key, Cursors(k, k), cells, i, false);
        if step.Ok? {
          KeyFromIgnoresValue(input, value, i + 1, step.value.cur.key, step.value.cells);
        }
      } else {
        KeyFromIgnoresValue(input, value, i + 1, k, cells);
      }
    }
  }

  /** Every plan entry names an output slot of the record. */
  predicate SlotsBelow(plan: seq<Entry>, size: int) {
    forall p :: 0 <= p < |plan| ==> 0 <= plan[p].1 < size
  }

  /** Some plan entry from `n` on names output slot `s`. */
  predicate Requested(plan: seq<Entry>, n: nat, s: int) {
    exists p :: n <= p < |plan| && plan[p].1 == s
  }

  /** The matching pass of projected decode over schemas[i..]: `n` is the next unmet plan
      entry, `m` the number the next live column gets, `recordIndex` the last matched slot.
      The pass stops as soon as every entry is met. Dropped entries neither move a cursor
      nor advance `m`. */
  function ProjFrom(input: Inputs, plan: seq<Entry>, i: nat, n: nat, m: int, recordIndex: int,
                    cur: Cursors, cells: seq<Cell>): (r: Result<seq<Cell>>)
    requires Valid(input) && i <= |input.schemas| && n <= |plan| && Fits(input, cur)
    requires SlotsBelow(plan, |cells|)
    ensures r.Ok? ==> |r.value| == |cells|
    ensures r.Ok? ==> forall s :: 0 <= s < |cells| && !Requested(plan, n, s) ==> r.value[s] == cells[s]
    decreases |input.schemas| - i
  {
    if i == |input.schemas| || n == |plan| then Ok(cells)
    else match input.schemas[i]
      case Dropped => ProjFrom(input, plan, i + 1, n, m, recordIndex, cur, cells)
      case Active(col) =>
        var skip := plan[n].0 != m;
        var slot := if skip then recordIndex else plan[n].1;
        var step :- ColumnStep(input.reader, col, input.key, input.value, cur, cells, slot, skip);
        ProjFrom(input, plan, i + 1, if skip then n else n + 1, m + 1, slot, step.cur, step.cells)
  }

  /** Full decode succeeds exactly when the walk does, and then each live column's output
      slot holds that column's value from the walk. */
  lemma {:induction false} FullFromWrites(input: Inputs, i: nat, cur: Cursors, cells: seq<Cell>)
    requires Valid(input) && i <= |input.schemas| && Fits(input, cur)
    requires IndexesBelow(input.schemas, |cells|) && UniqueIndexes(input.schemas)
    ensures FullFrom(input, i, cur, cells).Ok? <==> Walk(input, i, cur).Ok?
    ensures FullFrom(input, i, cur, cells).Ok? ==>
      var out, ds := FullFrom(input, i, cur, cells).value, Walk(input, i, cur).value;
      forall p :: i <= p < |input.schemas| && input.schemas[p].Active? ==>
        Rank(input.schemas, i, p) < |ds| &&
        out[input.schemas[p].col.index] == Holds(ds[Rank(input.schemas, i, p)])
    decreases |input.schemas| - i
  {
    if i < |input.schemas| {
      match input.schemas[i]
      case Dropped =>
        FullFromWrites(input, i + 1, cur, cells);
      case Active(col) =>
        var d := Consume(input.reader, col, input.key, input.value, cur);
        if d.Ok? {
          var cells' := cells[col.index := Holds(d.value.datum)];
          FullFromWrites(input, i + 1, d.value.next, cells');
          var r := FullFrom(input, i + 1, d.value.next, cells');
          if r.Ok? {
            WalkActive(input, i, cur);
            assert !Targeted(input.schemas, i + 1, col.index);
            FullShift(r.value, input.schemas, i, d.value.datum, Walk(input, i + 1, d.value.next).value);
          }
        }
    }
  }

  /** Full decode's placement stated for schemas[i+1..] and the walk after one value,
      restated for schemas[i..] with that value in front. */
  lemma FullShift(out: seq<Cell>, schemas: seq<Slot>, i: nat, x: Datum, rest: seq<Datum>)
    requires i < |schemas| && schemas[i].Active? && IndexesBelow(schemas, |out|)
    requires out[schemas[i].col.index] == Holds(x)
    requires forall p :: i + 1 <= p < |schemas| && schemas[p].Active? ==>
      Rank(schemas, i + 1, p) < |rest| && out[schemas[p].col.index] == Holds(rest[Rank(schemas, i + 1, p)])
    ensures forall p :: i <= p < |schemas| && schemas[p].Active? ==>
      Rank(schemas, i, p) < |[x] + rest| && out[schemas[p].col.index] == Holds(([x] + rest)[Rank(schemas, i, p)])
  {
    forall p | i < p < |schemas| && schemas[p].Active?
      ensures Rank(schemas, i, p) == 1 + Rank(schemas, i + 1, p)
    {
    }
  }

  /** One live column under the walk and under key-only decode: both read a key column
      from the same key position to the same value and position; a value column leaves the
      key position alone and key-only decode passes it over. */
  lemma KeyFromActive(input: Inputs, i: nat, cur: Cursors, cells: seq<Cell>)
    requires Valid(input) && i < |input.schemas| && Fits(input, cur)
    requires |input.schemas| <= |cells| && input.schemas[i].Active?
    requires Walk(input, i, cur).Ok?
    ensures var col := input.schemas[i].col;
      var d := Consume(input.reader, col, input.key, input.value, cur);
      d.Ok? && Walk(input, i + 1, d.value.next).Ok? &&
      Walk(input, i, cur).value == [d.value.datum] + Walk(input, i + 1, d.value.next).value &&
      KeyFrom(input, i, cur.key, cells) ==
        if col.isKey
        then KeyFrom(input, i + 1, d.value.next.key, cells[i := Holds(d.value.datum)])
        else KeyFrom(input, i + 1, d.value.next.key, cells)
  {
    WalkActive(input, i, cur);
    var col := input.schemas[i].col;
    var d := Consume(input.reader, col, input.key, input.value, cur);
    if col.isKey {
      var own := Consume(input.reader, col, input.key, input.key, Cursors(cur.key, cur.key));
      assert own.Ok? && own.value.datum == d.value.datum && own.value.next.key == d.value.next.key;
      assert IsKeyAt(input.schemas, i, i);
    } else {
      assert !IsKeyAt(input.schemas, i, i);
      assert d.value.next.key == cur.key;
    }
  }

  /** Each live key column's list position in `out` holds the walk's value for that column. */
  ghost predicate KeyAgrees(out: seq<Cell>, schemas: seq<Slot>, i: nat, ds: seq<Datum>)
    requires i <= |schemas|
  {
    forall s :: IsKeyAt(schemas, i, s) ==>
      s < |out| && Rank(schemas, i, s) < |ds| && out[s] == Holds(ds[Rank(schemas, i, s)])
  }

  /** Key-only decode succeeds whenever the walk over the same key bytes does, and then each
      key column's slot holds the value the walk reads for it: value columns never move the
      key cursor. */
  lemma {:induction false} KeyFromAgreesWithWalk(input: Inputs, i: nat, cur: Cursors, cells: seq<Cell>)
    requires Valid(input) && i <= |input.schemas| && Fits(input, cur)
    requires |input.schemas| <= |cells|
    requires Walk(input, i, cur).Ok?
    ensures KeyFrom(input, i, cur.key, cells).Ok?
    ensures KeyAgrees(KeyFrom(input, i, cur.key, cells).value, input.schemas, i, Walk(input, i, cur).value)
    decreases |input.schemas| - i, 1
  {
    if i == |input.schemas| {
    } else if input.schemas[i].Dropped? {
      KeyFromAgreesDropped(input, i, cur, cells);
    } else {
      KeyFromAgreesActive(input, i, cur, cells);
    }
  }

  /** `KeyFromAgreesWithWalk` at a dropped entry. */
  lemma {:induction false} KeyFromAgreesDropped(input: Inputs, i: nat, cur: Cursors, cells: seq<Cell>)
    requires Valid(input) && i < |input.schemas| && Fits(input, cur)
    requires |input.schemas| <= |cells| && input.schemas[i].Dropped?
    requires Walk(input, i, cur).Ok?
    ensures KeyFrom(input, i, cur.key, cells).Ok?
    ensures KeyAgrees(KeyFrom(input, i, cur.key, cells).value, input.schemas, i, Walk(input, i, cur).value)
    decreases |input.schemas| - i, 0
  {
    assert Walk(input, i, cur) == Walk(input, i + 1, cur);
    assert !IsKeyAt(input.schemas, i, i);
    assert KeyFrom(input, i, cur.key, cells) == KeyFrom(input, i + 1, cur.key, cells);
    KeyFromAgreesWithWalk(input, i + 1, cur, cells);
    forall s | IsKeyAt(input.schemas, i, s)
      ensures IsKeyAt(input.schemas, i + 1, s) && Rank(input.schemas, i, s) == Rank(input.schemas, i + 1, s)
    {
    }
  }

  /** `KeyFromAgreesWithWalk` at a live column. */
  lemma {:induction false} KeyFromAgreesActive(input: Inputs, i: nat, cur: Cursors, cells: seq<Cell>)
    requires Valid(input) && i < |input.schemas| && Fits(input, cur)
    requires |input.schemas| <= |cells| && input.schemas[i].Active?
    requires Walk(input, i, cur).Ok?
    ensures KeyFrom(input, i, cur.key, cells).Ok?
    ensures KeyAgrees(KeyFrom(input, i, cur.key, cells).value, input.schemas, i, Walk(input, i, cur).value)
    decreases |input.schemas| - i, 0
  {
    KeyFromActive(input, i, cur, cells);
    var ds := Walk(input, i, cur).value;
    var col := input.schemas[i].col;
    var d := Consume(input.reader, col, input.key, input.value, cur).value;
    var rest := Walk(input, i + 1, d.next).value;
    var cells' := if col.isKey then cells[i := Holds(d.datum)] else cells;
    KeyFromAgreesWithWalk(input, i + 1, d.next, cells');
    var out := KeyFrom(input, i + 1, d.next.key, cells').value;
    assert !IsKeyAt(input.schemas, i + 1, i);
    KeyShift(out, input.schemas, i, d.datum, rest);
  }

  /** Key-only decode's agreement stated for schemas[i+1..] and the walk after one value,
      restated for schemas[i..] with that value in front. */
  lemma KeyShift(out: seq<Cell>, schemas: seq<Slot>, i: nat, x: Datum, rest: seq<Datum>)
    requires i < |schemas| <= |out| && schemas[i].Active?
    requires schemas[i].col.isKey ==> out[i] == Holds(x)
    requires KeyAgrees(out, schemas, i + 1, rest)
    ensures KeyAgrees(out, schemas, i, [x] + rest)
  {
    forall s | IsKeyAt(schemas, i, s) && s != i
      ensures IsKeyAt(schemas, i + 1, s) && Rank(schemas, i, s) == 1 + Rank(schemas, i + 1, s)
    {
    }
  }

  /** The plan entries from `n` on request live columns numbered `m` up to `m + count`,
      in strictly increasing order, each for a different slot; the last of them requests
      live column `m + count - 1`, so `count` live columns are all the pass needs. */
  ghost predicate PlanAhead(plan: seq<Entry>, n: nat, m: int, count: int) {
    (forall p :: n <= p < |plan| ==> m <= plan[p].0 < m + count) &&
    (forall p, q :: n <= p < q < |plan| ==> plan[p].0 < plan[q].0 && plan[p].1 != plan[q].1) &&
    (if n < |plan| then plan[|plan| - 1].0 == m + count - 1 else count == 0)
  }

  /** Each entry from `n` on has its slot holding the walk's value of the requested live
      column, the walk starting at number `m`. */
  ghost predicate WritesRequested(out: seq<Cell>, plan: seq<Entry>, n: nat, m: int, ds: seq<Datum>) {
    forall p :: n <= p < |plan| ==>
      0 <= plan[p].1 < |out| && 0 <= plan[p].0 - m < |ds| && out[plan[p].1] == Holds(ds[plan[p].0 - m])
  }

  /** The matching pass, started at entry `n` with live-column number `m`, whose remaining
      requests are increasing, name live columns ahead and end at the `count`-th of them:
      it succeeds exactly when those `count` live columns can be read, whatever follows
      them, and then stores into each remaining entry's slot the value of the live column
      that entry requests. */
  lemma {:induction false} ProjFromWrites(input: Inputs, plan: seq<Entry>, i: nat, n: nat, m: int,
                                          recordIndex: int, cur: Cursors, cells: seq<Cell>, count: nat)
    requires Valid(input) && i <= |input.schemas| && n <= |plan| && Fits(input, cur)
    requires SlotsBelow(plan, |cells|)
    requires count <= Rank(input.schemas, i, |input.schemas|) && PlanAhead(plan, n, m, count)
    ensures ProjFrom(input, plan, i, n, m, recordIndex, cur, cells).Ok? <==> WalkPrefix(input, i, cur, count).Ok?
    ensures ProjFrom(input, plan, i, n, m, recordIndex, cur, cells).Ok? ==>
      WritesRequested(ProjFrom(input, plan, i, n, m, recordIndex, cur, cells).value, plan, n, m,
                      WalkPrefix(input, i, cur, count).value)
    decreases |input.schemas| - i, 1
  {
    if i == |input.schemas| || n == |plan| {
    } else if input.schemas[i].Dropped? {
      ProjFromWrites(input, plan, i + 1, n, m, recordIndex, cur, cells, count);
    } else if plan[n].0 == m {
      ProjFromWritesMatch(input, plan, i, n, m, recordIndex, cur, cells, count);
    } else {
      ProjFromWritesSkip(input, plan, i, n, m, recordIndex, cur, cells, count);
    }
  }

  /** `ProjFromWrites` at a live column that the next entry requests. */
  lemma {:induction false} ProjFromWritesMatch(input: Inputs, plan: seq<Entry>, i: nat, n: nat, m: int,
                                               recordIndex: int, cur: Cursors, cells: seq<Cell>, count: nat)
    requires Valid(input) && i < |input.schemas| && n < |plan| && Fits(input, cur)
    requires SlotsBelow(plan, |cells|) && input.schemas[i].Active? && plan[n].0 == m
    requires count <= Rank(input.schemas, i, |input.schemas|) && PlanAhead(plan, n, m, count)
    ensures ProjFrom(input, plan, i, n, m, recordIndex, cur, cells).Ok? <==> WalkPrefix(input, i, cur, count).Ok?
    ensures ProjFrom(input, plan, i, n, m, recordIndex, cur, cells).Ok? ==>
      WritesRequested(ProjFrom(input, plan, i, n, m, recordIndex, cur, cells).value, plan, n, m,
                      WalkPrefix(input, i, cur, count).value)
    decreases |input.schemas| - i, 0
  {
    var d := Consume(input.reader, input.schemas[i].col, input.key, input.value, cur);
    if d.Ok? {
      var next := d.value.next;
      var cells' := cells[plan[n].1 := Holds(d.value.datum)];
      PlanAheadAfterMatch(plan, n, m, count);
      ProjFromWrites(input, plan, i + 1, n + 1, m + 1, plan[n].1, next, cells', count - 1);
      MatchWrites(ProjFrom(input, plan, i + 1, n + 1, m + 1, plan[n].1, next, cells'),
                  WalkPrefix(input, i, cur, count), WalkPrefix(input, i + 1, next, count - 1),
                  plan, n, m, count - 1, d.value.datum);
    }
  }

  /** `ProjFromWrites` at a live column that the next entry does not request. */
  lemma {:induction false} ProjFromWritesSkip(input: Inputs, plan: seq<Entry>, i: nat, n: nat, m: int,
                                              recordIndex: int, cur: Cursors, cells: seq<Cell>, count: nat)
    requires Valid(input) && i < |input.schemas| && n < |plan| && Fits(input, cur)
    requires SlotsBelow(plan, |cells|) && input.schemas[i].Active? && plan[n].0 != m
    requires count <= Rank(input.schemas, i, |input.schemas|) && PlanAhead(plan, n, m, count)
    ensures ProjFrom(input, plan, i, n, m, recordIndex, cur, cells).Ok? <==> WalkPrefix(input, i, cur, count).Ok?
    ensures ProjFrom(input, plan, i, n, m, recordIndex, cur, cells).Ok? ==>
      WritesRequested(ProjFrom(input, plan, i, n, m, recordIndex, cur, cells).value, plan, n, m,
                      WalkPrefix(input, i, cur, count).value)
    decreases |input.schemas| - i, 0
  {
    var d := Consume(input.reader, input.schemas[i].col, input.key, input.value, cur);
    if d.Ok? {
      var next := d.value.next;
      PlanAheadAfterSkip(plan, n, m, count);
      ProjFromWrites(input, plan, i + 1, n, m + 1, recordIndex, next, cells, count - 1);
      SkipWrites(ProjFrom(input, plan, i + 1, n, m + 1, recordIndex, next, cells),
                 WalkPrefix(input, i, cur, count), WalkPrefix(input, i + 1, next, count - 1),
                 plan, n, m, count - 1, d.value.datum);
    }
  }

  /** After a match the rest of the plan requests the live columns after `m`, one fewer of
      them, and none of it names the matched slot again. */
  lemma PlanAheadAfterMatch(plan: seq<Entry>, n: nat, m: int, count: int)
    requires n < |plan| && plan[n].0 == m && PlanAhead(plan, n, m, count)
    ensures PlanAhead(plan, n + 1, m + 1, count - 1) && !Requested(plan, n + 1, plan[n].1)
  {
    forall p | n + 1 <= p < |plan|
      ensures m + 1 <= plan[p].0
    {
      assert plan[n].0 < plan[p].0;
    }
  }

  /** After a skip the same entries request the live columns after `m`, one fewer of them. */
  lemma PlanAheadAfterSkip(plan: seq<Entry>, n: nat, m: int, count: int)
    requires n < |plan| && plan[n].0 != m && PlanAhead(plan, n, m, count)
    ensures PlanAhead(plan, n, m + 1, count - 1)
  {
    forall p | n <= p < |plan|
      ensures m + 1 <= plan[p].0
    {
      assert p > n ==> plan[n].0 < plan[p].0;
    }
  }

  /** The conclusion of `ProjFromWritesMatch` from the pass after the matched column (`out`),
      the prefix walk from the matched column (`walk`) and the one after it (`rest`). */
  lemma MatchWrites(out: Result<seq<Cell>>, walk: Result<seq<Datum>>, rest: Result<seq<Datum>>,
                    plan: seq<Entry>, n: nat, m: int, count: int, x: Datum)
    requires n < |plan| && plan[n].0 == m && PlanAhead(plan, n + 1, m + 1, count)
    requires walk.Ok? <==> rest.Ok?
    requires walk.Ok? ==> walk.value == [x] + rest.value
    requires out.Ok? <==> rest.Ok?
    requires out.Ok? ==> WritesRequested(out.value, plan, n + 1, m + 1, rest.value)
    requires out.Ok? ==> 0 <= plan[n].1 < |out.value| && out.value[plan[n].1] == Holds(x)
    ensures out.Ok? <==> walk.Ok?
    ensures out.Ok? ==> WritesRequested(out.value, plan, n, m, walk.value)
  {
    if out.Ok? {
      ShiftWrites(out.value, plan, n + 1, m, count, x, rest.value);
    }
  }

  /** The conclusion of `ProjFromWritesSkip` from the pass after the skipped column (`out`),
      the prefix walk from the skipped column (`walk`) and the one after it (`rest`). */
  lemma SkipWrites(out: Result<seq<Cell>>, walk: Result<seq<Datum>>, rest: Result<seq<Datum>>,
                   plan: seq<Entry>, n: nat, m: int, count: int, x: Datum)
    requires PlanAhead(plan, n, m + 1, count)
    requires walk.Ok? <==> rest.Ok?
    requires walk.Ok? ==> walk.value == [x] + rest.value
    requires out.Ok? <==> rest.Ok?
    requires out.Ok? ==> WritesRequested(out.value, plan, n, m + 1, rest.value)
    ensures out.Ok? <==> walk.Ok?
    ensures out.Ok? ==> WritesRequested(out.value, plan, n, m, walk.value)
  {
    if out.Ok? {
      ShiftWrites(out.value, plan, n, m, count, x, rest.value);
    }
  }

  /** Writes stated against the walk after one value restate against the walk with that
      value in front, the requests numbered one lower. */
  lemma ShiftWrites(out: seq<Cell>, plan: seq<Entry>, n: nat, m: int, count: int, x: Datum, rest: seq<Datum>)
    requires PlanAhead(plan, n, m + 1, count)
    requires WritesRequested(out, plan, n, m + 1, rest)
    ensures WritesRequested(out, plan, n, m, [x] + rest)
  {
    forall p | n <= p < |plan|
      ensures 0 <= plan[p].0 - m < 1 + |rest| && ([x] + rest)[plan[p].0 - m] == rest[plan[p].0 - (m + 1)]
    {
    }
  }

  /** Once the value cursor has nothing left, every later value column yields the absent
      marker of its type: a record written before a value column existed decodes to absent
      there, not to an error. */
  lemma {:induction false} WalkPastValueEnd(input: Inputs, i: nat, cur: Cursors)
    requires Valid(input) && i <= |input.schemas| && Fits(input, cur)
    requires cur.value == |input.value|
    requires Walk(input, i, cur).Ok?
    ensures var ds := Walk(input, i, cur).value;
      forall p :: i <= p < |input.schemas| && input.schemas[p].Active? && !input.schemas[p].col.isKey ==>
        Rank(input.schemas, i, p) < |ds| &&
        ds[Rank(input.schemas, i, p)] == Null(KindOf(input.schemas[p].col.typ))
    decreases |input.schemas| - i
  {
    if i < |input.schemas| {
      var ds := Walk(input, i, cur).value;
      if input.schemas[i].Dropped? {
        assert Walk(input, i, cur) == Walk(input, i + 1, cur);
        WalkPastValueEnd(input, i + 1, cur);
        forall p | i < p < |input.schemas|
          ensures Rank(input.schemas, i, p) == Rank(input.schemas, i + 1, p)
        {
        }
      } else {
        WalkActive(input, i, cur);
        var d := Consume(input.reader, input.schemas[i].col, input.key, input.value, cur).value;
        var rest := Walk(input, i + 1, d.next).value;
        assert d.next.value == cur.value;
        WalkPastValueEnd(input, i + 1, d.next);
        forall p | i <= p < |input.schemas| && input.schemas[p].Active? && !input.schemas[p].col.isKey
          ensures Rank(input.schemas, i, p) < |ds| &&
                  ds[Rank(input.schemas, i, p)] == Null(KindOf(input.schemas[p].col.typ))
        {
          RankBelowCount(input.schemas, i, p);
          if p > i {
            assert Rank(input.schemas, i, p) == 1 + Rank(input.schemas, i + 1, p);
            assert ds[Rank(input.schemas, i, p)] == rest[Rank(input.schemas, i + 1, p)];
          }
        }
      }
    }
  }

  /** Once the value cursor has nothing left, the walk succeeds whenever key-only decode of
      the same key bytes does: value columns yield the absent marker without reading, and
      key columns read the key bytes exactly as key-only decode reads them. */
  lemma {:induction false} WalkFollowsKeyAtValueEnd(input: Inputs, i: nat, cur: Cursors, cells: seq<Cell>)
    requires Valid(input) && i <= |input.schemas| && Fits(input, cur) && |input.schemas| <= |cells|
    requires cur.value == |input.value|
    requires KeyFrom(input, i, cur.key, cells).Ok?
    ensures Walk(input, i, cur).Ok?
    decreases |input.schemas| - i
  {
    if i < |input.schemas| {
      match input.schemas[i]
      case Dropped =>
        assert !IsKeyAt(input.schemas, i, i);
        WalkFollowsKeyAtValueEnd(input, i + 1, cur, cells);
      case Active(col) =>
        var d := Consume(input.reader, col, input.key, input.value, cur);
        if col.isKey {
          assert IsKeyAt(input.schemas, i, i);
          var own := Consume(input.reader, col, input.key, input.key, Cursors(cur.key, cur.key)).value;
          assert d == Ok(Decoded(own.datum, Cursors(own.next.key, cur.value)));
          WalkFollowsKeyAtValueEnd(input, i + 1, d.value.next, cells[i := Holds(own.datum)]);
        } else {
          assert !IsKeyAt(input.schemas, i, i);
          WalkFollowsKeyAtValueEnd(input, i + 1, cur, cells);
        }
    }
  }
}
