/** Per-column decode-or-skip and the type dispatch that selects it.

    `Consume` is the reference for one column: which cursor it reads, how far that cursor
    moves and which value comes out. A decode and a skip of the same column move the cursors
    identically; they differ only in whether the value is stored (`ColumnStep`). */
module Dispatch {
  import opened Results
  import opened Bytes
  import opened Schema

  /** Forward positions of the key cursor and the value cursor. */
  datatype Cursors = Cursors(key: nat, value: nat)

  /** A column's value and the cursors after it. */
  datatype Decoded = Decoded(datum: Datum, next: Cursors)

  /** Cursors and record after one column. */
  datatype Step = Step(cur: Cursors, cells: seq<Cell>)

  /** One column read from the cursors at `cur`. A key column reads the key bytes; a value
      column reads the value bytes, except that a value cursor with nothing left yields the
      absent marker of the column's type and does not move. */
  function Consume(reader: FieldReader, col: Column, key: seq<bv8>, value: seq<bv8>, cur: Cursors): (r: Result<Decoded>)
    requires WellBehaved(reader) && 0 <= col.typ < |DispatchTable|
    requires cur.key <= |key| && cur.value <= |value|
    ensures r.Ok? ==> r.value.next.key <= |key| && r.value.next.value <= |value|
    ensures r.Ok? ==> r.value.datum.Kind() == KindOf(col.typ)
    ensures r.Ok? && col.isKey ==> r.value.next.value == cur.value && cur.key <= r.value.next.key
    ensures r.Ok? && !col.isKey ==> r.value.next.key == cur.key && cur.value <= r.value.next.value
    ensures !col.isKey && cur.value == |value| ==> r == Ok(Decoded(Null(KindOf(col.typ)), cur))
  {
    if col.isKey then
      match reader(col, key[cur.key..])
      case None => Overrun
      case Some(f) => Ok(Decoded(f.datum, cur.(key := cur.key + f.width)))
    else if cur.value == |value| then
      Ok(Decoded(Null(KindOf(col.typ)), cur))
    else
      match reader(col, value[cur.value..])
      case None => Overrun
      case Some(f) => Ok(Decoded(f.datum, cur.(value := cur.value + f.width)))
  }

  /** Decode-or-skip of one column: the cursors move as `Consume` says; a decode stores
      the value in slot `slot`, a skip stores nothing. */
  function ColumnStep(reader: FieldReader, col: Column, key: seq<bv8>, value: seq<bv8>, cur: Cursors,
                      cells: seq<Cell>, slot: int, skip: bool): Result<Step>
    requires WellBehaved(reader) && 0 <= col.typ < |DispatchTable|
    requires cur.key <= |key| && cur.value <= |value|
    requires !skip ==> 0 <= slot < |cells|
  {
    var d :- Consume(reader, col, key, value, cur);
    Ok(Step(d.next, if skip then cells else cells[slot := Holds(d.datum)]))
  }

  /** The typed decode-or-skip routine of entry `kind` of the dispatch table, applied to a
      schema of that type. Key columns always read the key cursor; a value column whose
      cursor is at its end is skipped as a no-op, or decoded to the absent marker. */
  method CastAndDecodeOrSkip(kind: Kind, reader: FieldReader, col: Column, keyBuf: Buf, valueBuf: Buf,
                             record: Record, slot: int, skip: bool) returns (r: Result<()>)
    requires WellBehaved(reader) && 0 <= col.typ < |DispatchTable| && kind == KindOf(col.typ)
    requires keyBuf.Valid() && valueBuf.Valid()
    requires !skip ==> 0 <= slot < |record.cells|
    modifies keyBuf, valueBuf, record
    ensures keyBuf.Valid() && valueBuf.Valid()
    ensures keyBuf.tail == old(keyBuf.tail) && valueBuf.tail == old(valueBuf.tail)
    ensures var step := ColumnStep(reader, col, keyBuf.data, valueBuf.data,
                                   Cursors(old(keyBuf.head), old(valueBuf.head)), old(record.cells), slot, skip);
      (r.Ok? <==> step.Ok?) &&
      (r.Ok? ==> record.cells == step.value.cells) &&
      (r.Ok? && col.isKey ==> keyBuf.head == step.value.cur.key) &&
      (r.Ok? && !col.isKey ==> valueBuf.head == step.value.cur.value)
    ensures keyBuf != valueBuf && col.isKey ==> valueBuf.head == old(valueBuf.head)
    ensures keyBuf != valueBuf && !col.isKey ==> keyBuf.head == old(keyBuf.head)
  {
    if skip {
      if col.isKey {
        r := SkipField(reader, col, keyBuf);
      } else if !valueBuf.IsEnd() {
        r := SkipField(reader, col, valueBuf);
      } else {
        r := Ok(());
      }
    } else {
      if col.isKey {
        var d :- ReadField(reader, col, keyBuf);
        record.Put(slot, Holds(d));
      } else {
        if valueBuf.IsEnd() {
          record.Put(slot, Holds(Null(kind)));
        } else {
          var d :- ReadField(reader, col, valueBuf);
          record.Put(slot, Holds(d));
        }
      }
      r := Ok(());
    }
  }

  /** Selects the routine by the column's type ordinal, a direct index into the table. */
  method DecodeOrSkip(reader: FieldReader, col: Column, keyBuf: Buf, valueBuf: Buf,
                      record: Record, slot: int, skip: bool) returns (r: Result<()>)
    requires WellBehaved(reader) && 0 <= col.typ < |DispatchTable|
    requires keyBuf.Valid() && valueBuf.Valid()
    requires !skip ==> 0 <= slot < |record.cells|
    modifies keyBuf, valueBuf, record
    ensures keyBuf.Valid() && valueBuf.Valid()
    ensures keyBuf.tail == old(keyBuf.tail) && valueBuf.tail == old(valueBuf.tail)
    ensures var step := ColumnStep(reader, col, keyBuf.data, valueBuf.data,
                                   Cursors(old(keyBuf.head), old(valueBuf.head)), old(record.cells), slot, skip);
      (r.Ok? <==> step.Ok?) &&
      (r.Ok? ==> record.cells == step.value.cells) &&
      (r.Ok? && col.isKey ==> keyBuf.head == step.value.cur.key) &&
      (r.Ok? && !col.isKey ==> valueBuf.head == step.value.cur.value)
    ensures keyBuf != valueBuf && col.isKey ==> valueBuf.head == old(valueBuf.head)
    ensures keyBuf != valueBuf && !col.isKey ==> keyBuf.head == old(keyBuf.head)
  {
    r := CastAndDecodeOrSkip(DispatchTable[col.typ], reader, col, keyBuf, valueBuf, record, slot, skip);
  }
}
