/** `RecordDecoderV1`: validates the key/value header and decodes a stored row into the
    output record, fully, key columns only, or for a requested subset of columns.

    Key bytes:   [namespace: 1][common id: 8][key columns][reserved: 3][codec version: 1]
    Value bytes: [schema version: 4][value columns]

    Each entry point returns 0 on success and -1 when a header check rejects the row;
    a read past the bytes of a cursor is `Overrun`, the exception the cursor raises. */
module RecordDecoder {
  import opened Results
  import opened Bytes
  import opened Schema
  import opened Dispatch
  import opened Projection
  import opened Passes

  /** The codec version this decoder understands. */
  const CodecVersion: int := 1

  /** Key position after the namespace byte and the 8-byte common id. */
  const KeyPrefixWidth: nat := 9

  /** Value position after the 4-byte schema version. */
  const ValuePrefixWidth: nat := 4

  /** What a decoder is built from. */
  datatype Config = Config(schemaVersion: int, schemas: seq<Slot>, commonId: int, codecVersion: int,
                           reader: FieldReader)

  /** The schema list is usable: its readers behave, its type ordinals index the dispatch
      table and its output slots lie inside a record of the list's length. */
  ghost predicate ValidConfig(cfg: Config) {
    WellBehaved(cfg.reader) && TypesInTable(cfg.schemas) && IndexesBelow(cfg.schemas, |cfg.schemas|)
  }

  /** Status code and record after a call. */
  datatype Outcome = Outcome(code: int, cells: seq<Cell>)

  /** The two key checks, in order: the common id after the namespace byte, then the
      trailing codec version byte. */
  function KeyHeader(key: seq<bv8>, commonId: int, codecVersion: int): Result<bool> {
    if |key| < KeyPrefixWidth then Overrun
    else if Int64At(key, 1) != commonId then Ok(false)
    else Ok(key[|key| - 1] as int <= codecVersion)
  }

  /** The schema-version check: the stored version may not exceed the decoder's. */
  function ValueHeader(value: seq<bv8>, schemaVersion: int): Result<bool> {
    if |value| < ValuePrefixWidth then Overrun
    else Ok(Int32At(value, 0) <= schemaVersion)
  }

  function Input(cfg: Config, key: seq<bv8>, value: seq<bv8>): Inputs {
    Inputs(cfg.reader, cfg.schemas, key, value)
  }

  /** Full decode: header checks, then the record resized to the schema list and every live
      column decoded into its output slot. */
  function FullDecode(cfg: Config, key: seq<bv8>, value: seq<bv8>, cells: seq<Cell>): Result<Outcome>
    requires ValidConfig(cfg)
  {
    var keyOk :- KeyHeader(key, cfg.commonId, cfg.codecVersion);
    if !keyOk then Ok(Outcome(-1, cells))
    else
      var valueOk :- ValueHeader(value, cfg.schemaVersion);
      if !valueOk then Ok(Outcome(-1, cells))
      else
        var out :- FullFrom(Input(cfg, key, value), 0, Cursors(KeyPrefixWidth, ValuePrefixWidth),
                            Resized(cells, |cfg.schemas|));
        Ok(Outcome(0, out))
  }

  /** Key-only decode: the key checks, then the record resized to the schema list and the
      live key columns decoded, the key bytes standing in for the value bytes. */
  function KeyDecode(cfg: Config, key: seq<bv8>, cells: seq<Cell>): Result<Outcome>
    requires ValidConfig(cfg)
  {
    var keyOk :- KeyHeader(key, cfg.commonId, cfg.codecVersion);
    if !keyOk then Ok(Outcome(-1, cells))
    else
      var out :- KeyFrom(Input(cfg, key, key), 0, KeyPrefixWidth, Resized(cells, |cfg.schemas|));
      Ok(Outcome(0, out))
  }

  /** Projected decode: the header checks, then the record resized to the request list and
      the matching pass run with the sorted plan. */
  function ProjectedDecode(cfg: Config, key: seq<bv8>, value: seq<bv8>, columnIndexes: seq<int>,
                           cells: seq<Cell>): Result<Outcome>
    requires ValidConfig(cfg)
  {
    var keyOk :- KeyHeader(key, cfg.commonId, cfg.codecVersion);
    if !keyOk then Ok(Outcome(-1, cells))
    else
      var valueOk :- ValueHeader(value, cfg.schemaVersion);
      if !valueOk then Ok(Outcome(-1, cells))
      else
        var out :- ProjectedPass(cfg, key, value, columnIndexes, Resized(cells, |columnIndexes|));
        Ok(Outcome(0, out))
  }

  /** What projected decode does after the header checks, on the resized record: the
      matching pass with the sorted plan, from the first column bytes on. */
  function ProjectedPass(cfg: Config, key: seq<bv8>, value: seq<bv8>, columnIndexes: seq<int>,
                         cells: seq<Cell>): Result<seq<Cell>>
    requires ValidConfig(cfg) && |key| >= KeyPrefixWidth && |value| >= ValuePrefixWidth
    requires |cells| == |columnIndexes|
  {
    var plan := SortPairs(Pairs(columnIndexes));
    PlanCoversEachSlotOnce(columnIndexes);
    ProjFrom(Input(cfg, key, value), plan, 0, 0, 0, 0, Cursors(KeyPrefixWidth, ValuePrefixWidth), cells)
  }

  /** The trailing codec-version byte of a key, read without moving the cursor. */
  method GetCodecVersion(buf: Buf) returns (r: Result<int>)
    requires buf.Valid()
    ensures r.Ok? <==> buf.tail >= 1
    ensures r.Ok? ==> r.value == buf.data[buf.tail - 1] as int && 0 <= r.value < 256
  {
    var b :- buf.ReversePeek();
    r := Ok(b as int);
  }

  class RecordDecoderV1 {
    const schemaVersion: int
    const schemas: seq<Slot>
    const commonId: int
    const codecVersion: int
    const le: bool
    /** The typed schemas' byte layouts. */
    const reader: FieldReader

    function Settings(): Config {
      Config(schemaVersion, schemas, commonId, codecVersion, reader)
    }

    ghost predicate Valid() {
      ValidConfig(Settings())
    }

    constructor (schemaVersion: int, schemas: seq<Slot>, commonId: int, le: bool, reader: FieldReader)
      requires WellBehaved(reader) && TypesInTable(schemas) && IndexesBelow(schemas, |schemas|)
      ensures Valid()
      ensures this.schemaVersion == schemaVersion && this.schemas == schemas && this.commonId == commonId
      ensures this.le == le && this.reader == reader && codecVersion == CodecVersion
    {
      this.schemaVersion := schemaVersion;
      this.schemas := schemas;
      this.commonId := commonId;
      this.le := le;
      this.reader := reader;
      codecVersion := CodecVersion;
    }

    /** Skips the namespace byte and compares the 8-byte id that follows with the common id:
        9 bytes consumed from the head. */
    method CheckPrefix(buf: Buf) returns (r: Result<bool>)
      requires buf.Valid()
      modifies buf
      ensures buf.Valid() && buf.tail == old(buf.tail)
      ensures r.Ok? <==> old(buf.head) + KeyPrefixWidth <= |buf.data|
      ensures r.Ok? ==> buf.head == old(buf.head) + KeyPrefixWidth
      ensures r.Ok? ==> (r.value <==> Int64At(buf.data, old(buf.head) + 1) == commonId)
    {
      var skipped :- buf.Skip(1);
      var id :- buf.ReadLong();
      r := Ok(id == commonId);
    }

    /** Reads the last byte of the key; accepts when it is at most the codec version, and
        then passes the 3 reserved bytes before it. A rejection takes no further byte. */
    method CheckReverseTag(buf: Buf) returns (r: Result<bool>)
      requires buf.Valid()
      modifies buf
      ensures buf.Valid() && buf.head == old(buf.head)
      ensures old(buf.tail) >= 1 ==>
        var accepted := buf.data[old(buf.tail) - 1] as int <= codecVersion;
        (r.Ok? <==> !accepted || old(buf.tail) >= 4) &&
        (r.Ok? ==> r.value == accepted) &&
        (r == Ok(true) ==> buf.tail == old(buf.tail) - 4) &&
        (r == Ok(false) ==> buf.tail == old(buf.tail) - 1)
      ensures old(buf.tail) == 0 ==> r.Overrun?
    {
      var tag :- buf.ReverseRead();
      if tag as int <= codecVersion {
        var skipped :- buf.ReverseSkip(3);
        r := Ok(true);
      } else {
        r := Ok(false);
      }
    }

    /** Reads the leading 4-byte schema version of the value; accepts versions up to the
        decoder's own. */
    method CheckSchemaVersion(buf: Buf) returns (r: Result<bool>)
      requires buf.Valid()
      modifies buf
      ensures buf.Valid() && buf.tail == old(buf.tail)
      ensures r.Ok? <==> old(buf.head) + ValuePrefixWidth <= |buf.data|
      ensures r.Ok? ==> buf.head == old(buf.head) + ValuePrefixWidth
      ensures r.Ok? ==> (r.value <==> Int32At(buf.data, old(buf.head)) <= schemaVersion)
    {
      var version :- buf.ReadInt();
      r := Ok(version <= schemaVersion);
    }

    /** Full decode of a row. */
    method Decode(key: seq<bv8>, value: seq<bv8>, record: Record) returns (r: Result<int>)
      requires Valid()
      modifies record
      ensures var spec := FullDecode(Settings(), key, value, old(record.cells));
        (r.Ok? <==> spec.Ok?) &&
        (r.Ok? ==> r.value == spec.value.code && record.cells == spec.value.cells)
    {
      var keyBuf := new Buf(key, le);
      var valueBuf := new Buf(value, le);
      var ok :- CheckPrefix(keyBuf);
      if !ok {
        return Ok(-1);
      }
      // The prefix check has seen at least 9 key bytes, so the tag read cannot run out.
      var tag := CheckReverseTag(keyBuf);
      if tag == Ok(false) {
        return Ok(-1);
      }
      ok :- CheckSchemaVersion(valueBuf);
      if !ok {
        return Ok(-1);
      }

      record.Resize(|schemas|);
      var done :- DecodeColumns(keyBuf, valueBuf, record);
      return Ok(0);
    }

    /** The loop of full decode: every live column, in list order, decoded into its output
        slot. */
    method DecodeColumns(keyBuf: Buf, valueBuf: Buf, record: Record) returns (r: Result<()>)
      requires Valid() && keyBuf.Valid() && valueBuf.Valid() && keyBuf != valueBuf
      requires |record.cells| == |schemas|
      modifies keyBuf, valueBuf, record
      ensures var spec := FullFrom(Input(Settings(), keyBuf.data, valueBuf.data), 0,
                                   Cursors(old(keyBuf.head), old(valueBuf.head)), old(record.cells));
        (r.Ok? <==> spec.Ok?) && (r.Ok? ==> record.cells == spec.value)
    {
      ghost var input := Input(Settings(), keyBuf.data, valueBuf.data);
      ghost var spec := FullFrom(input, 0, Cursors(keyBuf.head, valueBuf.head), record.cells);
      var i := 0;
      while i < |schemas|
        invariant 0 <= i <= |schemas|
        invariant keyBuf.Valid() && valueBuf.Valid() && |record.cells| == |schemas|
        invariant FullFrom(input, i, Cursors(keyBuf.head, valueBuf.head), record.cells) == spec
      {
        if schemas[i].Active? {
          ghost var before := FullFrom(input, i, Cursors(keyBuf.head, valueBuf.head), record.cells);
          ghost var step := ColumnStep(reader, schemas[i].col, keyBuf.data, valueBuf.data,
                                       Cursors(keyBuf.head, valueBuf.head), record.cells, schemas[i].col.index, false);
          assert before == (if step.Overrun? then Overrun else FullFrom(input, i + 1, step.value.cur, step.value.cells));
          var done := DecodeOrSkip(reader, schemas[i].col, keyBuf, valueBuf, record, schemas[i].col.index, false);
          if done.Overrun? {
            return Overrun;
          }
          assert Cursors(keyBuf.head, valueBuf.head) == step.value.cur;
        }
        i := i + 1;
      }
      return Ok(());
    }

    /** Key-only decode of a row's key: each live key column goes to its position in the
        schema list. */
    method DecodeKey(key: seq<bv8>, record: Record) returns (r: Result<int>)
      requires Valid()
      modifies record
      ensures var spec := KeyDecode(Settings(), key, old(record.cells));
        (r.Ok? <==> spec.Ok?) &&
        (r.Ok? ==> r.value == spec.value.code && record.cells == spec.value.cells)
    {
      var keyBuf := new Buf(key, le);
      var ok :- CheckPrefix(keyBuf);
      if !ok {
        return Ok(-1);
      }
      // The prefix check has seen at least 9 key bytes, so the tag read cannot run out.
      var tag := CheckReverseTag(keyBuf);
      if tag == Ok(false) {
        return Ok(-1);
      }

      record.Resize(|schemas|);
      var done :- DecodeKeyColumns(keyBuf, record);
      return Ok(0);
    }

    /** The loop of key-only decode: the key cursor serves as both cursors, and each live
        key column is decoded into its position in the list, dropped entries counted. */
    method DecodeKeyColumns(keyBuf: Buf, record: Record) returns (r: Result<()>)
      requires Valid() && keyBuf.Valid()
      requires |record.cells| == |schemas|
      modifies keyBuf, record
      ensures var spec := KeyFrom(Input(Settings(), keyBuf.data, keyBuf.data), 0, old(keyBuf.head), old(record.cells));
        (r.Ok? <==> spec.Ok?) && (r.Ok? ==> record.cells == spec.value)
    {
      ghost var input := Input(Settings(), keyBuf.data, keyBuf.data);
      ghost var spec := KeyFrom(input, 0, keyBuf.head, record.cells);
      var index := 0;
      while index < |schemas|
        invariant 0 <= index <= |schemas|
        invariant keyBuf.Valid() && |record.cells| == |schemas|
        invariant KeyFrom(input, index, keyBuf.head, record.cells) == spec
      {
        if schemas[index].Active? && schemas[index].col.isKey {
          ghost var before := KeyFrom(input, index, keyBuf.head, record.cells);
          ghost var step := ColumnStep(reader, schemas[index].col, keyBuf.data, keyBuf.data,
                                       Cursors(keyBuf.head, keyBuf.head), record.cells, index, false);
          assert before == (if step.Overrun? then Overrun else KeyFrom(input, index + 1, step.value.cur.key, step.value.cells));
          var done := DecodeOrSkip(reader, schemas[index].col, keyBuf, keyBuf, record, index, false);
          if done.Overrun? {
            return Overrun;
          }
        }
        index := index + 1;
      }
      return Ok(());
    }

    /** Projected decode: output slot `j` receives the live column numbered
        `columnIndexes[j]`. */
    method DecodeProjection(key: seq<bv8>, value: seq<bv8>, columnIndexes: seq<int>, record: Record)
      returns (r: Result<int>)
      requires Valid()
      modifies record
      ensures var spec := ProjectedDecode(Settings(), key, value, columnIndexes, old(record.cells));
        (r.Ok? <==> spec.Ok?) &&
        (r.Ok? ==> r.value == spec.value.code && record.cells == spec.value.cells)
    {
      var keyBuf := new Buf(key, le);
      var valueBuf := new Buf(value, le);
      var ok :- CheckPrefix(keyBuf);
      if !ok {
        return Ok(-1);
      }
      // The prefix check has seen at least 9 key bytes, so the tag read cannot run out.
      var tag := CheckReverseTag(keyBuf);
      if tag == Ok(false) {
        return Ok(-1);
      }
      ok :- CheckSchemaVersion(valueBuf);
      if !ok {
        return Ok(-1);
      }

      record.Resize(|columnIndexes|);
      var plan := BuildPlan(columnIndexes);
      var done :- DecodeMatching(plan, keyBuf, valueBuf, record);
      return Ok(0);
    }

    /** The matching pass of projected decode: walks the schema list once, numbering the
        live columns, and decodes each column the next unmet plan entry requests into that
        entry's slot while skipping the others; it stops once every entry is met. */
    method DecodeMatching(plan: seq<Entry>, keyBuf: Buf, valueBuf: Buf, record: Record) returns (r: Result<()>)
      requires Valid() && keyBuf.Valid() && valueBuf.Valid() && keyBuf != valueBuf
      requires SlotsBelow(plan, |record.cells|)
      modifies keyBuf, valueBuf, record
      ensures var spec := ProjFrom(Input(Settings(), keyBuf.data, valueBuf.data), plan, 0, 0, 0, 0,
                                   Cursors(old(keyBuf.head), old(valueBuf.head)), old(record.cells));
        (r.Ok? <==> spec.Ok?) && (r.Ok? ==> record.cells == spec.value)
    {
      var n, m := 0, 0;
      ghost var input := Input(Settings(), keyBuf.data, valueBuf.data);
      ghost var spec := ProjFrom(input, plan, 0, 0, 0, 0, Cursors(keyBuf.head, valueBuf.head), record.cells);
      var recordIndex := 0;
      var i := 0;
      while i < |schemas|
        invariant 0 <= i <= |schemas| && 0 <= n <= |plan|
        invariant m == Rank(schemas, 0, i)
        invariant keyBuf.Valid() && valueBuf.Valid() && |record.cells| == old(|record.cells|)
        invariant ProjFrom(input, plan, i, n, m, recordIndex, Cursors(keyBuf.head, valueBuf.head), record.cells) == spec
      {
        if |plan| == n {
          return Ok(());
        }
        if schemas[i].Active? {
          ghost var before := ProjFrom(input, plan, i, n, m, recordIndex, Cursors(keyBuf.head, valueBuf.head), record.cells);
          ghost var cur, cells := Cursors(keyBuf.head, valueBuf.head), record.cells;
          var skip;
          skip, n, m, recordIndex := IsSkipOnly(plan, n, m, recordIndex);
          ghost var step := ColumnStep(reader, schemas[i].col, keyBuf.data, valueBuf.data, cur, cells, recordIndex, skip);
          assert before == (if step.Overrun? then Overrun
                            else ProjFrom(input, plan, i + 1, n, m, recordIndex, step.value.cur, step.value.cells));
          var done := DecodeOrSkip(reader, schemas[i].col, keyBuf, valueBuf, record, recordIndex, skip);
          if done.Overrun? {
            return Overrun;
          }
          assert Cursors(keyBuf.head, valueBuf.head) == step.value.cur;
        }
        RankExtend(schemas, 0, i);
        i := i + 1;
      }
      return Ok(());
    }
  }
}
