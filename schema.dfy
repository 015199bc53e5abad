/** Column schemas, the values they decode to, and the output record.

    A table column is described by whether it lives in the key or the value bytes, its
    physical type (an ordinal into the 12-entry dispatch table) and the output slot a full
    decode writes it to. The byte layout of each type belongs to the typed schema objects;
    here it is a `FieldReader` that, given a column and the bytes left in a cursor, yields
    the decoded value and how many bytes it occupies. */
module Schema {
  import opened Results
  import opened Bytes

  /** The 12 physical column types, in dispatch-table order. */
  datatype Kind =
    | Bool | Int32 | Float | Int64 | Double | String
    | BoolList | Int32List | FloatList | Int64List | DoubleList | StringList

  /** The dispatch table: entry `t` handles columns whose type ordinal is `t`. */
  const DispatchTable: seq<Kind> :=
    [Bool, Int32, Float, Int64, Double, String,
     BoolList, Int32List, FloatList, Int64List, DoubleList, StringList]

  /** The ordinal of a type: its position in the dispatch table. */
  function Ordinal(k: Kind): (t: nat)
    ensures t < |DispatchTable| && DispatchTable[t] == k
  {
    match k
    case Bool => 0
    case Int32 => 1
    case Float => 2
    case Int64 => 3
    case Double => 4
    case String => 5
    case BoolList => 6
    case Int32List => 7
    case FloatList => 8
    case Int64List => 9
    case DoubleList => 10
    case StringList => 11
  }

  /** The type a table entry handles; `Ordinal` undoes it. */
  function KindOf(t: int): (k: Kind)
    requires 0 <= t < |DispatchTable|
    ensures Ordinal(k) == t
  {
    DispatchTable[t]
  }

  /** A decoded column value: an optional payload of the column's type. Floating-point
      payloads are kept as their raw bit patterns; strings as their bytes. `None` is the
      empty optional, written both for a null field and for a missing value column. */
  datatype Datum =
    | BoolV(b: Option<bool>)
    | Int32V(i32: Option<int>)
    | FloatV(f32: Option<bv32>)
    | Int64V(i64: Option<int>)
    | DoubleV(f64: Option<bv64>)
    | StringV(str: Option<seq<bv8>>)
    | BoolListV(bools: Option<seq<bool>>)
    | Int32ListV(i32s: Option<seq<int>>)
    | FloatListV(f32s: Option<seq<bv32>>)
    | Int64ListV(i64s: Option<seq<int>>)
    | DoubleListV(f64s: Option<seq<bv64>>)
    | StringListV(strs: Option<seq<seq<bv8>>>)
  {
    function Kind(): Kind {
      match this
      case BoolV(_) => Bool
      case Int32V(_) => Int32
      case FloatV(_) => Float
      case Int64V(_) => Int64
      case DoubleV(_) => Double
      case StringV(_) => String
      case BoolListV(_) => BoolList
      case Int32ListV(_) => Int32List
      case FloatListV(_) => FloatList
      case Int64ListV(_) => Int64List
      case DoubleListV(_) => DoubleList
      case StringListV(_) => StringList
    }

    predicate IsNull() {
      match this
      case BoolV(v) => v.None?
      case Int32V(v) => v.None?
      case FloatV(v) => v.None?
      case Int64V(v) => v.None?
      case DoubleV(v) => v.None?
      case StringV(v) => v.None?
      case BoolListV(v) => v.None?
      case Int32ListV(v) => v.None?
      case FloatListV(v) => v.None?
      case Int64ListV(v) => v.None?
      case DoubleListV(v) => v.None?
      case StringListV(v) => v.None?
    }
  }

  /** The empty optional of type `k`: the absent marker. */
  function Null(k: Kind): (d: Datum)
    ensures d.Kind() == k && d.IsNull()
  {
    match k
    case Bool => BoolV(None)
    case Int32 => Int32V(None)
    case Float => FloatV(None)
    case Int64 => Int64V(None)
    case Double => DoubleV(None)
    case String => StringV(None)
    case BoolList => BoolListV(None)
    case Int32List => Int32ListV(None)
    case FloatList => FloatListV(None)
    case Int64List => Int64ListV(None)
    case DoubleList => DoubleListV(None)
    case StringList => StringListV(None)
  }

  /** One slot of the output record: never written (an empty dynamic value), or holding
      a decoded value. */
  datatype Cell = Unset | Holds(datum: Datum)

  /** A column schema: key or value column, type ordinal, output slot of a full decode. */
  datatype Column = Column(isKey: bool, typ: int, index: int)

  /** An entry of the schema list: a live column, or the null entry left by a dropped one. */
  datatype Slot = Active(col: Column) | Dropped

  /** What a typed schema's decode yields: the value and the bytes it occupied. */
  datatype Field = Field(datum: Datum, width: nat)

  /** The typed schemas' byte layouts: the field at the start of the given bytes, or
      `None` when the bytes are too short or malformed for it. */
  type FieldReader = (Column, seq<bv8>) -> Option<Field>

  /** A reader consumes only bytes it is given and yields values of the column's type. */
  ghost predicate WellBehaved(reader: FieldReader) {
    forall col: Column, bytes: seq<bv8> ::
      reader(col, bytes).Some? ==>
        reader(col, bytes).value.width <= |bytes| &&
        (0 <= col.typ < |DispatchTable| ==> reader(col, bytes).value.datum.Kind() == KindOf(col.typ))
  }

  /** Every live column has a type ordinal inside the dispatch table. */
  ghost predicate TypesInTable(schemas: seq<Slot>) {
    forall p :: 0 <= p < |schemas| && schemas[p].Active? ==> 0 <= schemas[p].col.typ < |DispatchTable|
  }

  /** Every live column's output slot lies below `n`. */
  ghost predicate IndexesBelow(schemas: seq<Slot>, n: int) {
    forall p :: 0 <= p < |schemas| && schemas[p].Active? ==> 0 <= schemas[p].col.index < n
  }

  /** No two live columns share an output slot. */
  ghost predicate UniqueIndexes(schemas: seq<Slot>) {
    forall p, q :: 0 <= p < q < |schemas| && schemas[p].Active? && schemas[q].Active? ==>
      schemas[p].col.index != schemas[q].col.index
  }

  /** A typed schema's decode (`DecodeKey` / `DecodeValue`) on a cursor. */
  method ReadField(reader: FieldReader, col: Column, buf: Buf) returns (r: Result<Datum>)
    requires WellBehaved(reader) && buf.Valid()
    modifies buf
    ensures buf.Valid() && buf.tail == old(buf.tail)
    ensures var f := reader(col, buf.data[old(buf.head)..]);
      (r.Ok? <==> f.Some?) &&
      (r.Ok? ==> r.value == f.value.datum && buf.head == old(buf.head) + f.value.width)
  {
    match reader(col, buf.data[buf.head..]) {
      case None =>
        r := Overrun;
      case Some(f) =>
        buf.head := buf.head + f.width;
        r := Ok(f.datum);
    }
  }

  /** A typed schema's skip (`SkipKey` / `SkipValue`): it passes over the bytes the decode
      would have consumed. */
  method SkipField(reader: FieldReader, col: Column, buf: Buf) returns (r: Result<()>)
    requires WellBehaved(reader) && buf.Valid()
    modifies buf
    ensures buf.Valid() && buf.tail == old(buf.tail)
    ensures var f := reader(col, buf.data[old(buf.head)..]);
      (r.Ok? <==> f.Some?) &&
      (r.Ok? ==> buf.head == old(buf.head) + f.value.width)
  {
    match reader(col, buf.data[buf.head..]) {
      case None =>
        r := Overrun;
      case Some(f) =>
        buf.head := buf.head + f.width;
        r := Ok(());
    }
  }

  /** `cells` after a vector resize to `n`: the first slots are kept, new ones are unset. */
  function Resized(cells: seq<Cell>, n: nat): (r: seq<Cell>)
    ensures |r| == n
    ensures forall s :: 0 <= s < n && s < |cells| ==> r[s] == cells[s]
    ensures forall s :: |cells| <= s < n ==> r[s] == Unset
  {
    if n <= |cells| then cells[..n] else cells + seq(n - |cells|, _ => Unset)
  }

  /** The caller-owned output record the decoder resizes and writes in place. */
  class Record {
    var cells: seq<Cell>

    constructor (cells: seq<Cell>)
      ensures this.cells == cells
    {
      this.cells := cells;
    }

    method Resize(n: nat)
      modifies this
      ensures cells == Resized(old(cells), n)
    {
      cells := Resized(cells, n);
    }

    /** Bounds-checked store into slot `s`. */
    method Put(s: int, c: Cell)
      requires 0 <= s < |cells|
      modifies this
      ensures cells == old(cells)[s := c]
    {
      cells := cells[s := c];
    }
  }
}
