/**
 * Value-level vocabulary shared by the schema, the partial row and the key
 * encoder: the closed set of column types, the typed cell values, byte
 * slices (non-owning views of memory) and the status codes that every
 * fallible row operation returns.
 */
module Types {

  newtype byte = b: int | 0 <= b < 0x100
  newtype int8 = x: int | -0x80 <= x < 0x80
  newtype int16 = x: int | -0x8000 <= x < 0x8000
  newtype int32 = x: int | -0x8000_0000 <= x < 0x8000_0000
  newtype int64 = x: int | -0x8000_0000_0000_0000 <= x < 0x8000_0000_0000_0000

  /** The column types a schema may declare. */
  datatype ColumnType = BOOL | INT8 | INT16 | INT32 | INT64 | FLOAT | DOUBLE | STRING

  /**
   * A view of `size` bytes of `data` starting at `offset`. A slice owns
   * nothing: two slices over the same array see each other's writes.
   */
  datatype Slice = Slice(data: array<byte>, offset: nat, size: nat) {
    predicate Valid() {
      offset + size <= data.Length
    }

    /** The bytes the slice currently points at. */
    function Bytes(): (b: seq<byte>)
      reads data
      requires Valid()
      ensures |b| == size
    {
      data[offset..offset + size]
    }
  }

  /**
   * A typed cell value. The type parameter is the representation of a
   * string payload: a `Slice` inside a row, the bytes themselves once they
   * have been read out for key encoding. FLOAT and DOUBLE values are kept
   * as opaque IEEE-754 bit patterns.
   */
  datatype Val<S> =
    | BoolV(b: bool)
    | Int8V(i8: int8)
    | Int16V(i16: int16)
    | Int32V(i32: int32)
    | Int64V(i64: int64)
    | FloatV(f: bv32)
    | DoubleV(d: bv64)
    | StringV(str: S)

  /** A value as a row stores it: strings are slices. */
  type Value = Val<Slice>

  /** A value with its string payload read out of memory. */
  type Datum = Val<seq<byte>>

  function TypeOf<S>(v: Val<S>): ColumnType {
    match v
    case BoolV(_) => BOOL
    case Int8V(_) => INT8
    case Int16V(_) => INT16
    case Int32V(_) => INT32
    case Int64V(_) => INT64
    case FloatV(_) => FLOAT
    case DoubleV(_) => DOUBLE
    case StringV(_) => STRING
  }

  /** The value with its string payload (if any) read through the slice. */
  function Content(v: Value): (d: Datum)
    reads if v.StringV? then {v.str.data} else {}
    requires v.StringV? ==> v.str.Valid()
    ensures TypeOf(d) == TypeOf(v)
    ensures v.StringV? ==> d == StringV(v.str.Bytes())
  {
    match v
    case BoolV(x) => BoolV(x)
    case Int8V(x) => Int8V(x)
    case Int16V(x) => Int16V(x)
    case Int32V(x) => Int32V(x)
    case Int64V(x) => Int64V(x)
    case FloatV(x) => FloatV(x)
    case DoubleV(x) => DoubleV(x)
    case StringV(s) => StringV(s.Bytes())
  }

  /** The result of a row operation. */
  datatype Status =
    | OK
    | ColumnNotFound   // no column has the given name, or the index is out of range
    | TypeMismatch     // the accessor's type is not the column's declared type
    | NotNullable      // SetNull on a column that is not nullable
    | NotSet           // Get on a column that has not been specified
    | NullValue        // Get on a column explicitly set to NULL
    | InvalidArgument  // EncodeRowKey while some key column is not set
}
