# KuduPartialRow, modelled in Dafny

`KuduPartialRow` (declared in `src/kudu/common/partial_row.h`) is Kudu's
client-side row. It is bound to a fixed schema, and a caller fills in any
subset of its columns. Its state has three parts:
- an *isset* bitmap of the columns that have been specified;
- an *owned strings* bitmap of the string columns whose bytes the row copied and must free;
- the row data itself.

A column is in one of three states:
- **unset**: the server-side default applies on insert;
- **explicitly NULL**: this overrides the default, and the column counts as set;
- **set to a value**: a string value is either *borrowed* (`SetString` stores the caller's slice) or *owned* (`SetStringCopy` stores a copy the row allocated).

The model has five modules:

- `Types`: the column types and typed values, and byte slices. A slice is a
  non-owning view of an `array<byte>`, so two slices over one array see each
  other's writes. `Types` also defines the status codes the operations return.
- `Schemas`: the part of the schema the row relies on. This is the ordered
  columns (name, type, nullable, key flag), the key columns in declared key
  order, and the name lookup `FindColumn`. `FindColumn` returns -1 when no
  column has the name.
- `RowSpec`: the abstract row state, a sequence of `Unset | Null | Valued(value, owned)`.
  It also holds the pure transition and query functions that the class is
  proved against, the string-ownership ledger functions, and the lemmas.
- `KeyEncoding`: the row key as a fold over the key columns in declared key
  order. The per-component byte encoding `encode(datum, isLast)` is a
  parameter.
- `PartialRow`: the class `KuduPartialRow`.
  - Its storage is three arrays: `isset`, `ownedStrings`, and `rowData` (one
    slot per column).
  - It has a ghost abstract state `cols`, kept equal to what the arrays
    represent.
  - It also keeps a ghost ledger of buffers. `live` holds the buffers it
    allocated and has not freed; `released` holds the buffers it has freed.
  - Every setter, `SetNull` and `Unset` is a method that updates the arrays
    in place. Each ensures that its status and new abstract state are those
    of the matching `RowSpec` function.

The object invariant `Valid()` ties everything together:
- the arrays represent `cols`;
- every value fits its column's type and nullability;
- no buffer is owned by two columns;
- the live buffers are exactly the buffers owned by columns;
- no live buffer has been released.

The only precondition for freeing a buffer is that it is live and not yet
released. Because of that, the proofs show that no owned string is freed
twice. Because every method keeps `live == OwnedBuffers(cols)`, no copy is
leaked: a copy is either owned by exactly one column or freed. Resetting that
column, by overwriting it, `SetNull` or `Unset`, frees exactly its buffer.
`DeallocateOwnedStrings`, the destructor's body, frees all of them. The number
it frees equals the number of set owned bits.

The model follows the declarations and comments of `partial_row.h`; the
implementation in `partial_row.cc` is not modelled. Where the header is
silent, the model makes these choices:
- **Status codes.** The header names only `InvalidArgument`, the error of
  `EncodeRowKey`. For the other failures the model uses the codes of the
  class's documented behaviour: `ColumnNotFound`, `TypeMismatch`,
  `NotNullable`, `NotSet` and `NullValue`.
- **Column indexes.** In the operations that return a `Status` (the setters,
  `SetNull`, `Unset` and the getters), an out-of-range index is treated like
  an unknown name and returns `ColumnNotFound`; it is not a precondition
  there. The `bool` predicates `IsColumnSet` and `IsNull` and the private
  `DeallocateStringIfSet` require an index in range (see below).
- **Order of checks.** Setters check the column first, then the type (or
  nullability), and only then free the old string. Getters check the column,
  then the type, then whether the column is set, then NULL.
- **A failed copy.** When `SetStringCopy` fails, the copy it allocated is
  freed again.

## Model

| member | source | states |
|---|---|---|
| `Schemas.Schema.FindColumn` | src/kudu/common/partial_row.h:46-48 | The name lookup returns -1 exactly when no column has the name. Otherwise it returns the first column with that name. |
| `Schemas.FindColumnOfName` | src/kudu/common/partial_row.h:46-48 | In a well-formed schema, looking up column i's name gives i. |
| `RowSpec.SetThenGet` | src/kudu/common/partial_row.h:155-167 | `Set<T>` succeeds exactly on an existing column of type T. Afterwards `Get<T>` on it is OK and returns the value just set, and the column is set and not NULL. |
| `RowSpec.SetTouchesOnlyItsColumn` | src/kudu/common/partial_row.h:159-161 | A failed `Set<T>` leaves the whole row as it was. A successful one changes no other column. |
| `RowSpec.GetFailsExactly` | src/kudu/common/partial_row.h:81-83 | `Get<T>` fails exactly when the column is missing, has another type, is unset or is NULL. When it succeeds, the column holds a value of type T. |
| `RowSpec.SetNullOutcome` | src/kudu/common/partial_row.h:68-71 | `SetNull` succeeds exactly on a nullable column, and the column is then both set and NULL (a typed get reports NULL). Otherwise it fails with `NotNullable` and changes nothing. |
| `RowSpec.UnsetOutcome` | src/kudu/common/partial_row.h:73-76 | `Unset` makes the column not set and not NULL (a typed get reports not-set), and leaves every other column as it was. |
| `RowSpec.ByNameIsByIndex` | src/kudu/common/partial_row.h:46-48 | Each operation by column name (Set, SetNull, Unset, Get) gives the same status and new state as the same operation by the index the name resolves to. |
| `RowSpec.UnknownName` | src/kudu/common/partial_row.h:155-157 | A name that no column has makes every by-name operation fail with `ColumnNotFound`, and the row is not changed. |
| `RowSpec.AllSetImpliesKeySet` | src/kudu/common/partial_row.h:139-144 | If all columns are specified, then all key columns are set, because a key column cannot be NULL. |
| `RowSpec.KeySetOnlyReadsKeyColumns` | src/kudu/common/partial_row.h:139-141 | Whether the key is set depends only on the key columns. |
| `RowSpec.ResetReleasesOwned` | src/kudu/common/partial_row.h:186-189 | Resetting a column to a state that owns nothing removes exactly that column's owned buffer from the owned set. No buffer becomes owned by two columns. |
| `RowSpec.AdoptBuffer` | src/kudu/common/partial_row.h:64-66 | Storing a new copy as owned adds exactly its buffer to the owned set, and keeps every owned buffer distinct. |
| `RowSpec.DisownAllOwnsNothing` | src/kudu/common/partial_row.h:176-177 | Once every column has released its string, the row owns no buffer and no owned bit is counted. |
| `RowSpec.ReleaseAllAccounts` | src/kudu/common/partial_row.h:176-177 | Freeing the whole row frees every live buffer, as many as there were owned bits, and leaves none live. |
| `RowSpec.OwnedBuffersCount` | src/kudu/common/partial_row.h:186-189 | The ghost count of live owned buffers equals the number of set owned bits. |
| `KeyEncoding.EncodeKeyIsConcat` | src/kudu/common/partial_row.h:124-126 | The encoded key is the key columns' encodings joined in declared key order. Only the last component is flagged as last. |
| `KeyEncoding.SingleColumnKey` | src/kudu/common/partial_row.h:124-126 | With a single key column, the key is that column's encoding as the last component. |
| `KeyEncoding.PrefixOfKey` | src/kudu/common/partial_row.h:124-126 | The encoding of the first n key columns is a prefix of the whole key. |
| `PartialRow.StoreColumn` | src/kudu/common/partial_row.h:181-193 | Writing one column's isset bit, owned bit and data keeps the representation consistent, provided the new state fits the column. The owned set grows by exactly the new column's buffer, if it has one. |
| `PartialRow.ReleaseColumn` | src/kudu/common/partial_row.h:186-189 | A set owned bit names a live, unreleased buffer owned by that column. Freeing it and clearing the bit keeps the representation consistent and removes just that buffer. |
| `PartialRow.CopyOf` | src/kudu/common/partial_row.h:64 | The copy is a fresh buffer that holds the slice's bytes. |
| `PartialRow.KuduPartialRow.constructor` | src/kudu/common/partial_row.h:27-29 | A new row over a well-formed schema has every column unset and owns no buffer. |
| `PartialRow.KuduPartialRow.DeallocateStringIfSet` | src/kudu/common/partial_row.h:170-174 | Frees the column's owned buffer if it has one, clears the owned bit and disowns the column. The isset bitmap and the row data are unchanged. |
| `PartialRow.KuduPartialRow.DeallocateOwnedStrings` | src/kudu/common/partial_row.h:176-177 | Frees every owned buffer once. Afterwards nothing is live, `released` has grown by exactly the previously live buffers (as many as there were owned bits), and no owned bit is set. |
| `PartialRow.KuduPartialRow.SetCell` | src/kudu/common/partial_row.h:159-161 | The private `Set<T>(col_idx, val, owned)`: its status and new state are `SetOp`'s. On success it frees exactly the column's previous copy. On failure nothing changes. |
| `PartialRow.KuduPartialRow.StoreValue` | src/kudu/common/partial_row.h:181-193 | Marks the column set, stores the value and records ownership. The ledger is unchanged. |
| `PartialRow.KuduPartialRow.Set` | src/kudu/common/partial_row.h:49-57 | The typed setters by index behave as `SetOp` with `owned` false. The ledger is unchanged, because a non-string column never owns a buffer. |
| `PartialRow.KuduPartialRow.SetString` | src/kudu/common/partial_row.h:59-62 | Stores the caller's slice itself, unowned, as `SetOp` does. It frees the copy it replaces, if any. |
| `PartialRow.KuduPartialRow.SetStringCopy` | src/kudu/common/partial_row.h:64-66 | On success the column owns a fresh buffer with the same bytes as the caller's slice, and the old copy is freed. On failure the row is unchanged and the new copy is freed. |
| `PartialRow.KuduPartialRow.SetNull` | src/kudu/common/partial_row.h:68-71 | Its status and new state are `SetNullOp`'s: NULL only on a nullable column. On success it frees the column's previous copy. |
| `PartialRow.KuduPartialRow.Unset` | src/kudu/common/partial_row.h:73-76 | Its status and new state are `UnsetOp`'s. It frees the column's previous copy and leaves the row data bytes in place. |
| `PartialRow.KuduPartialRow.SetByName` | src/kudu/common/partial_row.h:36-44 | The typed setters by name behave as `SetOp` at the index the name resolves to. |
| `PartialRow.KuduPartialRow.SetStringByName` | src/kudu/common/partial_row.h:61 | `SetString` at the index the name resolves to. |
| `PartialRow.KuduPartialRow.SetStringCopyByName` | src/kudu/common/partial_row.h:65 | `SetStringCopy` at the index the name resolves to. An unknown name allocates nothing. |
| `PartialRow.KuduPartialRow.SetNullByName` | src/kudu/common/partial_row.h:70 | `SetNull` at the index the name resolves to. |
| `PartialRow.KuduPartialRow.UnsetByName` | src/kudu/common/partial_row.h:75 | `Unset` at the index the name resolves to. |
| `PartialRow.KuduPartialRow.IsColumnSet` | src/kudu/common/partial_row.h:85-87 | True exactly when the column is set (to a value or NULL). |
| `PartialRow.KuduPartialRow.IsColumnSetByName` | src/kudu/common/partial_row.h:86 | `IsColumnSet` of the column with that name. |
| `PartialRow.KuduPartialRow.IsNull` | src/kudu/common/partial_row.h:89-90 | True exactly when the column is explicitly NULL. A NULL column is then set and nullable. |
| `PartialRow.KuduPartialRow.IsNullByName` | src/kudu/common/partial_row.h:89 | `IsNull` of the column with that name. |
| `PartialRow.KuduPartialRow.Get` | src/kudu/common/partial_row.h:102-118 | The typed getters by index. The status is `GetStatus`'s. On OK the result is the stored value of the requested type, and a string is the stored slice, not a copy. On failure the caller's output is left as it was. |
| `PartialRow.KuduPartialRow.GetByName` | src/kudu/common/partial_row.h:92-100 | `Get` at the index the name resolves to. |
| `PartialRow.KuduPartialRow.IsKeySet` | src/kudu/common/partial_row.h:139-141 | True exactly when every key column holds a value. |
| `PartialRow.KuduPartialRow.AllColumnsSet` | src/kudu/common/partial_row.h:143-144 | True exactly when every column is set. |
| `PartialRow.KuduPartialRow.EncodeRowKey` | src/kudu/common/partial_row.h:124-129 | OK exactly when every key column is set, and the key is then the fold of the key columns' contents in key order. Otherwise it returns `InvalidArgument` and leaves the caller's string as it was. |
| `PartialRow.KuduPartialRow.ToEncodedRowKeyOrDie` | src/kudu/common/partial_row.h:131-133 | When the key is set, it returns the same key `EncodeRowKey` produces. Its fatal branch cannot be reached then. |

## Left out

- The key byte format (per-type encoding, order preservation, string
  escaping) is not in the header. It is the parameter `encode`, and nothing
  is proved about the order of the encoded keys.
- The byte layout of the row data and the bit packing of the two bitmaps.
  Each column has a bool per bitmap and one slot.
- FLOAT and DOUBLE values are opaque bit patterns. There is no
  floating-point reasoning.
- The schema's name-to-index hash map is the linear `FindColumn`. The rest
  of the schema class is not part of this model.
- `ToString` (line 146) is diagnostic formatting. The `schema()` accessor
  (line 148) only returns the bound schema.
- The friend classes that read `row_data_` directly for protobuf
  serialization (lines 151-153).
- The copy-disabling macro (line 195). Dafny objects have reference
  semantics already.
- When the destructor frees the row's three arrays, that is not modelled.
  Its release of owned strings is, as `DeallocateOwnedStrings`.
- The caller's duty to keep a borrowed slice valid until the row is sent
  (lines 59-60). Borrowed slices are references, and a slice whose memory is
  freed by its owner is not tracked. That owner can be the row itself:
  `SetString(c, s)` where `s` is the slice `Get` returned for the row's own
  copy in column `c` frees that copy and then stores a slice into the freed
  buffer; the invariant does not exclude a stored slice whose array is in
  `released`.
- Integer setters take values already in range (the `int8`..`int64`
  newtypes), so no truncation happens inside the row.
- `PartialRow.KuduPartialRow.Set`: requires a non-string value, because string
  values go through `SetString`/`SetStringCopy`. The typed setters
  SetBool..SetDouble and getters GetBool..GetString are each one method,
  with the value's constructor or a type tag standing for the C++ type.
- `PartialRow.KuduPartialRow.IsColumnSet`: requires the index to be in
  range. A `bool` predicate has no error channel for a bad index.
- `PartialRow.KuduPartialRow.IsNull`: requires the index to be in range. A
  `bool` predicate has no error channel for a bad index.
- `PartialRow.KuduPartialRow.DeallocateStringIfSet`: requires an in-range
  string column, as its REQUIRES comment (line 173) demands of its callers.
- `PartialRow.KuduPartialRow.IsColumnSetByName`: requires that the name
  exists. The header gives this function no error channel.
- `PartialRow.KuduPartialRow.IsNullByName`: requires that the name exists.
  The header gives this function no error channel.
- `PartialRow.KuduPartialRow.ToEncodedRowKeyOrDie`: requires that the key is
  set. A process abort is not modelled, so the fatal path is excluded by
  this precondition rather than executed.
