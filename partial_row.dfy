/**
 * KuduPartialRow: a row bound to a schema in which any subset of the
 * columns may be given a value. Its state is a bitmap of the columns that
 * have been specified, a bitmap of the string columns whose bytes the row
 * owns, and one slot per column standing in for the contiguous row data.
 *
 * The ghost field `cols` is the abstract state (see RowSpec) and `live`,
 * `released` are the string-ownership ledger: `live` holds the buffers the
 * row has allocated and not yet freed, `released` those it has freed.
 */
module PartialRow {
  import opened Types
  import opened Schemas
  import RowSpec
  import KeyEncoding

  /** One column's part of the row data: undefined bytes, the NULL indicator, or a value. */
  datatype Slot = Undefined | NullCell | Cell(value: Value)

  /** The bitmap bits and the slot of one column represent its abstract state. */
  predicate Represents(isSet: bool, owned: bool, slot: Slot, c: RowSpec.ColumnState) {
    match c
    case Unset => !isSet && !owned
    case Null => isSet && !owned && slot == NullCell
    case Valued(v, o) => isSet && owned == o && slot == Cell(v)
  }

  /** The two bitmaps and the row data represent the abstract state column by column. */
  predicate RepresentsAll(bits: seq<bool>, owned: seq<bool>, slots: seq<Slot>, st: RowSpec.RowState) {
    |bits| == |st| && |owned| == |st| && |slots| == |st|
    && forall i :: 0 <= i < |st| ==> Represents(bits[i], owned[i], slots[i], st[i])
  }

  lemma RepresentsUpdate(bits: seq<bool>, owned: seq<bool>, slots: seq<Slot>, st: RowSpec.RowState,
                         i: nat, b: bool, o: bool, slot: Slot, c: RowSpec.ColumnState)
    requires RepresentsAll(bits, owned, slots, st) && i < |st| && Represents(b, o, slot, c)
    ensures RepresentsAll(bits[i := b], owned[i := o], slots[i := slot], st[i := c])
  {
  }

  /**
   * The representation invariant on values: the abstract state fits the
   * schema and is represented by the bitmaps and the row data, no buffer is
   * owned by two columns, every owned buffer is live, and nothing live has
   * been released.
   */
  predicate Consistent(sc: Schema, bits: seq<bool>, owned: seq<bool>, slots: seq<Slot>,
                       st: RowSpec.RowState, live: set<array<byte>>, released: set<array<byte>>)
  {
    sc.WellFormed() && RowSpec.WellTyped(sc, st) && RepresentsAll(bits, owned, slots, st)
    && RowSpec.DistinctOwned(st) && RowSpec.OwnedBuffers(st) <= live && live !! released
  }

  /**
   * Writing a column that owns nothing: the new state must fit the column
   * and, if it owns a buffer, that buffer must be live and owned by no other
   * column. The owned set then grows by exactly the new column's buffer.
   */
  lemma StoreColumn(sc: Schema, bits: seq<bool>, owned: seq<bool>, slots: seq<Slot>, st: RowSpec.RowState,
                    live: set<array<byte>>, released: set<array<byte>>,
                    i: nat, b: bool, o: bool, slot: Slot, c: RowSpec.ColumnState)
    requires Consistent(sc, bits, owned, slots, st, live, released) && i < |st|
    requires !RowSpec.Owns(st[i]) && Represents(b, o, slot, c) && RowSpec.Fits(sc.columns[i], c)
    requires RowSpec.Owns(c) ==> c.value.str.data in live && c.value.str.data !in RowSpec.OwnedBuffers(st)
    ensures Consistent(sc, bits[i := b], owned[i := o], slots[i := slot], st[i := c], live, released)
    ensures RowSpec.OwnedBuffers(st[i := c]) == RowSpec.OwnedBuffers(st) + RowSpec.ReleasedBy(st[i := c], i)
  {
    RepresentsUpdate(bits, owned, slots, st, i, b, o, slot, c);
    if RowSpec.Owns(c) {
      assert c == RowSpec.Valued(StringV(c.value.str), true);
      RowSpec.AdoptBuffer(st, i, c.value.str);
    } else {
      RowSpec.ResetReleasesOwned(st, i, c);
    }
  }

  /**
   * Freeing the buffer of a column whose owned bit is set: that buffer is
   * live and unreleased, and moving it from `live` to `released` while
   * clearing the bit and disowning the column keeps the row consistent.
   */
  lemma ReleaseColumn(sc: Schema, bits: seq<bool>, owned: seq<bool>, slots: seq<Slot>, st: RowSpec.RowState,
                      live: set<array<byte>>, released: set<array<byte>>, i: nat)
    requires Consistent(sc, bits, owned, slots, st, live, released) && i < |st| && owned[i]
    ensures RowSpec.Owns(st[i])
    ensures var buf := st[i].value.str.data;
            var st' := st[i := RowSpec.Disown(st[i])];
            buf in live && buf !in released && RowSpec.ReleasedBy(st, i) == {buf}
            && Consistent(sc, bits, owned[i := false], slots, st', live - {buf}, released + {buf})
            && RowSpec.OwnedBuffers(st') == RowSpec.OwnedBuffers(st) - {buf}
  {
    assert Represents(bits[i], owned[i], slots[i], st[i]);
    assert RowSpec.Fits(sc.columns[i], st[i]);
    RowSpec.InOwnedBuffers(st, i);
    RepresentsUpdate(bits, owned, slots, st, i, bits[i], false, slots[i], RowSpec.Disown(st[i]));
    assert bits[i := bits[i]] == bits && slots[i := slots[i]] == slots;
    RowSpec.ResetReleasesOwned(st, i, RowSpec.Disown(st[i]));
  }

  /** `new uint8_t[size]` followed by `memcpy`: a fresh buffer holding the slice's bytes. */
  method CopyOf(val: Slice) returns (copy: Slice)
    requires val.Valid()
    ensures fresh(copy.data) && copy.Valid() && copy.offset == 0
    ensures copy.Bytes() == val.Bytes()
  {
    var relocated := new byte[val.size];
    forall k | 0 <= k < val.size {
      relocated[k] := val.data[val.offset + k];
    }
    copy := Slice(relocated, 0, val.size);
  }

  class KuduPartialRow {
    const schema: Schema
    const isset: array<bool>
    const ownedStrings: array<bool>
    const rowData: array<Slot>

    ghost var cols: RowSpec.RowState
    ghost var live: set<array<byte>>
    ghost var released: set<array<byte>>

    /**
     * The representation invariant, allowing buffers that have been
     * allocated but are not yet owned by a column (a copy in flight).
     */
    ghost predicate Inv()
      reads this, isset, ownedStrings, rowData
    {
      isset.Length == |schema.columns| && ownedStrings.Length == |schema.columns|
      && rowData.Length == |schema.columns| && isset != ownedStrings
      && Consistent(schema, isset[..], ownedStrings[..], rowData[..], cols, live, released)
    }

    /** The object invariant: every live buffer is owned by exactly one column. */
    ghost predicate Valid()
      reads this, isset, ownedStrings, rowData
    {
      Inv() && live == RowSpec.OwnedBuffers(cols)
    }

    /** The arrays the string columns' slices point into. */
    ghost function StringBuffers(): set<array<byte>>
      reads this
    {
      set i | 0 <= i < |cols| && cols[i].Valued? && cols[i].value.StringV? :: cols[i].value.str.data
    }

    /** The key columns' values in declared key order, string payloads read through their slices. */
    ghost function KeyDatums(): (parts: seq<Datum>)
      reads this, StringBuffers()
      requires schema.WellFormed() && RowSpec.WellTyped(schema, cols) && RowSpec.KeySet(schema, cols)
      ensures |parts| == |schema.keyColumns|
      ensures forall k :: 0 <= k < |parts| ==> parts[k] == Content(cols[schema.keyColumns[k]].value)
    {
      KeyPrefix(|schema.keyColumns|)
    }

    /** The first `n` key columns' values. */
    ghost function KeyPrefix(n: nat): (parts: seq<Datum>)
      reads this, StringBuffers()
      requires schema.WellFormed() && RowSpec.WellTyped(schema, cols) && RowSpec.KeySet(schema, cols)
      requires n <= |schema.keyColumns|
      ensures |parts| == n
      ensures forall k :: 0 <= k < n ==> parts[k] == Content(cols[schema.keyColumns[k]].value)
    {
      if n == 0 then []
      else
        var i := schema.keyColumns[n - 1];
        assert RowSpec.Fits(schema.columns[i], cols[i]);
        KeyPrefix(n - 1) + [Content(cols[i].value)]
    }

    constructor (schema: Schema)
      requires schema.WellFormed()
      ensures Valid() && this.schema == schema
      ensures cols == RowSpec.Initial(|schema.columns|)
      ensures live == {} && released == {}
      ensures fresh(isset) && fresh(ownedStrings) && fresh(rowData)
    {
      this.schema := schema;
      var n := |schema.columns|;
      isset := new bool[n](_ => false);
      ownedStrings := new bool[n](_ => false);
      rowData := new Slot[n](_ => Undefined);
      cols := RowSpec.Initial(n);
      live, released := {}, {};
    }

    //------------------------------------------------------------
    // The ledger
    //------------------------------------------------------------

    /** `delete[]` of an owned buffer: only a live buffer may be released, and only once. */
    ghost method Release(buf: array<byte>)
      requires buf in live && buf !in released
      modifies this
      ensures live == old(live) - {buf} && released == old(released) + {buf}
      ensures cols == old(cols)
    {
      live := live - {buf};
      released := released + {buf};
    }

    /**
     * If column `colIdx` holds a string the row owns, free it and clear the
     * owned bit. The isset bitmap and the row data are not touched.
     */
    method DeallocateStringIfSet(colIdx: int)
      requires Inv()
      requires 0 <= colIdx < |schema.columns| && schema.columns[colIdx].typ == STRING
      modifies this, ownedStrings
      ensures Inv()
      ensures cols == old(cols)[colIdx := RowSpec.Disown(old(cols)[colIdx])]
      ensures !ownedStrings[colIdx]
      ensures live == old(live) - RowSpec.ReleasedBy(old(cols), colIdx)
      ensures released == old(released) + RowSpec.ReleasedBy(old(cols), colIdx)
      ensures RowSpec.OwnedBuffers(cols) == old(RowSpec.OwnedBuffers(cols)) - RowSpec.ReleasedBy(old(cols), colIdx)
      ensures live + released == old(live + released)
      ensures old(Valid()) ==> Valid()
      ensures unchanged(isset) && unchanged(rowData)
    {
      if ownedStrings[colIdx] {
        ghost var own := ownedStrings[..];
        ReleaseColumn(schema, isset[..], own, rowData[..], cols, live, released, colIdx);
        var buf := rowData[colIdx].value.str.data;
        Release(buf);
        ownedStrings[colIdx] := false;
        assert ownedStrings[..] == own[colIdx := false];
        cols := cols[colIdx := RowSpec.Disown(cols[colIdx])];
      } else {
        assert Represents(isset[colIdx], ownedStrings[colIdx], rowData[colIdx], cols[colIdx]);
      }
    }

    /** Free every string the row owns (the body of the destructor). */
    method DeallocateOwnedStrings()
      requires Valid()
      modifies this, ownedStrings
      ensures Valid()
      ensures cols == RowSpec.DisownAll(old(cols))
      ensures live == {}
      ensures released == old(released) + old(live)
      ensures |released| == |old(released)| + RowSpec.OwnedCount(old(cols))
      ensures forall i :: 0 <= i < ownedStrings.Length ==> !ownedStrings[i]
      ensures unchanged(isset) && unchanged(rowData)
    {
      var i := 0;
      while i < rowData.Length
        invariant 0 <= i <= rowData.Length
        invariant Valid()
        invariant cols == RowSpec.DisownUpTo(old(cols), i)
        invariant released + live == old(released) + old(live)
        invariant unchanged(isset) && unchanged(rowData)
      {
        if schema.columns[i].typ == STRING {
          DeallocateStringIfSet(i);
        } else {
          assert RowSpec.Fits(schema.columns[i], cols[i]);
          assert RowSpec.Disown(cols[i]) == cols[i];
        }
        assert cols == RowSpec.DisownUpTo(old(cols), i + 1);
        i := i + 1;
      }
      assert cols == RowSpec.DisownAll(old(cols));
      RowSpec.ReleaseAllAccounts(old(cols), old(live), old(released), live, released);
    }

    //------------------------------------------------------------
    // Setters
    //------------------------------------------------------------

    /**
     * The templated Set<T>(col_idx, val, owned). `owned` is true only for a
     * buffer the row has just allocated, which is live but owned by no column.
     */
    method SetCell(colIdx: int, v: Value, owned: bool) returns (s: Status)
      requires Inv()
      requires v.StringV? ==> v.str.Valid()
      requires owned ==> v.StringV? && v.str.data !in RowSpec.OwnedBuffers(cols)
                         && live == RowSpec.OwnedBuffers(cols) + {v.str.data}
      requires !owned ==> live == RowSpec.OwnedBuffers(cols)
      modifies this, isset, ownedStrings, rowData
      ensures var r := RowSpec.SetOp(schema, old(cols), colIdx, v, owned);
              s == r.status && cols == r.next
      ensures s == OK ==> Valid()
      ensures s == OK ==> live == old(live) - RowSpec.ReleasedBy(old(cols), colIdx)
      ensures s == OK ==> released == old(released) + RowSpec.ReleasedBy(old(cols), colIdx)
      ensures s != OK ==> Inv() && unchanged(this) && unchanged(isset)
                          && unchanged(ownedStrings) && unchanged(rowData)
    {
      if !(0 <= colIdx < rowData.Length) {
        return ColumnNotFound;
      }
      if schema.columns[colIdx].typ != TypeOf(v) {
        return TypeMismatch;
      }
      if schema.columns[colIdx].typ == STRING {
        DeallocateStringIfSet(colIdx);
      } else {
        assert RowSpec.Fits(schema.columns[colIdx], cols[colIdx]);
        assert Represents(isset[colIdx], ownedStrings[colIdx], rowData[colIdx], cols[colIdx]);
      }
      StoreValue(colIdx, v, owned);
      s := OK;
    }

    /**
     * The second half of SetCell, once the column has been checked and its
     * previous string (if any) freed: mark the column set, store the value
     * and, for a copy, mark the buffer as owned.
     */
    method StoreValue(colIdx: int, v: Value, owned: bool)
      requires Inv() && 0 <= colIdx < |schema.columns| && schema.columns[colIdx].typ == TypeOf(v)
      requires !ownedStrings[colIdx] && !RowSpec.Owns(cols[colIdx])
      requires v.StringV? ==> v.str.Valid()
      requires owned ==> v.StringV? && v.str.data in live && v.str.data !in RowSpec.OwnedBuffers(cols)
      modifies this, isset, ownedStrings, rowData
      ensures Inv()
      ensures cols == old(cols)[colIdx := RowSpec.Valued(v, owned)]
      ensures RowSpec.OwnedBuffers(cols) == old(RowSpec.OwnedBuffers(cols)) + RowSpec.ReleasedBy(cols, colIdx)
      ensures live == old(live) && released == old(released)
    {
      ghost var bits, own, slots := isset[..], ownedStrings[..], rowData[..];
      isset[colIdx] := true;
      rowData[colIdx] := Cell(v);
      if owned {
        ownedStrings[colIdx] := true;
      }
      assert isset[..] == bits[colIdx := true];
      assert rowData[..] == slots[colIdx := Cell(v)];
      assert ownedStrings[..] == own[colIdx := owned];
      StoreColumn(schema, bits, own, slots, cols, live, released,
                  colIdx, true, owned, Cell(v), RowSpec.Valued(v, owned));
      cols := cols[colIdx := RowSpec.Valued(v, owned)];
    }

    /** SetBool ... SetDouble by column index: `v`'s constructor is the setter's type. */
    method Set(colIdx: int, v: Value) returns (s: Status)
      requires Valid() && !v.StringV?
      modifies this, isset, ownedStrings, rowData
      ensures Valid()
      ensures var r := RowSpec.SetOp(schema, old(cols), colIdx, v, false);
              s == r.status && cols == r.next
      ensures live == old(live) && released == old(released)
      ensures s != OK ==> unchanged(isset) && unchanged(ownedStrings) && unchanged(rowData)
    {
      s := SetCell(colIdx, v, false);
    }

    /** SetString by index: stores the caller's slice itself; the row does not own it. */
    method SetString(colIdx: int, val: Slice) returns (s: Status)
      requires Valid() && val.Valid()
      modifies this, isset, ownedStrings, rowData
      ensures Valid()
      ensures var r := RowSpec.SetOp(schema, old(cols), colIdx, StringV(val), false);
              s == r.status && cols == r.next
      ensures s == OK ==> released == old(released) + RowSpec.ReleasedBy(old(cols), colIdx)
      ensures s != OK ==> live == old(live) && released == old(released)
                          && unchanged(isset) && unchanged(ownedStrings) && unchanged(rowData)
    {
      s := SetCell(colIdx, StringV(val), false);
    }

    /**
     * SetStringCopy by index: copies the bytes of `val` into a buffer the row
     * allocates and owns; if the set fails, the copy is freed again.
     */
    method SetStringCopy(colIdx: int, val: Slice) returns (s: Status)
      requires Valid() && val.Valid()
      modifies this, isset, ownedStrings, rowData
      ensures Valid()
      ensures s == RowSpec.SetOp(schema, old(cols), colIdx, StringV(val), true).status
      ensures s == OK ==>
                0 <= colIdx < |cols| && RowSpec.Owns(cols[colIdx])
                && cols == old(cols)[colIdx := cols[colIdx]]
                && var copy := cols[colIdx].value.str;
                   fresh(copy.data) && copy.Valid() && copy.Bytes() == old(val.Bytes())
                   && live == old(live) - RowSpec.ReleasedBy(old(cols), colIdx) + {copy.data}
                   && released == old(released) + RowSpec.ReleasedBy(old(cols), colIdx)
      ensures s != OK ==>
                cols == old(cols) && live == old(live)
                && old(released) < released && |released| == |old(released)| + 1
                && fresh(released - old(released))
    {
      var copy := CopyOf(val);
      var relocated := copy.data;
      assert relocated !in live && relocated !in released;
      live := live + {relocated};
      s := SetCell(colIdx, StringV(copy), true);
      if s != OK {
        Release(relocated);
      } else {
        assert relocated !in RowSpec.ReleasedBy(old(cols), colIdx);
      }
    }

    /** SetNull by index: succeeds only on a nullable column; an explicit NULL counts as set. */
    method SetNull(colIdx: int) returns (s: Status)
      requires Valid()
      modifies this, isset, ownedStrings, rowData
      ensures Valid()
      ensures var r := RowSpec.SetNullOp(schema, old(cols), colIdx);
              s == r.status && cols == r.next
      ensures s == OK ==> released == old(released) + RowSpec.ReleasedBy(old(cols), colIdx)
      ensures s != OK ==> live == old(live) && released == old(released)
                          && unchanged(isset) && unchanged(ownedStrings) && unchanged(rowData)
    {
      if !(0 <= colIdx < rowData.Length) {
        return ColumnNotFound;
      }
      if !schema.columns[colIdx].nullable {
        return NotNullable;
      }
      if schema.columns[colIdx].typ == STRING {
        DeallocateStringIfSet(colIdx);
      } else {
        assert RowSpec.Fits(schema.columns[colIdx], cols[colIdx]);
        assert Represents(isset[colIdx], ownedStrings[colIdx], rowData[colIdx], cols[colIdx]);
      }
      ghost var bits, own, slots := isset[..], ownedStrings[..], rowData[..];
      assert !own[colIdx] && !RowSpec.Owns(cols[colIdx]);
      rowData[colIdx] := NullCell;
      isset[colIdx] := true;
      assert isset[..] == bits[colIdx := true];
      assert rowData[..] == slots[colIdx := NullCell];
      assert ownedStrings[..] == own[colIdx := false];
      StoreColumn(schema, bits, own, slots, cols, live, released,
                  colIdx, true, false, NullCell, RowSpec.Null);
      cols := cols[colIdx := RowSpec.Null];
      s := OK;
    }

    /** Unset by index: the column reverts to the server-side default (not NULL). */
    method Unset(colIdx: int) returns (s: Status)
      requires Valid()
      modifies this, isset, ownedStrings, rowData
      ensures Valid()
      ensures var r := RowSpec.UnsetOp(schema, old(cols), colIdx);
              s == r.status && cols == r.next
      ensures s == OK ==> released == old(released) + RowSpec.ReleasedBy(old(cols), colIdx)
      ensures s != OK ==> live == old(live) && released == old(released)
      ensures unchanged(rowData)
    {
      if !(0 <= colIdx < rowData.Length) {
        return ColumnNotFound;
      }
      if schema.columns[colIdx].typ == STRING {
        DeallocateStringIfSet(colIdx);
      } else {
        assert RowSpec.Fits(schema.columns[colIdx], cols[colIdx]);
        assert Represents(isset[colIdx], ownedStrings[colIdx], rowData[colIdx], cols[colIdx]);
      }
      ghost var bits, own, slots := isset[..], ownedStrings[..], rowData[..];
      assert !own[colIdx] && !RowSpec.Owns(cols[colIdx]);
      isset[colIdx] := false;
      assert isset[..] == bits[colIdx := false];
      assert rowData[..] == slots[colIdx := slots[colIdx]];
      assert ownedStrings[..] == own[colIdx := false];
      StoreColumn(schema, bits, own, slots, cols, live, released,
                  colIdx, false, false, slots[colIdx], RowSpec.Unset);
      cols := cols[colIdx := RowSpec.Unset];
      s := OK;
    }

    //------------------------------------------------------------
    // Setters by column name: the lookup, then the same as by index
    //------------------------------------------------------------

    method SetByName(colName: string, v: Value) returns (s: Status)
      requires Valid() && !v.StringV?
      modifies this, isset, ownedStrings, rowData
      ensures Valid()
      ensures var r := RowSpec.SetOp(schema, old(cols), schema.FindColumn(colName), v, false);
              s == r.status && cols == r.next
      ensures live == old(live) && released == old(released)
    {
      var colIdx := schema.FindColumn(colName);
      if colIdx == -1 {
        return ColumnNotFound;
      }
      s := Set(colIdx, v);
    }

    method SetStringByName(colName: string, val: Slice) returns (s: Status)
      requires Valid() && val.Valid()
      modifies this, isset, ownedStrings, rowData
      ensures Valid()
      ensures var r := RowSpec.SetOp(schema, old(cols), schema.FindColumn(colName), StringV(val), false);
              s == r.status && cols == r.next
      ensures s == OK ==>
                released == old(released) + RowSpec.ReleasedBy(old(cols), schema.FindColumn(colName))
      ensures s != OK ==> live == old(live) && released == old(released)
    {
      var colIdx := schema.FindColumn(colName);
      if colIdx == -1 {
        return ColumnNotFound;
      }
      s := SetString(colIdx, val);
    }

    method SetStringCopyByName(colName: string, val: Slice) returns (s: Status)
      requires Valid() && val.Valid()
      modifies this, isset, ownedStrings, rowData
      ensures Valid()
      ensures var colIdx := schema.FindColumn(colName);
              s == RowSpec.SetOp(schema, old(cols), colIdx, StringV(val), true).status
              && (s == OK ==>
                    0 <= colIdx < |cols| && RowSpec.Owns(cols[colIdx])
                    && cols == old(cols)[colIdx := cols[colIdx]]
                    && var copy := cols[colIdx].value.str;
                       fresh(copy.data) && copy.Valid() && copy.Bytes() == old(val.Bytes())
                       && released == old(released) + RowSpec.ReleasedBy(old(cols), colIdx))
      ensures s != OK ==> cols == old(cols) && live == old(live)
      ensures schema.FindColumn(colName) == -1 ==> released == old(released)
    {
      var colIdx := schema.FindColumn(colName);
      if colIdx == -1 {
        return ColumnNotFound;
      }
      s := SetStringCopy(colIdx, val);
    }

    method SetNullByName(colName: string) returns (s: Status)
      requires Valid()
      modifies this, isset, ownedStrings, rowData
      ensures Valid()
      ensures var r := RowSpec.SetNullOp(schema, old(cols), schema.FindColumn(colName));
              s == r.status && cols == r.next
      ensures s == OK ==>
                released == old(released) + RowSpec.ReleasedBy(old(cols), schema.FindColumn(colName))
      ensures s != OK ==> live == old(live) && released == old(released)
    {
      var colIdx := schema.FindColumn(colName);
      if colIdx == -1 {
        return ColumnNotFound;
      }
      s := SetNull(colIdx);
    }

    method UnsetByName(colName: string) returns (s: Status)
      requires Valid()
      modifies this, isset, ownedStrings, rowData
      ensures Valid()
      ensures var r := RowSpec.UnsetOp(schema, old(cols), schema.FindColumn(colName));
              s == r.status && cols == r.next
      ensures s == OK ==>
                released == old(released) + RowSpec.ReleasedBy(old(cols), schema.FindColumn(colName))
      ensures s != OK ==> live == old(live) && released == old(released)
    {
      var colIdx := schema.FindColumn(colName);
      if colIdx == -1 {
        return ColumnNotFound;
      }
      s := Unset(colIdx);
    }

    //------------------------------------------------------------
    // Getters
    //------------------------------------------------------------

    /** True iff the column has been specified (a value or an explicit NULL). */
    function IsColumnSet(colIdx: int): (b: bool)
      reads this, isset, ownedStrings, rowData
      requires Valid() && 0 <= colIdx < |schema.columns|
      ensures b <==> RowSpec.IsSet(cols, colIdx)
    {
      isset[colIdx]
    }

    function IsColumnSetByName(colName: string): (b: bool)
      reads this, isset, ownedStrings, rowData
      requires Valid() && schema.FindColumn(colName) != -1
      ensures b <==> RowSpec.IsSet(cols, schema.FindColumn(colName))
    {
      IsColumnSet(schema.FindColumn(colName))
    }

    /** True iff the column has been explicitly set to NULL. */
    function IsNull(colIdx: int): (b: bool)
      reads this, isset, ownedStrings, rowData
      requires Valid() && 0 <= colIdx < |schema.columns|
      ensures b <==> RowSpec.IsNullAt(cols, colIdx)
      ensures b ==> IsColumnSet(colIdx) && schema.columns[colIdx].nullable
    {
      schema.columns[colIdx].nullable && isset[colIdx] && rowData[colIdx] == NullCell
    }

    function IsNullByName(colName: string): (b: bool)
      reads this, isset, ownedStrings, rowData
      requires Valid() && schema.FindColumn(colName) != -1
      ensures b <==> RowSpec.IsNullAt(cols, schema.FindColumn(colName))
    {
      IsNull(schema.FindColumn(colName))
    }

    /**
     * GetBool ... GetString by index, `t` being the getter's type. `val` is
     * what the caller's output variable held; on failure it is returned as
     * it was. A string comes back as the stored slice, not a copy.
     */
    method Get(colIdx: int, t: ColumnType, val: Value) returns (s: Status, out: Value)
      requires Valid()
      ensures s == RowSpec.GetStatus(schema, cols, colIdx, t)
      ensures s == OK ==> cols[colIdx].Valued? && out == cols[colIdx].value && TypeOf(out) == t
      ensures s != OK ==> out == val
    {
      out := val;
      if !(0 <= colIdx < rowData.Length) {
        return ColumnNotFound, out;
      }
      if schema.columns[colIdx].typ != t {
        return TypeMismatch, out;
      }
      if !IsColumnSet(colIdx) {
        return NotSet, out;
      }
      if schema.columns[colIdx].nullable && IsNull(colIdx) {
        return NullValue, out;
      }
      assert RowSpec.Fits(schema.columns[colIdx], cols[colIdx]);
      out := rowData[colIdx].value;
      s := OK;
    }

    method GetByName(colName: string, t: ColumnType, val: Value) returns (s: Status, out: Value)
      requires Valid()
      ensures s == RowSpec.GetStatus(schema, cols, schema.FindColumn(colName), t)
      ensures s == OK ==> var i := schema.FindColumn(colName);
                          cols[i].Valued? && out == cols[i].value && TypeOf(out) == t
      ensures s != OK ==> out == val
    {
      var colIdx := schema.FindColumn(colName);
      if colIdx == -1 {
        return ColumnNotFound, val;
      }
      s, out := Get(colIdx, t, val);
    }

    //------------------------------------------------------------
    // Completeness checks and key encoding
    //------------------------------------------------------------

    /** True iff every key column has been given a value. */
    method IsKeySet() returns (b: bool)
      requires Valid()
      ensures b <==> RowSpec.KeySet(schema, cols)
    {
      var keys := schema.keyColumns;
      var k := 0;
      while k < |keys|
        invariant 0 <= k <= |keys|
        invariant forall j :: 0 <= j < k ==> cols[keys[j]].Valued?
      {
        assert RowSpec.Fits(schema.columns[keys[k]], cols[keys[k]]);
        if !isset[keys[k]] {
          return false;
        }
        k := k + 1;
      }
      return true;
    }

    /** True iff every column has been specified. */
    method AllColumnsSet() returns (b: bool)
      requires Valid()
      ensures b <==> RowSpec.AllSet(cols)
    {
      var i := 0;
      while i < isset.Length
        invariant 0 <= i <= isset.Length
        invariant forall j :: 0 <= j < i ==> !cols[j].Unset?
      {
        if !isset[i] {
          return false;
        }
        i := i + 1;
      }
      return true;
    }

    /**
     * Encode the row key into the caller's string. Fails with
     * InvalidArgument, leaving the caller's string as it was, unless every
     * key column is set.
     */
    method EncodeRowKey(encode: KeyEncoding.ComponentEncoder, encodedKey: seq<byte>)
      returns (s: Status, key: seq<byte>)
      requires Valid()
      ensures s == OK <==> RowSpec.KeySet(schema, cols)
      ensures s != OK ==> s == InvalidArgument && key == encodedKey
      ensures s == OK ==> key == KeyEncoding.EncodeKey(encode, KeyDatums())
    {
      var keySet := IsKeySet();
      if !keySet {
        return InvalidArgument, encodedKey;
      }
      var keys := schema.keyColumns;
      ghost var parts := KeyDatums();
      key := [];
      var k := 0;
      while k < |keys|
        invariant 0 <= k <= |keys|
        invariant key == KeyEncoding.EncodePrefix(encode, parts, k)
      {
        assert RowSpec.Fits(schema.columns[keys[k]], cols[keys[k]]);
        var cell := rowData[keys[k]];
        assert Content(cell.value) == parts[k];
        key := key + encode(Content(cell.value), k == |keys| - 1);
        k := k + 1;
      }
      s := OK;
    }

    /** As EncodeRowKey, for callers that have made sure every key column is set. */
    method ToEncodedRowKeyOrDie(encode: KeyEncoding.ComponentEncoder) returns (key: seq<byte>)
      requires Valid() && RowSpec.KeySet(schema, cols)
      ensures key == KeyEncoding.EncodeKey(encode, KeyDatums())
    {
      var s;
      s, key := EncodeRowKey(encode, []);
      if s != OK {
        // The fatal error: unreachable, since the key is set.
        assert false;
      }
    }
  }
}
