/**
 * The abstract state of a partial row and its transitions.
 *
 * Each column is in exactly one of three states: Unset (the server default
 * applies), Null (explicitly NULL) or Valued (explicitly given a value).
 * A Valued string column additionally records whether the row owns the
 * buffer its slice points into. The row class proves its methods against
 * the functions here; the lemmas state what the header promises about them.
 */
module RowSpec {
  import opened Types
  import opened Schemas

  datatype ColumnState = Unset | Null | Valued(value: Value, owned: bool)

  type RowState = seq<ColumnState>

  /** The result of a mutating operation: its status and the new state. */
  datatype Step = Step(status: Status, next: RowState)

  /** Freshly constructed row: no column specified. */
  function Initial(n: nat): (st: RowState)
    ensures |st| == n && forall i :: 0 <= i < n ==> st[i] == Unset
  {
    seq(n, _ => Unset)
  }

  /** A column state is consistent with its column's declaration. */
  predicate Fits(col: ColumnSchema, c: ColumnState) {
    match c
    case Unset => true
    case Null => col.nullable
    case Valued(v, owned) =>
      TypeOf(v) == col.typ && (owned ==> v.StringV?) && (v.StringV? ==> v.str.Valid())
  }

  predicate WellTyped(sc: Schema, st: RowState) {
    |st| == |sc.columns| && forall i :: 0 <= i < |st| ==> Fits(sc.columns[i], st[i])
  }

  //------------------------------------------------------------
  // Transitions
  //------------------------------------------------------------

  /** The templated Set<T>: the value's constructor plays the role of T. */
  function SetOp(sc: Schema, st: RowState, idx: int, v: Value, owned: bool): Step
    requires |st| == |sc.columns|
  {
    if !(0 <= idx < |st|) then Step(ColumnNotFound, st)
    else if sc.columns[idx].typ != TypeOf(v) then Step(TypeMismatch, st)
    else Step(OK, st[idx := Valued(v, owned)])
  }

  function SetNullOp(sc: Schema, st: RowState, idx: int): Step
    requires |st| == |sc.columns|
  {
    if !(0 <= idx < |st|) then Step(ColumnNotFound, st)
    else if !sc.columns[idx].nullable then Step(NotNullable, st)
    else Step(OK, st[idx := Null])
  }

  function UnsetOp(sc: Schema, st: RowState, idx: int): Step
    requires |st| == |sc.columns|
  {
    if !(0 <= idx < |st|) then Step(ColumnNotFound, st)
    else Step(OK, st[idx := Unset])
  }

  /** The status of the templated Get<T>, with `t` standing for T. */
  function GetStatus(sc: Schema, st: RowState, idx: int, t: ColumnType): Status
    requires |st| == |sc.columns|
  {
    if !(0 <= idx < |st|) then ColumnNotFound
    else if sc.columns[idx].typ != t then TypeMismatch
    else if st[idx].Unset? then NotSet
    else if st[idx].Null? then NullValue
    else OK
  }

  predicate IsSet(st: RowState, idx: nat)
    requires idx < |st|
  {
    !st[idx].Unset?
  }

  predicate IsNullAt(st: RowState, idx: nat)
    requires idx < |st|
  {
    st[idx].Null?
  }

  /** Every key column has been given a (non-NULL) value. */
  predicate KeySet(sc: Schema, st: RowState)
    requires sc.WellFormed() && |st| == |sc.columns|
  {
    forall k :: 0 <= k < |sc.keyColumns| ==> st[sc.keyColumns[k]].Valued?
  }

  predicate AllSet(st: RowState) {
    forall i :: 0 <= i < |st| ==> !st[i].Unset?
  }

  //------------------------------------------------------------
  // The string-ownership ledger
  //------------------------------------------------------------

  /** The column holds a string whose buffer the row owns. */
  predicate Owns(c: ColumnState) {
    c.Valued? && c.owned && c.value.StringV?
  }

  /** The buffers the row owns. */
  function OwnedBuffers(st: RowState): set<array<byte>> {
    set i | 0 <= i < |st| && Owns(st[i]) :: st[i].value.str.data
  }

  /** No buffer is owned by two columns. */
  predicate DistinctOwned(st: RowState) {
    forall i, j :: 0 <= i < |st| && 0 <= j < |st| && i != j && Owns(st[i]) && Owns(st[j]) ==>
      st[i].value.str.data != st[j].value.str.data
  }

  /** The buffer released when column `idx` is reset: its owned buffer, if any. */
  function ReleasedBy(st: RowState, idx: int): set<array<byte>> {
    if 0 <= idx < |st| && Owns(st[idx]) then {st[idx].value.str.data} else {}
  }

  /** The column after its owned buffer (if any) has been released; the slot keeps its bytes. */
  function Disown(c: ColumnState): ColumnState {
    if Owns(c) then Valued(c.value, false) else c
  }

  function DisownAll(st: RowState): (r: RowState)
    ensures |r| == |st| && forall i :: 0 <= i < |st| ==> r[i] == Disown(st[i])
  {
    DisownUpTo(st, |st|)
  }

  /** The state after the first `n` columns have been disowned. */
  function DisownUpTo(st: RowState, n: nat): (r: RowState)
    ensures |r| == |st|
    ensures forall i :: 0 <= i < |st| ==> r[i] == if i < n then Disown(st[i]) else st[i]
  {
    seq(|st|, i requires 0 <= i < |st| => if i < n then Disown(st[i]) else st[i])
  }

  /** The number of owned-string bits that are set. */
  function OwnedCount(st: RowState): nat {
    if st == [] then 0
    else OwnedCount(st[..|st| - 1]) + (if Owns(st[|st| - 1]) then 1 else 0)
  }

  //------------------------------------------------------------
  // Properties of the accessors
  //------------------------------------------------------------

  /** Set<T>(c, v) succeeds exactly on an existing column of type T, and then Get<T>(c) returns v. */
  lemma SetThenGet(sc: Schema, st: RowState, idx: int, v: Value, owned: bool)
    requires |st| == |sc.columns|
    ensures SetOp(sc, st, idx, v, owned).status == OK <==>
              0 <= idx < |st| && sc.columns[idx].typ == TypeOf(v)
    ensures var r := SetOp(sc, st, idx, v, owned);
            r.status == OK ==>
              GetStatus(sc, r.next, idx, TypeOf(v)) == OK && r.next[idx].value == v
              && IsSet(r.next, idx) && !IsNullAt(r.next, idx)
  {
  }

  /** A failed Set<T> leaves the row as it was; a successful one touches only its column. */
  lemma SetTouchesOnlyItsColumn(sc: Schema, st: RowState, idx: int, v: Value, owned: bool, j: nat)
    requires |st| == |sc.columns| && j < |st|
    ensures var r := SetOp(sc, st, idx, v, owned);
            |r.next| == |st| && (r.status != OK ==> r.next == st) && (j != idx ==> r.next[j] == st[j])
  {
  }

  /** Get<T> fails exactly on a type mismatch, an unset column or a NULL column (or no such column). */
  lemma GetFailsExactly(sc: Schema, st: RowState, idx: int, t: ColumnType)
    requires |st| == |sc.columns|
    ensures GetStatus(sc, st, idx, t) != OK <==>
              !(0 <= idx < |st|) || sc.columns[idx].typ != t || !IsSet(st, idx) || IsNullAt(st, idx)
    ensures GetStatus(sc, st, idx, t) == OK ==> st[idx].Valued?
    ensures GetStatus(sc, st, idx, t) == OK && WellTyped(sc, st) ==> TypeOf(st[idx].value) == t
  {
  }

  /** SetNull succeeds exactly on nullable columns and then the column is set and NULL. */
  lemma SetNullOutcome(sc: Schema, st: RowState, idx: int)
    requires |st| == |sc.columns| && 0 <= idx < |st|
    ensures var r := SetNullOp(sc, st, idx);
            (r.status == OK <==> sc.columns[idx].nullable)
            && (r.status != OK ==> r.status == NotNullable && r.next == st)
            && (r.status == OK ==>
                  IsSet(r.next, idx) && IsNullAt(r.next, idx)
                  && GetStatus(sc, r.next, idx, sc.columns[idx].typ) == NullValue)
  {
  }

  /** Unset makes the column unset (not NULL) and leaves every other column alone. */
  lemma UnsetOutcome(sc: Schema, st: RowState, idx: int, j: nat)
    requires |st| == |sc.columns| && 0 <= idx < |st| && j < |st|
    ensures var r := UnsetOp(sc, st, idx);
            r.status == OK && !IsSet(r.next, idx) && !IsNullAt(r.next, idx)
            && GetStatus(sc, r.next, idx, sc.columns[idx].typ) == NotSet
            && |r.next| == |st| && (j != idx ==> r.next[j] == st[j])
  {
  }

  /** Addressing a column by its name is the same as addressing it by its index. */
  lemma ByNameIsByIndex(sc: Schema, st: RowState, i: nat, v: Value, owned: bool, t: ColumnType)
    requires sc.WellFormed() && WellTyped(sc, st) && i < |st|
    ensures var idx := sc.FindColumn(sc.columns[i].name);
            SetOp(sc, st, idx, v, owned) == SetOp(sc, st, i, v, owned)
            && SetNullOp(sc, st, idx) == SetNullOp(sc, st, i)
            && UnsetOp(sc, st, idx) == UnsetOp(sc, st, i)
            && GetStatus(sc, st, idx, t) == GetStatus(sc, st, i, t)
  {
    FindColumnOfName(sc, i);
  }

  /** An unknown name fails every operation with ColumnNotFound and changes nothing. */
  lemma UnknownName(sc: Schema, st: RowState, name: string, v: Value, owned: bool, t: ColumnType)
    requires |st| == |sc.columns|
    requires forall j :: 0 <= j < |sc.columns| ==> sc.columns[j].name != name
    ensures var idx := sc.FindColumn(name);
            SetOp(sc, st, idx, v, owned) == Step(ColumnNotFound, st)
            && SetNullOp(sc, st, idx) == Step(ColumnNotFound, st)
            && UnsetOp(sc, st, idx) == Step(ColumnNotFound, st)
            && GetStatus(sc, st, idx, t) == ColumnNotFound
  {
  }

  //------------------------------------------------------------
  // Properties of the completeness checks
  //------------------------------------------------------------

  /** Once every column is specified, so is every key column: key columns cannot be NULL. */
  lemma AllSetImpliesKeySet(sc: Schema, st: RowState)
    requires sc.WellFormed() && WellTyped(sc, st)
    ensures AllSet(st) ==> KeySet(sc, st)
  {
    if AllSet(st) {
      forall k | 0 <= k < |sc.keyColumns|
        ensures st[sc.keyColumns[k]].Valued?
      {
        var i := sc.keyColumns[k];
        assert Fits(sc.columns[i], st[i]);
        assert !st[i].Unset?;
      }
    }
  }

  /** KeySet depends on the key columns only: an unset key column fails it whatever else is set. */
  lemma KeySetOnlyReadsKeyColumns(sc: Schema, st: RowState, st': RowState)
    requires sc.WellFormed() && |st| == |sc.columns| && |st'| == |sc.columns|
    requires forall k :: 0 <= k < |sc.keyColumns| ==> st[sc.keyColumns[k]] == st'[sc.keyColumns[k]]
    ensures KeySet(sc, st) <==> KeySet(sc, st')
  {
  }

  //------------------------------------------------------------
  // Properties of the ledger
  //------------------------------------------------------------

  lemma InOwnedBuffers(st: RowState, i: nat)
    requires i < |st| && Owns(st[i])
    ensures st[i].value.str.data in OwnedBuffers(st)
  {
  }

  /**
   * Resetting a column to a state that owns nothing (Unset, Null, a borrowed
   * string, the same string disowned) releases exactly that column's buffer
   * and keeps every buffer owned by one column only.
   */
  lemma {:induction false} ResetReleasesOwned(st: RowState, idx: nat, c: ColumnState)
    requires idx < |st| && DistinctOwned(st) && !Owns(c)
    ensures OwnedBuffers(st[idx := c]) == OwnedBuffers(st) - ReleasedBy(st, idx)
    ensures DistinctOwned(st[idx := c])
  {
    var st' := st[idx := c];
    forall b | b in OwnedBuffers(st')
      ensures b in OwnedBuffers(st) - ReleasedBy(st, idx)
    {
      var i :| 0 <= i < |st'| && Owns(st'[i]) && st'[i].value.str.data == b;
      assert i != idx;
      InOwnedBuffers(st, i);
    }
    forall b | b in OwnedBuffers(st) - ReleasedBy(st, idx)
      ensures b in OwnedBuffers(st')
    {
      var i :| 0 <= i < |st| && Owns(st[i]) && st[i].value.str.data == b;
      assert i != idx;
      InOwnedBuffers(st', i);
    }
  }

  /** Storing a freshly copied string as owned adds exactly its buffer to the owned set. */
  lemma {:induction false} AdoptBuffer(st: RowState, idx: nat, r: Slice)
    requires idx < |st| && DistinctOwned(st) && !Owns(st[idx]) && r.data !in OwnedBuffers(st)
    ensures OwnedBuffers(st[idx := Valued(StringV(r), true)]) == OwnedBuffers(st) + {r.data}
    ensures DistinctOwned(st[idx := Valued(StringV(r), true)])
  {
    var st' := st[idx := Valued(StringV(r), true)];
    forall b | b in OwnedBuffers(st')
      ensures b in OwnedBuffers(st) + {r.data}
    {
      var i :| 0 <= i < |st'| && Owns(st'[i]) && st'[i].value.str.data == b;
      if i != idx {
        InOwnedBuffers(st, i);
      }
    }
    forall b | b in OwnedBuffers(st) + {r.data}
      ensures b in OwnedBuffers(st')
    {
      if b == r.data {
        InOwnedBuffers(st', idx);
      } else {
        var i :| 0 <= i < |st| && Owns(st[i]) && st[i].value.str.data == b;
        assert i != idx;
        InOwnedBuffers(st', i);
      }
    }
    forall i, j | 0 <= i < |st'| && 0 <= j < |st'| && i != j && Owns(st'[i]) && Owns(st'[j])
      ensures st'[i].value.str.data != st'[j].value.str.data
    {
      if i == idx {
        InOwnedBuffers(st, j);
      } else if j == idx {
        InOwnedBuffers(st, i);
      }
    }
  }

  /** After every column has been disowned the row owns nothing. */
  lemma DisownAllOwnsNothing(st: RowState)
    ensures OwnedBuffers(DisownAll(st)) == {}
    ensures OwnedCount(DisownAll(st)) == 0
  {
    var d := DisownAll(st);
    assert forall i :: 0 <= i < |d| ==> !Owns(d[i]);
    assert OwnedBuffers(d) == {};
    NoOwnerCountsZero(d);
  }

  /**
   * Releasing every owned buffer once: when all columns are disowned and no
   * buffer was lost or invented, every previously live buffer has been
   * released, and as many of them as there were owned bits.
   */
  lemma ReleaseAllAccounts(st: RowState, live: set<array<byte>>, released: set<array<byte>>,
                           live': set<array<byte>>, released': set<array<byte>>)
    requires DistinctOwned(st) && live == OwnedBuffers(st) && live !! released
    requires live' == OwnedBuffers(DisownAll(st)) && released' + live' == released + live
    ensures live' == {} && released' == released + live
    ensures |released'| == |released| + OwnedCount(st)
  {
    DisownAllOwnsNothing(st);
    OwnedBuffersCount(st);
  }

  lemma {:induction false} NoOwnerCountsZero(st: RowState)
    requires forall i :: 0 <= i < |st| ==> !Owns(st[i])
    ensures OwnedCount(st) == 0
  {
    if st != [] {
      NoOwnerCountsZero(st[..|st| - 1]);
    }
  }

  /** The ghost count of live owned buffers equals the number of owned bits. */
  lemma {:induction false} OwnedBuffersCount(st: RowState)
    requires DistinctOwned(st)
    ensures |OwnedBuffers(st)| == OwnedCount(st)
  {
    if st == [] {
      assert OwnedBuffers(st) == {};
    } else {
      var n := |st| - 1;
      var pre := st[..n];
      assert DistinctOwned(pre) by {
        forall i, j | 0 <= i < |pre| && 0 <= j < |pre| && i != j && Owns(pre[i]) && Owns(pre[j])
          ensures pre[i].value.str.data != pre[j].value.str.data
        {
          assert pre[i] == st[i] && pre[j] == st[j];
        }
      }
      OwnedBuffersCount(pre);
      var last := if Owns(st[n]) then {st[n].value.str.data} else {};
      assert OwnedBuffers(st) == OwnedBuffers(pre) + last by {
        forall b | b in OwnedBuffers(st)
          ensures b in OwnedBuffers(pre) + last
        {
          var i :| 0 <= i < |st| && Owns(st[i]) && st[i].value.str.data == b;
          if i < n {
            assert pre[i] == st[i];
            InOwnedBuffers(pre, i);
          }
        }
        forall b | b in OwnedBuffers(pre) + last
          ensures b in OwnedBuffers(st)
        {
          if b in OwnedBuffers(pre) {
            var i :| 0 <= i < |pre| && Owns(pre[i]) && pre[i].value.str.data == b;
            assert pre[i] == st[i];
            InOwnedBuffers(st, i);
          } else {
            InOwnedBuffers(st, n);
          }
        }
      }
      if Owns(st[n]) {
        forall i | 0 <= i < |pre| && Owns(pre[i])
          ensures pre[i].value.str.data != st[n].value.str.data
        {
          assert pre[i] == st[i];
        }
        assert st[n].value.str.data !in OwnedBuffers(pre);
      }
    }
  }
}
