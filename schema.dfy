/**
 * The schema a partial row is bound to. The schema itself lives outside
 * this model; what the row relies on is captured here: the ordered column
 * list (name, type, nullability, key membership), the key columns in their
 * declared key order, and the lookup of a column by name.
 */
module Schemas {
  import opened Types

  datatype ColumnSchema = ColumnSchema(name: string, typ: ColumnType, nullable: bool, isKey: bool)

  datatype Schema = Schema(columns: seq<ColumnSchema>, keyColumns: seq<nat>) {

    /**
     * What a real schema guarantees: distinct column names; the key order
     * lists each key column exactly once; key columns are never nullable.
     */
    predicate WellFormed() {
      (forall i, j :: 0 <= i < j < |columns| ==> columns[i].name != columns[j].name)
      && (forall k :: 0 <= k < |keyColumns| ==> keyColumns[k] < |columns|)
      && (forall k, l :: 0 <= k < l < |keyColumns| ==> keyColumns[k] != keyColumns[l])
      && (forall i :: 0 <= i < |columns| ==> (columns[i].isKey <==> i in keyColumns))
      && (forall k :: 0 <= k < |keyColumns| ==> !columns[keyColumns[k]].nullable)
    }

    /** The index of the column called `name`, or -1 when there is none. */
    function FindColumn(name: string): (idx: int)
      ensures -1 <= idx < |columns|
      ensures idx == -1 <==> forall j :: 0 <= j < |columns| ==> columns[j].name != name
      ensures idx != -1 ==> columns[idx].name == name
      ensures idx != -1 ==> forall j :: 0 <= j < idx ==> columns[j].name != name
    {
      FindFrom(columns, name, 0)
    }
  }

  /** The first column at or after `from` called `name`, or -1. */
  function FindFrom(cols: seq<ColumnSchema>, name: string, from: nat): (idx: int)
    requires from <= |cols|
    decreases |cols| - from
    ensures idx == -1 || from <= idx < |cols|
    ensures idx == -1 <==> forall j :: from <= j < |cols| ==> cols[j].name != name
    ensures idx != -1 ==> cols[idx].name == name
    ensures idx != -1 ==> forall j :: from <= j < idx ==> cols[j].name != name
  {
    if from == |cols| then -1
    else if cols[from].name == name then from
    else FindFrom(cols, name, from + 1)
  }

  /** In a well-formed schema, looking up a column's name finds that column. */
  lemma FindColumnOfName(sc: Schema, i: nat)
    requires sc.WellFormed() && i < |sc.columns|
    ensures sc.FindColumn(sc.columns[i].name) == i
  {
    var idx := sc.FindColumn(sc.columns[i].name);
    assert idx != -1;
  }
}
