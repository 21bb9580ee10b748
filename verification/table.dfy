/**
 * A table with an AUTO_INCREMENT primary key, as the handlers use it: rows by
 * key, the next key to hand out, and the three statements the handlers issue
 * (INSERT, DELETE by key, UPDATE by key) with MySQL's `affected_rows`.
 */
module Tables {

  /** The contents of a table at one moment. */
  datatype TableState<T> = TableState(rows: map<int, T>, nextId: int)

  /** Keys are positive and all below the next key to be handed out. */
  predicate ValidState<T>(s: TableState<T>) {
    s.nextId >= 1 && forall k :: k in s.rows ==> 1 <= k < s.nextId
  }

  /** The keys of `keys` in [1, hi), largest first (`ORDER BY id DESC`). */
  function KeysBelow(keys: set<int>, hi: int): (r: seq<int>)
    ensures forall i, j :: 0 <= i < j < |r| ==> r[i] > r[j]
    ensures forall k :: k in r <==> k in keys && 1 <= k < hi
    decreases hi
  {
    if hi <= 1 then []
    else if hi - 1 in keys then
      var rest := KeysBelow(keys, hi - 1);
      assert forall j :: 0 <= j < |rest| ==> rest[j] in rest;
      [hi - 1] + rest
    else KeysBelow(keys, hi - 1)
  }

  /** Rewriting an existing row keeps the set of keys, the counter and every other row. */
  lemma RewriteFrame<T>(s0: TableState<T>, s1: TableState<T>, id: int, v: T)
    requires id in s0.rows && s1 == TableState(s0.rows[id := v], s0.nextId)
    ensures s1.rows.Keys == s0.rows.Keys && s1.nextId == s0.nextId
    ensures forall k :: k in s1.rows && k != id ==> s1.rows[k] == s0.rows[k]
  {
  }

  class Table<T(==)> {
    var rows: map<int, T>
    var nextId: int

    function State(): TableState<T>
      reads this
    {
      TableState(rows, nextId)
    }

    ghost predicate Valid()
      reads this
    {
      ValidState(State())
    }

    constructor ()
      ensures Valid() && rows == map[] && nextId == 1
    {
      rows := map[];
      nextId := 1;
    }

    /** Every key, largest first. */
    function IdsDescending(): (ids: seq<int>)
      reads this
      requires Valid()
      ensures forall i, j :: 0 <= i < j < |ids| ==> ids[i] > ids[j]
      ensures forall k :: k in ids <==> k in rows
    {
      KeysBelow(rows.Keys, nextId)
    }

    /** INSERT: the new row gets the next key, which no existing row holds. */
    method Insert(row: T) returns (id: int)
      requires Valid()
      modifies this
      ensures Valid()
      ensures id == old(nextId) && id !in old(rows)
      ensures rows == old(rows)[id := row] && nextId == old(nextId) + 1
    {
      id := nextId;
      rows := rows[id := row];
      nextId := nextId + 1;
    }

    /** DELETE ... WHERE id = ?: `affected` counts the removed rows. */
    method Delete(id: int) returns (affected: nat)
      requires Valid()
      modifies this
      ensures Valid()
      ensures rows == old(rows) - {id} && nextId == old(nextId)
      ensures affected == if id in old(rows) then 1 else 0
    {
      affected := if id in rows then 1 else 0;
      rows := rows - {id};
    }

    /**
     * UPDATE ... SET ... WHERE id = ?: the row with that key, if any, becomes
     * `assign` of itself; `affected` counts only a row whose value changed.
     */
    method Update(id: int, assign: T -> T) returns (affected: nat)
      requires Valid()
      modifies this
      ensures Valid()
      ensures rows == if id in old(rows) then old(rows)[id := assign(old(rows)[id])] else old(rows)
      ensures nextId == old(nextId)
      ensures affected == if id in old(rows) && assign(old(rows)[id]) != old(rows)[id] then 1 else 0
    {
      if id in rows {
        var updated := assign(rows[id]);
        affected := if updated != rows[id] then 1 else 0;
        rows := rows[id := updated];
      } else {
        affected := 0;
      }
    }
  }
}
