/**
 * A database table with a surrogate `id` and a unique natural key, and the
 * fetcher's insert-or-update on it: try the insert; when the key is taken,
 * overwrite the resident row's fields and keep its identity.
 */
module Tables {
  import opened Wrappers

  /** A stored row: its identity and its data fields. */
  datatype Row<D> = Row(id: nat, data: D)

  /** Rows indexed by natural key, and the next value of the `id` sequence. */
  datatype Table<K, D> = Table(rows: map<K, Row<D>>, nextId: nat)

  function EmptyTable<K, D>(): Table<K, D> {
    Table(map[], 1)
  }

  /** Every row sits under its own key, every id was issued, and no id is used twice. */
  ghost predicate Valid<K, D>(t: Table<K, D>, keyOf: D -> K) {
    && (forall k :: k in t.rows ==> keyOf(t.rows[k].data) == k && t.rows[k].id < t.nextId)
    && (forall k1, k2 :: k1 in t.rows && k2 in t.rows && k1 != k2 ==> t.rows[k1].id != t.rows[k2].id)
  }

  /** The identities in use. */
  function Ids<K, D>(t: Table<K, D>): set<nat> {
    set k | k in t.rows :: t.rows[k].id
  }

  /** `query(model).filter_by(**key).first()`. */
  function Lookup<K, D>(t: Table<K, D>, key: K): (r: Option<Row<D>>)
    ensures r.Some? <==> key in t.rows
    ensures r.Some? ==> r.value == t.rows[key]
  {
    if key in t.rows then Some(t.rows[key]) else None
  }

  /**
   * Insert `data` when its key is free, otherwise overwrite every field of
   * the resident row. Afterwards exactly one row carries the key, it holds
   * `data`, a resident row keeps its id, a new row gets an unused id, and no
   * other row changes.
   */
  function Upsert<K, D>(t: Table<K, D>, keyOf: D -> K, data: D): (r: (Table<K, D>, Row<D>))
    ensures var key := keyOf(data);
      && key in r.0.rows && r.0.rows[key] == r.1
      && r.1.data == data
      && r.0.rows.Keys == t.rows.Keys + {key}
      && (forall k :: k in t.rows && k != key ==> r.0.rows[k] == t.rows[k])
      && (key in t.rows ==> r.1.id == t.rows[key].id && r.0.nextId == t.nextId)
      && (key !in t.rows ==> r.1.id == t.nextId && r.0.nextId == t.nextId + 1)
    ensures Valid(t, keyOf) ==> Valid(r.0, keyOf)
    ensures Valid(t, keyOf) ==> forall k :: k in r.0.rows ==> (keyOf(r.0.rows[k].data) == keyOf(data) <==> k == keyOf(data))
    ensures Valid(t, keyOf) && keyOf(data) !in t.rows ==> r.1.id !in Ids(t)
  {
    var key := keyOf(data);
    if key in t.rows then
      var row := Row(t.rows[key].id, data);
      (Table(t.rows[key := row], t.nextId), row)
    else
      var row := Row(t.nextId, data);
      (Table(t.rows[key := row], t.nextId + 1), row)
  }

  /** Existing identities survive an upsert. */
  lemma UpsertKeepsIds<K, D>(t: Table<K, D>, keyOf: D -> K, data: D)
    ensures Ids(t) <= Ids(Upsert(t, keyOf, data).0)
  {
    var r := Upsert(t, keyOf, data).0;
    forall id | id in Ids(t)
      ensures id in Ids(r)
    {
      var k :| k in t.rows && t.rows[k].id == id;
      assert r.rows[k].id == id;
    }
  }

  /**
   * Last write wins: upserting `d1` and then `d2` under the same key leaves
   * the same table as upserting `d2` alone. In particular upserting the same
   * data twice is the same as once.
   */
  lemma UpsertLastWriteWins<K, D>(t: Table<K, D>, keyOf: D -> K, d1: D, d2: D)
    requires keyOf(d1) == keyOf(d2)
    ensures Upsert(Upsert(t, keyOf, d1).0, keyOf, d2) == Upsert(t, keyOf, d2)
  {
    var key := keyOf(d1);
    var once := Upsert(t, keyOf, d2);
    var twice := Upsert(Upsert(t, keyOf, d1).0, keyOf, d2);
    assert twice.0.rows == once.0.rows;
  }
}
