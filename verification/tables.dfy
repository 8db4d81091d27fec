/** One relational table of the content store: rows keyed by primary key,
    together with the value the table's id sequence hands out next. */
module Tables {
  import opened Wrappers
  import opened Seqs

  /** Primary keys as the store assigns them. */
  type Id = nat

  datatype RawTable<T> = RawTable(rows: map<Id, T>, next: Id)

  /** Every stored key was handed out earlier by the sequence, so `next` is unused. */
  predicate KeysBelowNext<T>(t: RawTable<T>) {
    forall k :: k in t.rows ==> k < t.next
  }

  type Table<T> = t: RawTable<T> | KeysBelowNext(t) witness RawTable(map[], 0)

  /** Lookup by an id coming from a request body, which may be any integer. */
  function Get<T>(t: Table<T>, id: int): (r: Option<T>)
    ensures r.Some? <==> 0 <= id && id as Id in t.rows
    ensures r.Some? ==> r.value == t.rows[id as Id]
  {
    if 0 <= id && id as Id in t.rows then Some(t.rows[id as Id]) else None
  }

  /** Adds `v` under a freshly allocated key; returns the key and the new table. */
  function Insert<T>(t: Table<T>, v: T): (r: (Id, Table<T>))
    ensures r.0 !in t.rows
    ensures r.1.rows == t.rows[r.0 := v]
  {
    (t.next, RawTable(t.rows[t.next := v], t.next + 1))
  }

  /** Replaces the row stored under an existing key. */
  function Update<T>(t: Table<T>, id: Id, v: T): (r: Table<T>)
    requires id in t.rows
    ensures r.rows == t.rows[id := v]
  {
    RawTable(t.rows[id := v], t.next)
  }

  /** Deletes the row stored under `id`, if any. */
  function Remove<T>(t: Table<T>, id: Id): (r: Table<T>)
    ensures r.rows == t.rows - {id}
  {
    RawTable(t.rows - {id}, t.next)
  }

  /** Keeps exactly the rows satisfying `p`, unchanged. */
  function Keep<T>(t: Table<T>, p: T -> bool): (r: Table<T>)
    ensures forall k :: k in r.rows <==> k in t.rows && p(t.rows[k])
    ensures forall k :: k in r.rows ==> r.rows[k] == t.rows[k]
  {
    RawTable(map k | k in t.rows && p(t.rows[k]) :: t.rows[k], t.next)
  }

  /** The keys below `n` whose rows satisfy `p`, in ascending order. */
  function SelectBelow<T>(rows: map<Id, T>, p: T -> bool, n: nat): (r: seq<Id>)
    ensures forall i :: i in r <==> i < n && i in rows && p(rows[i])
    ensures Increasing(r)
    decreases n
  {
    if n == 0 then []
    else
      var below := SelectBelow(rows, p, n - 1);
      if n - 1 in rows && p(rows[n - 1]) then
        AppendKeepsIncreasing(below, n - 1);
        below + [n - 1]
      else below
  }

  /** A filtered scan of the table (`filter_by(...).all()`), in key order. */
  function Select<T>(t: Table<T>, p: T -> bool): (r: seq<Id>)
    ensures forall i :: i in r <==> i in t.rows && p(t.rows[i])
    ensures Increasing(r)
  {
    SelectBelow(t.rows, p, t.next)
  }
}
