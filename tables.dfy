/** Directory entry tables (emufs/fs.py): the decoded contents of a
    directory's data blob, a Python dict from child name to child inode id.
    A dict keeps insertion order, and `listdir` and `walk` expose that order,
    so a table is a sequence of (name, id) pairs; a dict never holds a name
    twice (`Unique`). */
module Tables {
  import opened Wrappers

  type Table = seq<(string, string)>

  /** The empty table, the blob `json.dumps({})`. */
  const EMPTY: Table := []

  /** `json.dumps({}).encode("ascii")`, whose length is a new directory's size. */
  const EMPTY_TEXT: string := "{}"

  /** The names in table order: `list(entries.keys())`. */
  function Names(t: Table): (r: seq<string>)
    ensures |r| == |t|
    ensures forall i {:trigger r[i]} :: 0 <= i < |t| ==> r[i] == t[i].0
  {
    if t == [] then [] else [t[0].0] + Names(t[1..])
  }

  /** No name occurs twice. */
  predicate Unique(t: Table) {
    t == [] || (t[0].0 !in Names(t[1..]) && Unique(t[1..]))
  }

  /** `entries.get(n)`: the id of the first entry named `n`. */
  function Lookup(t: Table, n: string): (r: Option<string>)
    ensures r.Some? <==> n in Names(t)
  {
    if t == [] then None
    else if t[0].0 == n then Some(t[0].1)
    else Lookup(t[1..], n)
  }

  /** `entries[n] = id`: a name already present keeps its place and takes the
      new id; a new name goes to the end. */
  function Put(t: Table, n: string, id: string): (r: Table)
    ensures |r| == if n in Names(t) then |t| else |t| + 1
  {
    if t == [] then [(n, id)]
    else if t[0].0 == n then [(n, id)] + t[1..]
    else [t[0]] + Put(t[1..], n, id)
  }

  /** `del entries[n]`: every entry named `n` goes, the rest keep their order. */
  function Remove(t: Table, n: string): (r: Table)
    ensures |r| <= |t|
  {
    if t == [] then []
    else if t[0].0 == n then Remove(t[1..], n)
    else [t[0]] + Remove(t[1..], n)
  }

  /** The entry found by `Lookup` is in the table. */
  lemma {:induction false} LookupIn(t: Table, n: string)
    requires Lookup(t, n).Some?
    ensures (n, Lookup(t, n).value) in t
  {
    if t[0].0 != n {
      LookupIn(t[1..], n);
    }
  }

  /** After `entries[n] = id`, `n` maps to `id` and every other name to what
      it mapped to before. */
  lemma {:induction false} PutLookup(t: Table, n: string, id: string, m: string)
    ensures Lookup(Put(t, n, id), m) == if m == n then Some(id) else Lookup(t, m)
  {
    if t != [] && t[0].0 != n {
      PutLookup(t[1..], n, id, m);
    }
  }

  /** Assignment keeps the order of the names, appending a new one. */
  lemma {:induction false} PutNames(t: Table, n: string, id: string)
    ensures Names(Put(t, n, id)) == if n in Names(t) then Names(t) else Names(t) + [n]
  {
    if t != [] && t[0].0 != n {
      PutNames(t[1..], n, id);
    }
  }

  /** Assignment never makes a name occur twice. */
  lemma {:induction false} PutUnique(t: Table, n: string, id: string)
    requires Unique(t)
    ensures Unique(Put(t, n, id))
  {
    if t != [] && t[0].0 != n {
      PutUnique(t[1..], n, id);
      PutNames(t[1..], n, id);
    }
  }

  /** After `del entries[n]`, `n` is gone and every other name maps to what it
      mapped to before. */
  lemma {:induction false} RemoveLookup(t: Table, n: string, m: string)
    ensures Lookup(Remove(t, n), m) == if m == n then None else Lookup(t, m)
  {
    if t != [] {
      RemoveLookup(t[1..], n, m);
    }
  }

  /** Deleting an absent name changes nothing. */
  lemma {:induction false} RemoveAbsent(t: Table, n: string)
    requires n !in Names(t)
    ensures Remove(t, n) == t
  {
    if t != [] {
      RemoveAbsent(t[1..], n);
    }
  }

  /** In a table of unique names, removing a present name drops exactly one
      entry and keeps the others in their order. */
  lemma {:induction false} RemoveOne(t: Table, n: string)
    requires Unique(t) && n in Names(t)
    ensures exists k :: 0 <= k < |t| && t[k].0 == n && Remove(t, n) == t[..k] + t[k + 1..]
    ensures |Remove(t, n)| == |t| - 1
  {
    if t[0].0 == n {
      RemoveAbsent(t[1..], n);
      assert Remove(t, n) == t[..0] + t[1..];
    } else {
      RemoveOne(t[1..], n);
      var k :| 0 <= k < |t[1..]| && t[1..][k].0 == n && Remove(t[1..], n) == t[1..][..k] + t[1..][k + 1..];
      assert Remove(t, n) == t[..k + 1] + t[k + 2..];
    }
  }

  /** The names of the entries whose id satisfies `keep`, in table order. */
  function NamesWhere(t: Table, keep: string -> bool): (r: seq<string>)
    ensures |r| <= |t|
  {
    if t == [] then [] else (if keep(t[0].1) then [t[0].0] else []) + NamesWhere(t[1..], keep)
  }

  /** Every entry's id satisfies `ok`. */
  predicate AllIds(t: Table, ok: string -> bool) {
    forall i :: 0 <= i < |t| ==> ok(t[i].1)
  }

  /** Filtering a table with one more entry at the end. */
  lemma {:induction false} NamesWhereSnoc(t: Table, keep: string -> bool, e: (string, string))
    ensures NamesWhere(t + [e], keep) == NamesWhere(t, keep) + (if keep(e.1) then [e.0] else [])
    decreases |t|
  {
    if t == [] {
      assert t + [e] == [e];
    } else {
      assert (t + [e])[1..] == t[1..] + [e];
      NamesWhereSnoc(t[1..], keep, e);
    }
  }

  lemma AllIdsSnoc(t: Table, ok: string -> bool, e: (string, string))
    ensures AllIds(t + [e], ok) <==> AllIds(t, ok) && ok(e.1)
  {
    if AllIds(t, ok) && ok(e.1) {
      forall i | 0 <= i < |t + [e]| ensures ok((t + [e])[i].1) {
        if i < |t| { assert (t + [e])[i] == t[i]; }
      }
    }
    if AllIds(t + [e], ok) {
      assert (t + [e])[|t|] == e;
      forall i | 0 <= i < |t| ensures ok(t[i].1) {
        assert (t + [e])[i] == t[i];
      }
    }
  }

  /** Filtering with a test and with its negation splits the names of a
      table between the two results. */
  lemma {:induction false} NamesWherePartition(t: Table, keep: string -> bool, drop: string -> bool)
    requires forall x :: drop(x) == !keep(x)
    ensures multiset(NamesWhere(t, keep)) + multiset(NamesWhere(t, drop)) == multiset(Names(t))
    decreases |t|
  {
    if t != [] {
      NamesWherePartition(t[1..], keep, drop);
    }
  }
}
