/** Path resolution (`EmuFS._resolve_path`, emufs/fs.py): starting from the
    root's table, look up every component but the last, reading the table of
    each directory reached; then look the last component up in the final
    table.  A missing component anywhere gives `None`; resolution never
    returns a partial result.  Relative and absolute paths resolve alike:
    the path is made absolute first, so `Resolve` never looks at
    `Path.absolute`. */
module Resolver {
  import opened Wrappers
  import opened Inodes
  import opened Tables
  import opened Paths
  import opened Store

  /** Python's truth test on an optional identifier: `None` and "" are false. */
  predicate Truthy(r: Option<Id>) {
    r.Some? && r.value != ""
  }

  /** The loop over `path.parts[:-1]`: from a directory's table, follow the
      components, reading each directory's table in turn; `None` at the first
      missing component, otherwise the table of the directory reached. */
  function WalkParts(s: Store, entries: Table, parts: seq<string>): (r: Result<Option<Table>, Error>)
    ensures r.Err? ==> ReadError(r.error)
    decreases |parts|
  {
    if parts == [] then Ok(Some(entries))
    else match Lookup(entries, parts[0])
      case None => Ok(None)
      case Some(c) =>
        var t :- EntriesOf(s, c);
        WalkParts(s, t, parts[1..])
  }

  /** `_resolve_path`. */
  function Resolve(s: Store, p: Path): (r: Result<Option<Id>, Error>)
    ensures r.Err? ==> ReadError(r.error)
  {
    var rootEntries :- EntriesOf(s, ROOT_ID);
    var last :- WalkParts(s, rootEntries, Parent(p).parts);
    if last.None? then Ok(None)
    else if Name(p) == "" then Ok(Some(ROOT_ID))
    else Ok(Lookup(last.value, Name(p)))
  }

  /** One more component after a walk. */
  function Then(s: Store, r: Result<Option<Table>, Error>, n: string): Result<Option<Table>, Error> {
    match r
    case Err(e) => Err(e)
    case Ok(None) => Ok(None)
    case Ok(Some(t)) => WalkParts(s, t, [n])
  }

  lemma {:induction false} WalkPartsSnoc(s: Store, entries: Table, parts: seq<string>, n: string)
    ensures WalkParts(s, entries, parts + [n]) == Then(s, WalkParts(s, entries, parts), n)
    decreases |parts|
  {
    if parts == [] {
      assert parts + [n] == [n];
    } else {
      var longer := parts + [n];
      assert longer[0] == parts[0];
      assert longer[1..] == parts[1..] + [n];
      match Lookup(entries, parts[0]) {
        case None =>
        case Some(c) =>
          if EntriesOf(s, c).Ok? {
            var t := EntriesOf(s, c).value;
            assert WalkParts(s, entries, longer) == WalkParts(s, t, parts[1..] + [n]);
            assert WalkParts(s, entries, parts) == WalkParts(s, t, parts[1..]);
            WalkPartsSnoc(s, t, parts[1..], n);
          }
      }
    }
  }

  /** Looking `n` up in the directory a resolution found. */
  function ResolveIn(s: Store, r: Result<Option<Id>, Error>, n: string): Result<Option<Id>, Error> {
    match r
    case Err(e) => Err(e)
    case Ok(None) => Ok(None)
    case Ok(Some(d)) =>
      var t :- EntriesOf(s, d);
      Ok(Lookup(t, n))
  }

  /** Resolving `p / n` is resolving `p`, reading the table of the directory
      it names, and looking `n` up there: a missing name on the way gives
      `None`, and an error on the way (a component that is not a directory, a
      missing blob) is the error of the longer path too. */
  lemma ResolveJoin(s: Store, p: Path, n: string)
    requires WellFormed(p) && n != ""
    ensures Resolve(s, Join(p, n)) == ResolveIn(s, Resolve(s, p), n)
  {
    var q := Join(p, n);
    assert Parent(q) == p && Name(q) == n;
    if EntriesOf(s, ROOT_ID).Ok? {
      var root := EntriesOf(s, ROOT_ID).value;
      if p.parts == [] {
        assert Resolve(s, p) == Ok(Some(ROOT_ID));
        assert WalkParts(s, root, p.parts) == Ok(Some(root));
      } else {
        var m := Name(p);
        JoinParentName(p);
        assert p.parts == Parent(p).parts + [m];
        WalkPartsSnoc(s, root, Parent(p).parts, m);
        var w0 := WalkParts(s, root, Parent(p).parts);
        if w0.Ok? && w0.value.Some? {
          var t0 := w0.value.value;
          assert Resolve(s, p) == Ok(Lookup(t0, m));
          match Lookup(t0, m) {
            case None =>
              assert WalkParts(s, t0, [m]) == Ok(None);
            case Some(c) =>
              if EntriesOf(s, c).Ok? {
                assert WalkParts(s, t0, [m]) == WalkParts(s, EntriesOf(s, c).value, []);
              }
          }
        }
      }
    }
  }

  /** The root path resolves to the reserved root identifier, provided the
      root's table can be read; if it cannot, every path fails with that
      error, since resolution always reads it first. */
  lemma ResolveRoot(s: Store, p: Path)
    ensures p.parts == [] && EntriesOf(s, ROOT_ID).Ok? ==> Resolve(s, p) == Ok(Some(ROOT_ID))
    ensures EntriesOf(s, ROOT_ID).Err? ==> Resolve(s, p) == Err(EntriesOf(s, ROOT_ID).error)
  {
  }

  /** Resolving through a component that names a file fails the `is_dir`
      assertion. */
  lemma ResolveThroughFile(s: Store, p: Path, n: string, d: Id)
    requires WellFormed(p) && n != ""
    requires Resolve(s, p) == Ok(Some(d))
    requires InodeAt(s, d).Ok? && !InodeAt(s, d).value.IsDir()
    ensures Resolve(s, Join(p, n)) == Err(NotADirectory)
  {
    ResolveJoin(s, p, n);
  }

  /** No partial results: once a path does not resolve, no longer path
      through it resolves either. */
  lemma {:induction false} ResolveMissingExtends(s: Store, p: Path, rest: seq<string>)
    requires WellFormed(p) && WellFormed(Path(p.absolute, rest))
    requires Resolve(s, p) == Ok(None)
    ensures Resolve(s, Path(p.absolute, p.parts + rest)) == Ok(None)
    decreases |rest|
  {
    if rest == [] {
      assert p.parts + rest == p.parts;
    } else {
      var init, last := rest[..|rest| - 1], rest[|rest| - 1];
      var q := Path(p.absolute, p.parts + init);
      assert WellFormed(Path(p.absolute, init)) by {
        forall i | 0 <= i < |init| ensures init[i] != "" {
          assert init[i] == rest[i];
        }
      }
      ResolveMissingExtends(s, p, init);
      assert last != "" && WellFormed(q);
      ResolveJoin(s, q, last);
      assert Join(q, last) == Path(p.absolute, p.parts + rest) by {
        assert p.parts + rest == q.parts + [last];
      }
    }
  }

  // ---------------------------------------------------------------------
  // What resolution reads, and a frame rule for it

  /** The keys `_get_dir_entries(id)` reads: the inode record and, for a
      directory, its table. */
  function DirReads(s: Store, id: Id): set<Id> {
    if InodeAt(s, id).Ok? && InodeAt(s, id).value.IsDir() then {id, InodeAt(s, id).value.dataId}
    else {id}
  }

  function WalkReads(s: Store, entries: Table, parts: seq<string>): set<Id>
    decreases |parts|
  {
    if parts == [] then {}
    else match Lookup(entries, parts[0])
      case None => {}
      case Some(c) =>
        var rest := if EntriesOf(s, c).Ok? then WalkReads(s, EntriesOf(s, c).value, parts[1..]) else {};
        DirReads(s, c) + rest
  }

  /** Every key resolving `p` reads. */
  function ResolveReads(s: Store, p: Path): set<Id> {
    var rest := if EntriesOf(s, ROOT_ID).Ok? then WalkReads(s, EntriesOf(s, ROOT_ID).value, Parent(p).parts) else {};
    DirReads(s, ROOT_ID) + rest
  }

  /** Two stores agree on `keys`: the same keys present, the same blobs. */
  predicate Agree(s: Store, s': Store, keys: set<Id>) {
    forall k :: k in keys ==> (k in s <==> k in s') && (k in s ==> s'[k] == s[k])
  }

  /** A directory whose table can be read reads exactly two keys. */
  lemma DirReadsOfDir(s: Store, id: Id)
    requires EntriesOf(s, id).Ok?
    ensures DirReads(s, id) == {id, TableKey(s, id)}
  {
  }

  lemma EntriesOfFrame(s: Store, s': Store, id: Id)
    requires Agree(s, s', DirReads(s, id))
    ensures EntriesOf(s', id) == EntriesOf(s, id)
    ensures DirReads(s', id) == DirReads(s, id)
  {
    assert id in DirReads(s, id);
  }

  lemma {:induction false} WalkFrame(s: Store, s': Store, entries: Table, parts: seq<string>)
    requires Agree(s, s', WalkReads(s, entries, parts))
    ensures WalkParts(s', entries, parts) == WalkParts(s, entries, parts)
    decreases |parts|
  {
    if parts != [] {
      match Lookup(entries, parts[0]) {
        case None =>
        case Some(c) =>
          EntriesOfFrame(s, s', c);
          if EntriesOf(s, c).Ok? {
            WalkFrame(s, s', EntriesOf(s, c).value, parts[1..]);
          }
      }
    }
  }

  /** Resolution depends on nothing but the blobs it reads. */
  lemma ResolveFrame(s: Store, s': Store, p: Path)
    requires Agree(s, s', ResolveReads(s, p))
    ensures Resolve(s', p) == Resolve(s, p)
  {
    EntriesOfFrame(s, s', ROOT_ID);
    if EntriesOf(s, ROOT_ID).Ok? {
      WalkFrame(s, s', EntriesOf(s, ROOT_ID).value, Parent(p).parts);
    }
  }

  lemma {:induction false} WalkReadsPresent(s: Store, entries: Table, parts: seq<string>)
    requires WalkParts(s, entries, parts).Ok?
    ensures WalkReads(s, entries, parts) <= s.Keys
    decreases |parts|
  {
    if parts != [] {
      match Lookup(entries, parts[0]) {
        case None =>
        case Some(c) =>
          WalkReadsPresent(s, EntriesOf(s, c).value, parts[1..]);
      }
    }
  }

  /** A resolution that did not fail read only blobs that exist, so adding
      new keys to the store cannot change it. */
  lemma ResolveReadsPresent(s: Store, p: Path)
    requires Resolve(s, p).Ok?
    ensures ResolveReads(s, p) <= s.Keys
  {
    WalkReadsPresent(s, EntriesOf(s, ROOT_ID).value, Parent(p).parts);
  }
}
