/** What opening, writing and reading a file guarantee (emufs/io.py),
    stated over the functions of `FileIo`. */
module FileIoProps {
  import opened Wrappers
  import opened Inodes
  import opened Tables
  import opened Paths
  import opened Store
  import opened Resolver
  import opened Facade
  import opened FacadeProps
  import opened FileIo

  // ---------------------------------------------------------------------
  // Contents of the stream

  /** Writing at the end of the contents appends. */
  lemma OverwriteAtEnd(c: seq<Byte>, data: seq<Byte>)
    ensures Overwrite(c, |c|, data) == c + data
  {
    var r := Overwrite(c, |c|, data);
    assert forall i :: 0 <= i < |c| ==> r[i] == c[i];
    assert forall i :: |c| <= i < |r| ==> r[i] == r[|c|..|c| + |data|][i - |c|];
  }

  /** Reading back the range just written gives the bytes written. */
  lemma ReadBackWritten(c: seq<Byte>, pos: nat, data: seq<Byte>)
    ensures ReadRange(Overwrite(c, pos, data), pos, |data|) == data
  {
    var r := Overwrite(c, pos, data);
    if pos >= |r| {
      assert data == [];
    } else {
      assert r[pos..pos + |data|] == data;
    }
  }

  // ---------------------------------------------------------------------
  // Opening

  /** The writes of an implicit creation succeed in a directory whose table
      can be read: the new record is a plain file of mode
      `TYPE_FILE | 0o644`, size 0 and the given data identifier, and the
      parent's table maps the name to it; nothing else changes. */
  lemma CreateEffect(s: Store, parent: Id, name: string, newId: Id, newDataId: Id, now: Time)
    requires EntriesOf(s, parent).Ok?
    requires FreshIds(s, newId, newDataId)
    ensures var c := CreateWrites(s, parent, name, newId, newDataId, now);
      && c.result == Ok(())
      && c.store.Keys == s.Keys + {newId}
      && InodeAt(c.store, newId) == Ok(NewEmpty(newDataId, 0, FILE_MODE, now))
      && InodeAt(c.store, parent) == InodeAt(s, parent)
      && EntriesOf(c.store, parent) == Ok(Put(EntriesOf(s, parent).value, name, newId))
  {
    var inode := NewEmpty(newDataId, 0, FILE_MODE, now);
    assert Encodable(inode);
    var s1 := WithInode(s, inode, newId).value;
    DirGrown(s, s1, parent);
    AddEntryEffect(s1, parent, name, newId);
    var s2 := AddEntry(s1, parent, name, newId).value;
    assert TableKey(s1, parent) == TableKey(s, parent);
    InodeAtFrame(s1, s2, newId);
  }

  /** An implicit creation changes no blob of the store but the parent's
      table. */
  lemma CreateFrame(s: Store, parent: Id, name: string, newId: Id, newDataId: Id, now: Time)
    requires EntriesOf(s, parent).Ok?
    requires FreshIds(s, newId, newDataId)
    ensures var c := CreateWrites(s, parent, name, newId, newDataId, now);
      forall k :: k in s && k != TableKey(s, parent) ==> k in c.store && c.store[k] == s[k]
  {
    var inode := NewEmpty(newDataId, 0, FILE_MODE, now);
    assert Encodable(inode);
    var s1 := WithInode(s, inode, newId).value;
    DirGrown(s, s1, parent);
    AddEntryEffect(s1, parent, name, newId);
    assert TableKey(s1, parent) == TableKey(s, parent);
  }

  /** Once the creation writes succeed, opening a missing path is opening
      the record just written. */
  lemma OpenAfterCreate(s: Store, p: Path, mode: string, newId: Id, newDataId: Id, now: Time, parent: Id)
    requires Resolve(s, p).Ok? && !Truthy(Resolve(s, p).value)
    requires Creatable(mode)
    requires Resolve(s, Parent(p)) == Ok(Some(parent)) && parent != ""
    ensures var c := CreateWrites(s, parent, Name(p), newId, newDataId, now);
      c.result.Ok? ==> OpenStep(s, p, mode, newId, newDataId, now) == OpenRecord(c.store, newId, mode)
  {
  }

  /** Creating a file in a readable directory and opening it in a creating
      mode: the stream is on a new empty blob at 0, the record and the
      parent's entry are the ones written, and only two blobs are added. */
  lemma CreateThenOpen(s: Store, parent: Id, name: string, newId: Id, newDataId: Id, mode: string, now: Time)
    requires EntriesOf(s, parent).Ok?
    requires FreshIds(s, newId, newDataId)
    requires Creatable(mode) && ParseMode(mode).Ok?
    ensures var c := CreateWrites(s, parent, name, newId, newDataId, now);
      var r := OpenRecord(c.store, newId, mode);
      && c.result.Ok?
      && r.result.Ok? && r.result.value.0 == newId
      && r.result.value.1.dataId == newDataId && r.result.value.1.cursor == 0
      && r.store == c.store[newDataId := Bytes([])]
      && r.store.Keys == s.Keys + {newId, newDataId}
      && InodeAt(r.store, newId) == Ok(NewEmpty(newDataId, 0, FILE_MODE, now))
      && EntriesOf(r.store, parent) == Ok(Put(EntriesOf(s, parent).value, name, newId))
  {
    CreateEffect(s, parent, name, newId, newDataId, now);
    var c := CreateWrites(s, parent, name, newId, newDataId, now);
    OpenNewRecord(c.store, newId, newDataId, mode, now, parent);
  }

  /** Opening a missing path in a creating mode whose parent is a readable
      directory creates the file and opens it: the stream is on a new empty
      data blob and starts at 0, and only the record and that blob are
      added. */
  lemma OpenCreates(s: Store, p: Path, mode: string, newId: Id, newDataId: Id, now: Time, parent: Id)
    requires Resolve(s, p).Ok? && !Truthy(Resolve(s, p).value)
    requires Creatable(mode) && ParseMode(mode).Ok?
    requires Resolve(s, Parent(p)) == Ok(Some(parent)) && parent != ""
    requires EntriesOf(s, parent).Ok?
    requires FreshIds(s, newId, newDataId)
    ensures var r := OpenStep(s, p, mode, newId, newDataId, now);
      && r.result.Ok? && r.result.value.0 == newId
      && r.result.value.1.dataId == newDataId && r.result.value.1.cursor == 0
      && r.store.Keys == s.Keys + {newId, newDataId}
      && r.store[newDataId] == Bytes([])
  {
    CreateThenOpen(s, parent, Name(p), newId, newDataId, mode, now);
    OpenAfterCreate(s, p, mode, newId, newDataId, now, parent);
  }

  /** The file an implicit creation makes: a record of mode
      `TYPE_FILE | 0o644` and size 0, entered under the path's name in the
      parent's table; no other blob changes. */
  lemma OpenCreatesRecord(s: Store, p: Path, mode: string, newId: Id, newDataId: Id, now: Time, parent: Id)
    requires Resolve(s, p).Ok? && !Truthy(Resolve(s, p).value)
    requires Creatable(mode) && ParseMode(mode).Ok?
    requires Resolve(s, Parent(p)) == Ok(Some(parent)) && parent != ""
    requires EntriesOf(s, parent).Ok?
    requires FreshIds(s, newId, newDataId)
    ensures var r := OpenStep(s, p, mode, newId, newDataId, now);
      && InodeAt(r.store, newId) == Ok(NewEmpty(newDataId, 0, FILE_MODE, now))
      && InodeAt(r.store, newId).value.IsFile()
      && EntriesOf(r.store, parent) == Ok(Put(EntriesOf(s, parent).value, Name(p), newId))
      && (forall k :: k in s && k != TableKey(s, parent) ==> k in r.store && r.store[k] == s[k])
  {
    FileModeIsFile(NewEmpty(newDataId, 0, FILE_MODE, now));
    CreateThenOpen(s, parent, Name(p), newId, newDataId, mode, now);
    CreateFrame(s, parent, Name(p), newId, newDataId, now);
    OpenAfterCreate(s, p, mode, newId, newDataId, now, parent);
  }

  /** Opening a just-created record: its data blob is new, so every creating
      mode makes it empty and starts at 0, and the parent is not touched. */
  lemma OpenNewRecord(s: Store, newId: Id, newDataId: Id, mode: string, now: Time, parent: Id)
    requires InodeAt(s, newId) == Ok(NewEmpty(newDataId, 0, FILE_MODE, now))
    requires newDataId !in s && EntriesOf(s, parent).Ok?
    requires Creatable(mode) && ParseMode(mode).Ok?
    ensures var r := OpenRecord(s, newId, mode);
      && r.result.Ok? && r.result.value.0 == newId
      && r.result.value.1.dataId == newDataId && r.result.value.1.cursor == 0
      && r.store == s[newDataId := Bytes([])]
      && InodeAt(r.store, newId) == InodeAt(s, newId)
      && InodeAt(r.store, newId).value.IsFile()
      && EntriesOf(r.store, parent) == EntriesOf(s, parent)
  {
    FileModeIsFile(NewEmpty(newDataId, 0, FILE_MODE, now));
    var m := ParseMode(mode).value;
    var r := OpenRecord(s, newId, mode);
    assert OpenBlob(s, newDataId, m) == Ok((s[newDataId := Bytes([])], Stream(newDataId, 0, m.update, true, m.kind == Appending)));
    DirGrown(s, r.store, parent);
    InodeAtFrame(s, r.store, newId);
  }

  /** Opening an existing file for writing empties its data blob but leaves
      its record, and so the size `stat` reports, as it was. */
  lemma OpenTruncates(s: Store, p: Path, mode: string, newId: Id, newDataId: Id, now: Time, id: Id, inode: Inode)
    requires Resolve(s, p) == Ok(Some(id)) && id != ""
    requires InodeAt(s, id) == Ok(inode) && inode.dataId != id
    requires ParseMode(mode).Ok? && ParseMode(mode).value.kind == Writing
    ensures var r := OpenStep(s, p, mode, newId, newDataId, now);
      && r.result.Ok? && r.result.value.0 == id
      && r.store[inode.dataId] == Bytes([])
      && InodeAt(r.store, id) == Ok(inode)
  {
    var r := OpenStep(s, p, mode, newId, newDataId, now);
    assert r == OpenRecord(s, id, mode);
    InodeAtFrame(s, r.store, id);
  }

  // ---------------------------------------------------------------------
  // Writing

  /** A write through an open, writable stream stores the bytes at the
      cursor (at the end in append mode), leaves the cursor just after
      them, and rewrites the record with `mtime` and `ctime` at the time of
      the call and `size` the new length of the contents, which is the
      length of the whole file and not the number of bytes written. */
  lemma WriteEffect(s: Store, st: Stream, id: Id, data: seq<Byte>, now: Time, inode: Inode)
    requires st.writable && HasBytes(s, st.dataId)
    requires InodeAt(s, id) == Ok(inode) && id != st.dataId
    requires |s[st.dataId].bytes| < TWO_32
    requires (if st.append then |s[st.dataId].bytes| else st.cursor) + |data| < TWO_32
    ensures var o := WriteStep(s, st, false, id, data, now);
            var before := s[st.dataId].bytes;
            var pos := if st.append then |before| else st.cursor;
            var after := Overwrite(before, pos, data);
      && o.result == Ok(())
      && o.store[st.dataId] == Bytes(after)
      && o.stream == st.(cursor := pos + |data|)
      && InodeAt(o.store, id) == Ok(inode.(size := |after|, mtime := now, ctime := now))
      && o.store.Keys == s.Keys
      && (forall k :: k in s && k != id && k != st.dataId ==> o.store[k] == s[k])
  {
    var before := s[st.dataId].bytes;
    var pos := if st.append then |before| else st.cursor;
    var after := Overwrite(before, pos, data);
    var s1 := s[st.dataId := Bytes(after)];
    InodeAtFrame(s, s1, id);
    StreamWriteOk(s, st, data);
    WriteStepOk(s, st, id, data, now, s1, st.(cursor := pos + |data|), inode);
    var updated := inode.UpdateModifiedTime(true, now).(size := |after|);
    assert updated == inode.(size := |after|, mtime := now, ctime := now);
  }

  /** The stream write of `write()` on a writable stream over a blob of
      bytes. */
  lemma StreamWriteOk(s: Store, st: Stream, data: seq<Byte>)
    requires st.writable && HasBytes(s, st.dataId)
    ensures var before := s[st.dataId].bytes;
            var pos := if st.append then |before| else st.cursor;
      StreamWrite(s, st, false, data) == Ok((s[st.dataId := Bytes(Overwrite(before, pos, data))], st.(cursor := pos + |data|)))
  {
  }

  /** After a successful stream write, `write()` stores the record read
      back, with the new times and size. */
  lemma WriteStepOk(s: Store, st: Stream, id: Id, data: seq<Byte>, now: Time, s1: Store, st1: Stream, inode: Inode)
    requires StreamWrite(s, st, false, data) == Ok((s1, st1))
    requires InodeAt(s1, id) == Ok(inode) && |s1[st.dataId].bytes| < TWO_32
    ensures var updated := inode.UpdateModifiedTime(true, now).(size := |s1[st.dataId].bytes|);
      && WithInode(s1, updated, id).Ok?
      && WriteStep(s, st, false, id, data, now) == Outcome(WithInode(s1, updated, id).value, st1, Ok(()))
  {
    var updated := inode.UpdateModifiedTime(true, now).(size := |s1[st.dataId].bytes|);
    assert Encodable(updated);
  }

  /** A write that makes the file 2^32 bytes or longer stores the bytes, then
      fails packing the size into the record, which keeps its old size and
      times. */
  lemma WriteOverflow(s: Store, st: Stream, id: Id, data: seq<Byte>, now: Time, inode: Inode)
    requires st.writable && HasBytes(s, st.dataId)
    requires InodeAt(s, id) == Ok(inode) && id != st.dataId
    requires (if st.append then |s[st.dataId].bytes| else st.cursor) + |data| >= TWO_32
    ensures var o := WriteStep(s, st, false, id, data, now);
      && o.result == Err(Unencodable(StructError))
      && InodeAt(o.store, id) == Ok(inode)
  {
    var before := s[st.dataId].bytes;
    var pos := if st.append then |before| else st.cursor;
    var s1 := s[st.dataId := Bytes(Overwrite(before, pos, data))];
    InodeAtFrame(s, s1, id);
  }

  // ---------------------------------------------------------------------
  // Reading

  /** A read through an open, readable stream returns the bytes from the
      cursor (at most `size` of them, all of them for a size of -1),
      moves the cursor past them, leaves the contents alone and rewrites the
      record with only `atime` changed. */
  lemma ReadEffect(s: Store, st: Stream, id: Id, size: int, now: Time, inode: Inode)
    requires st.readable && HasBytes(s, st.dataId) && size >= -1
    requires InodeAt(s, id) == Ok(inode) && id != st.dataId
    ensures var o := ReadStep(s, st, false, id, size, now);
            var got := ReadRange(s[st.dataId].bytes, st.cursor, size);
      && o.result == Ok(got)
      && o.stream == st.(cursor := st.cursor + |got|)
      && o.store[st.dataId] == s[st.dataId]
      && InodeAt(o.store, id) == Ok(inode.(atime := now))
      && o.store.Keys == s.Keys
      && (forall k :: k in s && k != id ==> o.store[k] == s[k])
  {
    assert Encodable(inode);
  }

  /** A read the stream refuses (a write-only stream, a size below -1, or a
      closed handle, checked in that order) still stamps `atime` and writes
      the record before the stream raises. */
  lemma ReadRefusedStamps(s: Store, st: Stream, closed: bool, id: Id, size: int, now: Time, inode: Inode)
    requires InodeAt(s, id) == Ok(inode)
    requires !st.readable || size < -1 || closed
    ensures var o := ReadStep(s, st, closed, id, size, now);
      && o.result == Err(if !st.readable then NotReadable else if size < -1 then BadReadSize else StreamClosed)
      && o.stream == st
      && InodeAt(o.store, id) == Ok(inode.(atime := now))
  {
    assert Encodable(inode);
  }

  /** What a write stored is what a read from the same position returns. */
  lemma WriteThenRead(s: Store, st: Stream, id: Id, data: seq<Byte>, now: Time, later: Time, inode: Inode)
    requires st.writable && !st.append && HasBytes(s, st.dataId)
    requires InodeAt(s, id) == Ok(inode) && id != st.dataId
    requires |s[st.dataId].bytes| < TWO_32 && st.cursor + |data| < TWO_32
    ensures var w := WriteStep(s, st, false, id, data, now);
            var reader := st.(readable := true);
      ReadStep(w.store, reader, false, id, |data|, later).result == Ok(data)
  {
    WriteEffect(s, st, id, data, now, inode);
    var w := WriteStep(s, st, false, id, data, now);
    ReadEffect(w.store, st.(readable := true), id, |data|, later, InodeAt(w.store, id).value);
    ReadBackWritten(s[st.dataId].bytes, st.cursor, data);
  }
}
