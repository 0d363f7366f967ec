/** Invariants of the archive's tables, stated over the table values, and
    the lemmas showing that each statement the routes issue keeps them. */
module ArchiveInvariants {
  import opened ArchiveTypes

  // ---------------------------------------------------------------------
  // Invariants of the tables, stated over their values

  /** Rows of the files table are never removed, so with AUTOINCREMENT the
      ids in use are exactly 1 .. nextId - 1; each row carries its own key. */
  ghost predicate IdsDense(files: map<int, FileRecord>, nextId: int) {
    && 1 <= nextId
    && (forall id :: id in files <==> 1 <= id < nextId)
    && (forall id :: id in files ==> files[id].id == id)
  }

  /** File `a` lists file `b` in its version chain. */
  predicate Linked(files: map<int, FileRecord>, a: int, b: int) {
    a in files && b in files[a].relatedFiles
  }

  /** The version chain runs both ways: whenever `a` lists `b`, `b` lists `a`
      (and so `b` is a file of the table). */
  ghost predicate ChainSymmetric(files: map<int, FileRecord>) {
    forall a, b :: Linked(files, a, b) ==> Linked(files, b, a)
  }

  /** A trash row is a faithful snapshot of a file that is now Deleted. */
  predicate SnapshotOf(files: map<int, FileRecord>, t: TrashRecord) {
    && t.fileId in files
    && files[t.fileId].state == Deleted
    && files[t.fileId].filename == t.filename
    && files[t.fileId].data == t.data
  }

  ghost predicate InTrash(trash: seq<TrashRecord>, id: int) {
    exists k :: 0 <= k < |trash| && trash[k].fileId == id
  }

  /** The trash holds snapshots of Deleted files only, and every Deleted
      file has one. */
  ghost predicate TrashMirrorsDeleted(files: map<int, FileRecord>, trash: seq<TrashRecord>) {
    && (forall k :: 0 <= k < |trash| ==> SnapshotOf(files, trash[k]))
    && (forall id :: id in files && files[id].state == Deleted ==> InTrash(trash, id))
  }

  /** Trash ids increase along the table and stay below the counter, so a
      new row never reuses an id, even after the trash was emptied. */
  ghost predicate TrashIdsFresh(trash: seq<TrashRecord>, nextTrashId: int) {
    && 1 <= nextTrashId
    && (forall i, j :: 0 <= i < j < |trash| ==> trash[i].id < trash[j].id)
    && (forall k :: 0 <= k < |trash| ==> trash[k].id < nextTrashId)
  }

  /** History ids increase along the log and stay below the counter, and
      every entry refers to a file of the table. */
  ghost predicate HistoryWellFormed(history: seq<HistoryEntry>, files: map<int, FileRecord>, nextHistoryId: int) {
    && 1 <= nextHistoryId
    && (forall i, j :: 0 <= i < j < |history| ==> history[i].id < history[j].id)
    && (forall k :: 0 <= k < |history| ==> history[k].id < nextHistoryId && history[k].fileId in files)
  }

  // ---------------------------------------------------------------------
  // How the routes keep the version chain symmetric

  /** Changing rows without touching any `relatedFiles` keeps the chain symmetric. */
  lemma ChainKeptWhenLinksKept(before: map<int, FileRecord>, after: map<int, FileRecord>)
    requires ChainSymmetric(before)
    requires after.Keys == before.Keys
    requires forall id :: id in before ==> after[id].relatedFiles == before[id].relatedFiles
    ensures ChainSymmetric(after)
  {
    forall a, b | Linked(after, a, b)
      ensures Linked(after, b, a)
    {
      assert Linked(before, a, b);
    }
  }

  /** Adding a row with an empty chain keeps the chain symmetric. */
  lemma ChainKeptByInsert(files: map<int, FileRecord>, id: int, created: FileRecord)
    requires ChainSymmetric(files)
    requires id !in files
    requires created.relatedFiles == []
    ensures ChainSymmetric(files[id := created])
  {
    var after := files[id := created];
    forall a, b | Linked(after, a, b)
      ensures Linked(after, b, a)
    {
      assert a != id;
      assert Linked(files, a, b);
      assert Linked(files, b, a);
    }
  }

  /** Replace links the superseded row and its successor both ways: the old
      row's chain gains the new id, the new row's chain is the old id. */
  lemma ChainExtendedByReplace(files: map<int, FileRecord>, oldId: int, newId: int,
                               superseded: FileRecord, successor: FileRecord)
    requires ChainSymmetric(files)
    requires oldId in files && newId !in files
    requires superseded.relatedFiles == files[oldId].relatedFiles + [newId]
    requires successor.relatedFiles == [oldId]
    ensures ChainSymmetric(files[oldId := superseded][newId := successor])
  {
    var after := files[oldId := superseded][newId := successor];
    forall a, b | Linked(after, a, b)
      ensures Linked(after, b, a)
    {
      if a == newId {
        assert b == oldId;
      } else if a == oldId {
        if b != newId {
          assert Linked(files, oldId, b);
          assert Linked(files, b, oldId);
        }
      } else {
        assert Linked(files, a, b);
        assert Linked(files, b, a);
      }
    }
  }

  // ---------------------------------------------------------------------
  // How the routes keep the ids dense, the trash a mirror of the Deleted
  // files, and the trash and history ids fresh

  /** Inserting under the counter's id and then advancing the counter keeps the ids dense. */
  lemma IdsDenseAfterInsert(files: map<int, FileRecord>, nextId: int, created: FileRecord)
    requires IdsDense(files, nextId)
    requires created.id == nextId
    ensures nextId !in files
    ensures IdsDense(files[nextId := created], nextId + 1)
  {
  }

  /** Adding a Current row leaves every trash row a snapshot of a Deleted
      file, and every Deleted file with a trash row. */
  lemma TrashKeptByInsert(files: map<int, FileRecord>, trash: seq<TrashRecord>, id: int, created: FileRecord)
    requires TrashMirrorsDeleted(files, trash)
    requires id !in files
    requires created.state == Current
    ensures TrashMirrorsDeleted(files[id := created], trash)
  {
    var after := files[id := created];
    forall k | 0 <= k < |trash|
      ensures SnapshotOf(after, trash[k])
    {
      assert SnapshotOf(files, trash[k]);
    }
  }

  /** Changing only a row's chain keeps the trash a mirror of the Deleted files. */
  lemma TrashKeptByRelink(files: map<int, FileRecord>, trash: seq<TrashRecord>, id: int, relinked: FileRecord)
    requires TrashMirrorsDeleted(files, trash)
    requires id in files
    requires relinked == files[id].(relatedFiles := relinked.relatedFiles)
    ensures TrashMirrorsDeleted(files[id := relinked], trash)
  {
    var after := files[id := relinked];
    forall k | 0 <= k < |trash|
      ensures SnapshotOf(after, trash[k])
    {
      assert SnapshotOf(files, trash[k]);
    }
    forall other | other in after && after[other].state == Deleted
      ensures InTrash(trash, other)
    {
      assert files[other].state == Deleted;
    }
  }

  /** Snapshotting a row into the trash and marking it Deleted keeps the
      trash a mirror of the Deleted files, whatever state the row was in. */
  lemma TrashKeptBySnapshot(files: map<int, FileRecord>, trash: seq<TrashRecord>, id: int, now: Timestamp, trashId: int)
    requires TrashMirrorsDeleted(files, trash)
    requires id in files
    ensures TrashMirrorsDeleted(
      files[id := files[id].(state := Deleted, modifyDate := now)],
      trash + [TrashRecord(trashId, id, files[id].filename, now, files[id].data)])
  {
    var after := files[id := files[id].(state := Deleted, modifyDate := now)];
    var trash' := trash + [TrashRecord(trashId, id, files[id].filename, now, files[id].data)];
    forall k | 0 <= k < |trash'|
      ensures SnapshotOf(after, trash'[k])
    {
      if k < |trash| {
        assert SnapshotOf(files, trash[k]);
      }
    }
    forall other | other in after && after[other].state == Deleted
      ensures InTrash(trash', other)
    {
      if other == id {
        assert trash'[|trash|].fileId == id;
      } else {
        assert InTrash(trash, other);
        var k :| 0 <= k < |trash| && trash[k].fileId == other;
        assert trash'[k].fileId == other;
      }
    }
  }

  /** Appending a row under the counter's id and advancing the counter keeps the trash ids fresh. */
  lemma TrashIdsAppended(trash: seq<TrashRecord>, nextTrashId: int, snapshot: TrashRecord)
    requires TrashIdsFresh(trash, nextTrashId)
    requires snapshot.id == nextTrashId
    ensures TrashIdsFresh(trash + [snapshot], nextTrashId + 1)
  {
  }

  /** The log stays well formed when files are only added or changed. */
  lemma HistoryKeptByGrowth(history: seq<HistoryEntry>, files: map<int, FileRecord>,
                            files': map<int, FileRecord>, nextHistoryId: int)
    requires HistoryWellFormed(history, files, nextHistoryId)
    requires files.Keys <= files'.Keys
    ensures HistoryWellFormed(history, files', nextHistoryId)
  {
  }

  /** Appending an entry about an existing file under the counter's id,
      and advancing the counter, keeps the log well formed. */
  lemma HistoryAppended(history: seq<HistoryEntry>, files: map<int, FileRecord>, nextHistoryId: int, entry: HistoryEntry)
    requires HistoryWellFormed(history, files, nextHistoryId)
    requires entry.id == nextHistoryId && entry.fileId in files
    ensures HistoryWellFormed(history + [entry], files, nextHistoryId + 1)
  {
  }
}
