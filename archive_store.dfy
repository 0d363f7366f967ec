/** The archive store: the files, trash and history tables and the routes
    that change them (`/upload`, `/delete/:id`, `/replace`, `/empty-trash`,
    `/clear-history`, `/check-files`). Each route runs to completion before
    the next starts, so each is one method of `ArchiveStore`; the SQL
    statements a route issues become the method's successive assignments. */
module Archive {
  import opened ArchiveTypes
  import opened PathNames
  import opened ArchiveQueries
  import opened ArchiveInvariants

  // ---------------------------------------------------------------------
  // The store

  /** The UPDATE of `/empty-trash`: every Deleted row becomes Purged at
      `now`; every other row stays as it is. */
  function PurgeDeleted(files: map<int, FileRecord>, now: Timestamp): (purged: map<int, FileRecord>)
    ensures purged.Keys == files.Keys
    ensures forall id :: id in files && files[id].state == Deleted ==>
      purged[id] == files[id].(state := Purged, modifyDate := now)
    ensures forall id :: id in files && files[id].state != Deleted ==> purged[id] == files[id]
  {
    map id | id in files :: if files[id].state == Deleted then files[id].(state := Purged, modifyDate := now) else files[id]
  }

  /** Emptying the trash changes no listing: only Deleted rows change, and
      neither a Deleted nor a Purged row is ever listed. */
  lemma ListingUnchangedByPurge(files: map<int, FileRecord>, bound: int, q: ListQuery, now: Timestamp)
    requires forall id :: id in files ==> 1 <= id < bound
    ensures ListFiles(PurgeDeleted(files, now), bound, q) == ListFiles(files, bound, q)
  {
    ListFilesAgree(PurgeDeleted(files, now), files, bound, q);
  }

  class ArchiveStore {
    /** The files table, by id. */
    var files: map<int, FileRecord>
    /** The trash table, in insertion order. */
    var trash: seq<TrashRecord>
    /** The history table, in insertion order. */
    var history: seq<HistoryEntry>
    /** The AUTOINCREMENT counters of the three tables: the id the next
        inserted row receives. */
    var nextId: int
    var nextTrashId: int
    var nextHistoryId: int

    ghost predicate Valid()
      reads this
    {
      && IdsDense(files, nextId)
      && ChainSymmetric(files)
      && TrashMirrorsDeleted(files, trash)
      && TrashIdsFresh(trash, nextTrashId)
      && HistoryWellFormed(history, files, nextHistoryId)
    }

    /** A freshly created database: three empty tables. */
    constructor ()
      ensures Valid()
      ensures files == map[] && trash == [] && history == []
      ensures nextId == 1 && nextTrashId == 1 && nextHistoryId == 1
    {
      files := map[];
      trash := [];
      history := [];
      nextId, nextTrashId, nextHistoryId := 1, 1, 1;
    }

    /** `/upload`: a request without a file is refused; otherwise one new
        Current row with an empty chain is added under a fresh id, and the
        upload is logged. */
    method Upload(username: string, file: Option<UploadedFile>, now: Timestamp) returns (r: Result<UploadInfo>)
      requires Valid()
      requires file.Some? ==> |file.value.buffer| <= MaxFileSize
      modifies this
      ensures Valid()
      ensures file.None? ==> r == Err(BadInput) && unchanged(this)
      ensures file.Some? ==>
        var f, id := file.value, old(nextId);
        && id !in old(files)
        && (forall other :: other in old(files) ==> other < id)
        && r == Ok(UploadInfo(id, f.originalname, SizeKB(f.buffer)))
        && files == old(files)[id := FileRecord(id, AuthorOf(username), f.originalname, now, now,
                                                ExtName(f.originalname), SizeKB(f.buffer), Current, [], f.buffer)]
        && trash == old(trash)
        && history == old(history) + [HistoryEntry(old(nextHistoryId), id, f.originalname, AuthorOf(username), now, UploadedText)]
        && nextId == id + 1 && nextTrashId == old(nextTrashId) && nextHistoryId == old(nextHistoryId) + 1
    {
      if file.None? {
        return Err(BadInput);
      }
      var f := file.value;
      var author := AuthorOf(username);
      var id := nextId;
      var created := FileRecord(id, author, f.originalname, now, now,
                                ExtName(f.originalname), SizeKB(f.buffer), Current, [], f.buffer);
      ghost var before := files;
      files := files[id := created];
      nextId := nextId + 1;
      assert IdsDense(files, nextId) by {
        IdsDenseAfterInsert(before, id, created);
      }
      assert ChainSymmetric(files) by {
        ChainKeptByInsert(before, id, created);
      }
      assert TrashMirrorsDeleted(files, trash) by {
        TrashKeptByInsert(before, trash, id, created);
      }
      assert HistoryWellFormed(history, files, nextHistoryId) by {
        HistoryKeptByGrowth(history, before, files, nextHistoryId);
      }

      LogChange(id, f.originalname, author, now, UploadedText);
      r := Ok(UploadInfo(id, f.originalname, SizeKB(f.buffer)));
    }

    /** `/delete/:id`: an unknown id is refused with nothing changed;
        otherwise, whatever the row's state, its name and payload are
        copied to the trash, it becomes Deleted and the deletion is logged
        under the row's own author. */
    method Delete(id: int, now: Timestamp) returns (r: Result<()>)
      requires Valid()
      modifies this
      ensures Valid()
      ensures id !in old(files) ==> r == Err(NotFound) && unchanged(this)
      ensures id in old(files) ==>
        var rec := old(files)[id];
        && r == Ok(())
        && files == old(files)[id := rec.(state := Deleted, modifyDate := now)]
        && trash == old(trash) + [TrashRecord(old(nextTrashId), id, rec.filename, now, rec.data)]
        && history == old(history) + [HistoryEntry(old(nextHistoryId), id, rec.filename, rec.author, now, DeletedText)]
        && nextId == old(nextId) && nextTrashId == old(nextTrashId) + 1 && nextHistoryId == old(nextHistoryId) + 1
    {
      if id !in files {
        return Err(NotFound);
      }
      var rec := files[id];
      SendToTrash(id, now);
      LogChange(id, rec.filename, rec.author, now, DeletedText);
      r := Ok(());
    }

    /** The two statements delete and replace share: insert a trash row
        with the row's name and payload, then mark the row Deleted. Every
        invariant holds afterwards; only the caller's history entry is
        still to come. */
    method SendToTrash(id: int, now: Timestamp)
      requires Valid()
      requires id in files
      modifies this
      ensures Valid()
      ensures files == old(files)[id := old(files)[id].(state := Deleted, modifyDate := now)]
      ensures trash == old(trash) + [TrashRecord(old(nextTrashId), id, old(files)[id].filename, now, old(files)[id].data)]
      ensures nextTrashId == old(nextTrashId) + 1
      ensures history == old(history) && nextId == old(nextId) && nextHistoryId == old(nextHistoryId)
    {
      var rec := files[id];
      var snapshot := TrashRecord(nextTrashId, id, rec.filename, now, rec.data);
      TrashKeptBySnapshot(files, trash, id, now, nextTrashId);
      TrashIdsAppended(trash, nextTrashId, snapshot);
      trash := trash + [snapshot];
      nextTrashId := nextTrashId + 1;

      var marked := files[id := rec.(state := Deleted, modifyDate := now)];
      ChainKeptWhenLinksKept(files, marked);
      HistoryKeptByGrowth(history, files, marked, nextHistoryId);
      files := marked;
    }

    /** `/replace`: an unknown old id is refused with nothing changed.
        Otherwise the old row is trashed and marked Deleted as by delete, a
        new Current row is added under a fresh id with the old row's author
        and upload date and the new payload, the two rows are linked both
        ways, the result names the new id and both file names, and the
        replacement is logged against the old id. */
    method Replace(oldId: int, file: UploadedFile, now: Timestamp) returns (r: Result<ReplaceInfo>)
      requires Valid()
      requires |file.buffer| <= MaxFileSize
      modifies this
      ensures Valid()
      ensures oldId !in old(files) ==> r == Err(NotFound) && unchanged(this)
      ensures oldId in old(files) ==>
        var old', newId := old(files)[oldId], old(nextId);
        && newId != oldId && newId !in old(files)
        && (forall other :: other in old(files) ==> other < newId)
        && r == Ok(ReplaceInfo(newId, file.originalname, old'.filename))
        && files == old(files)
             [oldId := old'.(state := Deleted, modifyDate := now, relatedFiles := old'.relatedFiles + [newId])]
             [newId := FileRecord(newId, old'.author, file.originalname, old'.uploadDate, now,
                                  ExtName(file.originalname), SizeKB(file.buffer), Current, [oldId], file.buffer)]
        && trash == old(trash) + [TrashRecord(old(nextTrashId), oldId, old'.filename, now, old'.data)]
        && history == old(history) + [HistoryEntry(old(nextHistoryId), oldId, old'.filename, old'.author, now, ReplacedText)]
        && nextId == newId + 1 && nextTrashId == old(nextTrashId) + 1 && nextHistoryId == old(nextHistoryId) + 1
    {
      if oldId !in files {
        return Err(NotFound);
      }
      var oldMeta := files[oldId];
      ghost var before := files;
      assert forall other :: other in before ==> other < nextId;
      SendToTrash(oldId, now);
      ghost var trashed := files;
      var newId := AddSuccessor(oldId, oldMeta, file, now);
      ghost var linked := oldMeta.(state := Deleted, modifyDate := now, relatedFiles := oldMeta.relatedFiles + [newId]);
      assert trashed[oldId := linked] == before[oldId := linked];

      LogChange(oldId, oldMeta.filename, oldMeta.author, now, ReplacedText);
      r := Ok(ReplaceInfo(newId, file.originalname, oldMeta.filename));
    }

    /** The part of replace that follows the trashing of the old row:
        insert the successor row (the old row's author and upload date, the
        new name and payload, chain [oldId]), then append the new id to the
        old row's chain as it was read when the replace began. */
    method AddSuccessor(oldId: int, oldMeta: FileRecord, file: UploadedFile, now: Timestamp) returns (newId: int)
      requires Valid()
      requires oldId in files && files[oldId] == oldMeta.(state := Deleted, modifyDate := now)
      modifies this
      ensures Valid()
      ensures newId == old(nextId) && newId !in old(files) && nextId == newId + 1
      ensures files == old(files)
        [oldId := oldMeta.(state := Deleted, modifyDate := now, relatedFiles := oldMeta.relatedFiles + [newId])]
        [newId := FileRecord(newId, oldMeta.author, file.originalname, oldMeta.uploadDate, now,
                             ExtName(file.originalname), SizeKB(file.buffer), Current, [oldId], file.buffer)]
      ensures trash == old(trash) && history == old(history)
      ensures nextTrashId == old(nextTrashId) && nextHistoryId == old(nextHistoryId)
    {
      ghost var deleted := files;
      newId := nextId;
      var successor := FileRecord(newId, oldMeta.author, file.originalname, oldMeta.uploadDate, now,
                                  ExtName(file.originalname), SizeKB(file.buffer), Current, [oldId], file.buffer);
      files := files[newId := successor];
      nextId := nextId + 1;

      // JSON.parse of the chain read at the start, push of the new id, and the UPDATE.
      var relatedFiles := oldMeta.relatedFiles + [newId];
      var superseded := files[oldId].(relatedFiles := relatedFiles);
      files := files[oldId := superseded];

      assert files == deleted[oldId := superseded][newId := successor];
      assert IdsDense(files, nextId) by {
        IdsDenseAfterInsert(deleted, newId, successor);
      }
      assert ChainSymmetric(files) by {
        ChainExtendedByReplace(deleted, oldId, newId, superseded, successor);
      }
      assert TrashMirrorsDeleted(files, trash) by {
        TrashKeptByInsert(deleted, trash, newId, successor);
        TrashKeptByRelink(deleted[newId := successor], trash, oldId, superseded);
      }
      assert HistoryWellFormed(history, files, nextHistoryId) by {
        HistoryKeptByGrowth(history, deleted, files, nextHistoryId);
      }
    }

    /** The INSERT INTO history that upload, delete and replace end with:
        one entry about an existing file row, under the next history id. */
    method LogChange(fileId: int, filename: string, author: string, now: Timestamp, text: string)
      requires Valid()
      requires fileId in files
      modifies this
      ensures Valid()
      ensures history == old(history) + [HistoryEntry(old(nextHistoryId), fileId, filename, author, now, text)]
      ensures files == old(files) && trash == old(trash)
      ensures nextId == old(nextId) && nextTrashId == old(nextTrashId) && nextHistoryId == old(nextHistoryId) + 1
    {
      var entry := HistoryEntry(nextHistoryId, fileId, filename, author, now, text);
      HistoryAppended(history, files, nextHistoryId, entry);
      history := history + [entry];
      nextHistoryId := nextHistoryId + 1;
    }

    /** `/empty-trash`: every trash row is removed and every Deleted file
        becomes Purged; Current and Purged files, and every payload, stay
        as they were. */
    method EmptyTrash(now: Timestamp)
      requires Valid()
      modifies this
      ensures Valid()
      ensures trash == []
      ensures files == PurgeDeleted(old(files), now)
      ensures history == old(history)
      ensures nextId == old(nextId) && nextTrashId == old(nextTrashId) && nextHistoryId == old(nextHistoryId)
    {
      trash := [];
      var before := files;
      files := PurgeDeleted(files, now);
      ChainKeptWhenLinksKept(before, files);
    }

    /** `/clear-history`: the log is emptied; files and trash are untouched. */
    method ClearHistory()
      requires Valid()
      modifies this
      ensures Valid()
      ensures history == []
      ensures files == old(files) && trash == old(trash)
      ensures nextId == old(nextId) && nextTrashId == old(nextTrashId) && nextHistoryId == old(nextHistoryId)
    {
      history := [];
    }

    /** `/check-files`: fetches every Current row and would mark a row
        Deleted when the fetched row is missing, which no fetched row is;
        the store is left exactly as it was. */
    method CheckFiles()
      requires Valid()
      modifies this
      ensures Valid()
      ensures unchanged(this)
    {
      var table := files;
      var ids := SelectIds(table, 1, nextId, (rec: FileRecord) => rec.state == Current);
      var metaData := seq(|ids|, k requires 0 <= k < |ids| => Some(table[ids[k]]));
      for k := 0 to |metaData|
        invariant unchanged(this)
      {
        if metaData[k].None? {
          assert false;
        }
      }
    }
  }

}
