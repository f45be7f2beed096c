/**
 * The older sync command (`cmd/zotools`), over the `cache.DB` handle: the
 * same grouping of remote records as `internal/sync`, written inline, and
 * a run that deletes the database file and exits with status 1 when the
 * fetch or the save fails.
 */
module LegacySync {
  import opened Wrappers
  import opened Records
  import opened Store
  import opened Zotero
  import Sync

  /**
   * `cache.DB`. The file is opened once, read to its end by `LoadDB`, and
   * written from there, so it is modelled as the documents written to it
   * one after the other (empty for a file `LoadDB` created); `torn`
   * records that a failed write left part of a document behind, and
   * `removed` a successful `Drop`.
   */
  class DB {
    var lib: Library
    var file: seq<Library>
    var torn: bool
    var removed: bool

    constructor (lib: Library, file: seq<Library>)
      ensures this.lib == lib && this.file == file && !torn && !removed
    {
      this.lib := lib;
      this.file := file;
      torn := false;
      removed := false;
    }

    /**
     * `PersistLibrary`: write the library at the current file position,
     * after what was read. A failed `Write` may still have written some
     * bytes (`partial`), which leaves the file ending in a piece of a
     * document.
     */
    method PersistLibrary(writeOk: bool, partial: bool) returns (ok: bool)
      modifies this`file, this`torn
      ensures ok == writeOk
      ensures file == if ok then old(file) + [lib] else old(file)
      ensures torn == (old(torn) || (!ok && partial))
    {
      ok := writeOk;
      if ok {
        file := file + [lib];
      } else if partial {
        torn := true;
      }
    }

    /** `Drop`: delete the file; the library in memory stays. */
    method Drop(removeOk: bool) returns (ok: bool)
      modifies this`removed
      ensures ok == removeOk
      ensures removed == (old(removed) || ok)
    {
      ok := removeOk;
      if ok {
        removed := true;
      }
    }
  }

  /** How the older sync run ends; `ExitedAfterDrop` is `dropDB`, which always exits with status 1. */
  datatype Outcome = Persisted | NotSupported | ExitedAfterDrop(failure: Sync.Failure)

  /** The exit status of a run. */
  function ExitCode(outcome: Outcome): nat
  {
    match outcome
    case ExitedAfterDrop(_) => 1
    case _ => 0
  }

  /**
   * `SyncCommand.Run` after loading the database: a version-0 library is
   * fetched, grouped by the inline loop (the same map as `Sync.Group`) and
   * written; a failed fetch or write drops the database and exits with 1.
   * A library with a version is left alone. The run exits with status 1
   * exactly when a version-0 library could not be both fetched and saved.
   */
  method Run(db: DB, server: Server, writeOk: bool, partial: bool, removeOk: bool)
    returns (outcome: Outcome, ghost fetched: ItemsResult, ghost requests: seq<nat>)
    modifies db
    ensures old(db.lib.version) != 0 ==>
      outcome == NotSupported && requests == []
      && db.lib == old(db.lib) && db.file == old(db.file) && db.torn == old(db.torn) && db.removed == old(db.removed)
    ensures old(db.lib.version) == 0 ==>
      outcome != NotSupported
      && exists err :: Paginated(server, fetched, err, requests) && (err.Some? ==> outcome == ExitedAfterDrop(Sync.LoadItems(err.value)))
    ensures outcome.ExitedAfterDrop? ==> db.removed == (old(db.removed) || removeOk) && db.file == old(db.file)
    ensures outcome.ExitedAfterDrop? && outcome.failure.LoadItems? ==> db.lib == old(db.lib) && db.torn == old(db.torn)
    ensures outcome == ExitedAfterDrop(Sync.PersistLibrary) ==> db.torn == (old(db.torn) || partial)
    ensures outcome == Persisted || outcome == ExitedAfterDrop(Sync.PersistLibrary) ==>
      db.lib.version == fetched.version && Sync.ListsValues(db.lib.items, Sync.Group(fetched.items))
    ensures outcome == Persisted <==>
      old(db.lib.version) == 0 && writeOk && Paginated(server, fetched, None, requests)
    ensures outcome == Persisted ==>
      db.file == old(db.file) + [db.lib] && db.torn == old(db.torn) && db.removed == old(db.removed)
    ensures old(db.lib.version) == 0 && Paginated(server, fetched, None, requests) && !writeOk ==>
      outcome == ExitedAfterDrop(Sync.PersistLibrary)
    ensures ExitCode(outcome) == 1 <==>
      old(db.lib.version) == 0 && !(writeOk && Paginated(server, fetched, None, requests))
  {
    fetched, requests := ItemsResult([], 0), [];
    if db.lib.version != 0 {
      return NotSupported, fetched, requests;
    }
    var items, err;
    items, err, requests := AllItems(server);
    fetched := items;
    if err.Some? {
      var _ := db.Drop(removeOk);
      return ExitedAfterDrop(Sync.LoadItems(err.value)), fetched, requests;
    }
    var byKey := Sync.GroupRecords(items.items);
    var listed := Sync.ListValues(byKey);
    db.lib := Library(items.version, listed);
    var ok := db.PersistLibrary(writeOk, partial);
    if !ok {
      var _ := db.Drop(removeOk);
      return ExitedAfterDrop(Sync.PersistLibrary), fetched, requests;
    }
    outcome := Persisted;
  }

  /**
   * A file that already held a library at version 0 ends up holding two
   * documents after a successful save: the write starts where the read of
   * `LoadDB` stopped instead of replacing the file.
   */
  method ExistingFileExample() returns (documents: seq<Library>)
    ensures |documents| == 2 && documents[0] == Library(0, [])
  {
    var db := new DB(Library(0, []), [Library(0, [])]);
    db.lib := Library(7, []);
    var _ := db.PersistLibrary(true, false);
    documents := db.file;
  }
}
