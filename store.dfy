/**
 * The storage handle of `common.Storage`: the in-memory document and the
 * backing file, the latter reduced to the document a `Load` would read
 * from it. Serialisation and the file system are not modelled; whether a
 * write succeeds, and how far a failed one got, are parameters.
 */
module Store {
  import opened Wrappers
  import opened Records

  /** The document a fresh storage starts from: version 0, no items, no search. */
  const EmptyData := StoredData(Library(0, []), None)

  /**
   * How far a failed `Persist` got. Serialising or opening the file can
   * fail before anything is written; `os.WriteFile` truncates the file
   * before writing, so a write that fails after that leaves no document
   * that decodes; and a failed `Close` after a complete write is reported
   * as a failure although the whole document is on disk.
   */
  datatype Fault = BeforeWrite | AfterTruncate | AtClose

  /** What the file holds after a failed `Persist` of `data`, given what it held before. */
  function AfterFault(before: Option<StoredData>, data: StoredData, fault: Fault): Option<StoredData>
  {
    match fault
    case BeforeWrite => before
    case AfterTruncate => None
    case AtClose => Some(data)
  }

  class Storage {
    /** `Storage.Data`. */
    var data: StoredData
    /** The document a `Load` reads from the backing file; `None` when there is no file or it does not decode. */
    var disk: Option<StoredData>

    /** `NewStorage`: an empty library, whatever the file holds. */
    constructor (disk: Option<StoredData>)
      ensures data == EmptyData && this.disk == disk
    {
      data := EmptyData;
      this.disk := disk;
    }

    /**
     * `Load`: replace the document by the file's; without a file, or with
     * one that does not decode, it fails and the document stays.
     */
    method Load() returns (ok: bool)
      modifies this`data
      ensures ok <==> disk.Some?
      ensures data == if ok then disk.value else old(data)
    {
      ok := disk.Some?;
      if ok {
        data := disk.value;
      }
    }

    /**
     * `Persist`: write the whole document; when the write fails, `fault`
     * says how far it got (see `AfterFault`).
     */
    method Persist(writeOk: bool, fault: Fault) returns (ok: bool)
      modifies this`disk
      ensures ok == writeOk
      ensures disk == if ok then Some(data) else AfterFault(old(disk), data, fault)
    {
      ok := writeOk;
      if !ok {
        disk := AfterFault(disk, data, fault);
      } else {
        disk := Some(data);
      }
    }
  }
}
