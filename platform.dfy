/**
 * The platform filesystem the commands talk to, as an abstract map from
 * resolved paths to entries. Which paths exist is the map; which `stat`
 * calls fail for another reason and which `mkdir` calls the platform
 * refuses are fixed tables, since the platform's own rules are not part of
 * this model.
 */
module Platform {
  import opened Common

  datatype Entry = File(data: seq<Byte>) | Directory

  /** A rejected filesystem call: the `code` and `message` of the thrown error. */
  datatype FsError = FsError(code: string, message: string)

  /** What `filesystem.mkdir` resolves to: `{ $: 'error', message }` or success. */
  datatype MkdirResult = Created | MkdirError(message: string)

  /**
   * The error code `stat` uses for a path that does not exist:
   * 'ENOENT' when `capabilities['readdir.posix-mode']` is set.
   */
  function NotFoundCode(posix: bool): (code: string)
    ensures posix ==> code == "ENOENT"
    ensures !posix ==> code == "subject_does_not_exist"
  {
    if posix then "ENOENT" else "subject_does_not_exist"
  }

  /** `stat(path)` on a filesystem state. */
  function StatOf(entries: map<string, Entry>, faults: map<string, FsError>, posix: bool, path: string)
    : (r: Result<Entry, FsError>)
    ensures r.Ok? <==> path !in faults && path in entries
    ensures r.Ok? ==> r.value == entries[path]
    ensures path in faults ==> r == Err(faults[path])
    ensures path !in faults && path !in entries ==> r.Err? && r.error.code == NotFoundCode(posix)
  {
    if path in faults then Err(faults[path])
    else if path in entries then Ok(entries[path])
    else Err(FsError(NotFoundCode(posix), ""))
  }

  class Filesystem {
    /** `capabilities['readdir.posix-mode']`. */
    const posix: bool
    /** Paths whose `stat` is rejected whether or not they exist. */
    const faults: map<string, FsError>
    /** Paths whose `mkdir` the platform refuses, with its message. */
    const refusals: map<string, string>
    var entries: map<string, Entry>

    constructor (posix: bool, faults: map<string, FsError>, refusals: map<string, string>, entries: map<string, Entry>)
      ensures this.posix == posix && this.faults == faults && this.refusals == refusals
      ensures this.entries == entries
    {
      this.posix := posix;
      this.faults := faults;
      this.refusals := refusals;
      this.entries := entries;
    }

    method Stat(path: string) returns (r: Result<Entry, FsError>)
      ensures r == StatOf(entries, faults, posix, path)
    {
      r := StatOf(entries, faults, posix, path);
    }

    /** `write(path, data)`: the path now holds a file with exactly `data`. */
    method Write(path: string, data: seq<Byte>)
      modifies this
      ensures entries == old(entries)[path := File(data)]
    {
      entries := entries[path := File(data)];
    }

    /** `mkdir(path)`: a refused path changes nothing; otherwise a directory is there. */
    method Mkdir(path: string) returns (r: MkdirResult)
      modifies this
      ensures path in refusals ==> r == MkdirError(refusals[path]) && entries == old(entries)
      ensures path !in refusals ==> r == Created && entries == old(entries)[path := Directory]
    {
      if path in refusals {
        return MkdirError(refusals[path]);
      }
      entries := entries[path := Directory];
      return Created;
    }
  }
}
