/**
 * The `touch` command: every positional, resolved against the shell
 * variables, is `stat`ed in argument order; a missing one is created as an
 * empty file, an existing one is left alone, and any other `stat` error
 * stops the command with exit status 1.
 */
module Touch {
  import opened Common
  import opened Platform

  /** How the command body ends: normally, or by throwing `Exit(code)`. */
  datatype Outcome = Done | ExitWith(code: int)

  /** The filesystem entries afterwards, the text written to `err`, and the outcome. */
  datatype TouchResult = TouchResult(entries: map<string, Entry>, err: string, outcome: Outcome)

  const MISSING_OPERAND: string := "touch: missing file operand\n"

  /** The loop over already-resolved paths, from a filesystem state. */
  function TouchPaths(entries: map<string, Entry>, faults: map<string, FsError>, posix: bool, paths: seq<string>)
    : TouchResult
    decreases |paths|
  {
    if paths == [] then TouchResult(entries, "", Done)
    else match StatOf(entries, faults, posix, paths[0])
      case Ok(_) => TouchPaths(entries, faults, posix, paths[1..])
      case Err(e) =>
        if e.code != NotFoundCode(posix) then TouchResult(entries, "touch: " + e.message + "\n", ExitWith(1))
        else TouchPaths(entries[paths[0] := File([])], faults, posix, paths[1..])
  }

  function ResolveAll(positionals: seq<string>, resolve: string -> string): (r: seq<string>)
    ensures |r| == |positionals| && forall k :: 0 <= k < |r| ==> r[k] == resolve(positionals[k])
  {
    if positionals == [] then [] else [resolve(positionals[0])] + ResolveAll(positionals[1..], resolve)
  }

  /** What `execute` does, with `resolve` standing for `resolveRelativePath(ctx.vars, _)`. */
  function TouchSpec(entries: map<string, Entry>, faults: map<string, FsError>, posix: bool,
                     positionals: seq<string>, resolve: string -> string): TouchResult
  {
    if positionals == [] then TouchResult(entries, MISSING_OPERAND, ExitWith(1))
    else TouchPaths(entries, faults, posix, ResolveAll(positionals, resolve))
  }

  /** `touch` `execute`. */
  method Execute(fs: Filesystem, positionals: seq<string>, resolve: string -> string)
    returns (err: string, outcome: Outcome)
    modifies fs
    ensures TouchResult(fs.entries, err, outcome)
            == TouchSpec(old(fs.entries), fs.faults, fs.posix, positionals, resolve)
  {
    if |positionals| == 0 {
      return MISSING_OPERAND, ExitWith(1);
    }
    ghost var paths := ResolveAll(positionals, resolve);
    ghost var goal := TouchPaths(fs.entries, fs.faults, fs.posix, paths);
    for i := 0 to |positionals|
      invariant TouchPaths(fs.entries, fs.faults, fs.posix, paths[i..]) == goal
    {
      var path := resolve(positionals[i]);
      assert paths[i..][0] == path && paths[i..][1..] == paths[i + 1..];
      var stat := fs.Stat(path);
      if stat.Err? {
        if stat.error.code != NotFoundCode(fs.posix) {
          return "touch: " + stat.error.message + "\n", ExitWith(1);
        }
        fs.Write(path, []);
      }
    }
    return "", Done;
  }

  /** `stat` does not claim that `p` is missing while it exists. */
  predicate StatSeesEntry(faults: map<string, FsError>, posix: bool, p: string)
  {
    !(p in faults && faults[p].code == NotFoundCode(posix))
  }

  /**
   * No entry is ever removed, and existing entries whose `stat` does not
   * report them missing are never changed.
   */
  lemma {:induction false} TouchKeepsExisting(entries: map<string, Entry>, faults: map<string, FsError>, posix: bool,
                                              paths: seq<string>)
    ensures var r := TouchPaths(entries, faults, posix, paths);
      && (forall p :: p in entries ==> p in r.entries)
      && (forall p :: p in entries && StatSeesEntry(faults, posix, p) ==> r.entries[p] == entries[p])
    decreases |paths|
  {
    if paths != [] {
      var stat := StatOf(entries, faults, posix, paths[0]);
      if stat.Ok? {
        TouchKeepsExisting(entries, faults, posix, paths[1..]);
      } else if stat.error.code == NotFoundCode(posix) {
        var e' := entries[paths[0] := File([])];
        TouchKeepsExisting(e', faults, posix, paths[1..]);
        var r := TouchPaths(e', faults, posix, paths[1..]);
        assert TouchPaths(entries, faults, posix, paths) == r;
        forall p | p in entries && StatSeesEntry(faults, posix, p)
          ensures r.entries[p] == entries[p]
        {
          assert p != paths[0];
        }
      }
    }
  }

  /** Every entry afterwards is an entry from before, unchanged, or an empty file at one of the paths. */
  lemma {:induction false} TouchCreatesEmptyFiles(entries: map<string, Entry>, faults: map<string, FsError>, posix: bool,
                                                  paths: seq<string>)
    ensures var r := TouchPaths(entries, faults, posix, paths);
      forall p :: p in r.entries ==>
        (p in entries && r.entries[p] == entries[p]) || (r.entries[p] == File([]) && p in paths)
    decreases |paths|
  {
    if paths != [] {
      var e' := if StatOf(entries, faults, posix, paths[0]).Ok? then entries else entries[paths[0] := File([])];
      TouchCreatesEmptyFiles(e', faults, posix, paths[1..]);
    }
  }

  /** When the command finishes normally, every path exists. */
  lemma {:induction false} TouchDoneCoversAll(entries: map<string, Entry>, faults: map<string, FsError>, posix: bool,
                                              paths: seq<string>)
    requires TouchPaths(entries, faults, posix, paths).outcome == Done
    ensures forall p :: p in paths ==> p in TouchPaths(entries, faults, posix, paths).entries
    ensures TouchPaths(entries, faults, posix, paths).err == ""
    decreases |paths|
  {
    if paths != [] {
      var e' := if StatOf(entries, faults, posix, paths[0]).Ok? then entries else entries[paths[0] := File([])];
      TouchDoneCoversAll(e', faults, posix, paths[1..]);
      TouchKeepsExisting(e', faults, posix, paths[1..]);
    }
  }

  /**
   * Paths are handled in order: the result for `a + b` is the result for
   * `a` if that stops with an error (later paths untouched), and otherwise
   * the result for `b` from the state `a` left.
   */
  lemma {:induction false} TouchInOrder(entries: map<string, Entry>, faults: map<string, FsError>, posix: bool,
                                        a: seq<string>, b: seq<string>)
    ensures var ra := TouchPaths(entries, faults, posix, a);
      TouchPaths(entries, faults, posix, a + b)
      == if ra.outcome.ExitWith? then ra else TouchPaths(ra.entries, faults, posix, b)
    decreases |a|
  {
    if a == [] {
      assert a + b == b;
    } else {
      assert (a + b)[0] == a[0] && (a + b)[1..] == a[1..] + b;
      var e' := if StatOf(entries, faults, posix, a[0]).Ok? then entries else entries[a[0] := File([])];
      TouchInOrder(e', faults, posix, a[1..], b);
    }
  }

  /** A `stat` error other than "not found" is reported as `touch: <message>` with status 1. */
  lemma TouchReportsStatError(entries: map<string, Entry>, faults: map<string, FsError>, posix: bool,
                              path: string, rest: seq<string>)
    requires path in faults && faults[path].code != NotFoundCode(posix)
    ensures TouchPaths(entries, faults, posix, [path] + rest)
            == TouchResult(entries, "touch: " + faults[path].message + "\n", ExitWith(1))
  {
  }

  /** With no positionals nothing is touched and the operand error is reported. */
  lemma TouchMissingOperand(entries: map<string, Entry>, faults: map<string, FsError>, posix: bool,
                            resolve: string -> string)
    ensures TouchSpec(entries, faults, posix, [], resolve) == TouchResult(entries, MISSING_OPERAND, ExitWith(1))
  {
  }
}
