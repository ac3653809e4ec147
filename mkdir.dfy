/**
 * The `mkdir` command: only the first positional is used; a relative path
 * is resolved against the working directory, and an error result from the
 * platform becomes a thrown error carrying its message.
 */
module MkdirCommand {
  import opened Common
  import opened Platform
  import opened JsString

  /** Why `execute` throws: `validate_string` rejected the target, or the platform refused. */
  datatype MkdirFailure = NotAString | Refused(message: string)

  /**
   * The path given to `filesystem.mkdir`, with `resolve` standing for
   * `path.resolve`; `None` when there is no positional and the target is
   * `undefined`.
   */
  function MkdirTarget(positionals: seq<string>, pwd: string, resolve: (string, string) -> string): Option<string>
  {
    if positionals == [] then None
    else if StartsWith(positionals[0], "/") then Some(positionals[0])
    else Some(resolve(pwd, positionals[0]))
  }

  /**
   * `mkdir` `execute`. The parsed options (the declared `parents`/`-p`
   * flag) are taken but, as in the command, never read.
   */
  method Execute(fs: Filesystem, positionals: seq<string>, options: map<string, bool>, pwd: string,
                 resolve: (string, string) -> string)
    returns (r: Result<(), MkdirFailure>)
    modifies fs
    ensures MkdirTarget(positionals, pwd, resolve).None? ==> r == Err(NotAString) && fs.entries == old(fs.entries)
    ensures MkdirTarget(positionals, pwd, resolve).Some? ==>
      var target := MkdirTarget(positionals, pwd, resolve).value;
      && (target in fs.refusals ==> r == Err(Refused(fs.refusals[target])) && fs.entries == old(fs.entries))
      && (target !in fs.refusals ==> r == Ok(()) && fs.entries == old(fs.entries)[target := Directory])
  {
    if |positionals| == 0 {
      return Err(NotAString);
    }
    var target := positionals[0];
    if !StartsWith(target, "/") {
      target := resolve(pwd, target);
    }
    var result := fs.Mkdir(target);
    if result.MkdirError? {
      return Err(Refused(result.message));
    }
    return Ok(());
  }

  /** Positionals after the first have no effect on the target. */
  lemma OnlyFirstPositional(t: string, rest: seq<string>, pwd: string, resolve: (string, string) -> string)
    ensures MkdirTarget([t] + rest, pwd, resolve) == MkdirTarget([t], pwd, resolve)
  {
  }

  /** An absolute target is used as given; a relative one is resolved against `pwd`. */
  lemma TargetResolution(t: string, pwd: string, resolve: (string, string) -> string)
    ensures t != [] && t[0] == '/' ==> MkdirTarget([t], pwd, resolve) == Some(t)
    ensures (t == [] || t[0] != '/') ==> MkdirTarget([t], pwd, resolve) == Some(resolve(pwd, t))
  {
  }
}
