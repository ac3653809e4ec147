/**
 * The command provider that finds executables along `PATH`, and how the
 * commands it builds turn the child process's end into an exit status.
 */
module PathCommandProvider {
  import opened Common
  import opened Platform
  import opened JsString

  /** What `makeCommand(id, executablePath)` builds, less its `execute` closure. */
  datatype PathCommand = PathCommand(name: string, path: string)

  /** What `findCommandsInPath` resolves to: `undefined`, one command, or an array of them. */
  datatype Found = Undefined | One(command: PathCommand) | Many(commands: seq<PathCommand>)

  /** The executable path tried for each directory, with `resolve` standing for `path_.resolve`. */
  function Candidates(dirs: seq<string>, id: string, resolve: (string, string) -> string): (c: seq<string>)
    ensures |c| == |dirs| && forall k :: 0 <= k < |c| ==> c[k] == resolve(dirs[k], id)
  {
    seq(|dirs|, k requires 0 <= k < |dirs| => resolve(dirs[k], id))
  }

  predicate StatOk(entries: map<string, Entry>, faults: map<string, FsError>, posix: bool, p: string)
  {
    StatOf(entries, faults, posix, p).Ok?
  }

  /** The candidates whose `stat` succeeds, in order. */
  function Hits(entries: map<string, Entry>, faults: map<string, FsError>, posix: bool, c: seq<string>)
    : (h: seq<string>)
    ensures |h| <= |c|
  {
    if c == [] then []
    else Hits(entries, faults, posix, c[..|c| - 1])
         + (if StatOk(entries, faults, posix, c[|c| - 1]) then [c[|c| - 1]] else [])
  }

  lemma {:induction false} HitsAppend(entries: map<string, Entry>, faults: map<string, FsError>, posix: bool,
                                      a: seq<string>, b: seq<string>)
    ensures Hits(entries, faults, posix, a + b) == Hits(entries, faults, posix, a) + Hits(entries, faults, posix, b)
    decreases |b|
  {
    if b == [] {
      assert a + b == a;
    } else {
      assert (a + b)[..|a + b| - 1] == a + b[..|b| - 1];
      assert (a + b)[|a + b| - 1] == b[|b| - 1];
      HitsAppend(entries, faults, posix, a, b[..|b| - 1]);
    }
  }

  /**
   * The first hit is the first candidate whose `stat` succeeds: every
   * candidate before it fails.
   */
  lemma FirstHit(entries: map<string, Entry>, faults: map<string, FsError>, posix: bool, c: seq<string>)
    requires Hits(entries, faults, posix, c) != []
    ensures exists j :: 0 <= j < |c| && c[j] == Hits(entries, faults, posix, c)[0]
                        && StatOk(entries, faults, posix, c[j])
                        && forall i :: 0 <= i < j ==> !StatOk(entries, faults, posix, c[i])
  {
    HitsMembers(entries, faults, posix, c);
    var first := Hits(entries, faults, posix, c)[0];
    assert first in Hits(entries, faults, posix, c);
    var k :| 0 <= k < |c| && c[k] == first;
    var j := 0;
    while !StatOk(entries, faults, posix, c[j])
      invariant j <= k
      invariant forall i :: 0 <= i < j ==> !StatOk(entries, faults, posix, c[i])
      decreases k - j
    {
      j := j + 1;
    }
    HitsNone(entries, faults, posix, c, j);
    FirstHitAt(entries, faults, posix, c, j);
  }

  /** No candidate in the prefix succeeds, so the prefix has no hits. */
  lemma {:induction false} HitsNone(entries: map<string, Entry>, faults: map<string, FsError>, posix: bool,
                                    c: seq<string>, j: nat)
    requires j <= |c| && forall i :: 0 <= i < j ==> !StatOk(entries, faults, posix, c[i])
    ensures Hits(entries, faults, posix, c[..j]) == []
    decreases j
  {
    if j > 0 {
      HitsExtend(entries, faults, posix, c, j - 1);
      HitsNone(entries, faults, posix, c, j - 1);
    }
  }

  /** The hits are exactly the candidates whose `stat` succeeds. */
  lemma {:induction false} HitsMembers(entries: map<string, Entry>, faults: map<string, FsError>, posix: bool,
                                       c: seq<string>)
    ensures forall x :: x in Hits(entries, faults, posix, c) <==> x in c && StatOk(entries, faults, posix, x)
    decreases |c|
  {
    if c != [] {
      var init := c[..|c| - 1];
      HitsMembers(entries, faults, posix, init);
      assert c == init + [c[|c| - 1]];
      assert forall x :: x in c <==> x in init || x == c[|c| - 1];
    }
  }

  /** One more candidate extends the hits by itself exactly when its `stat` succeeds. */
  lemma HitsExtend(entries: map<string, Entry>, faults: map<string, FsError>, posix: bool, c: seq<string>, i: nat)
    requires i < |c|
    ensures Hits(entries, faults, posix, c[..i + 1])
            == Hits(entries, faults, posix, c[..i]) + if StatOk(entries, faults, posix, c[i]) then [c[i]] else []
  {
    assert c[..i + 1][..i] == c[..i];
  }

  /** A candidate that succeeds after candidates that all failed is the first hit. */
  lemma FirstHitAt(entries: map<string, Entry>, faults: map<string, FsError>, posix: bool, c: seq<string>, i: nat)
    requires i < |c| && Hits(entries, faults, posix, c[..i]) == [] && StatOk(entries, faults, posix, c[i])
    ensures Hits(entries, faults, posix, c) != [] && Hits(entries, faults, posix, c)[0] == c[i]
  {
    HitsExtend(entries, faults, posix, c, i);
    assert c == c[..i + 1] + c[i + 1..];
    HitsAppend(entries, faults, posix, c[..i + 1], c[i + 1..]);
  }

  function Commands(id: string, paths: seq<string>): (cs: seq<PathCommand>)
    ensures |cs| == |paths| && forall k :: 0 <= k < |cs| ==> cs[k] == PathCommand(id, paths[k])
  {
    seq(|paths|, k requires 0 <= k < |paths| => PathCommand(id, paths[k]))
  }

  /** `PATH` is falsy: `undefined` or the empty string. */
  predicate PathUnset(pathVar: Option<string>)
  {
    pathVar.None? || pathVar.value == ""
  }

  /**
   * `findCommandsInPath(id, ctx, firstOnly)`, with `pathVar` for
   * `ctx.env['PATH']`. A falsy `PATH` gives `undefined`; otherwise the
   * directories are tried in order, and the result is the first hit
   * (`firstOnly`) or all hits, with an empty array when nothing is found.
   */
  method FindCommandsInPath(id: string, pathVar: Option<string>, fs: Filesystem,
                            resolve: (string, string) -> string, firstOnly: bool)
    returns (r: Found)
    ensures PathUnset(pathVar) ==> r == Undefined
    ensures !PathUnset(pathVar) ==>
      var hits := Hits(fs.entries, fs.faults, fs.posix, Candidates(Split(pathVar.value, ':'), id, resolve));
      && (firstOnly && hits != [] ==> r == One(PathCommand(id, hits[0])))
      && (!firstOnly || hits == [] ==> r == Many(Commands(id, hits)))
  {
    if pathVar.None? || pathVar.value == "" {
      return Undefined;
    }
    var dirs := Split(pathVar.value, ':');
    ghost var c := Candidates(dirs, id, resolve);
    ghost var entries, faults, posix := fs.entries, fs.faults, fs.posix;
    var results: seq<PathCommand> := [];
    for i := 0 to |dirs|
      invariant results == Commands(id, Hits(entries, faults, posix, c[..i]))
      invariant firstOnly ==> results == []
    {
      var executablePath := resolve(dirs[i], id);
      assert executablePath == c[i];
      HitsExtend(entries, faults, posix, c, i);
      var stat := fs.Stat(executablePath);
      if stat.Err? {
        continue;
      }
      var command := PathCommand(id, executablePath);
      if firstOnly {
        FirstHitAt(entries, faults, posix, c, i);
        return One(command);
      }
      CommandsAppend(id, Hits(entries, faults, posix, c[..i]), executablePath);
      results := results + [command];
    }
    assert c[..|dirs|] == c;
    return Many(results);
  }

  lemma CommandsAppend(id: string, paths: seq<string>, p: string)
    ensures Commands(id, paths + [p]) == Commands(id, paths) + [PathCommand(id, p)]
  {
    assert Commands(id, paths + [p])[|paths|] == PathCommand(id, p);
  }

  /** `lookup`: the first hit, an empty array when there is none, `undefined` without `PATH`. */
  method Lookup(id: string, pathVar: Option<string>, fs: Filesystem, resolve: (string, string) -> string)
    returns (r: Found)
    ensures PathUnset(pathVar) ==> r == Undefined
    ensures !PathUnset(pathVar) ==>
      var hits := Hits(fs.entries, fs.faults, fs.posix, Candidates(Split(pathVar.value, ':'), id, resolve));
      && (hits != [] ==> r == One(PathCommand(id, hits[0])))
      && (hits == [] ==> r == Many([]))
  {
    r := FindCommandsInPath(id, pathVar, fs, resolve, true);
  }

  /** `lookupAll`: one command per directory whose candidate exists, in `PATH` order. */
  method LookupAll(id: string, pathVar: Option<string>, fs: Filesystem, resolve: (string, string) -> string)
    returns (r: Found)
    ensures PathUnset(pathVar) ==> r == Undefined
    ensures !PathUnset(pathVar) ==>
      r == Many(Commands(id, Hits(fs.entries, fs.faults, fs.posix, Candidates(Split(pathVar.value, ':'), id, resolve))))
  {
    r := FindCommandsInPath(id, pathVar, fs, resolve, false);
  }

  // ---------------------------------------------------------------------------
  // The child process's end
  // ---------------------------------------------------------------------------

  /** How the promise `execute` returns settles: resolved `{ done: true }`, or rejected with `Exit(code)`. */
  datatype Settlement = Resolved | RejectedExit(code: int)

  /** The `{ code, signal }` record the exit listener destructures; absent or 0 is falsy. */
  datatype ExitRecord = ExitRecord(code: Option<int>, signal: Option<int>)

  predicate Truthy(v: Option<int>)
  {
    v.Some? && v.value != 0
  }

  /** The exit listener: a signal wins, then a nonzero code, else success. */
  function ExitSettlement(e: ExitRecord): Settlement
  {
    if Truthy(e.signal) then RejectedExit(1)
    else if Truthy(e.code) then RejectedExit(e.code.value)
    else Resolved
  }

  /** The line the exit listener writes to `out`. */
  function ExitLine(e: ExitRecord): string
  {
    "Exited with code " + IntegerString(if Truthy(e.code) then e.code.value else 0)
    + " and signal " + IntegerString(if Truthy(e.signal) then e.signal.value else 0) + "\n"
  }

  /** The exit status the pipeline sees for each case of the listener. */
  lemma ExitClassification(e: ExitRecord)
    ensures Truthy(e.signal) ==> ExitSettlement(e) == RejectedExit(1)
    ensures !Truthy(e.signal) && Truthy(e.code) ==> ExitSettlement(e) == RejectedExit(e.code.value)
    ensures ExitSettlement(e).RejectedExit? ==> ExitSettlement(e).code != 0
    ensures ExitSettlement(e) == Resolved <==> !Truthy(e.signal) && !Truthy(e.code)
  {
  }

  const SIGINT_EXIT: int := 130

  datatype Signal = SIGINT | OtherSignal(name: string)

  /** What happens to a running child, in order. */
  datatype ChildEvent = ProcessExited(record: ExitRecord) | SignalReceived(signal: Signal)

  /**
   * `Promise.race([exit_promise, sigint_promise])`: the first event that
   * settles either promise decides; signals other than SIGINT are ignored.
   */
  function Race(events: seq<ChildEvent>): Option<Settlement>
  {
    if events == [] then None
    else match events[0]
      case ProcessExited(e) => Some(ExitSettlement(e))
      case SignalReceived(SIGINT) => Some(RejectedExit(SIGINT_EXIT))
      case SignalReceived(_) => Race(events[1..])
  }

  /** A SIGINT before the child exits ends the command with status 130. */
  lemma {:induction false} InterruptBeforeExit(events: seq<ChildEvent>, j: nat)
    requires j < |events| && events[j] == SignalReceived(SIGINT)
    requires forall i :: 0 <= i < j ==> events[i].SignalReceived? && events[i].signal != SIGINT
    ensures Race(events) == Some(RejectedExit(SIGINT_EXIT))
    decreases j
  {
    if j > 0 {
      assert events[1..][j - 1] == events[j];
      InterruptBeforeExit(events[1..], j - 1);
    }
  }

  /** The exit that comes before any SIGINT decides the status. */
  lemma {:induction false} ExitBeforeInterrupt(events: seq<ChildEvent>, j: nat)
    requires j < |events| && events[j].ProcessExited?
    requires forall i :: 0 <= i < j ==> events[i].SignalReceived? && events[i].signal != SIGINT
    ensures Race(events) == Some(ExitSettlement(events[j].record))
    decreases j
  {
    if j > 0 {
      assert events[1..][j - 1] == events[j];
      ExitBeforeInterrupt(events[1..], j - 1);
    }
  }

  // ---------------------------------------------------------------------------
  // The exit record as node-pty delivers it
  // ---------------------------------------------------------------------------

  /** The event node-pty's `onExit` delivers: `{ exitCode, signal }`. */
  datatype PtyExitEvent = PtyExitEvent(exitCode: int, signal: Option<int>)

  /** Destructuring `{ code, signal }` from that event: there is no `code` property. */
  function DestructuredAsWritten(e: PtyExitEvent): ExitRecord
  {
    ExitRecord(None, e.signal)
  }

  /** The listener as written: a failing child's exit code is lost. */
  lemma ExitCodeLostAsWritten()
    ensures ExitSettlement(DestructuredAsWritten(PtyExitEvent(3, None))) == Resolved
    ensures ExitLine(DestructuredAsWritten(PtyExitEvent(3, None))) == "Exited with code 0 and signal 0\n"
  {
    assert IntegerString(0) == "0";
  }

  /** Reading `exitCode`, as evidently intended. */
  function Destructured(e: PtyExitEvent): ExitRecord
  {
    ExitRecord(Some(e.exitCode), e.signal)
  }

  /** With `exitCode` read, a nonzero status without a signal becomes `Exit(status)`. */
  lemma ExitCodeKept(e: PtyExitEvent)
    ensures !Truthy(e.signal) && e.exitCode != 0 ==> ExitSettlement(Destructured(e)) == RejectedExit(e.exitCode)
    ensures !Truthy(e.signal) && e.exitCode == 0 ==> ExitSettlement(Destructured(e)) == Resolved
    ensures Truthy(e.signal) ==> ExitSettlement(Destructured(e)) == RejectedExit(1)
  {
  }
}
