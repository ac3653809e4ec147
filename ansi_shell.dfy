/**
 * The shell session: the variable store that reports every assignment as
 * a change event, the environment with its computed entries, the prompt
 * string expansion, and what one prompt iteration does with the line read.
 */
module AnsiShell {
  import opened Common
  import opened JsString
  import Pipelines

  /** A JavaScript value as far as the shell uses one; `Dims` is the `{ rows, cols }` size object. */
  datatype Value = Undefined | Text(s: string) | Num(n: int) | Dims(rows: int, cols: int)

  /** The detail of a 'shell-var-change' event. */
  datatype VarChange = VarChange(key: string, oldValue: Value, newValue: Value)

  /** A getter installed in the environment: a shell variable, or a dimension of `size`. */
  datatype Getter = VarGetter(name: string) | SizeRows | SizeCols

  /** An environment property: a data property, or an accessor with its getter, setter and configurability. */
  datatype Property =
    | Data(value: Value)
    | Accessor(get: Getter, setter: Option<string>, configurable: bool)

  /** What `export_` is given: a function (here, a getter) or any other value. */
  datatype Exported = Function(getter: Getter) | Plain(value: Value)

  /** `String(v)`, as `replace` converts its replacement. */
  function ToString(v: Value): string
  {
    match v
    case Undefined => "undefined"
    case Text(s) => s
    case Num(n) => IntegerString(n)
    case Dims(_, _) => "[object Object]"
  }

  function Lookup(variables: map<string, Value>, k: string): Value
  {
    if k in variables then variables[k] else Undefined
  }

  /** `this.variables.size?.rows ?? 0`, and the same for `cols`. */
  function Evaluate(g: Getter, variables: map<string, Value>): Value
  {
    match g
    case VarGetter(name) => Lookup(variables, name)
    case SizeRows => if Lookup(variables, "size").Dims? then Num(Lookup(variables, "size").rows) else Num(0)
    case SizeCols => if Lookup(variables, "size").Dims? then Num(Lookup(variables, "size").cols) else Num(0)
  }

  /** Reading `env[k]`: a getter is evaluated on every read. */
  function EnvGet(variables: map<string, Value>, env: map<string, Property>, k: string): Value
  {
    if k !in env then Undefined
    else match env[k]
      case Data(v) => v
      case Accessor(g, _, _) => Evaluate(g, variables)
  }

  /** The default `PS1`: user name, host, working directory, then the prompt sign. */
  const DEFAULT_PS1: string := "[\\u@puter.com \\w]\\$ "

  /** The environment `initializeReasonableDefaults` leaves. */
  function DefaultEnv(): map<string, Property>
  {
    map[
      "PWD" := Accessor(VarGetter("pwd"), Some("pwd"), false),
      "ROWS" := Accessor(SizeRows, None, false),
      "COLS" := Accessor(SizeCols, None, false),
      "HOME" := Accessor(VarGetter("home"), None, false),
      "USER" := Accessor(VarGetter("user"), None, false),
      "TERM" := Data(Text("xterm-256color")),
      "TERM_PROGRAM" := Data(Text("puter-ansi")),
      "PS1" := Data(Text(DEFAULT_PS1)),
      "LANG" := Data(Text("en_US.UTF-8"))
    ]
  }

  /** `'/' + username`, where an absent username reads as "undefined". */
  function HomeOf(username: Value): string
  {
    "/" + ToString(username)
  }

  /** What `export_(k, v)` does to the environment: a new one, a setter call, or a `TypeError`. */
  datatype ExportEffect = NewEnv(env: map<string, Property>) | CallSetter(variable: string, value: Value) | ExportTypeError

  /**
   * `export_`. A function becomes a getter through `Object.defineProperty`,
   * which fails on an existing non-configurable property; a new accessor is
   * not configurable and has no setter. Any other value is assigned, which
   * in strict code calls the setter of an accessor and fails without one.
   */
  function ExportOf(env: map<string, Property>, k: string, v: Exported): ExportEffect
  {
    match v
    case Function(g) =>
      if k !in env then NewEnv(env[k := Accessor(g, None, false)])
      else (match env[k]
        case Data(_) => NewEnv(env[k := Accessor(g, None, true)])
        case Accessor(_, s, configurable) =>
          if configurable then NewEnv(env[k := Accessor(g, s, true)]) else ExportTypeError)
    case Plain(value) =>
      if k !in env || env[k].Data? then NewEnv(env[k := Data(value)])
      else if env[k].setter.Some? then CallSetter(env[k].setter.value, value)
      else ExportTypeError
  }

  /** `expandPromptString`: the first `\u`, then the first `\w`, then the first `\$`. */
  function ExpandPromptString(str: string, variables: map<string, Value>): string
  {
    var s1 := ReplaceFirst(str, "\\u", ToString(Lookup(variables, "user")));
    var s2 := ReplaceFirst(s1, "\\w", ToString(Lookup(variables, "pwd")));
    ReplaceFirst(s2, "\\$", "$")
  }

  /** Thrown by `runPipeline` when `readtoken` failed and `tokens` is `undefined`. */
  const UNDEFINED_TOKENS_MESSAGE: string := Pipelines.CannotRead("undefined", "length")

  /** The lines the catch in `doPromptIteration` writes; a syntax error is first shown in place. */
  function ReportFailure(f: Pipelines.Failure, here: string): seq<string>
  {
    (if f.ConcreteSyntaxError? then [here + "\n"] else []) + ["error: " + f.message + "\n"]
  }

  /** What one iteration writes to `out`, the debug features after it, and the pipeline it ran. */
  datatype Iteration = Iteration(writes: seq<string>, debugFeatures: map<string, bool>,
                                 executed: Option<Pipelines.PipelineNode>)

  /** The `%%%` debug instruction: the flag is the second word, on only when the third is exactly "on". */
  function DebugInstruction(input: string, debugFeatures: map<string, bool>): Iteration
  {
    var words := Split(input, ' ');
    var flag := if |words| > 1 then Some(words[1]) else None;
    var isOn := |words| > 2 && words[2] == "on";
    var shown := if flag.Some? then JsonQuote(flag.value) else "undefined";
    var key := if flag.Some? then flag.value else "undefined";
    Iteration(["%%%: interpreting as debug instruction\n",
               "%%%: Setting " + shown + " to " + (if isOn then "ON" else "OFF") + "\n"],
              debugFeatures[key := isOn], None)
  }

  predicate ShowAst(debugFeatures: map<string, bool>)
  {
    "show-ast" in debugFeatures && debugFeatures["show-ast"]
  }

  /**
   * `runPipeline` on a line, with what `readtoken` gives (`parsed`), the
   * JSON text of the token list (`astJson`), and what running a pipeline
   * throws (`run`); a failure is reported by the caller's catch.
   */
  function RunPipelineOf(input: string, parsed: Result<seq<Pipelines.PipelineNode>, string>, astJson: string,
                         debugFeatures: map<string, bool>,
                         run: Pipelines.PipelineNode -> Option<Pipelines.Failure>, here: string): (it: Iteration)
    ensures it.debugFeatures == debugFeatures
  {
    match parsed
    case Err(message) =>
      Iteration(["error: " + message + "\n", "error: " + UNDEFINED_TOKENS_MESSAGE + "\n"], debugFeatures, None)
    case Ok(tokens) =>
      if |tokens| == 0 then Iteration([], debugFeatures, None)
      else if |tokens| > 1 then Iteration(["something went wrong...\n"], debugFeatures, None)
      else if ShowAst(debugFeatures) then Iteration([astJson + "\n"], debugFeatures, None)
      else
        var thrown := run(tokens[0]);
        Iteration(if thrown.Some? then ReportFailure(thrown.value, here) else [], debugFeatures, Some(tokens[0]))
  }

  /** `doPromptIteration` after the line is read. */
  function Dispatch(input: string, parsed: Result<seq<Pipelines.PipelineNode>, string>, astJson: string,
                    debugFeatures: map<string, bool>,
                    run: Pipelines.PipelineNode -> Option<Pipelines.Failure>, here: string): Iteration
  {
    if Trim(input) == "" then Iteration([""], debugFeatures, None)
    else if StartsWith(input, "%%%") then DebugInstruction(input, debugFeatures)
    else RunPipelineOf(input, parsed, astJson, debugFeatures, run, here)
  }

  class Shell {
    var variables: map<string, Value>
    /** The 'shell-var-change' events dispatched, oldest first. */
    var events: seq<VarChange>
    var env: map<string, Property>
    var debugFeatures: map<string, bool>
    /** What the shell itself wrote to `ctx.externs.out`. */
    var out: seq<string>
    /** Whether `ctx.externs.echo` is on: the terminal echoes typed input. */
    var echo: bool

    /** The constructor with `initializeReasonableDefaults`; `username` is `config['puter.auth.username']`. */
    constructor (username: Value)
      ensures variables == map["pwd" := Text(HomeOf(username)), "home" := Text(HomeOf(username)), "user" := username]
      ensures events == [VarChange("pwd", Undefined, Text(HomeOf(username))),
                         VarChange("home", Undefined, Text(HomeOf(username))),
                         VarChange("user", Undefined, username)]
      ensures env == DefaultEnv()
      ensures debugFeatures == map[] && out == []
    {
      variables := map[];
      events := [];
      env := map[];
      debugFeatures := map[];
      out := [];
      new;
      var home := HomeOf(username);
      SetVar("pwd", Text(home));
      SetVar("home", Text(home));
      SetVar("user", username);
      env := env["PWD" := Accessor(VarGetter("pwd"), Some("pwd"), false)];
      env := env["ROWS" := Accessor(SizeRows, None, false)];
      env := env["COLS" := Accessor(SizeCols, None, false)];
      ExportDefaults();
    }

    /** The default values `initializeReasonableDefaults` exports after the computed entries. */
    method ExportDefaults()
      modifies this
      requires env == map["PWD" := Accessor(VarGetter("pwd"), Some("pwd"), false),
                          "ROWS" := Accessor(SizeRows, None, false),
                          "COLS" := Accessor(SizeCols, None, false)]
      ensures env == DefaultEnv()
      ensures variables == old(variables) && events == old(events)
      ensures debugFeatures == old(debugFeatures) && out == old(out) && echo == old(echo)
    {
      ExportGetter("HOME", "home");
      ExportGetter("USER", "user");
      ExportText("TERM", "xterm-256color");
      ExportText("TERM_PROGRAM", "puter-ansi");
      ExportText("PS1", DEFAULT_PS1);
      ExportText("LANG", "en_US.UTF-8");
    }

    /** `export_(k, () => this.variables[name])` for a name not yet in the environment. */
    method ExportGetter(k: string, name: string)
      modifies this
      requires k !in env
      ensures env == old(env)[k := Accessor(VarGetter(name), None, false)]
      ensures variables == old(variables) && events == old(events)
      ensures debugFeatures == old(debugFeatures) && out == old(out) && echo == old(echo)
    {
      var _ := Export(k, Function(VarGetter(name)));
    }

    /** `export_(k, value)` of a string for a name not yet in the environment. */
    method ExportText(k: string, value: string)
      modifies this
      requires k !in env
      ensures env == old(env)[k := Data(Text(value))]
      ensures variables == old(variables) && events == old(events)
      ensures debugFeatures == old(debugFeatures) && out == old(out) && echo == old(echo)
    {
      var _ := Export(k, Plain(Text(value)));
    }

    /** The `set` trap of `variables`: store, then dispatch one event with the old and new value. */
    method SetVar(k: string, v: Value)
      modifies this
      ensures variables == old(variables)[k := v]
      ensures events == old(events) + [VarChange(k, Lookup(old(variables), k), v)]
      ensures env == old(env) && debugFeatures == old(debugFeatures) && out == old(out) && echo == old(echo)
    {
      var oldval := Lookup(variables, k);
      variables := variables[k := v];
      events := events + [VarChange(k, oldval, Lookup(variables, k))];
    }

    /** The 'signal.window-resize' listener. */
    method OnWindowResize(rows: int, cols: int)
      modifies this
      ensures variables == old(variables)["size" := Dims(rows, cols)]
      ensures events == old(events) + [VarChange("size", Lookup(old(variables), "size"), Dims(rows, cols))]
      ensures env == old(env) && debugFeatures == old(debugFeatures) && out == old(out) && echo == old(echo)
    {
      SetVar("size", Dims(rows, cols));
    }

    /** `export_(k, v)`; `false` when it throws a `TypeError`. */
    method Export(k: string, v: Exported) returns (ok: bool)
      modifies this
      ensures ok <==> !ExportOf(old(env), k, v).ExportTypeError?
      ensures ExportOf(old(env), k, v).NewEnv? ==>
        env == ExportOf(old(env), k, v).env && variables == old(variables) && events == old(events)
      ensures ExportOf(old(env), k, v).CallSetter? ==>
        var call := ExportOf(old(env), k, v);
        && env == old(env)
        && variables == old(variables)[call.variable := call.value]
        && events == old(events) + [VarChange(call.variable, Lookup(old(variables), call.variable), call.value)]
      ensures ExportOf(old(env), k, v).ExportTypeError? ==> env == old(env) && variables == old(variables) && events == old(events)
      ensures debugFeatures == old(debugFeatures) && out == old(out) && echo == old(echo)
    {
      match ExportOf(env, k, v) {
        case NewEnv(e) =>
          env := e;
          return true;
        case CallSetter(name, value) =>
          SetVar(name, value);
          return true;
        case ExportTypeError =>
          return false;
      }
    }

    /**
     * `doPromptIteration` once `readline` has returned `input`; `None`
     * when `PS1` is not a string and expanding it throws.
     */
    method DoPromptIteration(input: string, parsed: Result<seq<Pipelines.PipelineNode>, string>, astJson: string,
                             run: Pipelines.PipelineNode -> Option<Pipelines.Failure>, here: string)
      returns (prompt: Option<string>, executed: Option<Pipelines.PipelineNode>)
      modifies this
      ensures !EnvGet(old(variables), old(env), "PS1").Text? ==>
        prompt == None && executed == None && out == old(out) && debugFeatures == old(debugFeatures)
      ensures EnvGet(old(variables), old(env), "PS1").Text? ==>
        var it := Dispatch(input, parsed, astJson, old(debugFeatures), run, here);
        && prompt == Some(ExpandPromptString(EnvGet(old(variables), old(env), "PS1").s, old(variables)))
        && out == old(out) + it.writes && debugFeatures == it.debugFeatures && executed == it.executed
      ensures variables == old(variables) && events == old(events) && env == old(env)
      ensures echo <==> EnvGet(old(variables), old(env), "PS1").Text?
    {
      echo := false;
      var ps1 := EnvGet(variables, env, "PS1");
      if !ps1.Text? {
        return None, None;
      }
      prompt := Some(ExpandPromptString(ps1.s, variables));
      echo := true;
      executed := HandleInput(input, parsed, astJson, run, here);
    }

    /** What `doPromptIteration` does with the line `readline` returned. */
    method HandleInput(input: string, parsed: Result<seq<Pipelines.PipelineNode>, string>, astJson: string,
                       run: Pipelines.PipelineNode -> Option<Pipelines.Failure>, here: string)
      returns (executed: Option<Pipelines.PipelineNode>)
      modifies this
      ensures var it := Dispatch(input, parsed, astJson, old(debugFeatures), run, here);
        out == old(out) + it.writes && debugFeatures == it.debugFeatures && executed == it.executed
      ensures variables == old(variables) && events == old(events) && env == old(env) && echo == old(echo)
    {
      if Trim(input) == "" {
        assert Dispatch(input, parsed, astJson, debugFeatures, run, here) == Iteration([""], debugFeatures, None);
        out := out + [""];
        return None;
      }

      if StartsWith(input, "%%%") {
        assert Dispatch(input, parsed, astJson, debugFeatures, run, here) == DebugInstruction(input, debugFeatures);
        SetDebugFeature(input);
        return None;
      }

      assert Dispatch(input, parsed, astJson, debugFeatures, run, here)
             == RunPipelineOf(input, parsed, astJson, debugFeatures, run, here);
      executed := RunPipeline(input, parsed, astJson, run, here);
    }

    /** The `%%%` branch of `doPromptIteration`. */
    method SetDebugFeature(input: string)
      modifies this
      ensures var it := DebugInstruction(input, old(debugFeatures));
        out == old(out) + it.writes && debugFeatures == it.debugFeatures
      ensures variables == old(variables) && events == old(events) && env == old(env) && echo == old(echo)
    {
      out := out + ["%%%: interpreting as debug instruction\n"];
      var words := Split(input, ' ');
      var flag := if |words| > 1 then Some(words[1]) else None;
      var isOn := |words| > 2 && words[2] == "on";
      var shown := if flag.Some? then JsonQuote(flag.value) else "undefined";
      out := out + ["%%%: Setting " + shown + " to " + (if isOn then "ON" else "OFF") + "\n"];
      debugFeatures := debugFeatures[(if flag.Some? then flag.value else "undefined") := isOn];
    }

    /** `runPipeline` with the catch around it in `doPromptIteration`. */
    method RunPipeline(input: string, parsed: Result<seq<Pipelines.PipelineNode>, string>, astJson: string,
                       run: Pipelines.PipelineNode -> Option<Pipelines.Failure>, here: string)
      returns (executed: Option<Pipelines.PipelineNode>)
      modifies this
      ensures var it := RunPipelineOf(input, parsed, astJson, old(debugFeatures), run, here);
        out == old(out) + it.writes && executed == it.executed
      ensures variables == old(variables) && events == old(events) && env == old(env) && echo == old(echo)
      ensures debugFeatures == old(debugFeatures)
    {
      if parsed.Err? {
        out := out + ["error: " + parsed.error + "\n"];
        // `tokens` is undefined, so reading its length throws
        out := out + ["error: " + UNDEFINED_TOKENS_MESSAGE + "\n"];
        return None;
      }
      var tokens := parsed.value;
      if |tokens| == 0 {
        return None;
      }
      if |tokens| > 1 {
        out := out + ["something went wrong...\n"];
        return None;
      }
      var ast := tokens[0];
      if "show-ast" in debugFeatures && debugFeatures["show-ast"] {
        out := out + [astJson + "\n"];
        return None;
      }
      var thrown := run(ast);
      if thrown.Some? {
        if thrown.value.ConcreteSyntaxError? {
          out := out + [here + "\n"];
        }
        out := out + ["error: " + thrown.value.message + "\n"];
      }
      return Some(ast);
    }
  }

  // ---------------------------------------------------------------------------
  // Properties
  // ---------------------------------------------------------------------------

  /** The computed entries of the default environment follow the variables on every read. */
  lemma DefaultComputedEntries(variables: map<string, Value>)
    ensures EnvGet(variables, DefaultEnv(), "PWD") == Lookup(variables, "pwd")
    ensures EnvGet(variables, DefaultEnv(), "HOME") == Lookup(variables, "home")
    ensures EnvGet(variables, DefaultEnv(), "USER") == Lookup(variables, "user")
    ensures Lookup(variables, "size").Dims? ==>
      EnvGet(variables, DefaultEnv(), "ROWS") == Num(Lookup(variables, "size").rows)
      && EnvGet(variables, DefaultEnv(), "COLS") == Num(Lookup(variables, "size").cols)
    ensures !Lookup(variables, "size").Dims? ==>
      EnvGet(variables, DefaultEnv(), "ROWS") == Num(0) && EnvGet(variables, DefaultEnv(), "COLS") == Num(0)
    ensures EnvGet(variables, DefaultEnv(), "PS1") == Text(DEFAULT_PS1)
  {
  }

  /** Assigning `env.PWD` goes through its setter to `variables.pwd`. */
  lemma PwdWritesThrough(value: Value)
    ensures ExportOf(DefaultEnv(), "PWD", Plain(value)) == CallSetter("pwd", value)
  {
  }

  /**
   * `HOME`, `USER`, `ROWS`, `COLS` and `PWD` are neither reassignable as
   * getters nor, except `PWD`, as values: the defaults are not configurable
   * and only `PWD` has a setter.
   */
  lemma DefaultAccessorsFixed(k: string, g: Getter, value: Value)
    requires k in {"HOME", "USER", "ROWS", "COLS", "PWD"}
    ensures ExportOf(DefaultEnv(), k, Function(g)) == ExportTypeError
    ensures k != "PWD" ==> ExportOf(DefaultEnv(), k, Plain(value)) == ExportTypeError
  {
  }

  /** An exported function is a getter evaluated at each read; any other value is stored and read back. */
  lemma ExportedEntries(env: map<string, Property>, k: string, name: string, value: Value,
                        variables: map<string, Value>)
    ensures k !in env ==>
      ExportOf(env, k, Function(VarGetter(name))).NewEnv?
      && EnvGet(variables, ExportOf(env, k, Function(VarGetter(name))).env, k) == Lookup(variables, name)
    ensures (k !in env || env[k].Data?) ==>
      ExportOf(env, k, Plain(value)).NewEnv? && EnvGet(variables, ExportOf(env, k, Plain(value)).env, k) == value
    ensures ExportOf(env, k, Plain(value)).NewEnv? ==>
      forall j :: j != k ==> EnvGet(variables, ExportOf(env, k, Plain(value)).env, j) == EnvGet(variables, env, j)
  {
  }

  /** A blank line writes an empty string and runs nothing. */
  lemma BlankInput(input: string, parsed: Result<seq<Pipelines.PipelineNode>, string>, astJson: string,
                   debugFeatures: map<string, bool>,
                   run: Pipelines.PipelineNode -> Option<Pipelines.Failure>, here: string)
    requires AllWhitespace(input)
    ensures Dispatch(input, parsed, astJson, debugFeatures, run, here) == Iteration([""], debugFeatures, None)
  {
    TrimEmpty(input);
  }

  /**
   * A `%%%` line never runs a pipeline: it sets the named flag, on exactly
   * when the third word is "on", and leaves the other flags alone.
   */
  lemma DebugLine(input: string, parsed: Result<seq<Pipelines.PipelineNode>, string>, astJson: string,
                  debugFeatures: map<string, bool>,
                  run: Pipelines.PipelineNode -> Option<Pipelines.Failure>, here: string)
    requires StartsWith(input, "%%%")
    ensures var it := Dispatch(input, parsed, astJson, debugFeatures, run, here);
      var words := Split(input, ' ');
      && it.executed == None
      && |it.writes| == 2 && it.writes[0] == "%%%: interpreting as debug instruction\n"
      && (|words| > 1 ==> it.debugFeatures == debugFeatures[words[1] := |words| > 2 && words[2] == "on"])
      && (|words| == 1 ==> it.debugFeatures == debugFeatures["undefined" := false])
  {
    NotBlank(input);
    assert Dispatch(input, parsed, astJson, debugFeatures, run, here) == DebugInstruction(input, debugFeatures);
  }

  /** A line starting with a non-whitespace character does not trim to nothing. */
  lemma NotBlank(input: string)
    requires input != [] && !IsJsWhitespace(input[0])
    ensures Trim(input) != ""
  {
    TrimEmpty(input);
  }

  /**
   * The guards of `runPipeline`: no token runs nothing, several tokens and
   * the `show-ast` flag run nothing and write one line; a single token with
   * the flag off is run.
   */
  lemma RunPipelineGuards(input: string, tokens: seq<Pipelines.PipelineNode>, astJson: string,
                          debugFeatures: map<string, bool>,
                          run: Pipelines.PipelineNode -> Option<Pipelines.Failure>, here: string)
    ensures var it := RunPipelineOf(input, Ok(tokens), astJson, debugFeatures, run, here);
      && (|tokens| == 0 ==> it == Iteration([], debugFeatures, None))
      && (|tokens| > 1 ==> it == Iteration(["something went wrong...\n"], debugFeatures, None))
      && (|tokens| == 1 && ShowAst(debugFeatures) ==> it == Iteration([astJson + "\n"], debugFeatures, None))
      && (|tokens| == 1 && !ShowAst(debugFeatures) ==> it.executed == Some(tokens[0]))
      && it.debugFeatures == debugFeatures
  {
  }

  /** A tokenizer error is reported, and then so is the `TypeError` from reading the missing tokens. */
  lemma TokenizerError(input: string, message: string, astJson: string, debugFeatures: map<string, bool>,
                       run: Pipelines.PipelineNode -> Option<Pipelines.Failure>, here: string)
    ensures RunPipelineOf(input, Err(message), astJson, debugFeatures, run, here).writes
            == ["error: " + message + "\n", "error: " + UNDEFINED_TOKENS_MESSAGE + "\n"]
    ensures RunPipelineOf(input, Err(message), astJson, debugFeatures, run, here).executed == None
  {
  }

  // ---------------------------------------------------------------------------
  // The prompt
  // ---------------------------------------------------------------------------

  /** The first occurrence of `p` is at `i` when it occurs there and its first character does not occur earlier. */
  lemma FirstOccurrence(s: string, p: string, i: nat)
    requires p != [] && OccursAt(s, p, i)
    requires forall k :: 0 <= k < i ==> s[k] != p[0]
    ensures IndexOf(s, p) == Some(i)
  {
    assert IndexOf(s, p).Some?;
    var j := IndexOf(s, p).value;
    assert s[j] == s[j..j + |p|][0] == p[0];
  }

  /** Replacing in `a + p + b`, where `a` cannot hold the start of `p`, replaces exactly that `p`. */
  lemma ReplaceAfter(a: string, p: string, b: string, repl: string)
    requires p != [] && p[0] !in a
    ensures ReplaceFirst(a + p + b, p, repl) == a + Substitute(repl, p, a, b) + b
  {
    var s := a + p + b;
    assert s[|a|..|a| + |p|] == p;
    assert forall k :: 0 <= k < |a| ==> s[k] != p[0] by {
      forall k | 0 <= k < |a|
        ensures s[k] != p[0]
      {
        assert s[k] == a[k];
      }
    }
    FirstOccurrence(s, p, |a|);
    assert s[..|a|] == a;
    assert s[|a| + |p|..] == b;
  }

  /** Replacing the first `p` by a text without '$' in `a + p + b`, where `a` cannot hold the start of `p`. */
  lemma ReplaceLiteral(a: string, p: string, b: string, repl: string)
    requires p != [] && p[0] !in a && '$' !in repl
    ensures ReplaceFirst(a + p + b, p, repl) == a + repl + b
  {
    ReplaceAfter(a, p, b, repl);
    SubstituteLiteral(repl, p, a, b);
  }

  /**
   * A prompt with one `\u`, then one `\w`, then one `\$` (as the default
   * `[\u@puter.com \w]\$ ` is) expands each in place, when neither the
   * user nor the working directory holds '\' or '$'.
   */
  lemma PromptExpansion(a: string, b: string, c: string, d: string, variables: map<string, Value>)
    requires '\\' !in a && '\\' !in b && '\\' !in c
    requires var u := ToString(Lookup(variables, "user")); '\\' !in u && '$' !in u
    requires var w := ToString(Lookup(variables, "pwd")); '\\' !in w && '$' !in w
    ensures ExpandPromptString(a + "\\u" + b + "\\w" + c + "\\$" + d, variables)
            == a + ToString(Lookup(variables, "user")) + b + ToString(Lookup(variables, "pwd")) + c + "$" + d
  {
    ExpandEach(a, b, c, d, ToString(Lookup(variables, "user")), ToString(Lookup(variables, "pwd")));
  }

  lemma ExpandEach(a: string, b: string, c: string, d: string, u: string, w: string)
    requires '\\' !in a && '\\' !in b && '\\' !in c && '\\' !in u && '\\' !in w
    requires '$' !in u && '$' !in w
    ensures ReplaceFirst(ReplaceFirst(ReplaceFirst(a + "\\u" + b + "\\w" + c + "\\$" + d, "\\u", u), "\\w", w), "\\$", "$")
            == a + u + b + w + c + "$" + d
  {
    ExpandUserStep(a, b, c, d, u);
    ExpandPwdStep(a + u + b, c, d, w);
    ExpandSign(a + u + b + w + c, d);
  }

  /** The `\u` step of the prompt expansion. */
  lemma ExpandUserStep(a: string, b: string, c: string, d: string, u: string)
    requires '\\' !in a && '$' !in u
    ensures ReplaceFirst(a + "\\u" + b + "\\w" + c + "\\$" + d, "\\u", u) == a + u + b + "\\w" + c + "\\$" + d
  {
    var rest := b + "\\w" + c + "\\$" + d;
    assert a + "\\u" + b + "\\w" + c + "\\$" + d == a + "\\u" + rest;
    ReplaceLiteral(a, "\\u", rest, u);
    assert a + u + rest == a + u + b + "\\w" + c + "\\$" + d;
  }

  /** The `\w` step of the prompt expansion, after the `\u` step left `a` before it. */
  lemma ExpandPwdStep(a: string, c: string, d: string, w: string)
    requires '\\' !in a && '$' !in w
    ensures ReplaceFirst(a + "\\w" + c + "\\$" + d, "\\w", w) == a + w + c + "\\$" + d
  {
    var rest := c + "\\$" + d;
    assert a + "\\w" + c + "\\$" + d == a + "\\w" + rest;
    ReplaceLiteral(a, "\\w", rest, w);
    assert a + w + rest == a + w + c + "\\$" + d;
  }

  /** The `\$` step: the replacement "$" is a lone '$', which `GetSubstitution` keeps as is. */
  lemma ExpandSign(a: string, rest: string)
    requires '\\' !in a
    ensures ReplaceFirst(a + "\\$" + rest, "\\$", "$") == a + "$" + rest
  {
    ReplaceAfter(a, "\\$", rest, "$");
    assert Substitute("$", "\\$", a, rest) == "$";
  }
}
