/**
 * The pipeline runner: tokens that resolve statically or by running a
 * sub-pipeline, commands prepared from the syntax tree, one command's
 * execution (input redirect, output fan-out to redirect buffers, argument
 * check, decorators, error reporting, close and flush), and the wiring of
 * stages through pipes.
 *
 * Every collaborator the runner calls (the command provider, the
 * filesystem, the argument parsers, the decorators, the command bodies and
 * the output of sub-pipelines) is a parameter.
 */
module Pipelines {
  import opened Common
  import opened JsString

  // ---------------------------------------------------------------------------
  // Syntax tree
  // ---------------------------------------------------------------------------

  datatype Component =
    | Symbol(text: string)
    | Segment(text: string)                 // 'string.segment'
    | SubPipeline(pipeline: PipelineNode)   // 'pipeline'
    | OtherComponent(kind: string)

  datatype TokenNode = TokenNode(components: seq<Component>)

  datatype CommandNode = CommandNode(tokens: seq<TokenNode>, inputRedirects: seq<TokenNode>,
                                     outputRedirects: seq<TokenNode>)

  datatype PipelineNode = PipelineNode(commands: seq<CommandNode>)

  // ---------------------------------------------------------------------------
  // Token resolution
  // ---------------------------------------------------------------------------

  predicate IsLiteral(c: Component)
  {
    c.Symbol? || c.Segment?
  }

  predicate AllLiteral(cs: seq<Component>)
  {
    forall k :: 0 <= k < |cs| ==> IsLiteral(cs[k])
  }

  /** The texts of the literal components, in order. */
  function LiteralText(cs: seq<Component>): string
  {
    if cs == [] then ""
    else LiteralText(cs[..|cs| - 1]) + (if IsLiteral(cs[|cs| - 1]) then cs[|cs| - 1].text else "")
  }

  /** What one component contributes to `resolve`; `run` gives a sub-pipeline's captured output. */
  function ComponentValue(c: Component, run: PipelineNode -> string): string
  {
    match c
    case Symbol(s) => s
    case Segment(s) => s
    case SubPipeline(p) => TrimEnd(run(p))
    case OtherComponent(_) => ""
  }

  function ResolvedText(cs: seq<Component>, run: PipelineNode -> string): string
  {
    if cs == [] then "" else ComponentValue(cs[0], run) + ResolvedText(cs[1..], run)
  }

  /** `maybeStaticallyResolve`: the text when every component is literal, `undefined` otherwise. */
  function StaticValue(t: TokenNode): Option<string>
  {
    if AllLiteral(t.components) then Some(LiteralText(t.components)) else None
  }

  method MaybeStaticallyResolve(t: TokenNode) returns (r: Option<string>)
    ensures r.Some? <==> AllLiteral(t.components)
    ensures r.Some? ==> r.value == LiteralText(t.components)
  {
    var cs := t.components;
    var isStatic := true;
    for i := 0 to |cs|
      invariant isStatic <==> AllLiteral(cs[..i])
    {
      assert cs[..i + 1] == cs[..i] + [cs[i]];
      isStatic := isStatic && IsLiteral(cs[i]);
    }
    assert cs[..|cs|] == cs;
    if !isStatic {
      return None;
    }
    var value := "";
    for i := 0 to |cs|
      invariant value == LiteralText(cs[..i])
    {
      assert cs[..i + 1][..i] == cs[..i];
      value := value + cs[i].text;
    }
    return Some(value);
  }

  /** `resolve`: literal texts, trimmed sub-pipeline output, nothing for anything else. */
  method Resolve(t: TokenNode, run: PipelineNode -> string) returns (value: string)
    ensures value == ResolvedText(t.components, run)
  {
    var cs := t.components;
    value := "";
    for i := 0 to |cs|
      invariant value == ResolvedText(cs[..i], run)
    {
      assert cs[..i + 1] == cs[..i] + [cs[i]];
      ResolvedSnoc(cs[..i], cs[i], run);
      var component := cs[i];
      if component.Segment? || component.Symbol? {
        value := value + component.text;
        continue;
      }
      if component.SubPipeline? {
        value := value + TrimEnd(run(component.pipeline));
        continue;
      }
    }
    assert cs[..|cs|] == cs;
  }

  /** A token that resolves statically resolves to the same text at run time, whatever sub-pipelines print. */
  lemma {:induction false} StaticAgreesWithResolve(cs: seq<Component>, run: PipelineNode -> string)
    requires AllLiteral(cs)
    ensures ResolvedText(cs, run) == LiteralText(cs)
    decreases |cs|
  {
    if cs != [] {
      var init, last := cs[..|cs| - 1], cs[|cs| - 1];
      assert init + [last] == cs;
      StaticAgreesWithResolve(init, run);
      ResolvedSnoc(init, last, run);
    }
  }

  /** Resolution works component by component: the text of `a + b` is the text of `a` then of `b`. */
  lemma {:induction false} ResolvedTextAppend(a: seq<Component>, b: seq<Component>, run: PipelineNode -> string)
    ensures ResolvedText(a + b, run) == ResolvedText(a, run) + ResolvedText(b, run)
    decreases |a|
  {
    if a == [] {
      assert a + b == b;
    } else {
      assert (a + b)[1..] == a[1..] + b;
      ResolvedTextAppend(a[1..], b, run);
    }
  }

  /** Components of any other kind contribute nothing. */
  lemma ResolvedOther(a: seq<Component>, b: seq<Component>, kind: string, run: PipelineNode -> string)
    ensures ResolvedText(a + [OtherComponent(kind)] + b, run) == ResolvedText(a + b, run)
  {
    ResolvedTextAppend(a + [OtherComponent(kind)], b, run);
    ResolvedSnoc(a, OtherComponent(kind), run);
    ResolvedTextAppend(a, b, run);
  }

  /** A sub-pipeline contributes its output without trailing whitespace. */
  lemma ResolvedSubPipeline(a: seq<Component>, b: seq<Component>, p: PipelineNode, run: PipelineNode -> string)
    ensures ResolvedText(a + [SubPipeline(p)] + b, run) == ResolvedText(a, run) + TrimEnd(run(p)) + ResolvedText(b, run)
  {
    ResolvedTextAppend(a + [SubPipeline(p)], b, run);
    ResolvedSnoc(a, SubPipeline(p), run);
  }

  lemma ResolvedSnoc(a: seq<Component>, c: Component, run: PipelineNode -> string)
    ensures ResolvedText(a + [c], run) == ResolvedText(a, run) + ComponentValue(c, run)
  {
    ResolvedTextAppend(a, [c], run);
    var single: seq<Component> := [c];
    assert single[1..] == [];
  }

  // ---------------------------------------------------------------------------
  // Preparing a command
  // ---------------------------------------------------------------------------

  /** An option a `simple-parser` spec declares: its name, its `type` and its `short` letter. */
  datatype OptionDecl = OptionDecl(name: string, kind: string, short: Option<char>)

  /** `command.args` without its `$`: the spec the argument processor receives. */
  datatype ArgsSpec = ArgsSpec(allowPositionals: bool, options: seq<OptionDecl>)

  /** `command.args`: the processor id under `$`, and the rest of the object. */
  datatype ArgsDecl = ArgsDecl(processor: string, spec: ArgsSpec)

  /** What the command provider returns: the parts of a command the runner reads. */
  datatype CommandSpec = CommandSpec(name: string, args: Option<ArgsDecl>, decorators: seq<string>, syncLines: bool)

  /** A command found at preparation time, or the name token whose lookup waits for `execute`. */
  datatype CommandRef = Found(spec: CommandSpec) | Deferred(token: TokenNode)

  /** A redirect path known statically, or the token that resolves to it. */
  datatype RedirectRef = StaticPath(path: string) | DeferredPath(token: TokenNode)

  datatype Prepared = Prepared(command: CommandRef, args: seq<TokenNode>, inputRedirect: Option<RedirectRef>,
                               outputRedirects: seq<RedirectRef>)

  /** The errors the runner throws, each with the message it carries. */
  datatype Failure = TypeError(message: string) | ConcreteSyntaxError(message: string) | PlainError(message: string)

  /** The engine's message for reading property `name` of `undefined` or `null`. */
  function CannotRead(base: string, name: string): string
  {
    "Cannot read properties of " + base + " (reading '" + name + "')"
  }

  /** `Token.createFromAST` reads `ast.$` of the `undefined` that `shift` gave. */
  const NO_NAME_TOKEN_MESSAGE: string := CannotRead("undefined", "$")

  /** `decorators[decoratorId]` is `undefined`, and `decorate` is read from it. */
  const NO_DECORATOR_MESSAGE: string := CannotRead("undefined", "decorate")

  /** `argparsers[argProcessorId]` is `undefined`, and `process` is read from it. */
  const NO_ARGPARSER_MESSAGE: string := CannotRead("undefined", "process")

  /** With no stage `lastPipe` is still `null`, and `out` is read from it. */
  const NO_STAGE_MESSAGE: string := CannotRead("null", "out")

  /** `token.maybeStaticallyResolve(ctx) ?? token`: an empty static path is kept. */
  function RedirectOf(t: TokenNode): RedirectRef
  {
    match StaticValue(t)
    case Some(v) => StaticPath(v)
    case None => DeferredPath(t)
  }

  function RedirectsOf(ts: seq<TokenNode>): (rs: seq<RedirectRef>)
    ensures |rs| == |ts| && forall k :: 0 <= k < |rs| ==> rs[k] == RedirectOf(ts[k])
  {
    seq(|ts|, k requires 0 <= k < |ts| => RedirectOf(ts[k]))
  }

  /** `PreparedCommand.createFromAST`, with `lookup` standing for the command provider. */
  function CreateFromAst(node: CommandNode, lookup: string -> Option<CommandSpec>): Result<Prepared, Failure>
  {
    if node.tokens == [] then Err(TypeError(NO_NAME_TOKEN_MESSAGE))
    else
      var nameToken := node.tokens[0];
      var cmd := StaticValue(nameToken);
      var command :=
        if cmd.Some? && cmd.value != "" then
          (if lookup(cmd.value).None? then Err(ConcreteSyntaxError("no command: " + JsonQuote(cmd.value)))
           else Ok(Found(lookup(cmd.value).value)))
        else Ok(Deferred(nameToken));
      if command.Err? then Err(command.error)
      else
        var inputRedirect := if |node.inputRedirects| > 0 then Some(RedirectOf(node.inputRedirects[0])) else None;
        Ok(Prepared(command.value, node.tokens[1..], inputRedirect, RedirectsOf(node.outputRedirects)))
  }

  /**
   * A non-empty static name is looked up while preparing, and a miss is a
   * syntax error naming it; an empty or dynamic name waits for `execute`.
   */
  lemma CommandLookup(node: CommandNode, lookup: string -> Option<CommandSpec>)
    requires node.tokens != []
    ensures var cmd := StaticValue(node.tokens[0]);
      && (cmd.Some? && cmd.value != "" && lookup(cmd.value).None? ==>
            CreateFromAst(node, lookup) == Err(ConcreteSyntaxError("no command: " + JsonQuote(cmd.value))))
      && (cmd.Some? && cmd.value != "" && lookup(cmd.value).Some? ==>
            CreateFromAst(node, lookup).Ok? && CreateFromAst(node, lookup).value.command == Found(lookup(cmd.value).value))
      && (cmd.None? || cmd.value == "" ==>
            CreateFromAst(node, lookup).Ok? && CreateFromAst(node, lookup).value.command == Deferred(node.tokens[0]))
  {
  }

  /**
   * Redirects: only the first input redirect is kept, output redirects keep
   * their order, and the arguments are the tokens after the name.
   */
  lemma PreparedParts(node: CommandNode, lookup: string -> Option<CommandSpec>)
    requires CreateFromAst(node, lookup).Ok?
    ensures var p := CreateFromAst(node, lookup).value;
      && node.tokens != [] && p.args == node.tokens[1..]
      && (node.inputRedirects == [] ==> p.inputRedirect == None)
      && (node.inputRedirects != [] ==> p.inputRedirect == Some(RedirectOf(node.inputRedirects[0])))
      && |p.outputRedirects| == |node.outputRedirects|
      && forall k :: 0 <= k < |p.outputRedirects| ==> p.outputRedirects[k] == RedirectOf(node.outputRedirects[k])
  {
  }

  /** A command node without tokens fails while preparing. */
  lemma NoNameToken(node: CommandNode, lookup: string -> Option<CommandSpec>)
    requires node.tokens == []
    ensures CreateFromAst(node, lookup) == Err(TypeError(NO_NAME_TOKEN_MESSAGE))
  {
  }

  /**
   * `Pipeline.createFromAST`: the commands are prepared in order and the
   * first failure is thrown.
   */
  method CreatePipelineFromAst(node: PipelineNode, lookup: string -> Option<CommandSpec>)
    returns (r: Result<seq<Prepared>, Failure>)
    ensures r.Ok? <==> forall k :: 0 <= k < |node.commands| ==> CreateFromAst(node.commands[k], lookup).Ok?
    ensures r.Ok? ==>
      && |r.value| == |node.commands|
      && forall k :: 0 <= k < |r.value| ==> Ok(r.value[k]) == CreateFromAst(node.commands[k], lookup)
    ensures r.Err? ==>
      exists j :: && 0 <= j < |node.commands|
                  && CreateFromAst(node.commands[j], lookup) == Err(r.error)
                  && forall k :: 0 <= k < j ==> CreateFromAst(node.commands[k], lookup).Ok?
  {
    var preparedCommands: seq<Prepared> := [];
    for i := 0 to |node.commands|
      invariant |preparedCommands| == i
      invariant forall k :: 0 <= k < i ==> Ok(preparedCommands[k]) == CreateFromAst(node.commands[k], lookup)
    {
      var command := CreateFromAst(node.commands[i], lookup);
      if command.Err? {
        assert forall k :: 0 <= k < i ==> CreateFromAst(node.commands[k], lookup).Ok?;
        assert !CreateFromAst(node.commands[i], lookup).Ok?;
        return Err(command.error);
      }
      preparedCommands := preparedCommands + [command.value];
    }
    assert forall k :: 0 <= k < |node.commands| ==> CreateFromAst(node.commands[k], lookup).Ok?;
    return Ok(preparedCommands);
  }

  // ---------------------------------------------------------------------------
  // Executing a prepared command
  // ---------------------------------------------------------------------------

  /** What a command body writes: bytes to `out`, text to `err`, in order. */
  datatype Write = ToOut(chunk: Chunk) | ToErr(text: string)

  /** What a command body throws: `Exit(code)`, or an error with its `code` ("" when falsy), message and `toString()`. */
  datatype Thrown = ExitThrown(status: int) | ErrorThrown(code: string, message: string, text: string)

  datatype RunResult = RunResult(writes: seq<Write>, thrown: Option<Thrown>)

  /** The reader under `SignalReader`: the inherited input, or the redirect file's contents. */
  datatype InputBase = InheritedInput | FileInput(data: seq<Byte>)

  /** `CommandStdinDecorator(SyncLinesReader?(SignalReader(base)))`. */
  datatype InputStack = InputStack(base: InputBase, syncLines: bool)

  /** What a command body sees of its context. */
  datatype CommandContext = CommandContext(args: seq<string>, input: InputStack)

  type Body = CommandContext -> RunResult

  /** `decorators[id].decorate(execute, { command, params, ctx })`. */
  type Decorator = (CommandSpec, Body) -> Body

  datatype Collaborators = Collaborators(
    lookup: string -> Option<CommandSpec>,
    run: PipelineNode -> string,
    read: string -> seq<Byte>,
    resolvePath: string -> string,
    argparsers: map<string, (ArgsSpec, seq<string>) -> bool>,
    decorators: map<string, Decorator>,
    bodyOf: CommandSpec -> Body)

  /** What the runner does, in order, to the streams and the filesystem. */
  datatype Effect =
    | ReadFile(path: string)
    | WroteOut(chunk: Chunk)
    | WroteErr(text: string)
    | CloseOut
    | WriteFile(path: string, data: seq<Byte>)

  /** The effects, the value left in `locals.exit` (`None` when unset), and what `execute` throws. */
  datatype Outcome = Outcome(effects: seq<Effect>, exit: Option<int>, result: Result<(), Failure>)

  /** A redirect is truthy unless it is the empty static path. */
  predicate RedirectSet(r: RedirectRef)
  {
    !(r.StaticPath? && r.path == "")
  }

  function RedirectPath(r: RedirectRef, run: PipelineNode -> string): string
  {
    match r
    case StaticPath(p) => p
    case DeferredPath(t) => ResolvedText(t.components, run)
  }

  function ResolveArgs(args: seq<TokenNode>, run: PipelineNode -> string): (values: seq<string>)
    ensures |values| == |args| && forall k :: 0 <= k < |values| ==> values[k] == ResolvedText(args[k].components, run)
  {
    seq(|args|, k requires 0 <= k < |args| => ResolvedText(args[k].components, run))
  }

  /** The command to run: the prepared one, or the deferred name resolved and looked up now. */
  function CommandToRun(p: Prepared, c: Collaborators): Result<CommandSpec, Failure>
  {
    match p.command
    case Found(s) => Ok(s)
    case Deferred(t) =>
      var cmd := ResolvedText(t.components, c.run);
      if c.lookup(cmd).None? then Err(PlainError("no command: " + JsonQuote(cmd))) else Ok(c.lookup(cmd).value)
  }

  function InputPath(p: Prepared, c: Collaborators): Option<string>
  {
    if p.inputRedirect.Some? && RedirectSet(p.inputRedirect.value)
    then Some(c.resolvePath(RedirectPath(p.inputRedirect.value, c.run)))
    else None
  }

  function InputEffects(p: Prepared, c: Collaborators): seq<Effect>
  {
    if InputPath(p, c).Some? then [ReadFile(InputPath(p, c).value)] else []
  }

  function InputBaseOf(p: Prepared, c: Collaborators): InputBase
  {
    if InputPath(p, c).Some? then FileInput(c.read(InputPath(p, c).value)) else InheritedInput
  }

  /** The execute function after each decorator, in the order of `command.decorators`, has wrapped it. */
  function Decorate(body: Body, command: CommandSpec, ids: seq<string>, registry: map<string, Decorator>)
    : Result<Body, Failure>
  {
    if ids == [] then Ok(body)
    else
      var inner := Decorate(body, command, ids[..|ids| - 1], registry);
      if inner.Err? then inner
      else if ids[|ids| - 1] !in registry then Err(TypeError(NO_DECORATOR_MESSAGE))
      else Ok(registry[ids[|ids| - 1]](command, inner.value))
  }

  /** With output redirects the inherited `out` is silenced; `err` is never redirected. */
  function WriteEffects(writes: seq<Write>, silenced: bool): seq<Effect>
  {
    if writes == [] then []
    else WriteEffects(writes[..|writes| - 1], silenced)
         + match writes[|writes| - 1]
           case ToOut(chunk) => if silenced then [] else [WroteOut(chunk)]
           case ToErr(text) => [WroteErr(text)]
  }

  /** Everything the body wrote to `out`, which each redirect buffer holds. */
  function Captured(writes: seq<Write>): seq<Chunk>
  {
    if writes == [] then []
    else Captured(writes[..|writes| - 1])
         + match writes[|writes| - 1]
           case ToOut(chunk) => [chunk]
           case ToErr(_) => []
  }

  function ErrorLine(name: string, text: string): string
  {
    "\U{1B}[31;1m" + name + ": " + text + "\U{1B}[0m\n"
  }

  /** The catch block: the line written to `err` and the value `locals.exit` is set to. */
  function CatchEffects(name: string, thrown: Option<Thrown>): seq<Effect>
  {
    match thrown
    case None => []
    case Some(ExitThrown(_)) => []
    case Some(ErrorThrown(code, message, text)) =>
      if code != "" then [WroteErr(ErrorLine(name, message))] else [WroteErr(ErrorLine(name, text))]
  }

  function CatchExit(thrown: Option<Thrown>): Option<int>
  {
    if thrown.Some? && thrown.value.ErrorThrown? && thrown.value.code == "" then Some(-1) else None
  }

  /** One file write per output redirect, in order, each with everything captured. */
  function FlushEffects(rs: seq<RedirectRef>, c: Collaborators, data: seq<Byte>): (e: seq<Effect>)
    ensures |e| == |rs|
  {
    if rs == [] then []
    else FlushEffects(rs[..|rs| - 1], c, data) + [WriteFile(c.resolvePath(RedirectPath(rs[|rs| - 1], c.run)), data)]
  }

  /**
   * Whether argument processing leaves the context valid: the processor named
   * by `$` run on the rest of `command.args` and the arguments; `None` when
   * that processor is missing.
   */
  function ArgsValid(command: CommandSpec, args: seq<string>, c: Collaborators): Option<bool>
  {
    if command.args.None? then Some(true)
    else if command.args.value.processor !in c.argparsers then None
    else Some(c.argparsers[command.args.value.processor](command.args.value.spec, args))
  }

  /** `PreparedCommand.execute`. */
  function ExecuteSpec(p: Prepared, c: Collaborators): Outcome
  {
    var command := CommandToRun(p, c);
    if command.Err? then Outcome([], None, Err(command.error))
    else
      var cmd := command.value;
      var args := ResolveArgs(p.args, c.run);
      var pre := InputEffects(p, c);
      var valid := ArgsValid(cmd, args, c);
      if valid.None? then Outcome(pre, None, Err(TypeError(NO_ARGPARSER_MESSAGE)))
      else if !valid.value then Outcome(pre + [CloseOut], Some(-1), Ok(()))
      else
        var execute := Decorate(c.bodyOf(cmd), cmd, cmd.decorators, c.decorators);
        if execute.Err? then Outcome(pre, None, Err(execute.error))
        else
          var ran := execute.value(CommandContext(args, InputStack(InputBaseOf(p, c), cmd.syncLines)));
          Outcome(pre + WriteEffects(ran.writes, |p.outputRedirects| > 0) + CatchEffects(cmd.name, ran.thrown)
                  + [CloseOut] + FlushEffects(p.outputRedirects, c, Flatten(Captured(ran.writes))),
                  CatchExit(ran.thrown), Ok(()))
  }

  method ResolveRedirect(r: RedirectRef, run: PipelineNode -> string) returns (path: string)
    ensures path == RedirectPath(r, run)
  {
    match r {
      case StaticPath(s) => path := s;
      case DeferredPath(t) => path := Resolve(t, run);
    }
  }

  /** The command to run; a deferred name is resolved and looked up first. */
  method CommandForExecution(p: Prepared, c: Collaborators) returns (r: Result<CommandSpec, Failure>)
    ensures r == CommandToRun(p, c)
  {
    match p.command {
      case Found(s) =>
        return Ok(s);
      case Deferred(t) =>
        var cmd := Resolve(t, c.run);
        var command := c.lookup(cmd);
        if command.None? {
          return Err(PlainError("no command: " + JsonQuote(cmd)));
        }
        return Ok(command.value);
    }
  }

  /** The input redirect: read when set, with the effects it has so far. */
  method OpenInput(p: Prepared, c: Collaborators) returns (effects: seq<Effect>, base: InputBase)
    ensures effects == InputEffects(p, c) && base == InputBaseOf(p, c)
  {
    effects := [];
    base := InheritedInput;
    if p.inputRedirect.Some? && RedirectSet(p.inputRedirect.value) {
      var destPath := ResolveRedirect(p.inputRedirect.value, c.run);
      var path := c.resolvePath(destPath);
      effects := [ReadFile(path)];
      base := FileInput(c.read(path));
    }
  }

  /** The loop over `command.decorators`, each wrapping the execute function built so far. */
  method ApplyDecorators(command: CommandSpec, c: Collaborators) returns (r: Result<Body, Failure>)
    ensures r == Decorate(c.bodyOf(command), command, command.decorators, c.decorators)
  {
    var execute := c.bodyOf(command);
    for i := 0 to |command.decorators|
      invariant Decorate(c.bodyOf(command), command, command.decorators[..i], c.decorators) == Ok(execute)
    {
      assert command.decorators[..i + 1][..i] == command.decorators[..i];
      var decoratorId := command.decorators[i];
      if decoratorId !in c.decorators {
        assert Decorate(c.bodyOf(command), command, command.decorators[..i + 1], c.decorators)
               == Err(TypeError(NO_DECORATOR_MESSAGE));
        DecorateFailurePersists(c.bodyOf(command), command, command.decorators, c.decorators, i + 1);
        return Err(TypeError(NO_DECORATOR_MESSAGE));
      }
      execute := c.decorators[decoratorId](command, execute);
    }
    assert command.decorators[..|command.decorators|] == command.decorators;
    return Ok(execute);
  }

  /** The catch block. */
  method ReportThrown(name: string, thrown: Option<Thrown>) returns (effects: seq<Effect>, exit: Option<int>)
    ensures effects == CatchEffects(name, thrown) && exit == CatchExit(thrown)
  {
    effects := [];
    exit := None;
    if thrown.Some? {
      var e := thrown.value;
      if e.ExitThrown? {
        // the exit status is kept in a local that nothing reads
      } else if e.code != "" {
        effects := [WroteErr(ErrorLine(name, e.message))];
      } else {
        effects := [WroteErr(ErrorLine(name, e.text))];
        exit := Some(-1);
      }
    }
  }

  /** The loop writing each redirect buffer to its file. */
  method FlushRedirects(rs: seq<RedirectRef>, c: Collaborators, data: seq<Byte>) returns (effects: seq<Effect>)
    ensures effects == FlushEffects(rs, c, data)
  {
    effects := [];
    for i := 0 to |rs|
      invariant effects == FlushEffects(rs[..i], c, data)
    {
      assert rs[..i + 1][..i] == rs[..i];
      var destPath := ResolveRedirect(rs[i], c.run);
      var path := c.resolvePath(destPath);
      effects := effects + [WriteFile(path, data)];
    }
    assert rs[..|rs|] == rs;
  }

  method Execute(p: Prepared, c: Collaborators) returns (o: Outcome)
    ensures o == ExecuteSpec(p, c)
  {
    var found := CommandForExecution(p, c);
    if found.Err? {
      return Outcome([], None, Err(found.error));
    }
    var command := found.value;
    var args := ResolveArgs(p.args, c.run);

    var effects, base := OpenInput(p, c);
    var in_ := InputStack(base, command.syncLines);
    var silenced := |p.outputRedirects| > 0;
    var ctx := CommandContext(args, in_);

    if command.args.Some? {
      var decl := command.args.value;
      if decl.processor !in c.argparsers {
        return Outcome(effects, None, Err(TypeError(NO_ARGPARSER_MESSAGE)));
      }
      var valid := c.argparsers[decl.processor](decl.spec, args);
      if !valid {
        return Outcome(effects + [CloseOut], Some(-1), Ok(()));
      }
    }

    var execute := ApplyDecorators(command, c);
    if execute.Err? {
      return Outcome(effects, None, Err(execute.error));
    }
    var ran := execute.value(ctx);
    effects := effects + WriteEffects(ran.writes, silenced);
    var reported, exit := ReportThrown(command.name, ran.thrown);
    effects := effects + reported + [CloseOut];
    var flushed := FlushRedirects(p.outputRedirects, c, Flatten(Captured(ran.writes)));
    return Outcome(effects + flushed, exit, Ok(()));
  }

  /** Once a decorator is missing, the error stays whatever follows. */
  lemma {:induction false} DecorateFailurePersists(body: Body, command: CommandSpec, ids: seq<string>,
                                                   registry: map<string, Decorator>, i: nat)
    requires i <= |ids| && Decorate(body, command, ids[..i], registry).Err?
    ensures Decorate(body, command, ids, registry) == Decorate(body, command, ids[..i], registry)
    decreases |ids|
  {
    if i < |ids| {
      assert ids[..|ids| - 1][..i] == ids[..i];
      DecorateFailurePersists(body, command, ids[..|ids| - 1], registry, i);
    } else {
      assert ids[..i] == ids;
    }
  }

  // ---------------------------------------------------------------------------
  // Properties of execute
  // ---------------------------------------------------------------------------

  predicate NoFileWrites(effects: seq<Effect>)
  {
    forall k :: 0 <= k < |effects| ==> !effects[k].WriteFile?
  }

  predicate BodyRuns(p: Prepared, c: Collaborators)
  {
    var command := CommandToRun(p, c);
    && command.Ok?
    && ArgsValid(command.value, ResolveArgs(p.args, c.run), c) == Some(true)
    && Decorate(c.bodyOf(command.value), command.value, command.value.decorators, c.decorators).Ok?
  }

  /** The body that runs once decorators are applied, on the context it sees. */
  function RunOf(p: Prepared, c: Collaborators): RunResult
    requires BodyRuns(p, c)
  {
    var cmd := CommandToRun(p, c).value;
    Decorate(c.bodyOf(cmd), cmd, cmd.decorators, c.decorators).value(
      CommandContext(ResolveArgs(p.args, c.run), InputStack(InputBaseOf(p, c), cmd.syncLines)))
  }

  /**
   * Invalid arguments: `out` is closed, `locals.exit` is -1, nothing else
   * is written and no redirect file is touched.
   */
  lemma InvalidArguments(p: Prepared, c: Collaborators)
    requires CommandToRun(p, c).Ok?
    requires ArgsValid(CommandToRun(p, c).value, ResolveArgs(p.args, c.run), c) == Some(false)
    ensures ExecuteSpec(p, c) == Outcome(InputEffects(p, c) + [CloseOut], Some(-1), Ok(()))
    ensures NoFileWrites(ExecuteSpec(p, c).effects)
  {
  }

  /** A deferred name that the provider does not know is a plain error, thrown before anything happens. */
  lemma DeferredLookupMiss(p: Prepared, c: Collaborators)
    requires p.command.Deferred? && c.lookup(ResolvedText(p.command.token.components, c.run)).None?
    ensures ExecuteSpec(p, c)
            == Outcome([], None, Err(PlainError("no command: " + JsonQuote(ResolvedText(p.command.token.components, c.run)))))
  {
  }

  /** An empty static input redirect is ignored; a token that resolves to "" is still read. */
  lemma InputRedirectTruthiness(p: Prepared, c: Collaborators)
    ensures p.inputRedirect == Some(StaticPath("")) ==> InputEffects(p, c) == [] && InputBaseOf(p, c) == InheritedInput
    ensures p.inputRedirect.Some? && p.inputRedirect.value.DeferredPath? ==>
      InputEffects(p, c) == [ReadFile(c.resolvePath(RedirectPath(p.inputRedirect.value, c.run)))]
  {
  }

  lemma {:induction false} WriteEffectsAppend(a: seq<Write>, b: seq<Write>, silenced: bool)
    ensures WriteEffects(a + b, silenced) == WriteEffects(a, silenced) + WriteEffects(b, silenced)
    ensures Captured(a + b) == Captured(a) + Captured(b)
    decreases |b|
  {
    if b == [] {
      assert a + b == a;
    } else {
      assert (a + b)[..|a + b| - 1] == a + b[..|b| - 1];
      WriteEffectsAppend(a, b[..|b| - 1], silenced);
    }
  }

  /** The chunks the body writes to `out`, in order. */
  function OutChunks(effects: seq<Effect>): seq<Chunk>
  {
    if effects == [] then []
    else OutChunks(effects[..|effects| - 1]) + if effects[|effects| - 1].WroteOut? then [effects[|effects| - 1].chunk] else []
  }

  lemma {:induction false} OutChunksAppend(a: seq<Effect>, b: seq<Effect>)
    ensures OutChunks(a + b) == OutChunks(a) + OutChunks(b)
    decreases |b|
  {
    if b == [] {
      assert a + b == a;
    } else {
      assert (a + b)[..|a + b| - 1] == a + b[..|b| - 1];
      OutChunksAppend(a, b[..|b| - 1]);
    }
  }

  /**
   * Output fan-out: without redirects the inherited `out` receives exactly
   * what the body wrote to `out`; with redirects it receives nothing.
   */
  lemma {:induction false} FanOut(writes: seq<Write>, silenced: bool)
    ensures silenced ==> OutChunks(WriteEffects(writes, silenced)) == []
    ensures !silenced ==> OutChunks(WriteEffects(writes, silenced)) == Captured(writes)
    ensures NoFileWrites(WriteEffects(writes, silenced))
    decreases |writes|
  {
    if writes != [] {
      var init := writes[..|writes| - 1];
      FanOut(init, silenced);
      var last := match writes[|writes| - 1]
        case ToOut(chunk) => if silenced then [] else [WroteOut(chunk)]
        case ToErr(text) => [WroteErr(text)];
      OutChunksAppend(WriteEffects(init, silenced), last);
      assert OutChunks(last) == (if writes[|writes| - 1].ToOut? && !silenced then [writes[|writes| - 1].chunk] else []) by {
        assert last == [] || last[..0] == [];
      }
    }
  }

  /** The flush writes redirect `i`'s buffer to redirect `i`'s path, for `i` in increasing order. */
  lemma {:induction false} FlushInOrder(rs: seq<RedirectRef>, c: Collaborators, data: seq<Byte>)
    ensures forall i :: 0 <= i < |rs| ==>
      FlushEffects(rs, c, data)[i] == WriteFile(c.resolvePath(RedirectPath(rs[i], c.run)), data)
    decreases |rs|
  {
    if rs != [] {
      FlushInOrder(rs[..|rs| - 1], c, data);
    }
  }

  /**
   * A run that reaches the body: the effects are the input read, the
   * body's writes (silenced on `out` under redirects), the error line, one
   * close, and then the redirect files, each holding all of the body's
   * `out` output.
   */
  lemma CloseThenFlush(p: Prepared, c: Collaborators)
    requires BodyRuns(p, c)
    ensures var o := ExecuteSpec(p, c);
      var ran := RunOf(p, c);
      var head := InputEffects(p, c) + WriteEffects(ran.writes, |p.outputRedirects| > 0)
                  + CatchEffects(CommandToRun(p, c).value.name, ran.thrown);
      && o.result == Ok(())
      && o.exit == CatchExit(ran.thrown)
      && o.effects == head + [CloseOut] + FlushEffects(p.outputRedirects, c, Flatten(Captured(ran.writes)))
      && NoFileWrites(head)
      && forall i :: 0 <= i < |p.outputRedirects| ==>
           o.effects[|head| + 1 + i]
           == WriteFile(c.resolvePath(RedirectPath(p.outputRedirects[i], c.run)), Flatten(Captured(ran.writes)))
  {
    var ran := RunOf(p, c);
    var silenced := |p.outputRedirects| > 0;
    var data := Flatten(Captured(ran.writes));
    var head := InputEffects(p, c) + WriteEffects(ran.writes, silenced)
                + CatchEffects(CommandToRun(p, c).value.name, ran.thrown);
    var flush := FlushEffects(p.outputRedirects, c, data);
    BodyRunOutcome(p, c);
    FanOut(ran.writes, silenced);
    FlushAfterClose(head, p.outputRedirects, c, data, ExecuteSpec(p, c).effects);
  }

  /** `ExecuteSpec` on a run that reaches the body, laid out part by part. */
  lemma BodyRunOutcome(p: Prepared, c: Collaborators)
    requires BodyRuns(p, c)
    ensures var ran := RunOf(p, c);
      ExecuteSpec(p, c)
      == Outcome(InputEffects(p, c) + WriteEffects(ran.writes, |p.outputRedirects| > 0)
                 + CatchEffects(CommandToRun(p, c).value.name, ran.thrown)
                 + [CloseOut] + FlushEffects(p.outputRedirects, c, Flatten(Captured(ran.writes))),
                 CatchExit(ran.thrown), Ok(()))
  {
  }

  /** The effects after the close are the flush, one write per redirect. */
  lemma FlushAfterClose(head: seq<Effect>, rs: seq<RedirectRef>, c: Collaborators, data: seq<Byte>, effects: seq<Effect>)
    requires effects == head + [CloseOut] + FlushEffects(rs, c, data)
    ensures forall i :: 0 <= i < |rs| ==>
      effects[|head| + 1 + i] == WriteFile(c.resolvePath(RedirectPath(rs[i], c.run)), data)
  {
    FlushInOrder(rs, c, data);
    forall i | 0 <= i < |rs|
      ensures effects[|head| + 1 + i] == FlushEffects(rs, c, data)[i]
    {
    }
  }

  /**
   * The catch block: `Exit` writes nothing and leaves `locals.exit`; an
   * error with a truthy `code` reports its message and leaves `locals.exit`;
   * any other error reports its `toString()` and sets `locals.exit` to -1.
   */
  lemma ThrownClassification(name: string, thrown: Option<Thrown>)
    ensures thrown.None? ==> CatchEffects(name, thrown) == [] && CatchExit(thrown).None?
    ensures thrown.Some? && thrown.value.ExitThrown? ==> CatchEffects(name, thrown) == [] && CatchExit(thrown).None?
    ensures thrown.Some? && thrown.value.ErrorThrown? && thrown.value.code != "" ==>
      CatchEffects(name, thrown) == [WroteErr("\U{1B}[31;1m" + name + ": " + thrown.value.message + "\U{1B}[0m\n")]
      && CatchExit(thrown).None?
    ensures thrown.Some? && thrown.value.ErrorThrown? && thrown.value.code == "" ==>
      CatchEffects(name, thrown) == [WroteErr("\U{1B}[31;1m" + name + ": " + thrown.value.text + "\U{1B}[0m\n")]
      && CatchExit(thrown) == Some(-1)
  {
  }

  // ---------------------------------------------------------------------------
  // Wiring a pipeline
  // ---------------------------------------------------------------------------

  /**
   * The streams stages are connected to: the pipeline's own `in` and `out`
   * externs, and the two ends of the pipe created for stage `i`.
   */
  datatype Stream = ExternIn | ExternOut | PipeIn(i: nat) | PipeOut(i: nat)

  /** A stage's context: where it reads, where it writes (through a `ByteWriter`), where errors go. */
  datatype StageIO = StageIO(input: Stream, output: Stream, err: Stream)

  /** The contexts given to the stages, the pipe end the coupler drains, and the launch order. */
  datatype Wiring = Wiring(stages: seq<StageIO>, coupled: Stream, launchOrder: seq<nat>)

  /** `Pipeline.execute`, up to launching the stages. */
  method ExecutePipeline(preparedCommands: seq<Prepared>) returns (r: Result<Wiring, Failure>)
    ensures |preparedCommands| == 0 ==> r == Err(TypeError(NO_STAGE_MESSAGE))
    ensures |preparedCommands| > 0 ==> r.Ok?
    ensures r.Ok? ==>
      var n := |preparedCommands|;
      && |r.value.stages| == n
      && r.value.stages[0].input == ExternIn
      && (forall i :: 0 < i < n ==> r.value.stages[i].input == PipeOut(i - 1))
      && (forall i :: 0 <= i < n ==> r.value.stages[i].output == PipeIn(i) && r.value.stages[i].err == ExternOut)
      && r.value.coupled == PipeOut(n - 1)
      && |r.value.launchOrder| == n
      && forall k :: 0 <= k < n ==> r.value.launchOrder[k] == n - 1 - k
  {
    var n := |preparedCommands|;
    var nextIn := ExternIn;
    var lastPipe: Option<nat> := None;
    var stages: seq<StageIO> := [];
    for i := 0 to n
      invariant |stages| == i
      invariant i == 0 ==> nextIn == ExternIn && lastPipe == None
      invariant i > 0 ==> nextIn == PipeOut(i - 1) && lastPipe == Some(i - 1) && stages[0].input == ExternIn
      invariant forall j :: 0 < j < i ==> stages[j].input == PipeOut(j - 1)
      invariant forall j :: 0 <= j < i ==> stages[j].output == PipeIn(j) && stages[j].err == ExternOut
    {
      lastPipe := Some(i);
      stages := stages + [StageIO(nextIn, PipeIn(i), ExternOut)];
      nextIn := PipeOut(i);
    }
    if lastPipe.None? {
      return Err(TypeError(NO_STAGE_MESSAGE));
    }
    var coupled := PipeOut(lastPipe.value);
    var launchOrder: seq<nat> := [];
    var i := n - 1;
    while i >= 0
      invariant -1 <= i <= n - 1
      invariant |launchOrder| == n - 1 - i
      invariant forall k :: 0 <= k < |launchOrder| ==> launchOrder[k] == n - 1 - k
    {
      launchOrder := launchOrder + [i];
      i := i - 1;
    }
    return Ok(Wiring(stages, coupled, launchOrder));
  }

  /**
   * What flows through a wiring when stage `i` turns all it reads into
   * `transforms[i]` of it and pipes pass their input on: the contents of a
   * stream, given what arrives on `ExternIn`.
   */
  function Content(w: Wiring, transforms: seq<seq<Byte> -> seq<Byte>>, input: seq<Byte>, s: Stream): seq<Byte>
    requires |transforms| == |w.stages|
    requires forall i :: 0 < i < |w.stages| ==> w.stages[i].input == PipeOut(i - 1)
    requires w.stages != [] ==> w.stages[0].input == ExternIn
    requires s.PipeIn? || s.PipeOut? ==> s.i < |w.stages|
    decreases if s.PipeIn? then 2 * s.i + 1 else if s.PipeOut? then 2 * s.i + 2 else 0
  {
    match s
    case ExternIn => input
    case ExternOut => []
    case PipeOut(i) => Content(w, transforms, input, PipeIn(i))
    case PipeIn(i) => transforms[i](Content(w, transforms, input, w.stages[i].input))
  }

  /** The stage transforms applied in order: stage 0 first. */
  function Compose(transforms: seq<seq<Byte> -> seq<Byte>>, input: seq<Byte>): seq<Byte>
  {
    if transforms == [] then input else transforms[|transforms| - 1](Compose(transforms[..|transforms| - 1], input))
  }

  /** The coupler delivers to the outer `out` what the stages compute one after the other. */
  lemma {:induction false} PipelineDataflow(w: Wiring, transforms: seq<seq<Byte> -> seq<Byte>>, input: seq<Byte>,
                                            i: nat)
    requires |transforms| == |w.stages| && i < |w.stages|
    requires w.stages[0].input == ExternIn
    requires forall j :: 0 < j < |w.stages| ==> w.stages[j].input == PipeOut(j - 1)
    ensures Content(w, transforms, input, PipeOut(i)) == Compose(transforms[..i + 1], input)
    decreases i
  {
    assert transforms[..i + 1][..i] == transforms[..i];
    if i > 0 {
      PipelineDataflow(w, transforms, input, i - 1);
    } else {
      assert transforms[..0] == [];
    }
  }
}
