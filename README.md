# Phoenix shell core, modelled in Dafny

This project models the core of the Phoenix shell. The shell runs in a
browser terminal or under Node. The model covers these parts:

- **The pseudo-terminal** (`Terminal`, packages/pty/exports.js):
  - `BetterReader`, a chunk buffer in front of a stream reader that can fill a caller's buffer exactly;
  - `PTT`, which converts text to bytes and rewrites LF as CR LF;
  - `PTY`, which fans every write out to its targets;
  - the two-pass LF to CR LF rewrite itself.
- **The JSON recognisers of `json-test`** (`JsonLexers`, `JsonLexemes`, `JsonStrings`):
  - whitespace, token-type, number and string parsers over a byte lexer;
  - a reference grammar for numbers and for string pieces, tied to the recognisers in both directions;
  - the places where the recognisers depart from RFC 8259.
- **Readline comprehension** (`RlComprehend`, rl_comprehend.js): how the text left of the cursor is classified for tab completion. The classes are empty, redirect target, unrecognized, or a command with its argument tokens.
- **Pipelines** (`Pipelines`, Pipeline.js):
  - resolving a token, statically or by running sub-pipelines;
  - preparing a command from its syntax node;
  - executing one prepared command: deferred lookup, argument checks, input redirect, output fan-out into memory writers, decorators, the exception handler, closing `out`, then flushing redirects;
  - wiring a pipeline's stages together.
- **The shell session** (`AnsiShell`, ANSIShell.js):
  - the variable store, which reports every assignment as a change event;
  - the environment with its computed accessors and `export_`;
  - prompt-string expansion;
  - one prompt iteration: blank line, `%%%` debug instruction, or a pipeline run with its error report.
- **PATH command lookup** (`PathCommandProvider`): splitting `PATH`, stat-probing each candidate, first-hit or all-hits lookup, and how a spawned child's exit or a SIGINT settles the command.
- **The `touch` and `mkdir` commands** (`Touch`, `MkdirCommand`).

Shared pieces:

- `Common` holds `Option`, `Result` and bytes.
- `JsString` holds the JavaScript string built-ins the core relies on:
  - `trim`/`trimEnd`;
  - `split` on one character;
  - `replace` with a string pattern, which replaces the first occurrence and expands `$` patterns;
  - `JSON.stringify` of a string;
  - number-to-string.
- `Platform` holds the filesystem the commands call, with its error codes.

Asynchronous steps are modelled as sequential calls. Collaborators are parameters:

- path resolution;
- the command provider;
- the tokenizer;
- argument parsers and decorators;
- the running of sub-pipelines.

## Model

| member | source | states |
|---|---|---|
| Terminal.Utf8EncodeChar | packages/pty/exports.js:86-88 | A character encodes to 1 to 4 bytes. The first byte is LF exactly when the character is '\n'. Every byte of a multi-byte sequence is at least 0x80, so encoding never produces a stray LF. |
| Terminal.Utf8EncodeAppend | packages/pty/exports.js:86-88 | Encoding a concatenation gives the concatenation of the encodings. |
| Terminal.ExpandLFLength | packages/pty/exports.js:139-147 | The rewritten output is exactly as long as the input plus its number of LF bytes. |
| Terminal.ExpandLFAppend | packages/pty/exports.js:150-156 | The rewrite distributes over concatenation, and so does the LF count. Where a chunk is cut therefore does not matter. |
| Terminal.CollapseExpandLF | packages/pty/exports.js:150-156 | The rewrite loses nothing. Removing the CR put before each LF gives back the input. |
| Terminal.ExpandLFNotLeadingLF | packages/pty/exports.js:150-156 | The output is empty exactly when the input is. It never starts with a bare LF. |
| Terminal.ExpandLFNotIdempotent | packages/pty/exports.js:150-156 | An existing CR LF becomes CR CR LF, so applying the rewrite twice differs from applying it once. |
| Terminal.ExpandLFOfText | packages/pty/exports.js:86-90 | Rewriting encoded text equals encoding the text with every '\n' replaced by "\r\n". |
| Terminal.LfToCrlf | packages/pty/exports.js:139-159 | `LF_to_CRLF` returns a fresh array of length n plus the LF count. Its contents are the input with a CR inserted before every LF. |
| Terminal.CountLineFeeds | packages/pty/exports.js:140-145 | The first loop counts the LF bytes of the input. |
| Terminal.CopyExpanded | packages/pty/exports.js:147-156 | The second loop fills the output with the rewritten input. |
| Terminal.Merge | packages/pty/exports.js:53-59 | `getChunk_` merges the buffered chunks into one chunk: their concatenation in order. |
| Terminal.Place | packages/pty/exports.js:40 | `set(item, offset)` puts `item` at `offset` and leaves the bytes before and after it alone. |
| Terminal.BetterReader.constructor | packages/pty/exports.js:7-10 | A new reader keeps its delegate and has an empty chunk buffer. |
| Terminal.BetterReader.GetChunk | packages/pty/exports.js:47-64 | With chunks buffered, it returns their merge and does not touch the delegate. With none buffered, it returns the delegate's next chunk, or nothing at the end of the stream. The buffer is empty afterwards. |
| Terminal.BetterReader.Read | packages/pty/exports.js:12-20 | `read()` without a buffer returns the delegate's own record when nothing is buffered. Otherwise it returns the merged buffer, and the delegate is not read. |
| Terminal.BetterReader.CopyOut | packages/pty/exports.js:29-44 | The copy loop fills the buffer with the first buffer-length bytes of the stream. The rest of a split chunk goes back to the front, so buffer plus remaining stream equals the stream before. |
| Terminal.BetterReader.TakeFront | packages/pty/exports.js:31-39 | One shift step hands out at most `room` bytes. What is handed out, followed by what stays buffered, is what was buffered. |
| Terminal.BetterReader.PushFirst | packages/pty/exports.js:17-23 | The first chunk is fetched and buffered, and the stream is unchanged. It fails only when nothing is buffered and the delegate is exhausted. |
| Terminal.BetterReader.FillTo | packages/pty/exports.js:25-27 | The fill loop, as evidently intended, keeps the stream unchanged. It succeeds exactly when the stream holds at least n bytes, and then n bytes are buffered. |
| Terminal.BetterReader.ReadExact | packages/pty/exports.js:12-45 | `read(buf)`, corrected: it fails exactly when the stream is shorter than the buffer or empty. On success the buffer holds the next buffer-length bytes and the rest of the stream follows unchanged. |
| Terminal.BetterReader.ReadExactAsWritten | packages/pty/exports.js:17-44 | `read(buf)` as written: it succeeds exactly when some chunk (the merged buffer first, then the delegate's) is at least buffer-length long. The buffer then holds the front of the first such chunk. All earlier chunks are dropped. |
| Terminal.BetterReader.FillAsWritten | packages/pty/exports.js:25-27 | The fill loop as written stops at the first chunk at least n long, which is then alone in the buffer. |
| Terminal.ReadExactAsWrittenDropsBytes | packages/pty/exports.js:25-27 | Reading the stream [1] [2,3] into a two-byte buffer delivers 2,3, while the stream starts 1,2. |
| Terminal.Ptt.constructor | packages/pty/exports.js:75-97 | A target belongs to its PTY and starts with an empty readable queue. |
| Terminal.Ptt.Write | packages/pty/exports.js:85-93 | A write on the target encodes text and rewrites LF as CR LF exactly when the PTY's `outputNLCR` flag is set. The result is enqueued on the PTY's readable side, and nothing else changes. |
| Terminal.Pty.constructor | packages/pty/exports.js:106-131 | A new PTY has `outputNLCR` on, no inbound chunks and no targets. |
| Terminal.Pty.GetPtt | packages/pty/exports.js:133-137 | Exactly one fresh target is appended, linked back to this PTY, and nothing else changes. |
| Terminal.Pty.Write | packages/pty/exports.js:119-126 | Every target's queue gets the encoded chunk appended, with no newline rewriting. |
| Terminal.PttTextNewlines | packages/pty/exports.js:85-92 | A text chunk written through a target arrives as the encoding of the text with each '\n' replaced by "\r\n". |
| Platform.NotFoundCode | src/puter-shell/coreutils/touch.js:47-48 | The not-found code is "ENOENT" in POSIX mode and "subject_does_not_exist" otherwise. |
| Platform.StatOf | src/puter-shell/coreutils/touch.js:45 | `stat` succeeds exactly when the path exists and has no injected fault, and then returns its entry. A fault is returned as is. A missing path fails with the mode's not-found code. |
| Platform.Filesystem.Stat | src/puter-shell/providers/PathCommandProvider.js:93 | The filesystem's `stat` answers as `StatOf` on its current entries. |
| Platform.Filesystem.Write | src/puter-shell/coreutils/touch.js:56 | `write` stores a file with the given contents at the path, and nothing else changes. |
| Platform.Filesystem.Mkdir | src/puter-shell/coreutils/mkdir.js:51-55 | `mkdir` either returns the error result the platform gives for that path and changes nothing, or creates a directory there. |
| JsString.TrimEnd | src/ansi-shell/pipeline/Pipeline.js:88 | `trimEnd` returns a prefix. Everything it removed is whitespace, and the prefix does not end in whitespace. |
| JsString.TrimStart | src/ansi-shell/ANSIShell.js:106 | The leading half of `trim` returns a suffix. Everything it removed is whitespace, and the suffix does not start with whitespace. |
| JsString.TrimEndAppend | src/ansi-shell/pipeline/Pipeline.js:88 | Trailing whitespace added to a string does not change its `trimEnd`. |
| JsString.TrimEmpty | src/ansi-shell/ANSIShell.js:106 | `trim()` gives "" exactly when the line is all whitespace. |
| JsString.Split | src/ansi-shell/ANSIShell.js:114 | `split` on one character gives at least one part, and no part contains the separator. |
| JsString.JoinSplit | src/puter-shell/providers/PathCommandProvider.js:85 | Joining the parts of a split with the separator gives back the string. |
| JsString.SplitJoin | src/puter-shell/providers/PathCommandProvider.js:85 | Splitting the join of separator-free parts gives back the parts. |
| JsString.IndexOf | src/ansi-shell/ANSIShell.js:202-204 | The search `replace` performs finds the leftmost occurrence of the pattern, or reports that there is none. |
| JsString.SubstituteLiteral | src/ansi-shell/ANSIShell.js:204 | A replacement without '$' is inserted as is. |
| JsString.ReplaceFirstOnly | src/ansi-shell/ANSIShell.js:202-204 | `replace` with a string pattern leaves the string alone when the pattern is absent. Otherwise it substitutes the leftmost occurrence only and keeps both sides. |
| JsString.ReplaceFirstLiteral | src/ansi-shell/ANSIShell.js:204 | With a '$'-free replacement, only the leftmost occurrence is replaced, verbatim. |
| JsString.EscapeChar | src/ansi-shell/pipeline/Pipeline.js:128 | `JSON.stringify` escapes a character exactly when it is '"', '\\' or a control character below U+0020. Any other character is kept. |
| JsString.JsonQuote | src/ansi-shell/pipeline/Pipeline.js:128 | The quoted form starts and ends with '"'. |
| JsString.UnescapeEscape | src/ansi-shell/pipeline/Pipeline.js:128 | Unescaping the body of a JSON-quoted string gives back the string, so the quoting is lossless. |
| JsString.NaturalString | src/puter-shell/providers/PathCommandProvider.js:51 | A number prints as a non-empty run of decimal digits. |
| JsString.ParseNaturalString | src/puter-shell/providers/PathCommandProvider.js:51 | Reading back the printed digits gives the number. |
| JsonLexers.ByteLexer.constructor | src/puter-shell/coreutils/json-test.js:60-66 | A byte lexer starts at position 0 of its input. |
| JsonLexers.ByteLexer.Look | src/puter-shell/coreutils/json-test.js:66-67 | `look()` returns the byte at the position, or done at the end, and does not move. |
| JsonLexers.ByteLexer.Next | src/puter-shell/coreutils/json-test.js:70 | `next()` advances one byte, but never past the end. |
| JsonLexers.WhitespaceEnd | src/puter-shell/coreutils/json-test.js:56-59 | The end of the maximal run of space, LF, CR and TAB bytes. |
| JsonLexers.ParseWhitespace | src/puter-shell/coreutils/json-test.js:60-75 | The parser consumes exactly the maximal whitespace run. It returns no node when the run is empty, and otherwise a whitespace node with the consumed text. |
| JsonLexers.NodeLexer.constructor | src/puter-shell/coreutils/json-test.js:42-43 | A node lexer starts at the first node. |
| JsonLexers.NodeLexer.Next | src/puter-shell/coreutils/json-test.js:43-44 | `next()` returns the next node and advances, or reports done at the end. |
| JsonLexers.ParseTokenType | src/puter-shell/coreutils/json-test.js:42-47 | The parser always consumes one node when one is left. It returns that node exactly when its kind is the expected one. |
| JsonLexers.DigitEnd | src/puter-shell/coreutils/json-test.js:107-114 | `consumeDigitSequence` stops at the end of the maximal digit run. |
| JsonLexers.IntegerEnd | src/puter-shell/coreutils/json-test.js:116-126 | The sign and integer step stays within the input. What it accepts is characterised by `JsonLexemes.NumberEndSound` and `JsonLexemes.NumberEndComplete`. |
| JsonLexers.FractionEnd | src/puter-shell/coreutils/json-test.js:128-132 | The fraction step stays within the input. |
| JsonLexers.ExponentEnd | src/puter-shell/coreutils/json-test.js:134-142 | The exponent step stays within the input. |
| JsonLexers.NumberEnd | src/puter-shell/coreutils/json-test.js:87-146 | A number that succeeds consumes at least one byte. |
| JsonLexers.Consume | src/puter-shell/coreutils/json-test.js:97-104 | `consume` appends the current character, advances, and reports whether a byte follows. |
| JsonLexers.ConsumeDigits | src/puter-shell/coreutils/json-test.js:107-114 | The digit loop advances to the end of the digit run, counts it, and appends it to the text. |
| JsonLexers.LexInteger | src/puter-shell/coreutils/json-test.js:116-126 | The sign and integer code succeeds exactly when the integer step does. It stops where that step does, with the consumed slice as text. |
| JsonLexers.LexFraction | src/puter-shell/coreutils/json-test.js:128-132 | The fraction code agrees with the fraction step on success, position and text. |
| JsonLexers.LexExponent | src/puter-shell/coreutils/json-test.js:134-142 | The exponent code agrees with the exponent step on success, position and text. |
| JsonLexers.ParseNumber | src/puter-shell/coreutils/json-test.js:87-146 | `NumberParserImpl.parse` returns no node exactly when the three steps fail. Otherwise it returns a number node whose text is exactly the consumed bytes, and stops where the steps stop. |
| JsonLexers.HexValue | src/puter-shell/coreutils/json-test.js:222 | A hex digit's value is below 16. |
| JsonLexers.Advance | src/puter-shell/coreutils/json-test.js:177-183 | The string parser's `next` advances once, and reports the new current byte if there is one. |
| JsonLexers.LexEscape | src/puter-shell/coreutils/json-test.js:199-228 | An escape sequence fails exactly where the reference string recogniser fails. On success the recogniser's result is unchanged from the new position. |
| JsonLexers.LexHexQuad | src/puter-shell/coreutils/json-test.js:208-221 | `\u` succeeds exactly when four hex digits follow and a byte comes after them. It consumes those four. |
| JsonLexers.ParseString | src/puter-shell/coreutils/json-test.js:167-246 | `StringParserImpl.parse` returns the node and stops exactly as the string recogniser says, and returns no node when that fails. |
| JsonLexemes.NumberEndSound | src/puter-shell/coreutils/json-test.js:87-146 | Soundness: whatever the number parser consumes is the spelling of a well-formed lexeme: optional '-', an optional integer part, optional fraction, optional exponent. |
| JsonLexemes.NumberEndComplete | src/puter-shell/coreutils/json-test.js:87-146 | Completeness: every well-formed lexeme followed by a byte that cannot continue it is consumed exactly. |
| JsonLexemes.LeadingZeroStops | src/puter-shell/coreutils/json-test.js:122-123 | A leading '0' is the whole integer part: "0123" lexes as "0". |
| JsonLexemes.ZeroAtEndFails | src/puter-shell/coreutils/json-test.js:117-123 | "0" or "-0" as the last bytes of the input fail. |
| JsonLexemes.DigitsAtEndSucceed | src/puter-shell/coreutils/json-test.js:124-126 | A run of digits starting with 1 to 9 at the end of the input is accepted whole. |
| JsonLexemes.TruncatedNumberFails | src/puter-shell/coreutils/json-test.js:117-136 | Input ending right after '-' fails. So does a number without a fraction that ends the input with a bare '.', and any number without an exponent, with or without a fraction, that ends the input with 'e' or 'E'. |
| JsonLexemes.ExponentSignAtEndFails | src/puter-shell/coreutils/json-test.js:135-140 | Any number without an exponent, with or without a fraction, that ends the input with an exponent marker and its sign fails. |
| JsonLexemes.LoneMinus | src/puter-shell/coreutils/json-test.js:116-145 | A '-' followed by a byte that cannot continue a number is accepted as the number "-". |
| JsonLexemes.FractionWithoutInteger | src/puter-shell/coreutils/json-test.js:121-132 | ".5" with no integer part is accepted. |
| JsonStrings.StringLexPieces | src/puter-shell/coreutils/json-test.js:167-246 | Completeness: a quoted sequence of raw characters, table escapes and `\u` escapes is accepted. Its node text is the quotes around the decoded pieces. |
| JsonStrings.StringLexQuoted | src/puter-shell/coreutils/json-test.js:185-242 | An accepted string starts and ends with '"' in the input, and its text does too. |
| JsonStrings.StringBodySound | src/puter-shell/coreutils/json-test.js:193-239 | Whatever the body loop accepts is the pieces it reads, each well formed, followed by the closing quote; the text is what it had plus their decoding and the quote. |
| JsonStrings.StringLexSound | src/puter-shell/coreutils/json-test.js:185-246 | Soundness, the converse of StringLexPieces: an accepted string is a quote, well-formed pieces and a quote in the input, and its text is their decoding between quotes. |
| JsonStrings.UnterminatedStringFails | src/puter-shell/coreutils/json-test.js:193-234 | Input with no closing quote fails. |
| JsonStrings.InvalidEscapeFails | src/puter-shell/coreutils/json-test.js:199-228 | A backslash followed by a byte that is neither an escape-table key nor 'u' fails. |
| JsonStrings.EscapedQuoteAtEndFails | src/puter-shell/coreutils/json-test.js:199-205 | `"a\"` ending the input fails: its last quote is escaped, and input ends before a closing one. |
| JsonStrings.LetterEscapesFail | src/puter-shell/coreutils/json-test.js:155-164 | `\n`, `\r` and `\t` written as letters fail, because the escape table holds the raw control characters instead. |
| JsonStrings.ShortUnicodeEscapeFails | src/puter-shell/coreutils/json-test.js:213-221 | A `\u` followed by fewer than four hex digits fails. |
| JsonStrings.UnicodeEscapeAtEndFails | src/puter-shell/coreutils/json-test.js:213-216 | A `\u` escape whose fourth digit is the last byte of the input fails. |
| RlComprehend.RelevantInput | src/ansi-shell/rl_comprehend.js:18 | `slice(0, cursor)` is a prefix of length cursor when the cursor is in range. It is the whole input past the end. A negative cursor counts from the end. |
| RlComprehend.EndsWithWhitespace | src/ansi-shell/rl_comprehend.js:20-26 | Ending in whitespace needs a last character. |
| RlComprehend.AfterLastSeparator | src/ansi-shell/rl_comprehend.js:37-47 | The current command is no longer than the token list. |
| RlComprehend.AfterLastSeparatorShape | src/ansi-shell/rl_comprehend.js:37-47 | The current command is the suffix after the last pipe or semicolon separator. It holds no separator, and the token just before it is one. |
| RlComprehend.StripRedirects | src/ansi-shell/rl_comprehend.js:93-105 | The argument tokens hold no redirect operator. |
| RlComprehend.ReadlineComprehend | src/ansi-shell/rl_comprehend.js:18-113 | The whole procedure equals the reference classification of the tokens of the text left of the cursor. |
| RlComprehend.CurrentCommand | src/ansi-shell/rl_comprehend.js:37-47 | The backwards loop keeps exactly the tokens after the last separator. |
| RlComprehend.ArgumentTokens | src/ansi-shell/rl_comprehend.js:93-105 | The argument loop drops each redirect operator together with the token after it. |
| RlComprehend.SeparatorResets | src/ansi-shell/rl_comprehend.js:37-47 | Everything before a separator has no influence on the classification. |
| RlComprehend.TrailingRedirect | src/ansi-shell/rl_comprehend.js:50-61 | A line ending in a redirect operator is a redirect with no input yet. |
| RlComprehend.PartialRedirectTarget | src/ansi-shell/rl_comprehend.js:63-75 | A word after a redirect operator is the redirect's partial target unless whitespace follows. With whitespace it is a command input. |
| RlComprehend.NoSeparator | src/ansi-shell/rl_comprehend.js:37-47 | Without a separator, all tokens belong to the current command. |
| RlComprehend.CommandShape | src/ansi-shell/rl_comprehend.js:85-112 | A command classification names its first word as id. Its tokens start with that word and hold no redirect or separator, and it carries the line's trailing-whitespace flag. |
| RlComprehend.StripSubset | src/ansi-shell/rl_comprehend.js:93-105 | Every argument token comes from the command's tokens. |
| RlComprehend.StripWithoutRedirects | src/ansi-shell/rl_comprehend.js:93-105 | Without redirect operators, all tokens are argument tokens. |
| RlComprehend.StripRedirectPair | src/ansi-shell/rl_comprehend.js:96-101 | A redirect operator and its target are removed, and the tokens before them kept. |
| Pipelines.MaybeStaticallyResolve | src/ansi-shell/pipeline/Pipeline.js:51-73 | A token resolves statically exactly when all its components are symbols or string segments. The value is their texts concatenated. |
| Pipelines.Resolve | src/ansi-shell/pipeline/Pipeline.js:75-100 | Resolution concatenates literal texts and the trailing-trimmed output of each sub-pipeline, and skips other components. |
| Pipelines.StaticAgreesWithResolve | src/ansi-shell/pipeline/Pipeline.js:51-100 | For a literal-only token, static and full resolution agree, whatever sub-pipelines would print. |
| Pipelines.ResolvedTextAppend | src/ansi-shell/pipeline/Pipeline.js:75-91 | Resolution distributes over concatenation of components. |
| Pipelines.ResolvedOther | src/ansi-shell/pipeline/Pipeline.js:77-91 | A component of any other kind contributes nothing. |
| Pipelines.ResolvedSubPipeline | src/ansi-shell/pipeline/Pipeline.js:82-89 | A sub-pipeline contributes its output with trailing whitespace trimmed, in place. |
| Pipelines.RedirectsOf | src/ansi-shell/pipeline/Pipeline.js:141-144 | Each output redirect node maps, in order, to its static path or its deferred token. |
| Pipelines.CommandLookup | src/ansi-shell/pipeline/Pipeline.js:116-132 | A static non-empty name that the provider does not know is a syntax error "no command: " plus the JSON-quoted name. A known one is the found command. Otherwise lookup is deferred to execution. |
| Pipelines.PreparedParts | src/ansi-shell/pipeline/Pipeline.js:136-152 | The arguments are the tokens after the name. The input redirect is the first input-redirect node, if any. The output redirects map one to one. |
| Pipelines.NoNameToken | src/ansi-shell/pipeline/Pipeline.js:104-110 | A command node without tokens fails with the engine's TypeError for reading `$` of undefined: `shift` gives undefined, and `Token.createFromAST` reads its `$` (Pipeline.js:36). |
| Pipelines.CreatePipelineFromAst | src/ansi-shell/pipeline/Pipeline.js:325-338 | Preparing a pipeline succeeds exactly when every command prepares, giving them in order. Otherwise it fails with the first command's error. |
| Pipelines.ResolveArgs | src/ansi-shell/pipeline/Pipeline.js:182-188 | Each argument resolves in order. |
| Pipelines.FlushEffects | src/ansi-shell/pipeline/Pipeline.js:303-318 | One file write per output redirect. |
| Pipelines.ResolveRedirect | src/ansi-shell/pipeline/Pipeline.js:196-198 | A redirect's path is its static text, or its deferred token resolved. |
| Pipelines.CommandForExecution | src/ansi-shell/pipeline/Pipeline.js:172-180 | A deferred command is resolved and looked up at execution time, with a plain error when the lookup misses. |
| Pipelines.OpenInput | src/ansi-shell/pipeline/Pipeline.js:193-202 | A truthy input redirect reads the resolved file and becomes the input. Otherwise the inherited input is kept. |
| Pipelines.ApplyDecorators | src/ansi-shell/pipeline/Pipeline.js:265-274 | The command's decorators wrap the body in declaration order. A missing decorator is the engine's TypeError for reading `decorate` of undefined. |
| Pipelines.ReportThrown | src/ansi-shell/pipeline/Pipeline.js:276-296 | The exception handler's output and exit, as `ThrownClassification` spells out. |
| Pipelines.FlushRedirects | src/ansi-shell/pipeline/Pipeline.js:303-318 | The flush loop's writes, in redirect order. |
| Pipelines.Execute | src/ansi-shell/pipeline/Pipeline.js:166-321 | `PreparedCommand.execute` produces exactly the effects, exit and result of the reference execution. Argument processing passes the processor named by `$` the rest of `command.args` as its spec, so commands that share a processor can be validated differently. |
| Pipelines.DecorateFailurePersists | src/ansi-shell/pipeline/Pipeline.js:266-273 | Once a decorator is missing, the later decorators do not change the failure. |
| Pipelines.InvalidArguments | src/ansi-shell/pipeline/Pipeline.js:251-263 | When argument processing marks the call invalid: exit is -1, `out` is closed, the body does not run, and no redirect file is written. |
| Pipelines.DeferredLookupMiss | src/ansi-shell/pipeline/Pipeline.js:172-179 | A deferred name that the provider does not know fails with "no command: " and the JSON-quoted name, before any effect. |
| Pipelines.InputRedirectTruthiness | src/ansi-shell/pipeline/Pipeline.js:194-202 | An empty static input path is falsy and keeps the inherited input. A deferred redirect always reads its resolved file. |
| Pipelines.WriteEffectsAppend | src/ansi-shell/pipeline/Pipeline.js:224-234 | Output fan-out distributes over concatenation of writes. |
| Pipelines.FanOut | src/ansi-shell/pipeline/Pipeline.js:224-234 | With output redirects, `out` receives nothing. Without them, it receives every write in order. Either way no file is written during the run. |
| Pipelines.FlushInOrder | src/ansi-shell/pipeline/Pipeline.js:303-318 | The i-th flush writes the captured bytes to the i-th redirect's resolved path. |
| Pipelines.CloseThenFlush | src/ansi-shell/pipeline/Pipeline.js:298-318 | In a full run, `out` is closed after the body and its error report. Then each redirect file is written with all captured output, and no file is written before the close. |
| Pipelines.ThrownClassification | src/ansi-shell/pipeline/Pipeline.js:279-296 | An `Exit` is silent and sets no exit. An error with a code writes its message in red. Any other error writes its string form in red and sets exit -1. |
| Pipelines.ExecutePipeline | src/ansi-shell/pipeline/Pipeline.js:342-384 | Stage 0 reads the pipeline's input, and each later stage reads the previous stage's pipe. Every stage writes to its own pipe, with errors to the shell's `out`. The last pipe is coupled to `out`. Commands launch last to first. Zero stages is the engine's TypeError for reading `out` of null. |
| Pipelines.PipelineDataflow | src/ansi-shell/pipeline/Pipeline.js:351-370 | What comes out of stage i's pipe is the composition of stages 0 to i applied to the input. |
| AnsiShell.Shell.constructor | src/ansi-shell/ANSIShell.js:54-86 | The constructor sets pwd and home to "/" plus the user name and sets user. It dispatches three change events and leaves the default environment. |
| AnsiShell.Shell.ExportDefaults | src/ansi-shell/ANSIShell.js:76-83 | The default exports complete the environment to its default. |
| AnsiShell.Shell.ExportGetter | src/ansi-shell/ANSIShell.js:44-49 | Exporting a function defines a getter property, and nothing else changes. |
| AnsiShell.Shell.ExportText | src/ansi-shell/ANSIShell.js:51 | Exporting a value defines a data property, and nothing else changes. |
| AnsiShell.Shell.SetVar | src/ansi-shell/ANSIShell.js:22-30 | Assigning a variable updates it and dispatches one change event with the old and new value. |
| AnsiShell.Shell.OnWindowResize | src/ansi-shell/ANSIShell.js:34-36 | A resize assigns `size`, through the same change event. |
| AnsiShell.Shell.Export | src/ansi-shell/ANSIShell.js:43-52 | `export_` follows the property rules. It redefines an entry, calls an accessor's setter (a variable assignment with its event), or fails with a TypeError and changes nothing. |
| AnsiShell.Shell.DoPromptIteration | src/ansi-shell/ANSIShell.js:88-136 | The prompt is PS1 expanded. The iteration writes and runs exactly what the reference dispatch says, and variables and environment stay unchanged. Echo is turned off before the prompt and back on after the line is read, so it ends on exactly when PS1 is a string: a throwing PS1 leaves echo off. |
| AnsiShell.Shell.HandleInput | src/ansi-shell/ANSIShell.js:106-135 | The line is handled exactly as the reference dispatch says. |
| AnsiShell.Shell.SetDebugFeature | src/ansi-shell/ANSIShell.js:112-122 | A debug instruction writes its two lines and sets the flag. |
| AnsiShell.Shell.RunPipeline | src/ansi-shell/ANSIShell.js:124-134 | `runPipeline` writes and runs exactly what the reference says, and leaves the debug flags alone. A failure of the pipeline is written as "error: " and the message it carries, which for a TypeError is the engine's text, after the in-place line of a syntax error. |
| AnsiShell.DefaultComputedEntries | src/ansi-shell/ANSIShell.js:61-81 | PWD, HOME and USER read the live variables. ROWS and COLS read `size`, or 0 without one. PS1 is the default prompt. |
| AnsiShell.PwdWritesThrough | src/ansi-shell/ANSIShell.js:62-66 | Assigning PWD sets the `pwd` variable. |
| AnsiShell.DefaultAccessorsFixed | src/ansi-shell/ANSIShell.js:62-78 | The default accessors are not configurable: re-exporting any of them as a function is a TypeError. Assigning one without a setter is too. |
| AnsiShell.ExportedEntries | src/ansi-shell/ANSIShell.js:43-52 | A new getter reads its variable live. Assigning a data property reads back the value and leaves every other entry alone. |
| AnsiShell.BlankInput | src/ansi-shell/ANSIShell.js:106-109 | A blank line writes "" and runs nothing. |
| AnsiShell.DebugLine | src/ansi-shell/ANSIShell.js:112-122 | A `%%%` line writes two lines and runs nothing. It sets the second word's flag on exactly when the third word is "on"; with a single word the flag is "undefined". |
| AnsiShell.NotBlank | src/ansi-shell/ANSIShell.js:106 | A line starting with a non-whitespace character is not blank. |
| AnsiShell.RunPipelineGuards | src/ansi-shell/ANSIShell.js:156-186 | No pipelines: nothing happens. More than one: "something went wrong...". With show-ast: the JSON is written. Otherwise the one pipeline runs. |
| AnsiShell.TokenizerError | src/ansi-shell/ANSIShell.js:143-156 | A tokenizer error is written. Then reading `length` of the missing tokens throws, and that error is written too. |
| AnsiShell.ReplaceLiteral | src/ansi-shell/ANSIShell.js:204 | A '$'-free replacement of a pattern's first occurrence splices it in verbatim. |
| AnsiShell.PromptExpansion | src/ansi-shell/ANSIShell.js:201-206 | `\u`, `\w` and `\$` in a prompt become the user, the working directory and '$'. |
| AnsiShell.ExpandEach | src/ansi-shell/ANSIShell.js:202-204 | The three first-occurrence replacements, applied in turn, substitute each escape once. |
| PathCommandProvider.Candidates | src/puter-shell/providers/PathCommandProvider.js:89-90 | One candidate per PATH directory, in order: the command name resolved against it. |
| PathCommandProvider.Hits | src/puter-shell/providers/PathCommandProvider.js:89-103 | The hits are no more than the candidates. |
| PathCommandProvider.FirstHit | src/puter-shell/providers/PathCommandProvider.js:101 | The first hit is the first candidate whose stat succeeds. |
| PathCommandProvider.HitsMembers | src/puter-shell/providers/PathCommandProvider.js:91-102 | A path is a hit exactly when it is a candidate whose stat succeeds. |
| PathCommandProvider.Commands | src/puter-shell/providers/PathCommandProvider.js:99-102 | Each hit becomes a command carrying the id and the path. |
| PathCommandProvider.FindCommandsInPath | src/puter-shell/providers/PathCommandProvider.js:81-106 | An unset or empty PATH gives undefined. With firstOnly, the result is the first hit's command. Otherwise it is all hits' commands in PATH order; the empty list when nothing matched. |
| PathCommandProvider.Lookup | src/puter-shell/providers/PathCommandProvider.js:109-111 | `lookup` gives the first hit's command, or an empty list when nothing matched. |
| PathCommandProvider.LookupAll | src/puter-shell/providers/PathCommandProvider.js:113-115 | `lookupAll` gives every hit's command in PATH order. |
| PathCommandProvider.ExitClassification | src/puter-shell/providers/PathCommandProvider.js:50-58 | A signal rejects with Exit(1). A non-zero code rejects with that code. Otherwise the command resolves. A rejection never carries 0. |
| PathCommandProvider.InterruptBeforeExit | src/puter-shell/providers/PathCommandProvider.js:40-47 | A SIGINT arriving before the child exits rejects with Exit(130). |
| PathCommandProvider.ExitBeforeInterrupt | src/puter-shell/providers/PathCommandProvider.js:49-60 | A child exit arriving first settles as the exit classification says. |
| PathCommandProvider.ExitCodeLostAsWritten | src/puter-shell/providers/PathCommandProvider.js:50-56 | As written, the exit handler destructures `code`, which the exit event does not carry. A child exiting with 3 is reported as "code 0" and resolves. |
| PathCommandProvider.ExitCodeKept | src/puter-shell/providers/PathCommandProvider.js:50-56 | Reading `exitCode` instead rejects with the child's non-zero code and resolves on 0. |
| Touch.ResolveAll | src/puter-shell/coreutils/touch.js:41 | Every operand is resolved, in order. |
| Touch.Execute | src/puter-shell/coreutils/touch.js:30-58 | `touch` does exactly what the reference run over the resolved operands says: the new entries, what it writes to `err`, and how it exits. |
| Touch.TouchKeepsExisting | src/puter-shell/coreutils/touch.js:43-54 | No entry disappears. An existing entry that `stat` can see is left as it was. |
| Touch.TouchCreatesEmptyFiles | src/puter-shell/coreutils/touch.js:54-56 | Every entry after `touch` was there before, or is an empty file at one of the operands. |
| Touch.TouchDoneCoversAll | src/puter-shell/coreutils/touch.js:40-57 | When `touch` completes, every operand exists and nothing was written to `err`. |
| Touch.TouchInOrder | src/puter-shell/coreutils/touch.js:40-57 | Operands are processed left to right, and processing stops at the first failure. |
| Touch.TouchReportsStatError | src/puter-shell/coreutils/touch.js:44-51 | A stat error other than not-found writes "touch: " and the message, exits with 1, and changes nothing. |
| Touch.TouchMissingOperand | src/puter-shell/coreutils/touch.js:35-38 | No operand writes "touch: missing file operand" and exits with 1. |
| MkdirCommand.Execute | src/puter-shell/coreutils/mkdir.js:37-56 | No operand fails validation and changes nothing. Otherwise the target is made a directory, or the platform's error message is thrown and nothing changes. |
| MkdirCommand.OnlyFirstPositional | src/puter-shell/coreutils/mkdir.js:43 | Only the first operand is used. |
| MkdirCommand.TargetResolution | src/puter-shell/coreutils/mkdir.js:47-49 | An absolute target is used as is. Anything else is resolved against pwd. |

## Left out

- Web Streams, promises and `await`. Reads and writes are sequential calls. `ChunkSource` stands in for a stream reader: a queue of chunks, then done.
- Concurrency:
  - The stages of a pipeline run one after another in the model. `ExecutePipeline` states the wiring and the launch order. `PipelineDataflow` states what flows through it.
  - `Coupler`, `Pipe` internals and backpressure are not modelled.
- Reader decorators: `SignalReader`, `SyncLinesReader`, `CommandStdinDecorator`, `MemReader`, `MemWriter`, `NullifyWriter`, `MultiWriter` and `ByteWriter` are modelled only by their effect on where bytes go.
- Process spawning:
  - the stdin pump in PathCommandProvider.js:62-74 and the arguments passed to `pty.spawn` are not modelled; only how the exit and SIGINT promises settle is.
  - `child.kill` is not modelled.
- The strataparse glue of json-test.js is not modelled: `JsonPStratumImpl`, the parser registry, the facade and the command's `execute`. Only the four parser implementations are.
- The `$cst` positions and `print_here`. The text a syntax error prints in place is a parameter (`here`).
- `console.log`. It has no effect on the modelled state.
- `TextEncoder` is modelled as UTF-8 over Unicode scalar values. Dafny strings cannot hold lone surrogates, which `TextEncoder` would turn into U+FFFD.
- `path.resolve`, `path_.resolve` and `resolveRelativePath` are parameters.
- The tokenizer (`parseLineForProcessing`), the readline itself, the command registry, argument parsers and decorators are parameters. Their behaviour is not part of this model.
- MkdirCommand.Execute: `validate_string` is modelled only for a missing first operand. Operands are always strings here. The `parents` option is parsed but never read by the code, and it is ignored here too.
- Pipelines.Execute: the `exit_code` local in the exception handler is assigned and never read, so it is not modelled. Only `ctx.locals.exit` is.
- AnsiShell.Shell.constructor: the echo state belongs to the terminal's `ctx.externs.echo`. The shell does not set it when it is built, so the constructor states nothing about it.
- AnsiShell.Shell.DoPromptIteration: when PS1 is not a string, `expandPromptString` throws before the line is read. The model stops the iteration with no prompt and no output, with echo left off, and does not model the rejected promise.
- JsonLexers.IntegerEnd, JsonLexers.FractionEnd, JsonLexers.ExponentEnd and JsonLexers.NumberEnd: their own contracts state only bounds. What they accept is stated by `JsonLexemes.NumberEndSound` and `JsonLexemes.NumberEndComplete`.
- JsString.Split: only one-character separators are modelled, which is all the core uses.
- Pipelines.Execute: collaborators are total. In the program `filesystem.read` of a missing input-redirect file (Pipeline.js:199-200), `filesystem.write` during the flush (Pipeline.js:316) and `commandProvider.lookup` can reject, and the rejection escapes `execute`. The model has no such failure.
- Pipelines.Resolve: a `$(...)` sub-pipeline is a `run` parameter that returns its output. A sub-pipeline whose `Pipeline.createFromAST` throws (Pipeline.js:83) would make `resolve` throw; that failure is not modelled.
- Touch.Execute: `filesystem.write` (touch.js:56) always succeeds in the model. In the program a rejected write escapes the command.
- RlComprehend.RelevantInput: the cursor counts Unicode scalar values. `input.slice(0, cursor)` counts UTF-16 code units, so the two cut at different places when a character outside the Basic Multilingual Plane comes before the cursor.
- Pipelines.ApplyDecorators: a decorator receives the command and the execute function. `command.decorators` is a list of ids here, so the `params` that Pipeline.js:267-271 passes (`command.decorators[decoratorId]`) are not modelled.
- AnsiShell.Shell.SetVar: the model records each change with its key, old value and new value. The program passes these to `new CustomEvent` as top-level init members (ANSIShell.js:25-29), but only `detail` is carried into the event. So a listener sees an event with no payload, and the model does not capture that.
- src/main_cli.js, src/puter-shell/coreutils/__exports__.js, src/platform/definitions.js and src/ansi-shell/parsing/PARSE_CONSTANTS.js are not part of this model. They only wire things up and name constants.

## Findings

| source | as written | input that shows it | evidently intended | confidence | as-written member | corrected member |
|---|---|---|---|---|---|---|
| packages/pty/exports.js:25-27 | `this.chunks_.push(await this.getChunk_())` reads `this.chunks_` before the await. When bytes are buffered, `getChunk_` merges them and installs a new empty array, so the merged chunk is pushed onto the discarded array. Every chunk shorter than the buffer is dropped. | stream [1], [2,3] read into a 2-byte buffer fills it with 2,3 instead of 1,2 | buffer further chunks from the delegate until the buffer can be filled, then deliver the next bytes of the stream in order | medium, not executed | Terminal.ReadExactAsWrittenDropsBytes | Terminal.BetterReader.ReadExact |
| src/puter-shell/providers/PathCommandProvider.js:50-56 | The exit handler destructures `{code, signal}`, but node-pty's exit event is `{exitCode, signal}`. `code` is always undefined. | a child exiting with status 3 and no signal prints "Exited with code 0 and signal 0" and the command resolves | read `exitCode`, so that a non-zero status rejects with `Exit(status)` | medium, not executed | PathCommandProvider.ExitCodeLostAsWritten | PathCommandProvider.ExitCodeKept |
