# CodePreprocessor in Dafny

A model of the `CodePreprocessor` class (`src/class.codePreprocessor.php`), a
line-oriented source preprocessor. `parse()` splits a text on LF and
tokenises each line. The uppercased first token is looked up in the
operator table (`#IF`, `#ELSE`, `#ELSEIF`/`#ELIF`, `#ENDIF`, `#SWITCH`,
`#CASE`, `#DEFAULT`, `#ENDSWITCH`, `#INCLUDE`). Directives drive a nested
IF/SWITCH state machine. Its state is the depth counter `$iflevel` and four
arrays indexed by depth: `$ifstate`, `$ifbranch`, `$ifdone` and
`$switch_factor`. A plain line is emitted when every frame from depth 1 to
the current depth is in a true state. Before it is emitted, wrapped
variable names (`%name%` by default) are substituted and trailing whitespace
is trimmed. `#INCLUDE` parses another file and inserts its result as one
output element. Misplaced directives append `"Line n: ..."` messages to the
object's error list. The emitted lines are joined with the configured
delimiter.

Modules:

- `Options`: the optional value, and `Somes`, the present values of an
  optional sequence.
- `PhpText`: the PHP string built-ins the class relies on, written out on
  `seq<char>`. These are `trim`/`rtrim`, the tokenising
  `preg_split("/[\s,]+/", ...)`, `explode`/`implode`, `strtoupper`, and
  `str_replace` of one key.
- `PhpValues`: scalar values, `isset`/`empty`, the loose `==` used by
  `#CASE`, and PHP arrays with string keys (association lists with
  distinct keys).
- `Directives`: the operator table, tokenising a line, and recognising its
  directive.
- `ControlFlow`: the depth-indexed frames and the effect of each directive
  on them, the trace of frames over a sequence of lines, and the lemmas
  about IF chains, SWITCH blocks and nesting.
- `Preprocessor`: the reference functions `Step`, `Run`, `ParseText` and
  `ParseSpec`, which say what `parse()` computes. Also the class
  `CodePreprocessor`, whose fields and methods mirror the PHP object and
  are proved against those functions.

The model keeps these behaviours of the code:

- `#IF` with no condition only increments the depth, so the new frame keeps
  whatever an earlier block left at that depth.
- `#ENDIF` pops any frame, a SWITCH frame included.
- Popping a frame clears nothing.
- Every `#CASE` whose list matches the discriminant is active, not only the
  first one. `#DEFAULT` is active exactly when no earlier `#CASE` of the
  switch matched.
- `#INCLUDE` is followed even inside an inactive block. The activity flag
  computed for it is never used.
- The included file is parsed with no variables and no substitution.
- The error list is never cleared between `parse()` calls.

## Model

| member | source | states |
|---|---|---|
| PhpText.RTrimShape | src/class.codePreprocessor.php:208 | rtrim() keeps a prefix of the line, removes only whitespace characters, and leaves none at the end |
| PhpText.SplitShape | src/class.codePreprocessor.php:237 | `Directives.Tokens` is the line trimmed (`PhpText.Trim`, built from `PhpText.LTrim` and `PhpText.RTrim`) and then split; `PhpText.Split` models `preg_split("/[\s,]+/", ...)`: no token contains a separator; only the first and the last token can be empty; a text without separators is its own single token |
| PhpText.SplitKeepsContent | src/class.codePreprocessor.php:237 | the tokens, concatenated, are the text with every whitespace and comma removed (nothing else is lost or reordered) |
| PhpText.SplitCuts | src/class.codePreprocessor.php:237 | the text is its tokens with a non-empty run of separators between each two of them; with SplitShape this fixes every cut, so the first token is the text up to the first separator |
| PhpText.JoinExplode | src/class.codePreprocessor.php:92 | joining the pieces of explode() with the same delimiter gives back the text |
| PhpText.UpperIdempotent | src/class.codePreprocessor.php:239 | strtoupper() of an uppercased token changes nothing |
| PhpText.ReplaceAllExplode | src/class.codePreprocessor.php:207 | `PhpText.ReplaceAll` is str_replace() of one key: it equals implode(replacement, explode(key, line)), so every non-overlapping occurrence, found left to right, is replaced and the text between occurrences is kept |
| PhpText.JoinExplodeStr | src/class.codePreprocessor.php:207 | joining the pieces of explode() on a non-empty key with that key gives back the text |
| PhpText.ExplodeStrPieces | src/class.codePreprocessor.php:207 | no piece of explode() on a key contains the key |
| PhpText.ReplaceAllAbsent | src/class.codePreprocessor.php:207 | str_replace() of a key that does not occur leaves the line unchanged |
| PhpText.ReplaceAllWhole | src/class.codePreprocessor.php:207 | a corollary of ReplaceAllExplode: a line that is exactly the key becomes the replacement |
| PhpValues.Put | src/class.codePreprocessor.php:87 | `$substs[key] = val`: key now maps to val, every other key keeps its value, a new key is appended at the end, an existing key keeps its place |
| PhpValues.LookupUnique | src/class.codePreprocessor.php:161 | `$vars[name]` finds the value stored under name (keys are unique) |
| Directives.ScanIsKeyword | src/class.codePreprocessor.php:13-23 | scanning the operator table in order gives the same answer as the direct keyword mapping, because no spelling appears in two entries |
| Directives.RecognizeIgnoresCase | src/class.codePreprocessor.php:239 | a token and its uppercase form name the same directive |
| Directives.ExactKeywords | src/class.codePreprocessor.php:238-245 | #ELSEIF and #ELIF both name ELSEIF; #ELSE names ELSE and #IF names IF only when the whole token matches, in both directions |
| ControlFlow.Transition | src/class.codePreprocessor.php:113-195 | a reported misuse leaves the frames unchanged; the depth moves by at most one; only the frame at the resulting depth can change, and only when the depth did not go down |
| ControlFlow.IfOpensFrame | src/class.codePreprocessor.php:113-124 | #IF with a condition goes one level deeper; the new frame's state and done flag are both "some listed variable is set and non-empty" (`PhpValues.IsSetNonEmpty`, with `PhpValues.IsEmpty` for empty()), on branch 'if' |
| ControlFlow.IfWithoutConditionKeepsStaleFrame | src/class.codePreprocessor.php:116-117 | #IF with no condition only increments the depth and writes no frame |
| ControlFlow.ElseIfInChain | src/class.codePreprocessor.php:129-136 | #ELSEIF in an IF chain is inactive once a branch was taken, else it is active iff its condition holds; done becomes done-or-active; branch 'elseif' |
| ControlFlow.ElseInChain | src/class.codePreprocessor.php:142-145 | #ELSE in an IF chain is active iff no branch was taken; branch 'else' |
| ControlFlow.EndIfPopsAnyFrame | src/class.codePreprocessor.php:148-153 | #ENDIF above depth 0 only decrements the depth, whatever frame is on top |
| ControlFlow.SwitchOpensFrame | src/class.codePreprocessor.php:154-166 | #SWITCH opens a frame on branch 'switch', inactive and not done, holding the variable's value (0 when unset, "" with no name; `PhpValues.ValueOrZero` models the isset() test) |
| ControlFlow.CaseInSwitch | src/class.codePreprocessor.php:174-179 | #CASE in a SWITCH frame is active iff some listed value loosely equals the discriminant (`PhpValues.LooseEquals` models PHP's `==`); a match marks the frame done |
| ControlFlow.DefaultInSwitch | src/class.codePreprocessor.php:188 | #DEFAULT in a SWITCH frame is active iff the frame is not done |
| ControlFlow.MisplacedDirectives | src/class.codePreprocessor.php:125-195 | each misplaced directive is reported with its own message exactly when it is misplaced (both directions), and a reported misuse changes no frame; #IF, #SWITCH and #INCLUDE are never misuses |
| ControlFlow.NestedBlocksKeepOuterFrames | src/class.codePreprocessor.php:226-229 | while the depth stays above l, inner directives leave every frame at depth l or below untouched, so an inactive outer frame keeps every inner line inactive |
| ControlFlow.SettledStays | src/class.codePreprocessor.php:125-147 | once a branch of an IF chain was taken, later lines keep the chain settled, and every further #ELSEIF/#ELSE of it is inactive |
| ControlFlow.ExclusiveIfChain | src/class.codePreprocessor.php:113-147 | at most one branch of an IF chain (the #IF or an #ELSEIF/#ELSE continuing it) is active |
| ControlFlow.FramesAfterShift | src/class.codePreprocessor.php:101-211 | the main loop reads the lines one after another: tracing the lines after position a from the frames reached at a continues the trace of the whole file |
| ControlFlow.BlockInFile | src/class.codePreprocessor.php:101-211 | a block found at position a of a file is traced from the frames the file reached at a, so the IF-chain and SWITCH lemmas about a block hold for the whole file's trace |
| ControlFlow.ChainTracks | src/class.codePreprocessor.php:113-147 | inside an IF block the frame stays on the chain or in its 'else' part, and while on the chain it is done exactly when some branch so far was taken |
| ControlFlow.ElseIfFiresIffFirstTrue | src/class.codePreprocessor.php:129-136 | an #ELSEIF of the chain is active iff no earlier branch was taken and its own condition holds: the first true condition wins |
| ControlFlow.ElseFiresIffNoneTaken | src/class.codePreprocessor.php:142-145 | an #ELSE of the chain is active iff no earlier branch was taken, so after it some branch was taken; with ExclusiveIfChain, exactly one |
| ControlFlow.BodyFollowsBranch | src/class.codePreprocessor.php:113-195 | from a branch directive (#IF, #ELSEIF, #ELSE, #CASE, #DEFAULT) to the next directive of the same frame, plain lines and nested blocks leave the frame and every outer frame unchanged: a body line is active only if the branch fired, and a line directly in the branch is active exactly when the line after the directive is |
| ControlFlow.SwitchTracksCases | src/class.codePreprocessor.php:154-180 | inside a SWITCH block the frame keeps branch 'switch' and the discriminant, and is done iff some #CASE of it so far matched |
| ControlFlow.CaseFiresIffMatch | src/class.codePreprocessor.php:167-180 | in a SWITCH block a #CASE of that switch is active iff one of its values equals the discriminant, even after an earlier #CASE matched |
| ControlFlow.DefaultFiresIffNoCaseMatched | src/class.codePreprocessor.php:181-189 | in a SWITCH block a #DEFAULT of that switch is active iff no earlier #CASE of it matched |
| Preprocessor.IncludeTableAt | src/class.codePreprocessor.php:198-199 | `Preprocessor.IncludeTable` is what #INCLUDE reads: an existing #INCLUDE target contributes exactly parse() of that path with no variables and no substitution, one nesting level down |
| Preprocessor.MisplacedLineReported | src/class.codePreprocessor.php:125-195 | a misplaced #ELSEIF, #ELSE, #ENDIF, #CASE, #DEFAULT or #ENDSWITCH appends exactly its "Line n: Wrong ..." message and changes neither the frames nor the output |
| Preprocessor.StepAgainstTrace | src/class.codePreprocessor.php:108-211 | `Preprocessor.Step` is one turn of the main loop (its cases stated one by one in StepPlain, StepIncludeFound, StepIncludeMissing and StepDirective); one turn moves the frames as the trace of the state machine does (#INCLUDE leaves them alone) and adds the line's contribution to the output |
| Preprocessor.RunFrames | src/class.codePreprocessor.php:101-211 | starting from the arrays as parse() initialises them (`ControlFlow.Initial`), after the main loop the depth and arrays are those of the state-machine trace over the lines, whatever the included texts contain |
| Preprocessor.RunOutput | src/class.codePreprocessor.php:108-211 | `Preprocessor.Run` is the main loop; its output is exactly the lines' contributions, in input order: active plain lines substituted and trimmed, and the parse of each existing #INCLUDE target |
| Options.SomesIndex | src/class.codePreprocessor.php:208 | each contributing line appears in the output exactly once and in input order (an increasing index from output element to source line, covering every contribution) |
| Preprocessor.WrapKeysClosed | src/class.codePreprocessor.php:86-88 | the table has one entry per array entry, in the same order: `prefix . key . suffix` with the same value; the wrapped keys stay distinct, so no entry overwrites another |
| Preprocessor.ApplySubstsInOrder | src/class.codePreprocessor.php:207 | `Preprocessor.ApplySubsts` is str_replace() with arrays: the keys are applied in table order, each to the result of the ones before, replacing every occurrence with the value's text (`PhpValues.Text`) |
| Preprocessor.BranchBodyEmitted | src/class.codePreprocessor.php:108-211 | a plain line in the body of a branch is emitted only if that branch fired; directly inside the branch it is emitted exactly when the branch fired and every enclosing block is active |
| Preprocessor.PlainRun | src/class.codePreprocessor.php:206-209 | lines without directives are all emitted, substituted and right-trimmed, with the frames at the root and no error |
| Preprocessor.PassthroughRoundTrip | src/class.codePreprocessor.php:80-214 | with LF as delimiter and no substitution, a text without directives and without trailing whitespace comes back unchanged, with no error |
| Preprocessor.CodePreprocessor.constructor | src/class.codePreprocessor.php:24-33 | wrappers '%' and '%', the host's delimiter (CRLF when PHP_OS contains "win" in any letter case — Windows, and also macOS "Darwin" and Cygwin — LF otherwise), an empty source folder, no errors |
| Preprocessor.CodePreprocessor.SetLF | src/class.codePreprocessor.php:40-44 | "windows" selects CRLF, "unix" selects LF, and any other string becomes the delimiter |
| Preprocessor.CodePreprocessor.SetSourceFolder | src/class.codePreprocessor.php:53-56 | the folder include targets are resolved against becomes the argument |
| Preprocessor.CodePreprocessor.SetSubstWrappers | src/class.codePreprocessor.php:65-71 | an empty prefix changes nothing; otherwise the prefix is set, and the suffix is the postfix, or the prefix again when the postfix is empty |
| Preprocessor.CodePreprocessor.GetErrorMessages | src/class.codePreprocessor.php:252-254 | returns every message recorded so far |
| Preprocessor.CodePreprocessor.GetOpCode | src/class.codePreprocessor.php:235-246 | stores the line's tokens and returns the first table entry whose spelling is the uppercased first token, or none |
| Preprocessor.CodePreprocessor.EvaluateParams | src/class.codePreprocessor.php:216-223 | true iff some token after the keyword names a variable that is set and not empty |
| Preprocessor.CodePreprocessor.CaseMatches | src/class.codePreprocessor.php:174-178 | true iff some value after #CASE loosely equals the discriminant |
| Preprocessor.CodePreprocessor.IsLineActive | src/class.codePreprocessor.php:226-229 | true iff every frame from depth 1 to the current depth is in a true state (always true at depth 0) |
| Preprocessor.CodePreprocessor.Directive | src/class.codePreprocessor.php:113-195 | the directive branch of the loop updates the depth and the four arrays exactly as the state machine does, and appends the misuse message, if any, to the error list |
| Preprocessor.CodePreprocessor.BuildSubsts | src/class.codePreprocessor.php:82-90 | the substitution table: for each entry of the chosen array (the table argument, or the variables), in order, its key wrapped in the current prefix and suffix with the same value; empty when substitution is off |
| Preprocessor.CodePreprocessor.ParseLine | src/class.codePreprocessor.php:108-211 | one turn of the main loop produces the frames, output, errors and tokens of the reference step |
| Preprocessor.CodePreprocessor.DirectiveStep | src/class.codePreprocessor.php:113-195 | one turn of the main loop on a structure directive moves the frames and appends the errors of the reference step, and emits nothing |
| Preprocessor.CodePreprocessor.IncludeStep | src/class.codePreprocessor.php:196-203 | one turn of the main loop on an #INCLUDE line, active or not, produces the output, errors and tokens of the reference step and leaves the frames and settings alone |
| Preprocessor.CodePreprocessor.IncludeLine | src/class.codePreprocessor.php:196-203 | an existing target is parsed recursively on the same object and its result appended; otherwise the error naming the path is appended |
| Preprocessor.CodePreprocessor.Parse | src/class.codePreprocessor.php:80-214 | with the source read as `Preprocessor.SourceText` says (the file's contents when `src` names a file, else `src` itself, :91), parse() returns the joined output of the reference definition `Preprocessor.ParseSpec` and appends its messages to the error list without clearing earlier ones |

## Left out

- File I/O: `is_file` and `file_get_contents` are modelled by a map `files`
  from path to contents. This map serves both for the source argument of
  `parse()` and for `#INCLUDE` targets. Reading a file is not modelled.
- The host-system check in the constructor (`stripos(PHP_OS, 'win')`) is
  replaced by the parameter `hostLf`, the delimiter the host would pick:
  CRLF when PHP_OS contains "win" in any letter case (Windows, and also
  macOS "Darwin" and Cygwin), LF otherwise.
- Preprocessor.CodePreprocessor.Parse: `#INCLUDE` nesting is bounded by
  `fuel`. When the fuel is spent, a target reads as missing and gets the
  missing-file message. The PHP code has no bound, and a file that includes
  itself recurses until PHP gives up.
- Preprocessor.IncludeTable: the same fuel bound as for `Parse`.
- PhpValues.LooseEquals: models PHP 8 `==` between a token and a value for
  non-numeric text only. Numeric strings ("1.0" == 1, "01" == "1"),
  floats and arrays as values are not modelled. A boolean compares by
  truthiness, and null equals only "".
- PhpText.Split: the PCRE class `\s` is taken as ASCII space, tab, LF, VT,
  FF and CR. Unicode whitespace and PCRE options are not modelled.
- Strings are sequences of characters. PHP's byte strings and the
  byte-wise `strtoupper` are modelled character by character, and only
  ASCII letters are uppercased.
- `$_tokens` starts as the integer 0 in PHP; the model starts it as the
  empty list. Nothing reads it before the first line sets it.
- The PHP notices (warnings since PHP 8) for reading an unset array entry are not modelled. Such
  reads are taken as null/false: an `#INCLUDE` without a name uses "", and
  `$ifstate` at a depth never written reads false.
- Every method that returns `$this` for chaining returns nothing here.
- Default arguments are not modelled: `parse()` takes its variables and
  substitution mode explicitly (PHP defaults: no variables, no
  substitution), `SetLF` takes its style (PHP default: "windows"), and
  `SetSubstWrappers` takes both wrappers (PHP's default postfix FALSE
  behaves as the empty string passed here).
- `#SET`, `#FOR`/`#ENDFOR` and an expression evaluator are not part of
  this class, so they are not modelled.
