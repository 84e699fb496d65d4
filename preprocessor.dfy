/**
 The preprocessor proper: the object with its settings and accumulated error
 list, and parse(), which runs the IF/SWITCH state machine over the lines of a
 text, substitutes wrapped variable names in the active plain lines, follows
 #INCLUDE into other sources and joins the emitted lines.

 Ghost-free reference functions (Step, Run, ParseSpec) describe what parse()
 computes; the class's methods are proved against them, and the lemmas below
 state what the reference functions guarantee.
 */
module Preprocessor {
  import opened Options
  import opened PhpText
  import opened PhpValues
  import opened Directives
  import opened ControlFlow

  /** The object state parse() reads: the substitution wrappers, the line delimiter and the source folder. */
  datatype Config = Config(prefix: string, suffix: string, lf: string, srcFolder: string)

  /** The third argument of parse(): off, on with the variables as table, or on with a table of its own. */
  datatype SubstMode = NoSubst | FromVars | Table(entries: PhpArray<Value>)

  /** The locals of parse() after some lines: the frames, the emitted lines, the errors, and `_tokens`. */
  datatype Progress = Progress(frames: Frames, out: seq<string>, errs: seq<string>, tokens: seq<string>)

  /** What parse() returns, what it appends to `_err`, and what it leaves in `_tokens`. */
  datatype Processed = Processed(text: string, errs: seq<string>, tokens: seq<string>)

  /** "Line n: text", numbering lines from 1. */
  function LineMessage(lineno: nat, text: string): string {
    "Line " + NatToString(lineno + 1) + ": " + text
  }

  const IncludeError: string := "Wrong source file name in #INCLUDE command : "

  /** The message a misuse adds to the error list, if any. */
  function Report(lineno: nat, m: Option<Misuse>): seq<string> {
    match m
    case None => []
    case Some(x) => [LineMessage(lineno, MisuseText(x))]
  }

  /** `$substs[prefix . key . suffix] = $val` for each entry, in order. */
  function WrapKeys(entries: seq<(string, Value)>, prefix: string, suffix: string): (r: PhpArray<Value>)
    ensures |r| <= |entries|
    decreases |entries|
  {
    if |entries| == 0 then []
    else
      var last := entries[|entries| - 1];
      Put(WrapKeys(entries[..|entries| - 1], prefix, suffix), prefix + last.0 + suffix, last.1)
  }

  /** Wrapping one more entry puts it, wrapped, after the ones before. */
  lemma WrapKeysNext(entries: seq<(string, Value)>, i: nat, prefix: string, suffix: string)
    requires i < |entries|
    ensures WrapKeys(entries[..i + 1], prefix, suffix)
      == Put(WrapKeys(entries[..i], prefix, suffix), prefix + entries[i].0 + suffix, entries[i].1)
  {
    assert entries[..i + 1][..i] == entries[..i];
  }

  /** Wrapping distinct keys in the same prefix and suffix keeps them distinct. */
  lemma WrapInjective(prefix: string, a: string, b: string, suffix: string)
    requires prefix + a + suffix == prefix + b + suffix
    ensures a == b
  {
    assert |a| == |b|;
    assert a == (prefix + a + suffix)[|prefix|..|prefix| + |a|];
    assert b == (prefix + b + suffix)[|prefix|..|prefix| + |b|];
  }

  /**
   The substitution table holds one entry per entry of the array, in the same
   order: its key wrapped in the prefix and suffix, with the same value. As the
   array's keys are distinct, so are the wrapped ones, and no entry overwrites
   another.
   */
  lemma {:induction false} WrapKeysClosed(entries: PhpArray<Value>, prefix: string, suffix: string)
    ensures |WrapKeys(entries, prefix, suffix)| == |entries|
    ensures forall i :: 0 <= i < |entries| ==>
      WrapKeys(entries, prefix, suffix)[i] == (prefix + entries[i].0 + suffix, entries[i].1)
    decreases |entries|
  {
    if |entries| > 0 {
      var n := |entries| - 1;
      var init: PhpArray<Value> := entries[..n];
      WrapKeysClosed(init, prefix, suffix);
      var w := WrapKeys(init, prefix, suffix);
      WrappedKeyIsNew(w, init, entries[n].0, prefix, suffix);
      var r := WrapKeys(entries, prefix, suffix);
      assert r == w + [(prefix + entries[n].0 + suffix, entries[n].1)];
      forall i | 0 <= i < |entries|
        ensures r[i] == (prefix + entries[i].0 + suffix, entries[i].1)
      {
        if i < n {
          assert r[i] == w[i] && init[i] == entries[i];
        }
      }
    }
  }

  /** A key absent from an array stays absent once every key is wrapped. */
  lemma WrappedKeyIsNew(w: seq<(string, Value)>, init: seq<(string, Value)>, key: string, prefix: string, suffix: string)
    requires |w| == |init|
    requires forall i :: 0 <= i < |w| ==> w[i].0 == prefix + init[i].0 + suffix
    requires forall i :: 0 <= i < |init| ==> init[i].0 != key
    ensures !HasKey(w, prefix + key + suffix)
  {
    forall i | 0 <= i < |w|
      ensures w[i].0 != prefix + key + suffix
    {
      if w[i].0 == prefix + key + suffix {
        WrapInjective(prefix, init[i].0, key, suffix);
      }
    }
  }

  /** The substitution table parse() builds from its arguments; an empty or absent table substitutes nothing. */
  function Substitutions(st: Config, vars: PhpArray<Value>, mode: SubstMode): PhpArray<Value> {
    match mode
    case NoSubst => []
    case FromVars => WrapKeys(vars, st.prefix, st.suffix)
    case Table(entries) => WrapKeys(entries, st.prefix, st.suffix)
  }

  /** str_replace(array_keys($substs), array_values($substs), $line): each key in turn over the result so far. */
  function ApplySubsts(line: string, substs: seq<(string, Value)>): string
    decreases |substs|
  {
    if |substs| == 0 then line
    else
      var last := substs[|substs| - 1];
      ReplaceAll(ApplySubsts(line, substs[..|substs| - 1]), last.0, Text(last.1))
  }

  /**
   The keys are applied in table order, each to the result of the ones before:
   every non-overlapping occurrence of the k-th key, found left to right in that
   result, becomes the text of its value.
   */
  lemma ApplySubstsInOrder(line: string, substs: seq<(string, Value)>, k: nat)
    requires k < |substs| && substs[k].0 != []
    ensures ApplySubsts(line, substs[..k + 1])
      == Join(Text(substs[k].1), ExplodeStr(ApplySubsts(line, substs[..k]), substs[k].0))
  {
    assert substs[..k + 1][..k] == substs[..k];
    ReplaceAllExplode(ApplySubsts(line, substs[..k]), substs[k].0, Text(substs[k].1));
  }

  /** The lines of a text as the state machine sees them. */
  function ParsedLines(lines: seq<string>): (r: seq<Parsed>)
    ensures |r| == |lines|
    ensures forall i :: 0 <= i < |lines| ==> r[i] == Classify(lines[i])
  {
    seq(|lines|, i requires 0 <= i < |lines| => Classify(lines[i]))
  }

  /**
   What #INCLUDE gives for each path it can follow: the parse of the target.
   A path that is not a key stands for a target that does not exist.
   */
  type Includer = map<string, Processed>

  /** The path #INCLUDE names: the source folder followed by the second token, or by nothing. */
  function IncludePath(st: Config, tokens: seq<string>): string {
    st.srcFolder + (if |tokens| >= 2 then tokens[1] else "")
  }

  /**
   One turn of the main loop on line number `lineno`. A plain line is emitted,
   substituted and right-trimmed, when it is active. #INCLUDE ignores activity: a
   target that exists is parsed and its whole result is one output element;
   anything else is an error. Every other directive goes through the state
   machine, and a misuse adds its error message. No line adds more than one
   output element, and no line removes an error.
   */
  function Step(st: Config, incl: Includer, vars: PhpArray<Value>, substs: PhpArray<Value>,
                acc: Progress, p: Parsed, lineno: nat): (r: Progress)
    ensures acc.out <= r.out && |r.out| <= |acc.out| + 1
    ensures acc.errs <= r.errs
  {
    match p.op
    case None =>
      var out := if Active(acc.frames.state, acc.frames.level) then acc.out + [RTrim(ApplySubsts(p.text, substs))] else acc.out;
      acc.(out := out, tokens := p.tokens)
    case Some(op) =>
      if op == Include then
        var path := IncludePath(st, p.tokens);
        if |p.tokens| >= 2 && path in incl then
          var sub := incl[path];
          acc.(out := acc.out + [sub.text], errs := acc.errs + sub.errs, tokens := sub.tokens)
        else
          acc.(errs := acc.errs + [LineMessage(lineno, IncludeError + path)], tokens := p.tokens)
      else
        var o := Transition(acc.frames, op, p.tokens, vars);
        acc.(frames := o.frames, errs := acc.errs + Report(lineno, o.misuse), tokens := p.tokens)
  }

  /** The main loop after its first k lines; at most one element is emitted per line. */
  function Run(st: Config, incl: Includer, vars: PhpArray<Value>, substs: PhpArray<Value>,
               lines: seq<Parsed>, k: nat): (r: Progress)
    requires k <= |lines|
    ensures |r.out| <= k
  {
    if k == 0 then Progress(Initial, [], [], [])
    else Step(st, incl, vars, substs, Run(st, incl, vars, substs, lines, k - 1), lines[k - 1], k - 1)
  }

  /** parse() of a text: its lines run through the main loop and the emitted lines joined by the delimiter. */
  function ParseText(st: Config, incl: Includer, text: string, vars: PhpArray<Value>, mode: SubstMode): Processed {
    var lines := ParsedLines(Explode(text, '\n'));
    var acc := Run(st, incl, vars, Substitutions(st, vars, mode), lines, |lines|);
    Processed(Join(st.lf, acc.out), acc.errs, acc.tokens)
  }

  /** The source text: the named file's contents when `src` names one, else `src` itself. */
  function SourceText(files: map<string, string>, src: string): string {
    if src in files then files[src] else src
  }

  /**
   #INCLUDE as parse() performs it, with `files` for the file system: a target
   that exists is parsed with no variables and no substitution, following its
   own #INCLUDE lines one level less deep. `fuel` bounds the nesting; when it is
   spent, every target reads as missing.
   */
  function IncludeTable(fuel: nat, st: Config, files: map<string, string>): (incl: Includer)
    ensures forall path :: path in incl <==> fuel > 0 && path in files
    decreases fuel
  {
    if fuel == 0 then map[]
    else map path | path in files :: ParseText(st, IncludeTable(fuel - 1, st, files), files[path], [], NoSubst)
  }

  /** parse($src, $vars, $subst) with `files` standing for the file system and `fuel` bounding #INCLUDE nesting. */
  function ParseSpec(fuel: nat, st: Config, files: map<string, string>, src: string, vars: PhpArray<Value>, mode: SubstMode): Processed {
    ParseText(st, IncludeTable(fuel, st, files), SourceText(files, src), vars, mode)
  }

  /** A target followed by #INCLUDE is parsed exactly as parse() of that path one level less deep. */
  lemma IncludeTableAt(fuel: nat, st: Config, files: map<string, string>, path: string)
    requires fuel > 0 && path in files
    ensures path in IncludeTable(fuel, st, files)
    ensures IncludeTable(fuel, st, files)[path] == ParseSpec(fuel - 1, st, files, path, [], NoSubst)
  {
  }

  // The cases of one step, each on its own so that proofs can use them cheaply.

  lemma StepPlain(st: Config, incl: Includer, vars: PhpArray<Value>, substs: PhpArray<Value>,
                  acc: Progress, p: Parsed, lineno: nat)
    requires p.op.None?
    ensures Step(st, incl, vars, substs, acc, p, lineno)
      == acc.(out := if Active(acc.frames.state, acc.frames.level) then acc.out + [RTrim(ApplySubsts(p.text, substs))] else acc.out,
              tokens := p.tokens)
  {
  }

  lemma StepIncludeFound(st: Config, incl: Includer, vars: PhpArray<Value>, substs: PhpArray<Value>,
                         acc: Progress, p: Parsed, lineno: nat)
    requires p.op == Some(Include)
    requires |p.tokens| >= 2 && IncludePath(st, p.tokens) in incl
    ensures var sub := incl[IncludePath(st, p.tokens)];
      Step(st, incl, vars, substs, acc, p, lineno)
      == acc.(out := acc.out + [sub.text], errs := acc.errs + sub.errs, tokens := sub.tokens)
  {
  }

  lemma StepIncludeMissing(st: Config, incl: Includer, vars: PhpArray<Value>, substs: PhpArray<Value>,
                           acc: Progress, p: Parsed, lineno: nat)
    requires p.op == Some(Include)
    requires !(|p.tokens| >= 2 && IncludePath(st, p.tokens) in incl)
    ensures Step(st, incl, vars, substs, acc, p, lineno)
      == acc.(errs := acc.errs + [LineMessage(lineno, IncludeError + IncludePath(st, p.tokens))], tokens := p.tokens)
  {
  }

  lemma StepDirective(st: Config, incl: Includer, vars: PhpArray<Value>, substs: PhpArray<Value>,
                      acc: Progress, p: Parsed, lineno: nat)
    requires p.op.Some? && p.op != Some(Include)
    ensures var o := Transition(acc.frames, p.op.value, p.tokens, vars);
      Step(st, incl, vars, substs, acc, p, lineno)
      == acc.(frames := o.frames, errs := acc.errs + Report(lineno, o.misuse), tokens := p.tokens)
  {
  }

  lemma AppendAssoc(a: seq<string>, b: seq<string>, c: seq<string>)
    ensures a + b + c == a + (b + c)
  {
  }

  // ---------------------------------------------------------------------------
  // What the main loop computes, stated against the control-flow trace

  /**
   What line i adds to the output, if anything: an active plain line, substituted
   and right-trimmed; or, for #INCLUDE with an existing target, the text that
   target parses to, active or not. Directive lines add nothing.
   */
  function Contribution(st: Config, incl: Includer, vars: PhpArray<Value>, substs: PhpArray<Value>,
                        lines: seq<Parsed>, i: nat): Option<string>
    requires i < |lines|
  {
    var f := FramesAfter(Initial, lines, vars, i);
    var p := lines[i];
    match p.op
    case None => if Active(f.state, f.level) then Some(RTrim(ApplySubsts(p.text, substs))) else None
    case Some(op) =>
      if op == Include && |p.tokens| >= 2 && IncludePath(st, p.tokens) in incl
      then Some(incl[IncludePath(st, p.tokens)].text)
      else None
  }

  /**
   One step, seen from the trace: the frames move as the state machine says
   (plain lines and #INCLUDE leave them alone, whatever an included text does),
   and the output grows by the line's contribution, if any.
   */
  lemma StepAgainstTrace(st: Config, incl: Includer, vars: PhpArray<Value>, substs: PhpArray<Value>,
                         lines: seq<Parsed>, k: nat, acc: Progress)
    requires k < |lines| && acc.frames == FramesAfter(Initial, lines, vars, k)
    ensures var r := Step(st, incl, vars, substs, acc, lines[k], k);
      var c := Contribution(st, incl, vars, substs, lines, k);
      && r.frames == FramesAfter(Initial, lines, vars, k + 1)
      && r.out == acc.out + (if c.Some? then [c.value] else [])
  {
    var p := lines[k];
    match p.op
    case None => StepPlain(st, incl, vars, substs, acc, p, k);
    case Some(op) =>
      if op != Include {
        StepDirective(st, incl, vars, substs, acc, p, k);
      } else if |p.tokens| >= 2 && IncludePath(st, p.tokens) in incl {
        StepIncludeFound(st, incl, vars, substs, acc, p, k);
      } else {
        StepIncludeMissing(st, incl, vars, substs, acc, p, k);
      }
  }

  /**
   The depth counter and the depth-indexed arrays of the main loop follow the
   control-flow trace of the lines, whatever the included texts do.
   */
  lemma {:induction false} RunFrames(st: Config, incl: Includer, vars: PhpArray<Value>, substs: PhpArray<Value>,
                                     lines: seq<Parsed>, k: nat)
    requires k <= |lines|
    ensures Run(st, incl, vars, substs, lines, k).frames == FramesAfter(Initial, lines, vars, k)
    decreases k
  {
    if k > 0 {
      RunFrames(st, incl, vars, substs, lines, k - 1);
      StepAgainstTrace(st, incl, vars, substs, lines, k - 1, Run(st, incl, vars, substs, lines, k - 1));
    }
  }

  /** The contributions of the first k lines, in input order. */
  function Contributions(st: Config, incl: Includer, vars: PhpArray<Value>, substs: PhpArray<Value>,
                         lines: seq<Parsed>, k: nat): (cs: seq<Option<string>>)
    requires k <= |lines|
    ensures |cs| == k
    ensures forall i :: 0 <= i < k ==> cs[i] == Contribution(st, incl, vars, substs, lines, i)
  {
    seq(k, i requires 0 <= i < k => Contribution(st, incl, vars, substs, lines, i))
  }

  /**
   The output of the main loop is exactly the lines' contributions, in input
   order (`Somes` keeps each present one once and in order).
   */
  lemma {:induction false} RunOutput(st: Config, incl: Includer, vars: PhpArray<Value>, substs: PhpArray<Value>,
                                     lines: seq<Parsed>, k: nat)
    requires k <= |lines|
    ensures Run(st, incl, vars, substs, lines, k).out == Somes(Contributions(st, incl, vars, substs, lines, k))
    decreases k
  {
    if k > 0 {
      RunOutput(st, incl, vars, substs, lines, k - 1);
      RunFrames(st, incl, vars, substs, lines, k - 1);
      StepAgainstTrace(st, incl, vars, substs, lines, k - 1, Run(st, incl, vars, substs, lines, k - 1));
      var cs := Contributions(st, incl, vars, substs, lines, k);
      assert cs[..k - 1] == Contributions(st, incl, vars, substs, lines, k - 1);
    }
  }

  /**
   Only the lines of a branch that fired are emitted. Line j is a branch
   directive (#IF, #ELSEIF, #ELSE, #CASE or #DEFAULT) leaving the depth at l, and
   line i is a plain line of its body: between them the depth stays at l or
   deeper and no directive of that frame intervenes. Line i is emitted only if
   the branch fired; directly inside the branch (at depth l) it is emitted
   exactly when the branch fired and every enclosing block is active.
   */
  lemma BranchBodyEmitted(st: Config, incl: Includer, vars: PhpArray<Value>, substs: PhpArray<Value>,
                          lines: seq<Parsed>, j: nat, i: nat)
    requires j < i < |lines| && lines[i].op.None?
    requires FramesAfter(Initial, lines, vars, j + 1).level >= 1
    requires forall k :: j + 1 <= k <= i ==>
      FramesAfter(Initial, lines, vars, k).level >= FramesAfter(Initial, lines, vars, j + 1).level
    requires forall k :: j + 1 <= k < i ==>
      !Governs(FramesAfter(Initial, lines, vars, k), lines[k], FramesAfter(Initial, lines, vars, j + 1).level)
    ensures var g := FramesAfter(Initial, lines, vars, j + 1); var c := Contribution(st, incl, vars, substs, lines, i);
      && (c.Some? ==> On(g.state, g.level))
      && (FramesAfter(Initial, lines, vars, i).level == g.level ==> (c.Some? <==> Active(g.state, g.level)))
  {
    BodyFollowsBranch(Initial, lines, vars, j, i);
  }

  /**
   A misplaced structure directive costs exactly one "Line n: ..." message and
   nothing else: the depth, the frames and the output stay as they were.
   */
  lemma MisplacedLineReported(st: Config, incl: Includer, vars: PhpArray<Value>, substs: PhpArray<Value>,
                              acc: Progress, p: Parsed, lineno: nat)
    requires var f := acc.frames; var top := BranchOf(f.branch, f.level);
      || ((p.op == Some(ElseIf) || p.op == Some(Else)) && (f.level == 0 || !InChain(top)))
      || (p.op == Some(EndIf) && f.level == 0)
      || ((p.op == Some(Case) || p.op == Some(Default) || p.op == Some(EndSwitch)) && (f.level == 0 || top != SwitchBranch))
    ensures var r := Step(st, incl, vars, substs, acc, p, lineno);
      && r.frames == acc.frames && r.out == acc.out
      && (p.op == Some(ElseIf) ==> r.errs == acc.errs + [LineMessage(lineno, "Wrong #ELSEIF")])
      && (p.op == Some(Else) ==> r.errs == acc.errs + [LineMessage(lineno, "Wrong #ELSE")])
      && (p.op == Some(EndIf) ==> r.errs == acc.errs + [LineMessage(lineno, "Wrong #ENDIF")])
      && (p.op == Some(Case) ==> r.errs == acc.errs + [LineMessage(lineno, "Wrong #CASE (not in #SWITCH block)")])
      && (p.op == Some(Default) ==> r.errs == acc.errs + [LineMessage(lineno, "Wrong #DEFAULT (not in #SWITCH block)")])
      && (p.op == Some(EndSwitch) ==> r.errs == acc.errs + [LineMessage(lineno, "Wrong #ENDSWITCH")])
  {
    StepDirective(st, incl, vars, substs, acc, p, lineno);
    MisplacedDirectives(acc.frames, p.op.value, p.tokens, vars);
  }

  /** What k plain text lines become at the top level: each one substituted and right-trimmed. */
  function PlainOutput(lines: seq<Parsed>, substs: PhpArray<Value>, k: nat): (out: seq<string>)
    requires k <= |lines|
    ensures |out| == k
  {
    if k == 0 then [] else PlainOutput(lines, substs, k - 1) + [RTrim(ApplySubsts(lines[k - 1].text, substs))]
  }

  /** Lines that are all plain text are all emitted, substituted and right-trimmed; the frames stay at the root and no error is recorded. */
  lemma {:induction false} PlainRun(st: Config, incl: Includer, vars: PhpArray<Value>, substs: PhpArray<Value>,
                                    lines: seq<Parsed>, k: nat)
    requires k <= |lines|
    requires forall i :: 0 <= i < k ==> lines[i].op.None?
    ensures var r := Run(st, incl, vars, substs, lines, k);
      r.frames == Initial && r.errs == [] && r.out == PlainOutput(lines, substs, k)
    decreases k
  {
    if k > 0 {
      PlainRun(st, incl, vars, substs, lines, k - 1);
      var acc := Run(st, incl, vars, substs, lines, k - 1);
      StepPlain(st, incl, vars, substs, acc, lines[k - 1], k - 1);
      assert Active(acc.frames.state, acc.frames.level);
    }
  }

  /** Plain lines without trailing whitespace, emitted without substitution, are their own texts. */
  lemma {:induction false} PlainOutputVerbatim(ps: seq<Parsed>, lines: seq<string>, k: nat)
    requires k <= |ps| == |lines|
    requires forall i :: 0 <= i < |ps| ==> ps[i].text == lines[i] && NoTrailingSpace(lines[i])
    ensures PlainOutput(ps, [], k) == lines[..k]
    decreases k
  {
    if k > 0 {
      PlainOutputVerbatim(ps, lines, k - 1);
      var l := lines[k - 1];
      assert ApplySubsts(l, []) == l;
      RTrimKeeps(l);
      assert lines[..k] == lines[..k - 1] + [l];
    }
  }

  /** Lines without a directive keyword classify as plain text lines. */
  lemma PlainLinesParsed(lines: seq<string>)
    requires forall l :: l in lines ==> VerbatimLine(l)
    ensures var ps := ParsedLines(lines);
      |ps| == |lines| && forall i :: 0 <= i < |ps| ==> ps[i].op.None? && ps[i].text == lines[i] && NoTrailingSpace(lines[i])
  {
    var ps := ParsedLines(lines);
    forall i | 0 <= i < |ps| ensures ps[i].op.None? && ps[i].text == lines[i] && NoTrailingSpace(lines[i]) {
      assert lines[i] in lines;
    }
  }

  /** No whitespace at the end, so rtrim() leaves the line alone. */
  predicate NoTrailingSpace(l: string) {
    l == "" || !IsTrimChar(l[|l| - 1])
  }

  /** A line that parse() passes through untouched: no directive keyword and no trailing whitespace. */
  predicate VerbatimLine(l: string) {
    LineOp(l).None? && NoTrailingSpace(l)
  }

  /** The main loop over lines without directives and without trailing whitespace emits them unchanged. */
  lemma PassthroughLines(st: Config, incl: Includer, vars: PhpArray<Value>, lines: seq<string>)
    requires forall l :: l in lines ==> VerbatimLine(l)
    ensures var ps := ParsedLines(lines); var r := Run(st, incl, vars, [], ps, |ps|);
      r.out == lines && r.errs == []
  {
    PlainLinesParsed(lines);
    var ps := ParsedLines(lines);
    PlainRun(st, incl, vars, [], ps, |ps|);
    PlainOutputVerbatim(ps, lines, |lines|);
    assert lines[..|lines|] == lines;
  }

  /**
   A text without directives, parsed with no substitution and LF as delimiter,
   comes back unchanged when no line ends in whitespace, and no error is recorded.
   */
  lemma PassthroughRoundTrip(st: Config, incl: Includer, vars: PhpArray<Value>, text: string)
    requires st.lf == "\n"
    requires forall l :: l in Explode(text, '\n') ==> VerbatimLine(l)
    ensures var r := ParseText(st, incl, text, vars, NoSubst); r.text == text && r.errs == []
  {
    PassthroughLines(st, incl, vars, Explode(text, '\n'));
    JoinExplode(text, '\n');
  }

  class CodePreprocessor {
    var prefix: string
    var suffix: string
    var lf: string
    var srcFolder: string
    var err: seq<string>
    var tokens: seq<string>

    /** The settings parse() reads. */
    function Settings(): Config
      reads this
    {
      Config(prefix, suffix, lf, srcFolder)
    }

    /** Wrappers '%' and '%', an empty source folder and no errors; `hostLf` is the delimiter the host system picks. */
    constructor(hostLf: string)
      requires hostLf == "\n" || hostLf == "\r\n"
      ensures prefix == "%" && suffix == "%" && lf == hostLf && srcFolder == ""
      ensures err == [] && tokens == []
    {
      prefix, suffix := "%", "%";
      lf := hostLf;
      srcFolder := "";
      err := [];
      tokens := [];
    }

    /** "windows" selects CRLF, "unix" LF, and any other string is used as the delimiter itself. */
    method SetLF(style: string)
      modifies this`lf
      ensures style == "windows" ==> lf == "\r\n"
      ensures style == "unix" ==> lf == "\n"
      ensures style != "windows" && style != "unix" ==> lf == style
    {
      lf := if style == "windows" then "\r\n" else if style == "unix" then "\n" else style;
    }

    method SetSourceFolder(folder: string)
      modifies this`srcFolder
      ensures srcFolder == folder
    {
      srcFolder := folder;
    }

    /** A falsy prefix changes nothing; otherwise the suffix is `post`, or the prefix again when `post` is falsy. */
    method SetSubstWrappers(pre: string, post: string)
      modifies this`prefix, this`suffix
      ensures StrTruthy(pre) ==> prefix == pre && suffix == (if StrTruthy(post) then post else pre)
      ensures !StrTruthy(pre) ==> prefix == old(prefix) && suffix == old(suffix)
    {
      if StrTruthy(pre) {
        prefix := pre;
        suffix := if StrTruthy(post) then post else pre;
      }
    }

    /** Every message recorded since the object was built. */
    method GetErrorMessages() returns (r: seq<string>)
      ensures r == err
    {
      r := err;
    }

    /**
     Tokenises the line into `tokens` and scans the operator table in order for
     the uppercased first token; the result is the directive the token spells.
     */
    method GetOpCode(line: string) returns (op: Option<Op>)
      modifies this`tokens
      ensures tokens == Tokens(line)
      ensures op == Recognize(tokens[0])
    {
      tokens := Tokens(line);
      var i := 0;
      while i < |Operators|
        invariant 0 <= i <= |Operators|
        invariant Scan(Upper(tokens[0]), i) == Recognize(tokens[0])
      {
        var first := Upper(tokens[0]);
        if first in Operators[i].1 {
          return Some(Operators[i].0);
        }
        i := i + 1;
      }
      op := None;
    }

    /** Whether some token after the first names a variable that is set and not empty. */
    method EvaluateParams(vars: PhpArray<Value>) returns (b: bool)
      ensures b == AnyTruthy(tokens, vars)
    {
      var no := 1;
      while no < |tokens|
        invariant 1 <= no <= |tokens| || (no == 1 && |tokens| <= 1)
        invariant forall k :: 1 <= k < no && k < |tokens| ==> !IsSetNonEmpty(vars, tokens[k])
      {
        if IsSetNonEmpty(vars, tokens[no]) {
          return true;
        }
        no := no + 1;
      }
      b := false;
    }

    /** The #CASE scan: whether some token after the keyword loosely equals the switch discriminant. */
    method CaseMatches(factor: Value) returns (b: bool)
      ensures b == AnyMatch(tokens, factor)
    {
      b := false;
      var koff := 1;
      while koff < |tokens|
        invariant 1 <= koff
        invariant b <==> exists k :: 1 <= k < koff && k < |tokens| && LooseEquals(tokens[k], factor)
      {
        if LooseEquals(tokens[koff], factor) {
          b := true;
        }
        koff := koff + 1;
      }
    }

    /** Whether every frame from depth 1 to `level` is in a true state; at depth 0 every line is active. */
    method IsLineActive(states: map<nat, bool>, level: nat) returns (b: bool)
      ensures b == Active(states, level)
      ensures level == 0 ==> b
    {
      var i := 1;
      while i <= level
        invariant 1 <= i <= level + 1
        invariant forall j: nat :: 1 <= j < i ==> On(states, j)
      {
        if !On(states, i) {
          return false;
        }
        i := i + 1;
      }
      b := true;
    }

    /**
     The branch of the main loop for a structure directive: the depth counter and
     the four depth-indexed arrays move as the state machine says, and a misplaced
     directive appends its "Line n: ..." message to the error list.
     */
    method Directive(f: Frames, op: Op, lineno: nat, vars: PhpArray<Value>) returns (g: Frames)
      requires op != Include
      modifies this`err
      ensures var o := Transition(f, op, tokens, vars);
        && g == o.frames
        && err == old(err) + Report(lineno, o.misuse)
    {
      var iflevel, ifstate, ifbranch, ifdone, switchFactor := f.level, f.state, f.branch, f.done, f.factor;
      if op == If {
        iflevel := iflevel + 1;
        if |tokens| >= 2 {
          var c := EvaluateParams(vars);
          ifstate := ifstate[iflevel := c];
          ifdone := ifdone[iflevel := c];
          ifbranch := ifbranch[iflevel := IfBranch];
        }
      } else if op == ElseIf {
        if iflevel > 0 && InChain(BranchOf(ifbranch, iflevel)) {
          if On(ifdone, iflevel) {
            ifstate := ifstate[iflevel := false];
          } else if |tokens| < 2 {
            ifstate := ifstate[iflevel := false];
          } else {
            var c := EvaluateParams(vars);
            ifstate := ifstate[iflevel := c];
          }
          ifbranch := ifbranch[iflevel := ElseIfBranch];
          if On(ifstate, iflevel) {
            ifdone := ifdone[iflevel := true];
          }
        } else {
          err := err + [LineMessage(lineno, "Wrong #ELSEIF")];
        }
      } else if op == Else {
        if iflevel > 0 && InChain(BranchOf(ifbranch, iflevel)) {
          ifstate := ifstate[iflevel := !On(ifdone, iflevel)];
          ifbranch := ifbranch[iflevel := ElseBranch];
        } else {
          err := err + [LineMessage(lineno, "Wrong #ELSE")];
        }
      } else if op == EndIf {
        if iflevel > 0 {
          iflevel := iflevel - 1;
        } else {
          err := err + [LineMessage(lineno, "Wrong #ENDIF")];
        }
      } else if op == Switch {
        iflevel := iflevel + 1;
        var value := if |tokens| < 2 then Str("") else ValueOrZero(vars, tokens[1]);
        ifbranch := ifbranch[iflevel := SwitchBranch];
        ifstate := ifstate[iflevel := false];
        ifdone := ifdone[iflevel := false];
        switchFactor := switchFactor[iflevel := value];
      } else if op == Case {
        if iflevel == 0 || BranchOf(ifbranch, iflevel) != SwitchBranch {
          err := err + [LineMessage(lineno, "Wrong #CASE (not in #SWITCH block)")];
          g := f;
          return;
        }
        var matched := CaseMatches(FactorOf(switchFactor, iflevel));
        ifstate := ifstate[iflevel := matched];
        if matched {
          ifdone := ifdone[iflevel := true];
        }
      } else if op == Default {
        if iflevel == 0 || BranchOf(ifbranch, iflevel) != SwitchBranch {
          err := err + [LineMessage(lineno, "Wrong #DEFAULT (not in #SWITCH block)")];
          g := f;
          return;
        }
        ifstate := ifstate[iflevel := !On(ifdone, iflevel)];
      } else if op == EndSwitch {
        if iflevel > 0 && BranchOf(ifbranch, iflevel) == SwitchBranch {
          iflevel := iflevel - 1;
        } else {
          err := err + [LineMessage(lineno, "Wrong #ENDSWITCH")];
        }
      }
      g := Frames(iflevel, ifstate, ifbranch, ifdone, switchFactor);
    }

    /** The substitution table: `prefix . key . suffix` for each entry of the chosen array, in order, or none. */
    method BuildSubsts(vars: PhpArray<Value>, subst: SubstMode) returns (substs: PhpArray<Value>)
      ensures substs == Substitutions(Settings(), vars, subst)
      ensures subst.NoSubst? ==> substs == []
      ensures var source := if subst.Table? then subst.entries else vars;
        !subst.NoSubst? ==>
          && |substs| == |source|
          && forall i :: 0 <= i < |source| ==> substs[i] == (prefix + source[i].0 + suffix, source[i].1)
    {
      WrapKeysClosed(if subst.Table? then subst.entries else vars, prefix, suffix);
      substs := [];
      if subst.FromVars? || (subst.Table? && subst.entries != []) {
        var source := if subst.Table? then subst.entries else vars;
        for i := 0 to |source|
          invariant substs == WrapKeys(source[..i], prefix, suffix)
        {
          WrapKeysNext(source, i, prefix, suffix);
          substs := Put(substs, prefix + source[i].0 + suffix, source[i].1);
        }
        assert source[..|source|] == source;
      }
    }

    /**
     One turn of the main loop: the frames, the output, the new messages and
     `tokens` of the reference step from `acc`, with #INCLUDE followed down to
     the nesting bound `fuel`.
     */
    method ParseLine(srcline: string, lineno: nat, vars: PhpArray<Value>, substs: PhpArray<Value>,
                     files: map<string, string>, fuel: nat, frames: Frames, output: seq<string>,
                     ghost acc: Progress, ghost errs0: seq<string>)
      returns (nextFrames: Frames, nextOutput: seq<string>)
      requires acc.frames == frames && acc.out == output && err == errs0 + acc.errs
      modifies this`tokens, this`err
      ensures var r := Step(Settings(), IncludeTable(fuel, Settings(), files), vars, substs, acc, Classify(srcline), lineno);
        nextFrames == r.frames && nextOutput == r.out && err == errs0 + r.errs && tokens == r.tokens
      decreases fuel, 2
    {
      ghost var st := Settings();
      ghost var incl := IncludeTable(fuel, st, files);
      var lcmd := GetOpCode(srcline);
      ghost var p := Classify(srcline);
      assert p == Parsed(lcmd, tokens, srcline);
      nextFrames, nextOutput := frames, output;
      if lcmd.Some? && lcmd != Some(Include) {
        nextFrames := DirectiveStep(p, lcmd.value, lineno, vars, substs, files, fuel, frames, acc, errs0);
      } else if lcmd == Some(Include) {
        nextOutput := IncludeStep(p, lineno, vars, substs, files, fuel, output, acc, errs0);
      } else {
        StepPlain(st, incl, vars, substs, acc, p, lineno);
        var active := IsLineActive(frames.state, frames.level);
        if active {
          nextOutput := output + [RTrim(ApplySubsts(srcline, substs))];
        }
      }
    }

    /** One turn of the main loop on a structure directive, `tokens` holding its tokens: the reference step from `acc`. */
    method DirectiveStep(ghost p: Parsed, op: Op, lineno: nat, vars: PhpArray<Value>, substs: PhpArray<Value>,
                         ghost files: map<string, string>, ghost fuel: nat, frames: Frames,
                         ghost acc: Progress, ghost errs0: seq<string>)
      returns (nextFrames: Frames)
      requires p.op == Some(op) && op != Include && tokens == p.tokens
      requires acc.frames == frames && err == errs0 + acc.errs
      modifies this`err
      ensures var r := Step(Settings(), IncludeTable(fuel, Settings(), files), vars, substs, acc, p, lineno);
        nextFrames == r.frames && acc.out == r.out && err == errs0 + r.errs && tokens == r.tokens
    {
      StepDirective(Settings(), IncludeTable(fuel, Settings(), files), vars, substs, acc, p, lineno);
      nextFrames := Directive(frames, op, lineno, vars);
      AppendAssoc(errs0, acc.errs, Report(lineno, Transition(frames, op, tokens, vars).misuse));
    }

    /** One turn of the main loop on an #INCLUDE line, `tokens` holding its tokens: the reference step from `acc`. */
    method IncludeStep(ghost p: Parsed, lineno: nat, vars: PhpArray<Value>, substs: PhpArray<Value>,
                       files: map<string, string>, fuel: nat, output: seq<string>,
                       ghost acc: Progress, ghost errs0: seq<string>)
      returns (nextOutput: seq<string>)
      requires p.op == Some(Include) && tokens == p.tokens
      requires acc.out == output && err == errs0 + acc.errs
      modifies this`tokens, this`err
      ensures Settings() == old(Settings())
      ensures var r := Step(Settings(), IncludeTable(fuel, Settings(), files), vars, substs, acc, p, lineno);
        r.frames == acc.frames && nextOutput == r.out && err == errs0 + r.errs && tokens == r.tokens
      decreases fuel, 1
    {
      ghost var st := Settings();
      ghost var incl := IncludeTable(fuel, st, files);
      var path := IncludePath(Settings(), tokens);
      ghost var before := err;
      if |tokens| >= 2 && path in files && fuel > 0 {
        IncludeTableAt(fuel, st, files, path);
        StepIncludeFound(st, incl, vars, substs, acc, p, lineno);
        ghost var subErrs := incl[path].errs;
        nextOutput := IncludeLine(lineno, files, fuel, output);
        assert err == before + subErrs;
        AppendAssoc(errs0, acc.errs, subErrs);
      } else {
        assert path !in incl || |tokens| < 2;
        StepIncludeMissing(st, incl, vars, substs, acc, p, lineno);
        ghost var msg := LineMessage(lineno, IncludeError + path);
        nextOutput := IncludeLine(lineno, files, fuel, output);
        assert err == before + [msg];
        AppendAssoc(errs0, acc.errs, [msg]);
      }
    }

    /**
     The #INCLUDE branch of the main loop, taken whatever the activity of the
     line: an existing target under the source folder is parsed with no
     variables and no substitution and its whole result becomes one output
     element; a missing name or target appends an error naming the path.
     */
    method IncludeLine(lineno: nat, files: map<string, string>, fuel: nat, output: seq<string>)
      returns (nextOutput: seq<string>)
      modifies this`tokens, this`err
      ensures Settings() == old(Settings())
      ensures var path := IncludePath(Settings(), old(tokens));
        if |old(tokens)| >= 2 && path in files && fuel > 0 then
          var sub := ParseSpec(fuel - 1, Settings(), files, path, [], NoSubst);
          nextOutput == output + [sub.text] && err == old(err) + sub.errs && tokens == sub.tokens
        else
          nextOutput == output && err == old(err) + [LineMessage(lineno, IncludeError + path)] && tokens == old(tokens)
      decreases fuel, 0
    {
      nextOutput := output;
      if |tokens| >= 2 && srcFolder + tokens[1] in files && fuel > 0 {
        var included := Parse(srcFolder + tokens[1], [], NoSubst, files, fuel - 1);
        nextOutput := output + [included];
      } else {
        var name := if |tokens| >= 2 then tokens[1] else "";
        err := err + [LineMessage(lineno, IncludeError + (srcFolder + name))];
      }
    }

    /**
     parse(): the result, the messages appended to the error list and the final
     `tokens` are those of the reference definition, with `fuel` the depth of
     #INCLUDE nesting it follows. Earlier messages are kept: the error list is
     never cleared.
     */
    method Parse(src: string, vars: PhpArray<Value>, subst: SubstMode, files: map<string, string>, fuel: nat) returns (r: string)
      modifies this`tokens, this`err
      ensures var p := ParseSpec(fuel, Settings(), files, src, vars, subst);
        r == p.text && err == old(err) + p.errs && tokens == p.tokens
      decreases fuel, 3
    {
      ghost var st := Settings();
      ghost var incl := IncludeTable(fuel, st, files);
      var substs := BuildSubsts(vars, subst);
      var text := if src in files then files[src] else src;
      var lines := Explode(text, '\n');
      ghost var ps := ParsedLines(lines);
      var output: seq<string> := [];
      var frames := Initial;
      for lineno := 0 to |lines|
        invariant Settings() == st
        invariant var acc := Run(st, incl, vars, substs, ps, lineno);
          && frames == acc.frames && output == acc.out && err == old(err) + acc.errs
          && (lineno > 0 ==> tokens == acc.tokens)
      {
        ghost var acc := Run(st, incl, vars, substs, ps, lineno);
        frames, output := ParseLine(lines[lineno], lineno, vars, substs, files, fuel, frames, output, acc, old(err));
      }
      r := Join(lf, output);
    }
  }
}
