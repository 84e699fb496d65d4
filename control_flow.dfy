/**
 The nested IF/SWITCH state machine of the preprocessor. Its state is a depth
 counter and four depth-indexed arrays (`$ifstate`, `$ifbranch`, `$ifdone`,
 `$switch_factor`), here maps whose missing keys read as false, no branch and
 null. Frames are never cleared when popped, so a later frame at the same depth
 starts from whatever an earlier one left there.
 */
module ControlFlow {
  import opened Options
  import opened PhpValues
  import opened Directives

  /** The value of `$ifbranch` at one depth; Unset stands for the empty or missing entry. */
  datatype Branch = Unset | IfBranch | ElseIfBranch | ElseBranch | SwitchBranch

  /** `$iflevel` and the arrays indexed by depth (index 0 is the root and is never consulted). */
  datatype Frames = Frames(
    level: nat,
    state: map<nat, bool>,
    branch: map<nat, Branch>,
    done: map<nat, bool>,
    factor: map<nat, Value>)

  /** The arrays as parse() initialises them. */
  const Initial: Frames := Frames(0, map[0 := false], map[0 := Unset], map[0 := false], map[0 := Int(0)])

  function On(m: map<nat, bool>, i: nat): bool {
    i in m && m[i]
  }

  function BranchOf(m: map<nat, Branch>, i: nat): Branch {
    if i in m then m[i] else Unset
  }

  function FactorOf(m: map<nat, Value>, i: nat): Value {
    if i in m then m[i] else Null
  }

  /** The frame at depth i reads the same in f and g. */
  predicate Same(f: Frames, g: Frames, i: nat) {
    && On(f.state, i) == On(g.state, i)
    && BranchOf(f.branch, i) == BranchOf(g.branch, i)
    && On(f.done, i) == On(g.done, i)
    && FactorOf(f.factor, i) == FactorOf(g.factor, i)
  }

  /** A line is active when every frame from depth 1 to the current depth is in a true state. */
  predicate Active(states: map<nat, bool>, level: nat) {
    forall i: nat :: 1 <= i <= level ==> On(states, i)
  }

  /** The IF condition: some token after the keyword names a variable that is set and not empty. */
  predicate AnyTruthy(tokens: seq<string>, vars: PhpArray<Value>) {
    exists k :: 1 <= k < |tokens| && IsSetNonEmpty(vars, tokens[k])
  }

  /** The CASE test: some token after the keyword equals the discriminant. */
  predicate AnyMatch(tokens: seq<string>, v: Value) {
    exists k :: 1 <= k < |tokens| && LooseEquals(tokens[k], v)
  }

  /** The SWITCH discriminant: the named variable's value, 0 when it is not set, "" when no name is given. */
  function Discriminant(tokens: seq<string>, vars: PhpArray<Value>): Value {
    if |tokens| < 2 then Str("") else ValueOrZero(vars, tokens[1])
  }

  predicate InChain(b: Branch) {
    b == IfBranch || b == ElseIfBranch
  }

  /** The structural errors a directive can report. */
  datatype Misuse = WrongElseIf | WrongElse | WrongEndIf | WrongCase | WrongDefault | WrongEndSwitch

  function MisuseText(m: Misuse): string {
    match m
    case WrongElseIf => "Wrong #ELSEIF"
    case WrongElse => "Wrong #ELSE"
    case WrongEndIf => "Wrong #ENDIF"
    case WrongCase => "Wrong #CASE (not in #SWITCH block)"
    case WrongDefault => "Wrong #DEFAULT (not in #SWITCH block)"
    case WrongEndSwitch => "Wrong #ENDSWITCH"
  }

  datatype Outcome = Outcome(frames: Frames, misuse: Option<Misuse>)

  /**
   The effect of one directive on the frames. A reported misuse changes nothing;
   the depth moves by at most one; and only the frame at the resulting depth can
   change, and only when the depth did not go down. In particular every frame
   below the current one is untouched.
   */
  function Transition(f: Frames, op: Op, tokens: seq<string>, vars: PhpArray<Value>): (r: Outcome)
    ensures r.misuse.Some? ==> r.frames == f
    ensures f.level <= r.frames.level + 1 && r.frames.level <= f.level + 1
    ensures forall i: nat :: i != r.frames.level || r.frames.level < f.level ==> Same(f, r.frames, i)
  {
    var l := f.level;
    match op
    case If =>
      if |tokens| < 2 then Outcome(f.(level := l + 1), None)
      else
        var c := AnyTruthy(tokens, vars);
        Outcome(f.(level := l + 1, state := f.state[l + 1 := c], done := f.done[l + 1 := c],
                   branch := f.branch[l + 1 := IfBranch]), None)
    case ElseIf =>
      if l > 0 && InChain(BranchOf(f.branch, l)) then
        var s := if On(f.done, l) then false else if |tokens| < 2 then false else AnyTruthy(tokens, vars);
        Outcome(f.(state := f.state[l := s], branch := f.branch[l := ElseIfBranch],
                   done := if s then f.done[l := true] else f.done), None)
      else Outcome(f, Some(WrongElseIf))
    case Else =>
      if l > 0 && InChain(BranchOf(f.branch, l)) then
        Outcome(f.(state := f.state[l := !On(f.done, l)], branch := f.branch[l := ElseBranch]), None)
      else Outcome(f, Some(WrongElse))
    case EndIf =>
      if l > 0 then Outcome(f.(level := l - 1), None) else Outcome(f, Some(WrongEndIf))
    case Switch =>
      Outcome(f.(level := l + 1, branch := f.branch[l + 1 := SwitchBranch], state := f.state[l + 1 := false],
                 done := f.done[l + 1 := false], factor := f.factor[l + 1 := Discriminant(tokens, vars)]), None)
    case Case =>
      if l == 0 || BranchOf(f.branch, l) != SwitchBranch then Outcome(f, Some(WrongCase))
      else
        var s := AnyMatch(tokens, FactorOf(f.factor, l));
        Outcome(f.(state := f.state[l := s], done := if s then f.done[l := true] else f.done), None)
    case Default =>
      if l == 0 || BranchOf(f.branch, l) != SwitchBranch then Outcome(f, Some(WrongDefault))
      else Outcome(f.(state := f.state[l := !On(f.done, l)]), None)
    case EndSwitch =>
      if l > 0 && BranchOf(f.branch, l) == SwitchBranch then Outcome(f.(level := l - 1), None)
      else Outcome(f, Some(WrongEndSwitch))
    case Include =>
      Outcome(f, None)
  }

  // ---------------------------------------------------------------------------
  // One directive at a time

  /** #IF with a condition opens a frame whose state and done flag are the condition, on branch 'if'. */
  lemma IfOpensFrame(f: Frames, tokens: seq<string>, vars: PhpArray<Value>)
    requires |tokens| >= 2
    ensures var g := Transition(f, If, tokens, vars);
      && g.misuse.None? && g.frames.level == f.level + 1
      && On(g.frames.state, f.level + 1) == AnyTruthy(tokens, vars)
      && On(g.frames.done, f.level + 1) == AnyTruthy(tokens, vars)
      && BranchOf(g.frames.branch, f.level + 1) == IfBranch
  {
  }

  /** #IF without a condition only deepens: the new depth keeps whatever an earlier block left there. */
  lemma IfWithoutConditionKeepsStaleFrame(f: Frames, tokens: seq<string>, vars: PhpArray<Value>)
    requires |tokens| < 2
    ensures Transition(f, If, tokens, vars) == Outcome(f.(level := f.level + 1), None)
  {
  }

  /** #ELSEIF in an IF chain: false once a branch was taken, else its condition; a true state marks the chain done. */
  lemma ElseIfInChain(f: Frames, tokens: seq<string>, vars: PhpArray<Value>)
    requires f.level > 0 && InChain(BranchOf(f.branch, f.level))
    ensures var g := Transition(f, ElseIf, tokens, vars).frames; var l := f.level;
      && Transition(f, ElseIf, tokens, vars).misuse.None? && g.level == l
      && (On(f.done, l) ==> !On(g.state, l))
      && On(g.state, l) == (!On(f.done, l) && |tokens| >= 2 && AnyTruthy(tokens, vars))
      && On(g.done, l) == (On(f.done, l) || On(g.state, l))
      && BranchOf(g.branch, l) == ElseIfBranch
  {
  }

  /** #ELSE in an IF chain takes its branch exactly when no earlier branch was taken. */
  lemma ElseInChain(f: Frames, tokens: seq<string>, vars: PhpArray<Value>)
    requires f.level > 0 && InChain(BranchOf(f.branch, f.level))
    ensures var g := Transition(f, Else, tokens, vars).frames; var l := f.level;
      && Transition(f, Else, tokens, vars).misuse.None? && g.level == l
      && On(g.state, l) == !On(f.done, l)
      && BranchOf(g.branch, l) == ElseBranch
  {
  }

  /** #ENDIF pops whatever frame is on top, a SWITCH frame included, and clears nothing. */
  lemma EndIfPopsAnyFrame(f: Frames, tokens: seq<string>, vars: PhpArray<Value>)
    requires f.level > 0
    ensures Transition(f, EndIf, tokens, vars) == Outcome(f.(level := f.level - 1), None)
  {
  }

  /** #SWITCH opens a frame on branch 'switch', not yet active and not done, holding the discriminant. */
  lemma SwitchOpensFrame(f: Frames, tokens: seq<string>, vars: PhpArray<Value>)
    ensures var g := Transition(f, Switch, tokens, vars); var l := f.level + 1;
      && g.misuse.None? && g.frames.level == l
      && BranchOf(g.frames.branch, l) == SwitchBranch
      && !On(g.frames.state, l) && !On(g.frames.done, l)
      && FactorOf(g.frames.factor, l) == Discriminant(tokens, vars)
  {
  }

  /** #CASE in a SWITCH frame is active iff a listed token equals the discriminant; a match marks the switch done. */
  lemma CaseInSwitch(f: Frames, tokens: seq<string>, vars: PhpArray<Value>)
    requires f.level > 0 && BranchOf(f.branch, f.level) == SwitchBranch
    ensures var g := Transition(f, Case, tokens, vars).frames; var l := f.level;
      && Transition(f, Case, tokens, vars).misuse.None? && g.level == l
      && On(g.state, l) == AnyMatch(tokens, FactorOf(f.factor, l))
      && On(g.done, l) == (On(f.done, l) || On(g.state, l))
      && BranchOf(g.branch, l) == SwitchBranch
  {
  }

  /** #DEFAULT in a SWITCH frame is active iff no CASE of it has matched so far. */
  lemma DefaultInSwitch(f: Frames, tokens: seq<string>, vars: PhpArray<Value>)
    requires f.level > 0 && BranchOf(f.branch, f.level) == SwitchBranch
    ensures var g := Transition(f, Default, tokens, vars).frames; var l := f.level;
      && Transition(f, Default, tokens, vars).misuse.None? && g.level == l
      && On(g.state, l) == !On(f.done, l)
      && On(g.done, l) == On(f.done, l)
  {
  }

  /**
   Each misplaced structure directive is reported as its own misuse, and only
   then: #ELSEIF or #ELSE at depth 0 or off an IF chain, #ENDIF at depth 0, #CASE
   and #DEFAULT outside a SWITCH frame, #ENDSWITCH when the top frame is not a
   SWITCH. A reported misuse leaves the depth and every frame as they were.
   */
  lemma MisplacedDirectives(f: Frames, op: Op, tokens: seq<string>, vars: PhpArray<Value>)
    ensures var r := Transition(f, op, tokens, vars); var top := BranchOf(f.branch, f.level);
      && (r.misuse.Some? ==> r.frames == f)
      && (op == ElseIf ==> (r.misuse.Some? <==> f.level == 0 || !InChain(top)) && r.misuse != Some(WrongElse))
      && (op == ElseIf && r.misuse.Some? ==> r.misuse == Some(WrongElseIf))
      && (op == Else ==> (r.misuse.Some? <==> f.level == 0 || !InChain(top)))
      && (op == Else && r.misuse.Some? ==> r.misuse == Some(WrongElse))
      && (op == EndIf ==> (r.misuse.Some? <==> f.level == 0))
      && (op == EndIf && r.misuse.Some? ==> r.misuse == Some(WrongEndIf))
      && (op == Case ==> (r.misuse.Some? <==> f.level == 0 || top != SwitchBranch))
      && (op == Case && r.misuse.Some? ==> r.misuse == Some(WrongCase))
      && (op == Default ==> (r.misuse.Some? <==> f.level == 0 || top != SwitchBranch))
      && (op == Default && r.misuse.Some? ==> r.misuse == Some(WrongDefault))
      && (op == EndSwitch ==> (r.misuse.Some? <==> f.level == 0 || top != SwitchBranch))
      && (op == EndSwitch && r.misuse.Some? ==> r.misuse == Some(WrongEndSwitch))
      && (op == If || op == Switch || op == Include ==> r.misuse.None?)
  {
  }

  // ---------------------------------------------------------------------------
  // Sequences of lines

  /** The effect of one line on the frames: a directive's transition, or nothing. */
  function LineStep(f: Frames, line: Parsed, vars: PhpArray<Value>): (g: Frames)
    ensures f.level <= g.level + 1 && g.level <= f.level + 1
    ensures forall i: nat :: i != g.level || g.level < f.level ==> Same(f, g, i)
  {
    match line.op
    case None => f
    case Some(op) => Transition(f, op, line.tokens, vars).frames
  }

  /** The frames after the first k of the given lines, starting from f. */
  function FramesAfter(f: Frames, lines: seq<Parsed>, vars: PhpArray<Value>, k: nat): Frames
    requires k <= |lines|
    decreases k
  {
    if k == 0 then f else LineStep(FramesAfter(f, lines, vars, k - 1), lines[k - 1], vars)
  }

  /** Only the lines already read matter. */
  lemma {:induction false} FramesAfterPrefix(f: Frames, a: seq<Parsed>, b: seq<Parsed>, vars: PhpArray<Value>, k: nat)
    requires k <= |a|
    ensures FramesAfter(f, a + b, vars, k) == FramesAfter(f, a, vars, k)
    decreases k
  {
    if k > 0 {
      FramesAfterPrefix(f, a, b, vars, k - 1);
      assert (a + b)[k - 1] == a[k - 1];
    }
  }

  /** Reading the lines after the first a from the frames reached there continues the same trace. */
  lemma {:induction false} FramesAfterShift(f: Frames, lines: seq<Parsed>, vars: PhpArray<Value>, a: nat, k: nat)
    requires a + k <= |lines|
    ensures FramesAfter(FramesAfter(f, lines, vars, a), lines[a..], vars, k) == FramesAfter(f, lines, vars, a + k)
    decreases k
  {
    if k > 0 {
      FramesAfterShift(f, lines, vars, a, k - 1);
      assert lines[a..][k - 1] == lines[a + k - 1];
    }
  }

  /**
   * A block found at position a of a file is traced from the frames the file
   * has reached at a: the lemmas about the trace of a block carry over to the
   * trace of the whole file.
   */
  lemma BlockInFile(f: Frames, lines: seq<Parsed>, blk: seq<Parsed>, vars: PhpArray<Value>, a: nat, k: nat)
    requires a + |blk| <= |lines| && lines[a..a + |blk|] == blk && k <= |blk|
    ensures FramesAfter(FramesAfter(f, lines, vars, a), blk, vars, k) == FramesAfter(f, lines, vars, a + k)
  {
    FramesAfterShift(f, lines, vars, a, k);
    assert lines[a..] == blk + lines[a + |blk|..];
    FramesAfterPrefix(FramesAfter(f, lines, vars, a), blk, lines[a + |blk|..], vars, k);
  }

  /** The frames at depth l and below after the first k lines are those of f, while the depth stays above l. */
  lemma {:induction false} OuterFramesKept(f: Frames, lines: seq<Parsed>, vars: PhpArray<Value>, l: nat, k: nat)
    requires l <= f.level && k <= |lines|
    requires forall m :: 1 <= m <= |lines| ==> FramesAfter(f, lines, vars, m).level > l
    ensures forall i: nat :: i <= l ==> Same(f, FramesAfter(f, lines, vars, k), i)
    decreases k
  {
    if k > 0 {
      OuterFramesKept(f, lines, vars, l, k - 1);
      var g := FramesAfter(f, lines, vars, k - 1);
      var h := FramesAfter(f, lines, vars, k);
      assert h == LineStep(g, lines[k - 1], vars);
      assert h.level > l;
      forall i: nat | i <= l
        ensures Same(f, h, i)
      {
        assert Same(f, g, i) && Same(g, h, i);
      }
    }
  }

  /**
   Inner blocks cannot touch an outer frame: while the depth stays above l, every
   frame at depth l or below keeps its state, so an inactive outer frame keeps all
   inner lines inactive whatever the inner directives do.
   */
  lemma NestedBlocksKeepOuterFrames(f: Frames, lines: seq<Parsed>, vars: PhpArray<Value>, l: nat, k: nat)
    requires 1 <= l <= f.level && k <= |lines|
    requires forall m :: 1 <= m <= |lines| ==> FramesAfter(f, lines, vars, m).level > l
    ensures forall i: nat :: i <= l ==> Same(f, FramesAfter(f, lines, vars, k), i)
    ensures !On(f.state, l) ==> !Active(FramesAfter(f, lines, vars, k).state, FramesAfter(f, lines, vars, k).level)
  {
    OuterFramesKept(f, lines, vars, l, k);
    var g := FramesAfter(f, lines, vars, k);
    assert Same(f, g, l);
    if k > 0 {
      assert g.level > l;
    }
  }

  /** `#IF` with a condition. */
  predicate OpensIf(line: Parsed) {
    line.op == Some(If) && |line.tokens| >= 2
  }

  /** An #ELSEIF or #ELSE line that continues the IF chain on top at depth l. */
  predicate ContinuesChain(g: Frames, line: Parsed, l: nat) {
    && g.level == l
    && (line.op == Some(ElseIf) || line.op == Some(Else))
    && InChain(BranchOf(g.branch, l))
  }

  /** After a branch was taken at depth l, every later branch of that chain is inactive. */
  predicate Settled(g: Frames, l: nat) {
    BranchOf(g.branch, l) == ElseBranch || (InChain(BranchOf(g.branch, l)) && On(g.done, l))
  }

  lemma SettledStays(g: Frames, line: Parsed, vars: PhpArray<Value>, l: nat)
    requires 1 <= l <= g.level && LineStep(g, line, vars).level >= l
    requires Settled(g, l)
    ensures Settled(LineStep(g, line, vars), l)
    ensures ContinuesChain(g, line, l) ==> !On(LineStep(g, line, vars).state, l)
  {
    var h := LineStep(g, line, vars);
    if g.level > l {
      assert Same(g, h, l);
    } else if line.op.Some? {
      var tokens := line.tokens;
      match line.op.value
      case If => assert Same(g, h, l);
      case Switch => assert Same(g, h, l);
      case ElseIf =>
        if InChain(BranchOf(g.branch, l)) { ElseIfInChain(g, tokens, vars); } else { MisplacedDirectives(g, ElseIf, tokens, vars); }
      case Else =>
        if InChain(BranchOf(g.branch, l)) { ElseInChain(g, tokens, vars); } else { MisplacedDirectives(g, Else, tokens, vars); }
      case EndIf =>
      case Case => assert Transition(g, Case, tokens, vars).misuse.Some?;
      case Default => assert Transition(g, Default, tokens, vars).misuse.Some?;
      case EndSwitch => assert Transition(g, EndSwitch, tokens, vars).misuse.Some?;
      case Include =>
    }
  }

  lemma TakenBranchSettles(g: Frames, line: Parsed, vars: PhpArray<Value>, l: nat)
    requires 1 <= l
    requires ContinuesChain(g, line, l) || (g.level + 1 == l && OpensIf(line))
    requires On(LineStep(g, line, vars).state, l)
    ensures Settled(LineStep(g, line, vars), l)
  {
  }

  /**
   The branches of an IF chain are exclusive. Lines start with an `#IF` that has
   a condition and stay inside the frame it opens; of any two lines that open a
   branch of that chain (the #IF itself, or an #ELSEIF / #ELSE continuing it),
   at most one leaves its branch active.
   */
  lemma ExclusiveIfChain(f: Frames, lines: seq<Parsed>, vars: PhpArray<Value>, i: nat, j: nat)
    requires |lines| > 0 && OpensIf(lines[0])
    requires forall k :: 1 <= k <= |lines| ==> FramesAfter(f, lines, vars, k).level > f.level
    requires i < j < |lines|
    requires i == 0 || ContinuesChain(FramesAfter(f, lines, vars, i), lines[i], f.level + 1)
    requires ContinuesChain(FramesAfter(f, lines, vars, j), lines[j], f.level + 1)
    ensures !(On(FramesAfter(f, lines, vars, i + 1).state, f.level + 1)
              && On(FramesAfter(f, lines, vars, j + 1).state, f.level + 1))
  {
    var l := f.level + 1;
    if On(FramesAfter(f, lines, vars, i + 1).state, l) {
      TakenBranchSettles(FramesAfter(f, lines, vars, i), lines[i], vars, l);
      var k := i + 1;
      while k < j
        invariant i + 1 <= k <= j
        invariant Settled(FramesAfter(f, lines, vars, k), l)
      {
        assert FramesAfter(f, lines, vars, k + 1) == LineStep(FramesAfter(f, lines, vars, k), lines[k], vars);
        SettledStays(FramesAfter(f, lines, vars, k), lines[k], vars, l);
        k := k + 1;
      }
      SettledStays(FramesAfter(f, lines, vars, j), lines[j], vars, l);
    }
  }

  /** Line i opens a branch of the IF chain at depth l (the #IF itself when i is 0) and leaves it active. */
  predicate BranchTaken(f: Frames, lines: seq<Parsed>, vars: PhpArray<Value>, i: nat, l: nat)
    requires i < |lines|
  {
    && (i == 0 || ContinuesChain(FramesAfter(f, lines, vars, i), lines[i], l))
    && On(FramesAfter(f, lines, vars, i + 1).state, l)
  }

  /** Some branch of the IF chain at depth l among lines 0 .. k-1 was taken. */
  predicate ChainTaken(f: Frames, lines: seq<Parsed>, vars: PhpArray<Value>, k: nat, l: nat)
    requires k <= |lines|
  {
    exists i :: 0 <= i < k && BranchTaken(f, lines, vars, i, l)
  }

  /** One line inside an IF chain at depth l: the chain goes on or ends in 'else', and done records a taken branch. */
  lemma ChainStep(g: Frames, line: Parsed, vars: PhpArray<Value>, l: nat)
    requires 1 <= l <= g.level && LineStep(g, line, vars).level >= l
    requires InChain(BranchOf(g.branch, l)) || BranchOf(g.branch, l) == ElseBranch
    ensures var h := LineStep(g, line, vars);
      && (InChain(BranchOf(h.branch, l)) || BranchOf(h.branch, l) == ElseBranch)
      && (InChain(BranchOf(h.branch, l)) ==>
            InChain(BranchOf(g.branch, l)) && On(h.done, l) == (On(g.done, l) || (ContinuesChain(g, line, l) && On(h.state, l))))
      && (ContinuesChain(g, line, l) && line.op == Some(Else) ==> On(h.state, l) == !On(g.done, l))
      && (ContinuesChain(g, line, l) && line.op == Some(ElseIf) ==>
            On(h.state, l) == (!On(g.done, l) && |line.tokens| >= 2 && AnyTruthy(line.tokens, vars)))
  {
    var h := LineStep(g, line, vars);
    if g.level > l {
      assert Same(g, h, l);
    } else if line.op.Some? {
      var tokens := line.tokens;
      match line.op.value
      case If => assert Same(g, h, l);
      case Switch => assert Same(g, h, l);
      case ElseIf =>
        if InChain(BranchOf(g.branch, l)) { ElseIfInChain(g, tokens, vars); } else { MisplacedDirectives(g, ElseIf, tokens, vars); }
      case Else =>
        if InChain(BranchOf(g.branch, l)) { ElseInChain(g, tokens, vars); } else { MisplacedDirectives(g, Else, tokens, vars); }
      case EndIf =>
      case Case => assert Transition(g, Case, tokens, vars).misuse.Some?;
      case Default => assert Transition(g, Default, tokens, vars).misuse.Some?;
      case EndSwitch => assert Transition(g, EndSwitch, tokens, vars).misuse.Some?;
      case Include =>
    }
  }

  /**
   What the IF frame at depth l says after the first k lines: it is on the chain
   or in its 'else' part, and while on the chain it is done exactly when some
   branch so far was taken.
   */
  predicate TracksChain(f: Frames, lines: seq<Parsed>, vars: PhpArray<Value>, k: nat, l: nat)
    requires k <= |lines|
  {
    var g := FramesAfter(f, lines, vars, k);
    && (InChain(BranchOf(g.branch, l)) || BranchOf(g.branch, l) == ElseBranch)
    && (InChain(BranchOf(g.branch, l)) ==> (On(g.done, l) <==> ChainTaken(f, lines, vars, k, l)))
  }

  /** The #IF line opens the chain it describes: done iff its condition held. */
  lemma ChainTracksStart(f: Frames, lines: seq<Parsed>, vars: PhpArray<Value>)
    requires |lines| > 0 && OpensIf(lines[0])
    ensures TracksChain(f, lines, vars, 1, f.level + 1)
  {
    var l := f.level + 1;
    assert FramesAfter(f, lines, vars, 1) == LineStep(f, lines[0], vars);
    IfOpensFrame(f, lines[0].tokens, vars);
    assert ChainTaken(f, lines, vars, 1, l) <==> BranchTaken(f, lines, vars, 0, l);
  }

  /** One more line inside the IF block keeps the frame describing the branches so far. */
  lemma ChainTracksNext(f: Frames, lines: seq<Parsed>, vars: PhpArray<Value>, k: nat)
    requires 1 <= k < |lines|
    requires FramesAfter(f, lines, vars, k).level > f.level && FramesAfter(f, lines, vars, k + 1).level > f.level
    requires TracksChain(f, lines, vars, k, f.level + 1)
    ensures TracksChain(f, lines, vars, k + 1, f.level + 1)
  {
    var l := f.level + 1;
    var g := FramesAfter(f, lines, vars, k);
    assert FramesAfter(f, lines, vars, k + 1) == LineStep(g, lines[k], vars);
    ChainStep(g, lines[k], vars, l);
    assert ChainTaken(f, lines, vars, k + 1, l) <==>
      ChainTaken(f, lines, vars, k, l) || BranchTaken(f, lines, vars, k, l);
  }

  /**
   Inside an IF block (lines start with an #IF that has a condition and stay
   inside its frame) the frame stays on the chain or in its 'else' part, and
   while on the chain it is done exactly when some branch so far was taken.
   */
  lemma {:induction false} ChainTracks(f: Frames, lines: seq<Parsed>, vars: PhpArray<Value>, j: nat)
    requires |lines| > 0 && OpensIf(lines[0])
    requires forall k :: 1 <= k <= |lines| ==> FramesAfter(f, lines, vars, k).level > f.level
    requires 1 <= j <= |lines|
    ensures TracksChain(f, lines, vars, j, f.level + 1)
    decreases j
  {
    if j == 1 {
      ChainTracksStart(f, lines, vars);
    } else {
      ChainTracks(f, lines, vars, j - 1);
      ChainTracksNext(f, lines, vars, j - 1);
    }
  }

  /**
   The first true condition wins: an #ELSEIF continuing the chain is active iff
   no earlier branch of it was taken and its own condition holds.
   */
  lemma ElseIfFiresIffFirstTrue(f: Frames, lines: seq<Parsed>, vars: PhpArray<Value>, j: nat)
    requires |lines| > 0 && OpensIf(lines[0])
    requires forall k :: 1 <= k <= |lines| ==> FramesAfter(f, lines, vars, k).level > f.level
    requires 1 <= j < |lines| && lines[j].op == Some(ElseIf)
    requires ContinuesChain(FramesAfter(f, lines, vars, j), lines[j], f.level + 1)
    ensures On(FramesAfter(f, lines, vars, j + 1).state, f.level + 1)
      <==> !ChainTaken(f, lines, vars, j, f.level + 1) && |lines[j].tokens| >= 2 && AnyTruthy(lines[j].tokens, vars)
  {
    ChainTracks(f, lines, vars, j);
    assert FramesAfter(f, lines, vars, j + 1) == LineStep(FramesAfter(f, lines, vars, j), lines[j], vars);
    ChainStep(FramesAfter(f, lines, vars, j), lines[j], vars, f.level + 1);
  }

  /**
   An #ELSE continuing the chain is active iff no earlier branch of it was taken,
   so once the #ELSE is read some branch of the chain has been taken: with
   ExclusiveIfChain, exactly one.
   */
  lemma ElseFiresIffNoneTaken(f: Frames, lines: seq<Parsed>, vars: PhpArray<Value>, j: nat)
    requires |lines| > 0 && OpensIf(lines[0])
    requires forall k :: 1 <= k <= |lines| ==> FramesAfter(f, lines, vars, k).level > f.level
    requires 1 <= j < |lines| && lines[j].op == Some(Else)
    requires ContinuesChain(FramesAfter(f, lines, vars, j), lines[j], f.level + 1)
    ensures On(FramesAfter(f, lines, vars, j + 1).state, f.level + 1) <==> !ChainTaken(f, lines, vars, j, f.level + 1)
    ensures ChainTaken(f, lines, vars, j + 1, f.level + 1)
  {
    var l := f.level + 1;
    ChainTracks(f, lines, vars, j);
    assert FramesAfter(f, lines, vars, j + 1) == LineStep(FramesAfter(f, lines, vars, j), lines[j], vars);
    ChainStep(FramesAfter(f, lines, vars, j), lines[j], vars, l);
    if !ChainTaken(f, lines, vars, j, l) {
      assert BranchTaken(f, lines, vars, j, l);
    } else {
      var i :| 0 <= i < j && BranchTaken(f, lines, vars, i, l);
      assert BranchTaken(f, lines, vars, i, l);
    }
  }

  /**
   The lines that set the state of the frame at depth l while staying at that
   depth: an #ELSEIF or #ELSE continuing an IF chain there, and a #CASE or
   #DEFAULT of a SWITCH frame there.
   */
  predicate Governs(g: Frames, line: Parsed, l: nat) {
    || ContinuesChain(g, line, l)
    || (g.level == l && (line.op == Some(Case) || line.op == Some(Default)) && BranchOf(g.branch, l) == SwitchBranch)
  }

  /** Any other line that keeps the depth at l or above leaves the frames at depth l and below as they were. */
  lemma BodyStep(g: Frames, line: Parsed, vars: PhpArray<Value>, l: nat)
    requires 1 <= l <= g.level && LineStep(g, line, vars).level >= l
    requires !Governs(g, line, l)
    ensures forall d: nat :: d <= l ==> Same(g, LineStep(g, line, vars), d)
  {
    if g.level == l && line.op.Some? {
      var op := line.op.value;
      if op == ElseIf || op == Else || op == Case || op == Default {
        MisplacedDirectives(g, op, line.tokens, vars);
      }
    }
  }

  /**
   Between two lines that govern the frame at depth l, with the depth staying at
   l or above, the frames at depth l and below do not change: plain lines and
   nested blocks cannot touch them.
   */
  lemma {:induction false} BodyKeepsFrames(f: Frames, lines: seq<Parsed>, vars: PhpArray<Value>, l: nat, a: nat, b: nat)
    requires 1 <= l && a <= b <= |lines|
    requires forall k :: a <= k <= b ==> FramesAfter(f, lines, vars, k).level >= l
    requires forall k :: a <= k < b ==> !Governs(FramesAfter(f, lines, vars, k), lines[k], l)
    ensures forall d: nat :: d <= l ==> Same(FramesAfter(f, lines, vars, a), FramesAfter(f, lines, vars, b), d)
    decreases b - a
  {
    if a < b {
      BodyKeepsFrames(f, lines, vars, l, a, b - 1);
      var g := FramesAfter(f, lines, vars, b - 1);
      var h := FramesAfter(f, lines, vars, b);
      assert h == LineStep(g, lines[b - 1], vars);
      BodyStep(g, lines[b - 1], vars, l);
      forall d: nat | d <= l
        ensures Same(FramesAfter(f, lines, vars, a), h, d)
      {
        assert Same(FramesAfter(f, lines, vars, a), g, d) && Same(g, h, d);
      }
    }
  }

  /**
   The body of a branch: line j is a branch directive (an #IF, #ELSEIF, #ELSE,
   #CASE or #DEFAULT) that leaves the depth at l, and the following lines up to
   line i stay at depth l or deeper without reaching the next directive of that
   frame. Then the branch's state holds on for the whole body: a line of it is
   active only when the branch fired, and a line directly inside the branch is
   active exactly when the line after the directive is.
   */
  lemma BodyFollowsBranch(f: Frames, lines: seq<Parsed>, vars: PhpArray<Value>, j: nat, i: nat)
    requires j < i <= |lines| && FramesAfter(f, lines, vars, j + 1).level >= 1
    requires forall k :: j + 1 <= k <= i ==> FramesAfter(f, lines, vars, k).level >= FramesAfter(f, lines, vars, j + 1).level
    requires forall k :: j + 1 <= k < i ==>
      !Governs(FramesAfter(f, lines, vars, k), lines[k], FramesAfter(f, lines, vars, j + 1).level)
    ensures var g := FramesAfter(f, lines, vars, j + 1); var h := FramesAfter(f, lines, vars, i);
      && On(h.state, g.level) == On(g.state, g.level)
      && (Active(h.state, h.level) ==> On(g.state, g.level))
      && (h.level == g.level ==> (Active(h.state, h.level) <==> Active(g.state, g.level)))
  {
    var g := FramesAfter(f, lines, vars, j + 1);
    var h := FramesAfter(f, lines, vars, i);
    BodyKeepsFrames(f, lines, vars, g.level, j + 1, i);
    assert Same(g, h, g.level);
    if Active(h.state, h.level) {
      assert On(h.state, g.level);
    }
    if h.level == g.level {
      SameActive(g, h, g.level);
    }
  }

  /** Frames that agree from depth 1 to l make the same lines active at depth l. */
  lemma SameActive(g: Frames, h: Frames, l: nat)
    requires forall d: nat :: d <= l ==> Same(g, h, d)
    ensures Active(g.state, l) <==> Active(h.state, l)
  {
    if Active(g.state, l) {
      forall d: nat | 1 <= d <= l ensures On(h.state, d) { assert Same(g, h, d); }
    }
    if Active(h.state, l) {
      forall d: nat | 1 <= d <= l ensures On(g.state, d) { assert Same(g, h, d); }
    }
  }

  /** A #CASE line evaluated in the SWITCH frame at depth l. */
  predicate CaseAt(g: Frames, line: Parsed, l: nat) {
    g.level == l && line.op == Some(Case)
  }

  /** Some #CASE among lines 1 .. j-1, evaluated in the SWITCH frame at depth l, matched the discriminant. */
  predicate SomeCaseMatched(f: Frames, lines: seq<Parsed>, vars: PhpArray<Value>, j: nat, l: nat, disc: Value)
    requires j <= |lines|
  {
    exists k :: 1 <= k < j && CaseAt(FramesAfter(f, lines, vars, k), lines[k], l) && AnyMatch(lines[k].tokens, disc)
  }

  lemma SwitchStep(g: Frames, line: Parsed, vars: PhpArray<Value>, l: nat)
    requires 1 <= l <= g.level && LineStep(g, line, vars).level >= l
    requires BranchOf(g.branch, l) == SwitchBranch
    ensures var h := LineStep(g, line, vars);
      && BranchOf(h.branch, l) == SwitchBranch
      && FactorOf(h.factor, l) == FactorOf(g.factor, l)
      && On(h.done, l) == (On(g.done, l) || (CaseAt(g, line, l) && AnyMatch(line.tokens, FactorOf(g.factor, l))))
      && (CaseAt(g, line, l) ==> On(h.state, l) == AnyMatch(line.tokens, FactorOf(g.factor, l)))
      && (g.level == l && line.op == Some(Default) ==> On(h.state, l) == !On(g.done, l))
  {
    var h := LineStep(g, line, vars);
    if g.level > l {
      assert Same(g, h, l);
    } else if line.op.Some? {
      var tokens := line.tokens;
      match line.op.value
      case If => assert Same(g, h, l);
      case Switch => assert Same(g, h, l);
      case ElseIf => MisplacedDirectives(g, ElseIf, tokens, vars);
      case Else => MisplacedDirectives(g, Else, tokens, vars);
      case EndIf =>
      case Case => CaseInSwitch(g, tokens, vars);
      case Default => DefaultInSwitch(g, tokens, vars);
      case EndSwitch =>
      case Include =>
    }
  }

  /** What the SWITCH frame at depth l says after the first k lines: branch 'switch', the discriminant, and done iff a CASE matched. */
  predicate TracksCases(f: Frames, lines: seq<Parsed>, vars: PhpArray<Value>, k: nat, l: nat, disc: Value)
    requires k <= |lines|
  {
    var g := FramesAfter(f, lines, vars, k);
    && BranchOf(g.branch, l) == SwitchBranch
    && FactorOf(g.factor, l) == disc
    && (On(g.done, l) <==> SomeCaseMatched(f, lines, vars, k, l, disc))
  }

  /** The #SWITCH line opens the frame it describes. */
  lemma SwitchTracksStart(f: Frames, lines: seq<Parsed>, vars: PhpArray<Value>)
    requires |lines| > 0 && lines[0].op == Some(Switch)
    ensures TracksCases(f, lines, vars, 1, f.level + 1, Discriminant(lines[0].tokens, vars))
  {
    assert FramesAfter(f, lines, vars, 1) == LineStep(f, lines[0], vars);
    SwitchOpensFrame(f, lines[0].tokens, vars);
  }

  /** One more line inside the SWITCH block keeps the frame describing the cases so far. */
  lemma SwitchTracksNext(f: Frames, lines: seq<Parsed>, vars: PhpArray<Value>, k: nat, disc: Value)
    requires 1 <= k < |lines|
    requires FramesAfter(f, lines, vars, k).level > f.level && FramesAfter(f, lines, vars, k + 1).level > f.level
    requires TracksCases(f, lines, vars, k, f.level + 1, disc)
    ensures TracksCases(f, lines, vars, k + 1, f.level + 1, disc)
  {
    var l := f.level + 1;
    var g := FramesAfter(f, lines, vars, k);
    assert FramesAfter(f, lines, vars, k + 1) == LineStep(g, lines[k], vars);
    SwitchStep(g, lines[k], vars, l);
    assert SomeCaseMatched(f, lines, vars, k + 1, l, disc) <==>
      SomeCaseMatched(f, lines, vars, k, l, disc) || (CaseAt(g, lines[k], l) && AnyMatch(lines[k].tokens, disc));
  }

  /**
   Inside a SWITCH block (lines start with the #SWITCH and stay inside its frame)
   the frame keeps branch 'switch' and the discriminant, and it is done exactly
   when some #CASE of this switch so far matched the discriminant.
   */
  lemma {:induction false} SwitchTracksCases(f: Frames, lines: seq<Parsed>, vars: PhpArray<Value>, j: nat)
    requires |lines| > 0 && lines[0].op == Some(Switch)
    requires forall k :: 1 <= k <= |lines| ==> FramesAfter(f, lines, vars, k).level > f.level
    requires 1 <= j <= |lines|
    ensures TracksCases(f, lines, vars, j, f.level + 1, Discriminant(lines[0].tokens, vars))
    decreases j
  {
    if j == 1 {
      SwitchTracksStart(f, lines, vars);
    } else {
      SwitchTracksCases(f, lines, vars, j - 1);
      SwitchTracksNext(f, lines, vars, j - 1, Discriminant(lines[0].tokens, vars));
    }
  }

  /** In a SWITCH block, a #CASE of this switch is active iff one of its tokens equals the discriminant. */
  lemma CaseFiresIffMatch(f: Frames, lines: seq<Parsed>, vars: PhpArray<Value>, j: nat)
    requires |lines| > 0 && lines[0].op == Some(Switch)
    requires forall k :: 1 <= k <= |lines| ==> FramesAfter(f, lines, vars, k).level > f.level
    requires 1 <= j < |lines| && CaseAt(FramesAfter(f, lines, vars, j), lines[j], f.level + 1)
    ensures On(FramesAfter(f, lines, vars, j + 1).state, f.level + 1)
      <==> AnyMatch(lines[j].tokens, Discriminant(lines[0].tokens, vars))
  {
    SwitchTracksCases(f, lines, vars, j);
    SwitchStep(FramesAfter(f, lines, vars, j), lines[j], vars, f.level + 1);
  }

  /** In a SWITCH block, a #DEFAULT of this switch is active iff no earlier #CASE of it matched. */
  lemma DefaultFiresIffNoCaseMatched(f: Frames, lines: seq<Parsed>, vars: PhpArray<Value>, j: nat)
    requires |lines| > 0 && lines[0].op == Some(Switch)
    requires forall k :: 1 <= k <= |lines| ==> FramesAfter(f, lines, vars, k).level > f.level
    requires 1 <= j < |lines| && lines[j].op == Some(Default)
    requires FramesAfter(f, lines, vars, j).level == f.level + 1
    ensures On(FramesAfter(f, lines, vars, j + 1).state, f.level + 1)
      <==> !SomeCaseMatched(f, lines, vars, j, f.level + 1, Discriminant(lines[0].tokens, vars))
  {
    SwitchTracksCases(f, lines, vars, j);
    SwitchStep(FramesAfter(f, lines, vars, j), lines[j], vars, f.level + 1);
  }
}
