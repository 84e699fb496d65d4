/**
 Directive recognition: a line is cut into tokens on runs of whitespace and
 commas, and its first token, uppercased, is looked up in the operator table.
 */
module Directives {
  import opened Options
  import opened PhpText

  /** The directive kinds, one per key of the operator table. */
  datatype Op = If | Else | ElseIf | EndIf | Switch | Case | Default | EndSwitch | Include

  /** The operator table in its declared order; #ELSEIF has the alias #ELIF. */
  const Operators: seq<(Op, seq<string>)> := [
    (If, ["#IF"]),
    (Else, ["#ELSE"]),
    (ElseIf, ["#ELSEIF", "#ELIF"]),
    (EndIf, ["#ENDIF"]),
    (Switch, ["#SWITCH"]),
    (Case, ["#CASE"]),
    (Default, ["#DEFAULT"]),
    (EndSwitch, ["#ENDSWITCH"]),
    (Include, ["#INCLUDE"])
  ]

  /** The spellings of each directive, as a direct mapping (the reference for the table scan). */
  function Keyword(word: string): Option<Op> {
    if word == "#IF" then Some(If)
    else if word == "#ELSE" then Some(Else)
    else if word == "#ELSEIF" || word == "#ELIF" then Some(ElseIf)
    else if word == "#ENDIF" then Some(EndIf)
    else if word == "#SWITCH" then Some(Switch)
    else if word == "#CASE" then Some(Case)
    else if word == "#DEFAULT" then Some(Default)
    else if word == "#ENDSWITCH" then Some(EndSwitch)
    else if word == "#INCLUDE" then Some(Include)
    else None
  }

  /** The tokens of a line: trimmed, then split on runs of whitespace and commas. */
  function Tokens(line: string): (r: seq<string>)
    ensures |r| >= 1
  {
    Split(Trim(line))
  }

  /** The scan of the table from entry i on: the first entry listing `word`, if any. */
  function Scan(word: string, i: nat): Option<Op>
    requires i <= |Operators|
    decreases |Operators| - i
  {
    if i == |Operators| then None
    else if word in Operators[i].1 then Some(Operators[i].0)
    else Scan(word, i + 1)
  }

  /** The directive a first token names, whatever its letter case. */
  function Recognize(first: string): Option<Op> {
    Scan(Upper(first), 0)
  }

  /** The directive spelled by a line, if any. */
  function LineOp(line: string): Option<Op> {
    Recognize(Tokens(line)[0])
  }

  /** A line as the main loop sees it: the directive it spells, if any, its tokens, and the line itself. */
  datatype Parsed = Parsed(op: Option<Op>, tokens: seq<string>, text: string)

  function Classify(line: string): Parsed {
    Parsed(LineOp(line), Tokens(line), line)
  }

  /**
   Scanning the table in order gives exactly the direct mapping: no word is
   listed in two entries, so the order of the scan cannot change the answer.
   */
  lemma ScanIsKeyword(word: string)
    ensures Scan(word, 0) == Keyword(word)
  {
    var ops := Operators;
    assert Scan(word, 9) == None;
    assert Scan(word, 8) == if word == "#INCLUDE" then Some(Include) else None;
    assert Scan(word, 7) == if word == "#ENDSWITCH" then Some(EndSwitch) else Scan(word, 8);
    assert Scan(word, 6) == if word == "#DEFAULT" then Some(Default) else Scan(word, 7);
    assert Scan(word, 5) == if word == "#CASE" then Some(Case) else Scan(word, 6);
    assert Scan(word, 4) == if word == "#SWITCH" then Some(Switch) else Scan(word, 5);
    assert Scan(word, 3) == if word == "#ENDIF" then Some(EndIf) else Scan(word, 4);
    assert Scan(word, 2) == if word == "#ELSEIF" || word == "#ELIF" then Some(ElseIf) else Scan(word, 3);
    assert Scan(word, 1) == if word == "#ELSE" then Some(Else) else Scan(word, 2);
    assert Scan(word, 0) == if word == "#IF" then Some(If) else Scan(word, 1);
  }

  /** Letter case does not matter: a token and its uppercase form name the same directive. */
  lemma RecognizeIgnoresCase(first: string)
    ensures Recognize(Upper(first)) == Recognize(first)
  {
    UpperIdempotent(first);
  }

  /**
   #ELIF is an alias of #ELSEIF, and the match is exact: #ELSE names only the ELSE
   directive, so it is not a prefix match of #ELSEIF, and a token with anything
   after the keyword (#IFX) names nothing.
   */
  lemma ExactKeywords(first: string)
    ensures Recognize(first) == Some(ElseIf) <==> Upper(first) == "#ELSEIF" || Upper(first) == "#ELIF"
    ensures Recognize(first) == Some(Else) <==> Upper(first) == "#ELSE"
    ensures Recognize(first) == Some(If) <==> Upper(first) == "#IF"
  {
    ScanIsKeyword(Upper(first));
  }
}
