/**
 The PHP string built-ins the preprocessor relies on, written out over `seq<char>`:
 trim/rtrim, the tokenising `preg_split("/[\s,]+/", ...)`, explode/implode on a
 delimiter, strtoupper and str_replace of one key.
 */
module PhpText {

  /** The characters PHP's trim() and rtrim() strip by default: space, tab, LF, CR, NUL and vertical tab. */
  predicate IsTrimChar(c: char) {
    c == ' ' || c == '\t' || c == '\n' || c == '\r' || c == '\0' || c == '\U{0B}'
  }

  /** The class of the pattern /[\s,]+/: PCRE whitespace (space, tab, LF, VT, FF, CR) and the comma. */
  predicate IsSeparator(c: char) {
    c == ' ' || c == '\t' || c == '\n' || c == '\U{0B}' || c == '\U{0C}' || c == '\r' || c == ','
  }

  predicate NoSeparator(s: string) {
    forall i :: 0 <= i < |s| ==> !IsSeparator(s[i])
  }

  /** rtrim(): drop trim characters from the end. */
  function RTrim(s: string): string {
    if |s| > 0 && IsTrimChar(s[|s| - 1]) then RTrim(s[..|s| - 1]) else s
  }

  /** rtrim() keeps a prefix of the text, removes only trim characters, and leaves none at the end. */
  lemma {:induction false} RTrimShape(s: string)
    ensures RTrim(s) <= s
    ensures |RTrim(s)| > 0 ==> !IsTrimChar(RTrim(s)[|RTrim(s)| - 1])
    ensures forall k :: |RTrim(s)| <= k < |s| ==> IsTrimChar(s[k])
    decreases |s|
  {
    if |s| > 0 && IsTrimChar(s[|s| - 1]) {
      RTrimShape(s[..|s| - 1]);
    }
  }

  /** ltrim(): drop trim characters from the front. */
  function LTrim(s: string): (r: string)
    ensures |r| <= |s| && r == s[|s| - |r|..]
    ensures |r| > 0 ==> !IsTrimChar(r[0])
    ensures forall k :: 0 <= k < |s| - |r| ==> IsTrimChar(s[k])
  {
    if |s| > 0 && IsTrimChar(s[0]) then LTrim(s[1..]) else s
  }

  /** trim(): both ends. */
  function Trim(s: string): string {
    RTrim(LTrim(s))
  }

  /** A line that has no trailing trim character is its own rtrim(). */
  lemma RTrimKeeps(s: string)
    requires |s| == 0 || !IsTrimChar(s[|s| - 1])
    ensures RTrim(s) == s
  {
  }

  /** Index of the first character at or after `from` that satisfies the separator class, or |s|. */
  function NextSeparator(s: string, from: nat): (r: nat)
    requires from <= |s|
    ensures from <= r <= |s|
    ensures r < |s| ==> IsSeparator(s[r])
    ensures forall k :: from <= k < r ==> !IsSeparator(s[k])
    decreases |s| - from
  {
    if from == |s| || IsSeparator(s[from]) then from else NextSeparator(s, from + 1)
  }

  /** Index of the first character at or after `from` that is NOT a separator, or |s|. */
  function SkipSeparators(s: string, from: nat): (r: nat)
    requires from <= |s|
    ensures from <= r <= |s|
    ensures r < |s| ==> !IsSeparator(s[r])
    ensures forall k :: from <= k < r ==> IsSeparator(s[k])
    decreases |s| - from
  {
    if from == |s| || !IsSeparator(s[from]) then from else SkipSeparators(s, from + 1)
  }

  /**
   preg_split("/[\s,]+/", s) without flags: the pieces between maximal runs of
   separators. A leading run yields an empty first piece and a trailing run an
   empty last piece, so the result is never empty.
   */
  function Split(s: string): (r: seq<string>)
    ensures |r| >= 1
    decreases |s|
  {
    var i := NextSeparator(s, 0);
    if i == |s| then [s]
    else [s[..i]] + Split(s[SkipSeparators(s, i)..])
  }

  /** No piece holds a separator, only the first and the last piece can be empty, and text without separators is one piece. */
  lemma {:induction false} SplitShape(s: string)
    ensures forall k :: 0 <= k < |Split(s)| ==> NoSeparator(Split(s)[k])
    ensures forall k :: 0 < k < |Split(s)| - 1 ==> Split(s)[k] != ""
    ensures NoSeparator(s) ==> Split(s) == [s]
    decreases |s|
  {
    var i := NextSeparator(s, 0);
    if i < |s| {
      var j := SkipSeparators(s, i);
      SplitShape(s[j..]);
      var rest := Split(s[j..]);
      assert Split(s) == [s[..i]] + rest;
      if j == |s| {
        assert s[j..] == "";
        assert rest == [""];
      } else {
        assert s[j..][0] == s[j];
        assert NextSeparator(s[j..], 0) > 0;
      }
    }
  }

  /** The characters of s that are not separators, in order. */
  function Kept(s: string): (r: string)
    ensures NoSeparator(r)
  {
    if |s| == 0 then "" else if IsSeparator(s[0]) then Kept(s[1..]) else [s[0]] + Kept(s[1..])
  }

  function Concat(parts: seq<string>): string {
    if |parts| == 0 then "" else parts[0] + Concat(parts[1..])
  }

  lemma {:induction false} KeptAppend(a: string, b: string)
    ensures Kept(a + b) == Kept(a) + Kept(b)
    decreases |a|
  {
    if |a| == 0 {
      assert a + b == b;
    } else {
      assert (a + b)[1..] == a[1..] + b;
      KeptAppend(a[1..], b);
    }
  }

  lemma {:induction false} KeptNoSeparator(s: string)
    requires NoSeparator(s)
    ensures Kept(s) == s
    decreases |s|
  {
    if |s| > 0 {
      KeptNoSeparator(s[1..]);
    }
  }

  lemma {:induction false} KeptAllSeparators(s: string)
    requires forall k :: 0 <= k < |s| ==> IsSeparator(s[k])
    ensures Kept(s) == ""
    decreases |s|
  {
    if |s| > 0 {
      KeptAllSeparators(s[1..]);
    }
  }

  lemma ConcatCons(a: string, rest: seq<string>)
    ensures Concat([a] + rest) == a + Concat(rest)
  {
    assert ([a] + rest)[1..] == rest;
  }

  /** Splitting loses exactly the separators: the pieces, glued back, are the input's other characters. */
  lemma {:induction false} SplitKeepsContent(s: string)
    ensures Concat(Split(s)) == Kept(s)
    decreases |s|
  {
    var i := NextSeparator(s, 0);
    if i == |s| {
      KeptNoSeparator(s);
      ConcatCons(s, []);
    } else {
      var j := SkipSeparators(s, i);
      var a, b, c := s[..i], s[i..j], s[j..];
      assert s == a + (b + c);
      assert NoSeparator(a);
      KeptAppend(a, b + c);
      KeptAppend(b, c);
      KeptNoSeparator(a);
      KeptAllSeparators(b);
      SplitKeepsContent(c);
      ConcatCons(a, Split(c));
    }
  }

  /** A non-empty run made only of separators. */
  predicate SeparatorRun(t: string) {
    t != "" && forall k :: 0 <= k < |t| ==> IsSeparator(t[k])
  }

  /** The pieces with `seps[k]` between piece k and piece k + 1. */
  function Interleave(parts: seq<string>, seps: seq<string>): string
    requires |parts| == |seps| + 1
    decreases |seps|
  {
    if |seps| == 0 then parts[0] else parts[0] + seps[0] + Interleave(parts[1..], seps[1..])
  }

  /** `s` is the pieces glued back with the separator runs `seps` between them. */
  predicate CutBy(s: string, parts: seq<string>, seps: seq<string>) {
    && |parts| == |seps| + 1
    && (forall k :: 0 <= k < |seps| ==> SeparatorRun(seps[k]))
    && Interleave(parts, seps) == s
  }

  /**
   Where preg_split() cuts: the text is its pieces with a non-empty run of
   separators between each two of them. With SplitShape (no piece holds a
   separator, no middle piece is empty) this fixes the pieces: the first is the
   text up to the first separator, and so on.
   */
  lemma {:induction false} SplitCuts(s: string)
    ensures exists seps :: CutBy(s, Split(s), seps)
    decreases |s|
  {
    var i := NextSeparator(s, 0);
    if i == |s| {
      assert CutBy(s, Split(s), []);
    } else {
      var j := SkipSeparators(s, i);
      var rest := s[j..];
      SplitCuts(rest);
      var seps' :| CutBy(rest, Split(rest), seps');
      var parts := Split(s);
      assert parts == [s[..i]] + Split(rest);
      var seps := [s[i..j]] + seps';
      assert parts[1..] == Split(rest) && seps[1..] == seps';
      assert s == s[..i] + s[i..j] + rest;
      assert SeparatorRun(s[i..j]);
      assert CutBy(s, parts, seps);
    }
  }

  /** Index of the first `d` at or after `from`, or |s|. */
  function IndexOf(s: string, d: char, from: nat): (r: nat)
    requires from <= |s|
    ensures from <= r <= |s|
    ensures r < |s| ==> s[r] == d
    ensures forall k :: from <= k < r ==> s[k] != d
    decreases |s| - from
  {
    if from == |s| || s[from] == d then from else IndexOf(s, d, from + 1)
  }

  /** explode(d, s) for a one-character delimiter: never empty, no piece holds the delimiter. */
  function Explode(s: string, d: char): (r: seq<string>)
    ensures |r| >= 1
    ensures forall k :: 0 <= k < |r| ==> d !in r[k]
    decreases |s|
  {
    var i := IndexOf(s, d, 0);
    if i == |s| then [s] else [s[..i]] + Explode(s[i + 1..], d)
  }

  /** implode(sep, parts). */
  function Join(sep: string, parts: seq<string>): string {
    if |parts| == 0 then ""
    else if |parts| == 1 then parts[0]
    else parts[0] + sep + Join(sep, parts[1..])
  }

  /** Joining the pieces of explode() with the same delimiter gives back the text. */
  lemma {:induction false} JoinExplode(s: string, d: char)
    ensures Join([d], Explode(s, d)) == s
    decreases |s|
  {
    var i := IndexOf(s, d, 0);
    if i < |s| {
      JoinExplode(s[i + 1..], d);
      var rest := Explode(s[i + 1..], d);
      assert Explode(s, d) == [s[..i]] + rest;
      assert ([s[..i]] + rest)[1..] == rest;
      assert s == s[..i] + [d] + s[i + 1..];
    }
  }

  /** strtoupper() on ASCII letters (PHP 8.2 and later, or the C locale). */
  function UpperChar(c: char): char {
    if 'a' <= c <= 'z' then (c as int - 32) as char else c
  }

  function Upper(s: string): (r: string)
    ensures |r| == |s|
    ensures forall i :: 0 <= i < |s| ==> r[i] == UpperChar(s[i])
  {
    seq(|s|, i requires 0 <= i < |s| => UpperChar(s[i]))
  }

  lemma UpperIdempotent(s: string)
    ensures Upper(Upper(s)) == Upper(s)
  {
  }

  /** `needle` occurs in `s` starting at index i. */
  predicate OccursAt(needle: string, s: string, i: nat) {
    i + |needle| <= |s| && s[i..i + |needle|] == needle
  }

  /** `needle` occurs in `s` at some position. */
  predicate Occurs(needle: string, s: string) {
    exists i :: 0 <= i <= |s| && OccursAt(needle, s, i)
  }

  /**
   str_replace(needle, rep, s) for one key: a left-to-right scan that replaces
   each non-overlapping occurrence and does not rescan replaced text. An empty
   needle leaves the subject unchanged, as PHP does.
   */
  function ReplaceAll(s: string, needle: string, rep: string): (r: string)
    decreases |s|
  {
    if needle == [] || |s| < |needle| then s
    else if s[..|needle|] == needle then rep + ReplaceAll(s[|needle|..], needle, rep)
    else [s[0]] + ReplaceAll(s[1..], needle, rep)
  }

  /** Replacing a key that does not occur changes nothing. */
  lemma {:induction false} ReplaceAllAbsent(s: string, needle: string, rep: string)
    requires !Occurs(needle, s)
    ensures ReplaceAll(s, needle, rep) == s
    decreases |s|
  {
    if needle != [] && |s| >= |needle| {
      assert !OccursAt(needle, s, 0);
      assert !Occurs(needle, s[1..]) by {
        forall i: nat | OccursAt(needle, s[1..], i)
          ensures false
        {
          assert s[1..][i..i + |needle|] == s[i + 1..i + 1 + |needle|];
          assert OccursAt(needle, s, i + 1);
        }
      }
      ReplaceAllAbsent(s[1..], needle, rep);
      assert s == [s[0]] + s[1..];
    }
  }

  /** A text that is exactly the key becomes the replacement. */
  lemma ReplaceAllWhole(needle: string, rep: string)
    requires needle != []
    ensures ReplaceAll(needle, needle, rep) == rep
  {
    assert needle[|needle|..] == [];
    assert ReplaceAll([], needle, rep) == [];
  }

  /** Index of the first occurrence of `needle` at or after `from`, or |s| when there is none. */
  function Find(s: string, needle: string, from: nat): (r: nat)
    requires from <= |s|
    ensures from <= r <= |s|
    ensures r < |s| ==> OccursAt(needle, s, r)
    ensures forall k :: from <= k < r ==> !OccursAt(needle, s, k)
    decreases |s| - from
  {
    if from == |s| || OccursAt(needle, s, from) then from else Find(s, needle, from + 1)
  }

  /**
   explode(needle, s) for a non-empty needle: the pieces between the occurrences
   of `needle`, found left to right without overlap.
   */
  function ExplodeStr(s: string, needle: string): (r: seq<string>)
    requires needle != []
    ensures |r| >= 1
    decreases |s|
  {
    var i := Find(s, needle, 0);
    if i == |s| then [s] else [s[..i]] + ExplodeStr(s[i + |needle|..], needle)
  }

  /** A text with no occurrence before index i keeps none in its first i characters. */
  lemma NoOccurrenceBefore(s: string, needle: string, i: nat)
    requires needle != [] && i <= |s|
    requires forall k :: 0 <= k < i ==> !OccursAt(needle, s, k)
    ensures !Occurs(needle, s[..i])
  {
    forall j: nat | j <= i && OccursAt(needle, s[..i], j)
      ensures false
    {
      assert s[..i][j..j + |needle|] == s[j..j + |needle|];
      assert OccursAt(needle, s, j);
    }
  }

  /** No piece of explode() holds the needle. */
  lemma {:induction false} ExplodeStrPieces(s: string, needle: string)
    requires needle != []
    ensures forall k :: 0 <= k < |ExplodeStr(s, needle)| ==> !Occurs(needle, ExplodeStr(s, needle)[k])
    decreases |s|
  {
    var i := Find(s, needle, 0);
    NoOccurrenceBefore(s, needle, i);
    if i == |s| {
      assert s[..i] == s;
    } else {
      ExplodeStrPieces(s[i + |needle|..], needle);
      assert ExplodeStr(s, needle) == [s[..i]] + ExplodeStr(s[i + |needle|..], needle);
    }
  }

  /** implode(needle, explode(needle, s)) is s. */
  lemma {:induction false} JoinExplodeStr(s: string, needle: string)
    requires needle != []
    ensures Join(needle, ExplodeStr(s, needle)) == s
    decreases |s|
  {
    var i := Find(s, needle, 0);
    if i < |s| {
      var rest := ExplodeStr(s[i + |needle|..], needle);
      JoinExplodeStr(s[i + |needle|..], needle);
      assert ExplodeStr(s, needle) == [s[..i]] + rest;
      assert ([s[..i]] + rest)[1..] == rest;
      assert s == s[..i] + s[i..i + |needle|] + s[i + |needle|..];
    }
  }

  /** Up to the first occurrence at index i or later, str_replace() copies the subject. */
  lemma {:induction false} ReplaceAllSkip(s: string, needle: string, rep: string, i: nat)
    requires needle != [] && i <= |s|
    requires forall k :: 0 <= k < i ==> !OccursAt(needle, s, k)
    ensures ReplaceAll(s, needle, rep) == s[..i] + ReplaceAll(s[i..], needle, rep)
    decreases i
  {
    if i > 0 {
      assert !OccursAt(needle, s, 0);
      if |s| < |needle| {
        assert s == s[..i] + s[i..];
      } else {
        assert s[..|needle|] == s[0..|needle|];
        forall k | 0 <= k < i - 1
          ensures !OccursAt(needle, s[1..], k)
        {
          if k + |needle| <= |s[1..]| {
            assert s[1..][k..k + |needle|] == s[k + 1..k + 1 + |needle|];
          }
          assert !OccursAt(needle, s, k + 1);
        }
        ReplaceAllSkip(s[1..], needle, rep, i - 1);
        assert s[1..][..i - 1] == s[1..i] && s[1..][i - 1..] == s[i..];
        assert s[..i] == [s[0]] + s[1..i];
      }
    }
  }

  /**
   str_replace(needle, rep, s) is implode(rep, explode(needle, s)): every
   non-overlapping occurrence, found left to right, becomes `rep`, and the text
   between occurrences is kept.
   */
  lemma {:induction false} ReplaceAllExplode(s: string, needle: string, rep: string)
    requires needle != []
    ensures ReplaceAll(s, needle, rep) == Join(rep, ExplodeStr(s, needle))
    decreases |s|
  {
    var i := Find(s, needle, 0);
    ReplaceAllSkip(s, needle, rep, i);
    if i == |s| {
      assert s[i..] == [] && s[..i] == s;
    } else {
      var t := s[i..];
      assert t[..|needle|] == needle;
      assert t[|needle|..] == s[i + |needle|..];
      assert ReplaceAll(t, needle, rep) == rep + ReplaceAll(s[i + |needle|..], needle, rep);
      ReplaceAllExplode(s[i + |needle|..], needle, rep);
      var rest := ExplodeStr(s[i + |needle|..], needle);
      assert ExplodeStr(s, needle) == [s[..i]] + rest;
      assert ([s[..i]] + rest)[1..] == rest;
    }
  }
}
