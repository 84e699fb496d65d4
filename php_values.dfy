/**
 The fragment of PHP's value model the preprocessor touches: the scalar values a
 caller puts in the variables array, `isset`/`empty`, the string conversion used by
 str_replace, the loose `==` that #CASE uses, and associative arrays with string keys.
 */
module PhpValues {
  import opened Options

  /** A scalar variable value. */
  datatype Value = Str(s: string) | Int(i: int) | Bool(b: bool) | Null

  /** PHP truthiness of a string: everything but "" and "0". */
  predicate StrTruthy(s: string) {
    s != "" && s != "0"
  }

  /** empty(): is the value falsy? */
  predicate IsEmpty(v: Value) {
    match v
    case Str(s) => !StrTruthy(s)
    case Int(i) => i == 0
    case Bool(b) => !b
    case Null => true
  }

  function DigitChar(d: nat): char
    requires d < 10
  {
    "0123456789"[d]
  }

  /** Decimal digits of a natural number, most significant first. */
  function NatToString(n: nat): (r: string)
    ensures |r| >= 1
    ensures forall k :: 0 <= k < |r| ==> '0' <= r[k] <= '9'
    decreases n
  {
    if n < 10 then [DigitChar(n)] else NatToString(n / 10) + [DigitChar(n % 10)]
  }

  /** PHP's decimal text of an integer. */
  function IntToString(i: int): string {
    if i < 0 then "-" + NatToString(-i) else NatToString(i)
  }

  /** The string conversion applied by str_replace to a replacement value. */
  function Text(v: Value): string {
    match v
    case Str(s) => s
    case Int(i) => IntToString(i)
    case Bool(b) => if b then "1" else ""
    case Null => ""
  }

  /**
   `token == v` with `token` a string, as PHP 8 decides it for non-numeric text:
   a string compares as text, an integer through its decimal form, a boolean by
   truthiness, null equals only the empty string.
   */
  predicate LooseEquals(token: string, v: Value) {
    match v
    case Str(s) => token == s
    case Int(i) => token == IntToString(i)
    case Bool(b) => StrTruthy(token) == b
    case Null => token == ""
  }

  /** The keys of an association list are pairwise distinct, as in every PHP array. */
  predicate UniqueKeys<V>(a: seq<(string, V)>) {
    forall i, j :: 0 <= i < j < |a| ==> a[i].0 != a[j].0
  }

  /** A PHP array with string keys, in insertion order. */
  type PhpArray<V> = a: seq<(string, V)> | UniqueKeys(a) witness []

  predicate HasKey<V>(a: seq<(string, V)>, key: string) {
    exists i :: 0 <= i < |a| && a[i].0 == key
  }

  /** `$a[key]`, or None when the key is absent. */
  function Lookup<V>(a: PhpArray<V>, key: string): (r: Option<V>)
    ensures r.Some? <==> HasKey(a, key)
    ensures r.Some? ==> exists i :: 0 <= i < |a| && a[i] == (key, r.value)
  {
    if |a| == 0 then None
    else if a[0].0 == key then Some(a[0].1)
    else
      assert UniqueKeys(a[1..]) by {
        forall i, j | 0 <= i < j < |a[1..]| ensures a[1..][i].0 != a[1..][j].0 {
          assert a[1..][i] == a[i + 1] && a[1..][j] == a[j + 1];
        }
      }
      Lookup(a[1..], key)
  }

  /** `$a[key] = v`: overwrite in place when the key exists, append otherwise. */
  function Put<V>(a: PhpArray<V>, key: string, v: V): (r: PhpArray<V>)
    ensures Lookup(r, key) == Some(v)
    ensures forall k :: k != key ==> Lookup(r, k) == Lookup(a, k)
    ensures HasKey(a, key) ==> exists i :: 0 <= i < |a| && a[i].0 == key && r == a[i := (key, v)]
    ensures !HasKey(a, key) ==> r == a + [(key, v)]
  {
    if HasKey(a, key) then
      var i :| 0 <= i < |a| && a[i].0 == key;
      var r := a[i := (key, v)];
      assert UniqueKeys(r);
      LookupAgrees(a, r, i, key, v);
      r
    else
      var r := a + [(key, v)];
      assert UniqueKeys(r);
      LookupAppend(a, key, v);
      r
  }

  /** Looking a key up in a one-entry overwrite of an array. */
  lemma LookupAgrees<V>(a: PhpArray<V>, r: PhpArray<V>, i: nat, key: string, v: V)
    requires i < |a| && a[i].0 == key && r == a[i := (key, v)]
    ensures Lookup(r, key) == Some(v)
    ensures forall k :: k != key ==> Lookup(r, k) == Lookup(a, k)
  {
    forall k | k != key ensures Lookup(r, k) == Lookup(a, k) {
      if Lookup(a, k).Some? {
        var m :| 0 <= m < |a| && a[m] == (k, Lookup(a, k).value);
        assert r[m] == a[m];
        LookupUnique(r, m);
        LookupUnique(a, m);
      } else {
        assert !HasKey(r, k) by {
          forall m | 0 <= m < |r| ensures r[m].0 != k {
            assert m != i ==> r[m] == a[m];
          }
        }
      }
    }
    assert r[i] == (key, v);
    LookupUnique(r, i);
  }

  lemma LookupAppend<V>(a: PhpArray<V>, key: string, v: V)
    requires !HasKey(a, key) && UniqueKeys(a + [(key, v)])
    ensures Lookup(a + [(key, v)], key) == Some(v)
    ensures forall k :: k != key ==> Lookup(a + [(key, v)], k) == Lookup(a, k)
  {
    var r: PhpArray<V> := a + [(key, v)];
    LookupUnique(r, |a|);
    forall k | k != key ensures Lookup(r, k) == Lookup(a, k) {
      if Lookup(a, k).Some? {
        var m :| 0 <= m < |a| && a[m] == (k, Lookup(a, k).value);
        assert r[m] == a[m];
        LookupUnique(r, m);
        LookupUnique(a, m);
      } else {
        assert !HasKey(r, k) by {
          forall m | 0 <= m < |r| ensures r[m].0 != k {
            assert m < |a| ==> r[m] == a[m];
          }
        }
      }
    }
  }

  /** In an array with distinct keys, the entry at index m is what its key looks up. */
  lemma {:induction false} LookupUnique<V>(a: PhpArray<V>, m: nat)
    requires m < |a|
    ensures Lookup(a, a[m].0) == Some(a[m].1)
    decreases m
  {
    if m > 0 {
      assert a[0].0 != a[m].0;
      var t: PhpArray<V> := a[1..];
      assert t[m - 1] == a[m];
      LookupUnique(t, m - 1);
    }
  }

  /** isset($vars[name]) && !empty($vars[name]). */
  predicate IsSetNonEmpty(vars: PhpArray<Value>, name: string) {
    match Lookup(vars, name)
    case Some(v) => v != Null && !IsEmpty(v)
    case None => false
  }

  /** isset($vars[name]) ? $vars[name] : 0 */
  function ValueOrZero(vars: PhpArray<Value>, name: string): Value {
    match Lookup(vars, name)
    case Some(v) => if v != Null then v else Int(0)
    case None => Int(0)
  }
}
