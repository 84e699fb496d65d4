/** The optional value used for lookups and for "no error", and the values an optional sequence holds. */
module Options {
  datatype Option<+T> = None | Some(value: T)

  /** The present values of `cs`, in order. */
  function Somes<T>(cs: seq<Option<T>>): seq<T>
    decreases |cs|
  {
    if |cs| == 0 then []
    else
      var last := cs[|cs| - 1];
      Somes(cs[..|cs| - 1]) + (if last.Some? then [last.value] else [])
  }

  /**
   Every present value of `cs` is in `Somes(cs)` exactly once and in order:
   `idx` gives, for each element of the result, the position it comes from.
   */
  lemma {:induction false} SomesIndex<T>(cs: seq<Option<T>>) returns (idx: seq<nat>)
    ensures |idx| == |Somes(cs)|
    ensures forall j :: 0 <= j < |idx| ==> idx[j] < |cs| && cs[idx[j]] == Some(Somes(cs)[j])
    ensures forall j1, j2 :: 0 <= j1 < j2 < |idx| ==> idx[j1] < idx[j2]
    ensures forall i :: 0 <= i < |cs| && cs[i].Some? ==> i in idx
    decreases |cs|
  {
    if |cs| == 0 {
      idx := [];
    } else {
      var init := cs[..|cs| - 1];
      var prev := SomesIndex(init);
      var last := cs[|cs| - 1];
      var before, out := Somes(init), Somes(cs);
      assert out == before + (if last.Some? then [last.value] else []);
      idx := if last.Some? then prev + [|cs| - 1] else prev;
      forall j | 0 <= j < |idx|
        ensures idx[j] < |cs| && cs[idx[j]] == Some(out[j])
      {
        if j < |prev| {
          assert idx[j] == prev[j] && out[j] == before[j];
          assert cs[prev[j]] == init[prev[j]];
        }
      }
      forall i | 0 <= i < |cs| && cs[i].Some?
        ensures i in idx
      {
        if i < |cs| - 1 {
          assert init[i] == cs[i];
        }
      }
    }
  }
}
