/** What several modules use. */
module Common {

  datatype Option<+T> = None | Some(value: T)

  function Abs(x: int): (r: nat)
    ensures r == x || r == -x
  {
    if x < 0 then -x else x
  }

  /** The parts put together. */
  function Concat<T>(parts: seq<seq<T>>): seq<T> {
    if parts == [] then [] else Concat(parts[..|parts| - 1]) + parts[|parts| - 1]
  }

  lemma ConcatEnds<T>(parts: seq<seq<T>>)
    ensures Concat(parts[..0]) == [] && parts[..|parts|] == parts
  {
  }

  lemma ConcatNext<T>(parts: seq<seq<T>>, i: nat)
    requires i < |parts|
    ensures Concat(parts[..i + 1]) == Concat(parts[..i]) + parts[i]
  {
    assert parts[..i + 1][..i] == parts[..i];
  }

  /** The first i parts, and what follows them. */
  lemma {:induction false} ConcatSplit<T>(parts: seq<seq<T>>, i: nat) returns (rest: seq<T>)
    requires i <= |parts|
    ensures Concat(parts) == Concat(parts[..i]) + rest
  {
    var n := |parts| - 1;
    if i == |parts| {
      rest := [];
      assert parts[..i] == parts && Concat(parts) == Concat(parts) + [];
    } else {
      var before := ConcatSplit(parts[..n], i);
      assert parts[..n][..i] == parts[..i];
      rest := before + parts[n];
      assert Concat(parts) == Concat(parts[..i]) + rest;
    }
  }
}
