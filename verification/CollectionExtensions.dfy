/**
  The generic "maximum by key" extension `GetMax`.

  The collection may be `null` (modelled as `None`) or a finite sequence.
  The scoring delegate is a total function to `int`, standing in for the
  source's `float` conversion.
*/
module CollectionExtensions {

  import opened Wrappers

  /** `s[i]` is the first element of `s` whose score is maximal. */
  ghost predicate IsFirstMax<T>(s: seq<T>, score: T -> int, i: int)
  {
    && 0 <= i < |s|
    && (forall j :: 0 <= j < |s| ==> score(s[j]) <= score(s[i]))
    && (forall j :: 0 <= j < i ==> score(s[j]) < score(s[i]))
  }

  /**
    Index of the running best after a left-to-right scan of `s` that starts
    from the first element and moves only on a strictly greater score.
  */
  function MaxIndex<T>(s: seq<T>, score: T -> int): (i: nat)
    requires |s| > 0
    ensures i < |s|
    ensures forall j :: 0 <= j < |s| ==> score(s[j]) <= score(s[i])
  {
    if |s| == 1 then 0
    else
      var j := MaxIndex(s[..|s| - 1], score);
      if score(s[|s| - 1]) > score(s[j]) then |s| - 1 else j
  }

  /** The scan lands on the first maximal element: ties keep the earliest. */
  lemma {:induction false} MaxIndexIsFirstMax<T>(s: seq<T>, score: T -> int)
    requires |s| > 0
    ensures IsFirstMax(s, score, MaxIndex(s, score))
  {
    if |s| > 1 {
      var init := s[..|s| - 1];
      MaxIndexIsFirstMax(init, score);
      var j := MaxIndex(init, score);
      assert forall k :: 0 <= k < |init| ==> init[k] == s[k];
      if score(s[|s| - 1]) > score(s[j]) {
        assert forall k :: 0 <= k < |s| - 1 ==> score(s[k]) <= score(s[j]);
      }
    }
  }

  /** At most one index is the first maximal one, so the result is determined. */
  lemma {:induction false} FirstMaxUnique<T>(s: seq<T>, score: T -> int, i: int, j: int)
    requires IsFirstMax(s, score, i) && IsFirstMax(s, score, j)
    ensures i == j
  {
    var x, y := s[i], s[j];
    assert score(x) <= score(y) && score(y) <= score(x);
  }

  /**
    `collection.GetMax(convertToNumber)`: `None` for a null or empty
    collection, otherwise the first element with the largest score.
  */
  method GetMax<T>(collection: Option<seq<T>>, convertToNumber: T -> int) returns (r: Option<T>)
    ensures r.None? <==> (collection.None? || |collection.value| == 0)
    ensures r.Some? ==> r == Some(collection.value[MaxIndex(collection.value, convertToNumber)])
    ensures r.Some? ==> r.value in collection.value
    ensures r.Some? ==>
      forall x :: x in collection.value ==> convertToNumber(x) <= convertToNumber(r.value)
    ensures r.Some? ==>
      exists i :: IsFirstMax(collection.value, convertToNumber, i) && r.value == collection.value[i]
  {
    if collection.None? || |collection.value| == 0 {
      return None;
    }
    var s := collection.value;
    var maxElement := s[0];
    var maxValue := convertToNumber(maxElement);
    ghost var best := 0;
    for k := 1 to |s|
      invariant best == MaxIndex(s[..k], convertToNumber)
      invariant maxElement == s[best]
      invariant maxValue == convertToNumber(maxElement)
    {
      assert s[..k + 1][..k] == s[..k];
      var currentValue := convertToNumber(s[k]);
      if currentValue > maxValue {
        maxValue := currentValue;
        maxElement := s[k];
        best := k;
      }
    }
    assert s[..|s|] == s;
    MaxIndexIsFirstMax(s, convertToNumber);
    r := Some(maxElement);
  }

  /**
    An invented instance of the call at the start of `Main`, which scores
    files by their length: three files of lengths 10, 50 and 5 select the
    second one.
  */
  method SizeScenario() returns (maxFile: Option<string>)
    ensures maxFile == Some("b.txt")
  {
    var files := ["a.txt", "b.txt", "c.txt"];
    var size := (f: string) => if f == "a.txt" then 10 else if f == "b.txt" then 50 else 5;
    maxFile := GetMax(Some(files), size);
  }
}
