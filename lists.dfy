/** The two operations of `System.Collections.Generic.List<T>` whose effect on the
    contents the registry and the time-scale modifier list depend on. */
module Lists {

  /** `List<T>.RemoveAt(i)`: drops slot `i`, shifting every later slot down by one. */
  function RemoveAt<T>(s: seq<T>, i: nat): (r: seq<T>)
    requires i < |s|
    ensures |r| == |s| - 1
    ensures forall j :: 0 <= j < i ==> r[j] == s[j]
    ensures forall j :: i <= j < |r| ==> r[j] == s[j + 1]
  {
    s[..i] + s[i + 1..]
  }

  /** `RemoveAt` takes out exactly one copy of the element in the slot. */
  lemma RemoveAtMultiset<T>(s: seq<T>, i: nat)
    requires i < |s|
    ensures multiset(RemoveAt(s, i)) + multiset{s[i]} == multiset(s)
  {
    assert s == s[..i] + [s[i]] + s[i + 1..];
  }

  /** `List<T>.Remove(x)`: removes the first element equal to `x`, if any. */
  function RemoveFirst<T(==)>(s: seq<T>, x: T): (r: seq<T>)
    ensures x !in s ==> r == s
    ensures x in s ==> |r| == |s| - 1 && multiset(r) + multiset{x} == multiset(s)
  {
    if |s| == 0 then []
    else
      assert s == [s[0]] + s[1..];
      if s[0] == x then s[1..] else [s[0]] + RemoveFirst(s[1..], x)
  }

  /** Removing the first occurrence keeps the elements before it and shifts the rest. */
  lemma {:induction false} RemoveFirstShape<T>(s: seq<T>, x: T, i: nat)
    requires i < |s| && s[i] == x && x !in s[..i]
    ensures RemoveFirst(s, x) == RemoveAt(s, i)
  {
    if i > 0 {
      assert s[0] != x by { assert s[0] == s[..i][0]; }
      assert s[1..][i - 1] == x;
      assert s[1..][..i - 1] == s[..i][1..];
      RemoveFirstShape(s[1..], x, i - 1);
    }
  }
}
