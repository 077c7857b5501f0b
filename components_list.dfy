/** The identity-keyed registry `UnityComponentsList<T>`: two parallel lists (`instances`,
    `ids`) and a `count`, with appends, uniqueness-checked appends, linear lookups by
    instance id, order-preserving removal and swap-back removal.

    The first half states the registry's operations on plain sequences of entries, with
    what they promise; the class in the second half updates its fields in place and is
    proved to leave `instances` equal to those functions of its old contents. */
module ComponentsList {
  import opened Wrappers
  import opened Lists

  /** The exception the registry throws on a bad slot index. */
  datatype ListError = ArgumentOutOfRange

  // ---------------------------------------------------------------------------
  // The registry on sequences. `idOf` is `GetInstanceID`.
  // ---------------------------------------------------------------------------

  /** Some entry of `s` has instance id `k`. */
  predicate HasId<T>(idOf: T -> int, s: seq<T>, k: int) {
    exists j :: 0 <= j < |s| && idOf(s[j]) == k
  }

  /** No two entries of `s` share an instance id. */
  predicate UniqueIds<T>(idOf: T -> int, s: seq<T>) {
    forall i, j :: 0 <= i < j < |s| ==> idOf(s[i]) != idOf(s[j])
  }

  /** The least slot whose entry has id `k`, or -1 when there is none. */
  function FirstWithId<T>(idOf: T -> int, s: seq<T>, k: int): (r: int)
    ensures -1 <= r < |s|
    ensures r == -1 <==> !HasId(idOf, s, k)
    ensures 0 <= r ==> idOf(s[r]) == k
    ensures 0 <= r ==> forall j :: 0 <= j < r ==> idOf(s[j]) != k
  {
    if |s| == 0 then -1
    else if idOf(s[0]) == k then 0
    else
      var r := FirstWithId(idOf, s[1..], k);
      assert HasId(idOf, s, k) ==> HasId(idOf, s[1..], k) by {
        if HasId(idOf, s, k) {
          var j :| 0 <= j < |s| && idOf(s[j]) == k;
          assert j > 0 && idOf(s[1..][j - 1]) == k;
        }
      }
      if r < 0 then -1 else r + 1
  }

  /** How many entries of `s` have id `k`. */
  function CountId<T>(idOf: T -> int, s: seq<T>, k: int): nat {
    if |s| == 0 then 0
    else CountId(idOf, s[..|s| - 1], k) + (if idOf(s[|s| - 1]) == k then 1 else 0)
  }

  /** The slot `i` is removed by moving the last entry into it (`RemoveAtWithReorder`):
      every other slot keeps its entry, and exactly one copy of `s[i]` is gone. */
  function SwapBack<T>(s: seq<T>, i: nat): (r: seq<T>)
    requires i < |s|
    ensures |r| == |s| - 1
    ensures i < |r| ==> r[i] == s[|s| - 1]
    ensures forall j :: 0 <= j < |r| && j != i ==> r[j] == s[j]
  {
    var last := |s| - 1;
    if i < last then RemoveAt(s[i := s[last]], last) else RemoveAt(s, i)
  }

  /** Swap-back removal takes out exactly one copy of the removed entry and keeps all
      others. */
  lemma SwapBackMultiset<T>(s: seq<T>, i: nat)
    requires i < |s|
    ensures multiset(SwapBack(s, i)) + multiset{s[i]} == multiset(s)
  {
    var last := |s| - 1;
    var pre := s[..i];
    if i < last {
      var mid := s[i + 1..last];
      var moved := s[i := s[last]];
      assert s == pre + [s[i]] + mid + [s[last]];
      assert moved[..last] == pre + [s[last]] + mid;
      assert SwapBack(s, i) == moved[..last];
    } else {
      assert s == pre + [s[i]];
      assert SwapBack(s, i) == pre;
    }
  }

  /** Swap-back removal at the same slot of two parallel lists (`instances` and `ids`)
      keeps them parallel. */
  lemma SwapBackParallel<T>(idOf: T -> int, s: seq<T>, ids: seq<int>, i: nat)
    requires i < |s| == |ids|
    requires forall j :: 0 <= j < |s| ==> ids[j] == idOf(s[j])
    ensures |SwapBack(ids, i)| == |SwapBack(s, i)|
    ensures forall j :: 0 <= j < |SwapBack(s, i)| ==> SwapBack(ids, i)[j] == idOf(SwapBack(s, i)[j])
  {
    var r, rIds := SwapBack(s, i), SwapBack(ids, i);
    forall j | 0 <= j < |r| ensures rIds[j] == idOf(r[j]) {
      var src := if j == i then |s| - 1 else j;
      assert r[j] == s[src] && rIds[j] == ids[src];
    }
  }

  /** `AddUnique` on contents `s`: append `x` unless its id is already present. */
  function WithUnique<T>(idOf: T -> int, s: seq<T>, x: T): (r: seq<T>)
    ensures HasId(idOf, r, idOf(x))
    ensures |s| <= |r| <= |s| + 1 && r[..|s|] == s
  {
    if HasId(idOf, s, idOf(x)) then s
    else assert (s + [x])[|s|] == x; s + [x]
  }

  /** `AddUniqueRange` on contents `s`: `AddUnique` of each element of `xs`, in order. */
  function WithAllUnique<T>(idOf: T -> int, s: seq<T>, xs: seq<T>): (r: seq<T>)
    ensures |s| <= |r| <= |s| + |xs| && r[..|s|] == s
    decreases |xs|
  {
    if |xs| == 0 then s else WithAllUnique(idOf, WithUnique(idOf, s, xs[0]), xs[1..])
  }

  /** `RemoveSwapBack` on contents `s`: swap-back removal of the first entry with id `k`. */
  function WithoutSwapBack<T>(idOf: T -> int, s: seq<T>, k: int): (r: seq<T>)
    ensures !HasId(idOf, s, k) ==> r == s
    ensures HasId(idOf, s, k) ==> |r| == |s| - 1
  {
    var i := FirstWithId(idOf, s, k);
    if i < 0 then s else SwapBack(s, i)
  }

  /** `Remove` on contents `s`: order-preserving removal of the first entry with id `k`. */
  function WithoutInOrder<T>(idOf: T -> int, s: seq<T>, k: int): (r: seq<T>)
    ensures !HasId(idOf, s, k) ==> r == s
    ensures HasId(idOf, s, k) ==> |r| == |s| - 1
  {
    var i := FirstWithId(idOf, s, k);
    if i < 0 then s else RemoveAt(s, i)
  }

  // ---------------------------------------------------------------------------
  // What the operations promise.
  // ---------------------------------------------------------------------------

  /** An id occurs zero times exactly when no entry carries it. */
  lemma {:induction false} CountIdZero<T>(idOf: T -> int, s: seq<T>, k: int)
    ensures CountId(idOf, s, k) == 0 <==> !HasId(idOf, s, k)
  {
    if |s| > 0 {
      var p := s[..|s| - 1];
      CountIdZero(idOf, p, k);
      if HasId(idOf, p, k) {
        var j :| 0 <= j < |p| && idOf(p[j]) == k;
        assert idOf(s[j]) == k;
      }
      if HasId(idOf, s, k) && idOf(s[|s| - 1]) != k {
        var j :| 0 <= j < |s| && idOf(s[j]) == k;
        assert idOf(p[j]) == k;
      }
    }
  }

  /** In a registry without duplicate ids, every id occurs at most once. */
  lemma {:induction false} UniqueIdsCountAtMostOne<T>(idOf: T -> int, s: seq<T>, k: int)
    requires UniqueIds(idOf, s)
    ensures CountId(idOf, s, k) <= 1
  {
    if |s| > 0 {
      var p := s[..|s| - 1];
      UniqueIdsCountAtMostOne(idOf, p, k);
      if idOf(s[|s| - 1]) == k {
        assert !HasId(idOf, p, k) by {
          forall j | 0 <= j < |p| ensures idOf(p[j]) != k {
            assert p[j] == s[j];
          }
        }
        CountIdZero(idOf, p, k);
      }
    }
  }

  /** `AddUnique` leaves exactly one entry with the added id, provided there was at most
      one before; a registry without duplicate ids stays without them. */
  lemma AddUniqueExactlyOnce<T>(idOf: T -> int, s: seq<T>, x: T)
    requires CountId(idOf, s, idOf(x)) <= 1
    ensures CountId(idOf, WithUnique(idOf, s, x), idOf(x)) == 1
    ensures UniqueIds(idOf, s) ==> UniqueIds(idOf, WithUnique(idOf, s, x))
  {
    var r := WithUnique(idOf, s, x);
    CountIdZero(idOf, s, idOf(x));
    if !HasId(idOf, s, idOf(x)) {
      assert r[..|r| - 1] == s;
      if UniqueIds(idOf, s) {
        forall i, j | 0 <= i < j < |r| ensures idOf(r[i]) != idOf(r[j]) {
          if j == |r| - 1 {
            assert idOf(s[i]) != idOf(x);
          }
        }
      }
    }
  }

  /** A second `AddUnique` with an id already added changes nothing (it returns false). */
  lemma AddUniqueIdempotent<T>(idOf: T -> int, s: seq<T>, x: T, y: T)
    requires idOf(y) == idOf(x)
    ensures WithUnique(idOf, WithUnique(idOf, s, x), y) == WithUnique(idOf, s, x)
  {
    var r := WithUnique(idOf, s, x);
    if !HasId(idOf, s, idOf(x)) {
      assert idOf(r[|r| - 1]) == idOf(y);
    }
  }

  /** One `AddUnique` keeps an id at most once, and makes it exactly once when the added
      entry carries it. */
  lemma AddUniqueCountStep<T>(idOf: T -> int, s: seq<T>, x: T, k: int)
    requires CountId(idOf, s, k) <= 1
    ensures CountId(idOf, WithUnique(idOf, s, x), k) <= 1
    ensures idOf(x) == k ==> CountId(idOf, WithUnique(idOf, s, x), k) == 1
    ensures CountId(idOf, s, k) == 1 ==> CountId(idOf, WithUnique(idOf, s, x), k) == 1
  {
    var s' := WithUnique(idOf, s, x);
    if idOf(x) == k {
      AddUniqueExactlyOnce(idOf, s, x);
    } else if !HasId(idOf, s, idOf(x)) {
      assert s'[..|s'| - 1] == s;
    }
  }

  /** An id carried by some element of `xs` but not by its head is carried by its tail. */
  lemma HasIdTail<T>(idOf: T -> int, xs: seq<T>, k: int)
    requires |xs| > 0 && idOf(xs[0]) != k && HasId(idOf, xs, k)
    ensures HasId(idOf, xs[1..], k)
  {
    var j :| 0 <= j < |xs| && idOf(xs[j]) == k;
    assert xs[1..][j - 1] == xs[j];
  }

  /** `AddUniqueRange` (any number of `AddUnique` calls): an id that had at most one entry
      keeps at most one, ends with exactly one if some added element carries it, and no
      duplicates appear. */
  lemma {:induction false} AddAllUniqueExactlyOnce<T>(idOf: T -> int, s: seq<T>, xs: seq<T>, k: int)
    requires CountId(idOf, s, k) <= 1
    ensures CountId(idOf, WithAllUnique(idOf, s, xs), k) <= 1
    ensures HasId(idOf, xs, k) ==> CountId(idOf, WithAllUnique(idOf, s, xs), k) == 1
    ensures UniqueIds(idOf, s) ==> UniqueIds(idOf, WithAllUnique(idOf, s, xs))
    decreases |xs|
  {
    if |xs| > 0 {
      var s' := WithUnique(idOf, s, xs[0]);
      AddUniqueCountStep(idOf, s, xs[0], k);
      if UniqueIds(idOf, s) {
        UniqueIdsCountAtMostOne(idOf, s, idOf(xs[0]));
        AddUniqueExactlyOnce(idOf, s, xs[0]);
      }
      AddAllUniqueExactlyOnce(idOf, s', xs[1..], k);
      if idOf(xs[0]) == k {
        CountPresentStaysOne(idOf, s', xs[1..], k);
      } else if HasId(idOf, xs, k) {
        HasIdTail(idOf, xs, k);
      }
    }
  }

  /** Once an id occurs exactly once, further `AddUnique` calls keep it at exactly once. */
  lemma {:induction false} CountPresentStaysOne<T>(idOf: T -> int, s: seq<T>, xs: seq<T>, k: int)
    requires CountId(idOf, s, k) == 1
    ensures CountId(idOf, WithAllUnique(idOf, s, xs), k) == 1
    decreases |xs|
  {
    if |xs| > 0 {
      AddUniqueCountStep(idOf, s, xs[0], k);
      CountPresentStaysOne(idOf, WithUnique(idOf, s, xs[0]), xs[1..], k);
    }
  }

  /** Swap-back removal of a present id in a registry without duplicates: one entry fewer,
      the id is gone (so `Contains` turns false), and ids stay unique. Holds for every
      position, including the last. */
  lemma RemoveSwapBackRemovesId<T>(idOf: T -> int, s: seq<T>, k: int)
    requires UniqueIds(idOf, s) && HasId(idOf, s, k)
    ensures |WithoutSwapBack(idOf, s, k)| == |s| - 1
    ensures !HasId(idOf, WithoutSwapBack(idOf, s, k), k)
    ensures UniqueIds(idOf, WithoutSwapBack(idOf, s, k))
  {
    var i := FirstWithId(idOf, s, k);
    var r := SwapBack(s, i);
    var last := |s| - 1;
    // position in `s` of the entry now at slot j of `r`
    forall j | 0 <= j < |r| ensures idOf(r[j]) != k {
      var src := if j == i then last else j;
      assert r[j] == s[src] && src != i;
    }
    forall a, b | 0 <= a < b < |r| ensures idOf(r[a]) != idOf(r[b]) {
      var sa := if a == i then last else a;
      var sb := if b == i then last else b;
      assert r[a] == s[sa] && r[b] == s[sb] && sa != sb;
      if sa < sb {
        assert idOf(s[sa]) != idOf(s[sb]);
      } else {
        assert idOf(s[sb]) != idOf(s[sa]);
      }
    }
  }

  /** Order-preserving removal keeps every survivor in its relative order and, in a
      registry without duplicates, removes the id. */
  lemma RemoveKeepsOrder<T>(idOf: T -> int, s: seq<T>, k: int)
    requires HasId(idOf, s, k)
    ensures var r := WithoutInOrder(idOf, s, k); var i := FirstWithId(idOf, s, k);
      |r| == |s| - 1 &&
      (forall j :: 0 <= j < i ==> r[j] == s[j]) &&
      (forall j :: i <= j < |r| ==> r[j] == s[j + 1])
    ensures UniqueIds(idOf, s) ==> !HasId(idOf, WithoutInOrder(idOf, s, k), k)
  {
    var r := WithoutInOrder(idOf, s, k);
    var i := FirstWithId(idOf, s, k);
    if UniqueIds(idOf, s) {
      forall j | 0 <= j < |r| ensures idOf(r[j]) != k {
        if j >= i {
          assert r[j] == s[j + 1] && idOf(s[i]) != idOf(s[j + 1]);
        }
      }
    }
  }

  /** `AddUnique` of a new id followed by `RemoveSwapBack` of it restores the contents. */
  lemma AddUniqueThenRemoveSwapBack<T>(idOf: T -> int, s: seq<T>, x: T)
    requires !HasId(idOf, s, idOf(x))
    ensures WithoutSwapBack(idOf, WithUnique(idOf, s, x), idOf(x)) == s
  {
    var r := s + [x];
    assert idOf(r[|s|]) == idOf(x);
    assert forall j :: 0 <= j < |s| ==> idOf(r[j]) != idOf(x) by {
      forall j | 0 <= j < |s| ensures idOf(r[j]) != idOf(x) {
        assert r[j] == s[j];
      }
    }
    var i := FirstWithId(idOf, r, idOf(x));
    assert i == |s|;
    assert SwapBack(r, i) == s;
  }

  /** `AddUnique` of a new id followed by `Remove` of it restores the contents. */
  lemma AddUniqueThenRemove<T>(idOf: T -> int, s: seq<T>, x: T)
    requires !HasId(idOf, s, idOf(x))
    ensures WithoutInOrder(idOf, WithUnique(idOf, s, x), idOf(x)) == s
  {
    var r := s + [x];
    assert idOf(r[|s|]) == idOf(x);
    assert forall j :: 0 <= j < |s| ==> idOf(r[j]) != idOf(x) by {
      forall j | 0 <= j < |s| ensures idOf(r[j]) != idOf(x) {
        assert r[j] == s[j];
      }
    }
    var i := FirstWithId(idOf, r, idOf(x));
    assert i == |s|;
    assert RemoveAt(r, i) == s;
  }

  // ---------------------------------------------------------------------------
  // The registry object.
  // ---------------------------------------------------------------------------

  class UnityComponentsList<T> {
    /** `GetInstanceID` of an entry. */
    const idOf: T -> int
    var instances: seq<T>
    var ids: seq<int>
    var count: int

    /** The representation invariant: `count` is the length of both lists, and `ids[i]`
        is the instance id of `instances[i]`. */
    ghost predicate Valid()
      reads this
    {
      count == |instances| == |ids| &&
      forall i :: 0 <= i < count ==> ids[i] == idOf(instances[i])
    }

    constructor (idOf: T -> int)
      ensures Valid() && this.idOf == idOf && instances == []
    {
      this.idOf := idOf;
      instances, ids, count := [], [], 0;
    }

    /** The constructor that takes an initial list. */
    constructor FromList(idOf: T -> int, list: seq<T>)
      ensures Valid() && this.idOf == idOf && instances == list
    {
      this.idOf := idOf;
      instances, ids, count := [], [], 0;
      new;
      AddRange(list);
    }

    /** The indexer's getter; `List<T>` throws on a slot outside `0 .. Count - 1`. */
    method Get(i: int) returns (r: Result<T, ListError>)
      requires Valid()
      ensures r.Success? <==> 0 <= i < count
      ensures r.Success? ==> r.value == instances[i]
      ensures r.Failure? ==> r.error == ArgumentOutOfRange
    {
      if 0 <= i < count {
        r := Success(instances[i]);
      } else {
        r := Failure(ArgumentOutOfRange);
      }
    }

    /** The indexer's setter: replaces slot `i` and refreshes its id. */
    method Set(i: int, value: T) returns (r: Outcome<ListError>)
      requires Valid()
      modifies this
      ensures Valid()
      ensures r.Pass? <==> 0 <= i < old(count)
      ensures r.Pass? ==> instances == old(instances)[i := value]
      ensures r.Fail? ==> r.error == ArgumentOutOfRange && instances == old(instances)
      ensures count == old(count)
    {
      if 0 <= i < count {
        instances := instances[i := value];
        ids := ids[i := idOf(value)];
        r := Pass;
      } else {
        r := Fail(ArgumentOutOfRange);
      }
    }

    /** `GetByID`: the entry in the least slot with that id, or `default(T)` (None). */
    method GetByID(instanceID: int) returns (r: Option<T>)
      requires Valid()
      ensures r.None? <==> !HasId(idOf, instances, instanceID)
      ensures r.Some? ==> r.value == instances[FirstWithId(idOf, instances, instanceID)]
    {
      var i := 0;
      while i < count
        invariant 0 <= i <= count
        invariant forall j :: 0 <= j < i ==> ids[j] != instanceID
      {
        if ids[i] == instanceID {
          return Some(instances[i]);
        }
        i := i + 1;
      }
      return None;
    }

    method Clear()
      requires Valid()
      modifies this
      ensures Valid() && instances == [] && count == 0
    {
      instances := [];
      ids := [];
      count := 0;
    }

    /** Appends unconditionally, duplicates included. */
    method Add(value: T)
      requires Valid()
      modifies this
      ensures Valid()
      ensures instances == old(instances) + [value] && count == old(count) + 1
    {
      instances := instances + [value];
      ids := ids + [idOf(value)];
      count := count + 1;
    }

    /** Appends every element of `list` in order; `count` is raised once, at the end. */
    method AddRange(list: seq<T>)
      requires Valid()
      modifies this
      ensures Valid()
      ensures instances == old(instances) + list && count == old(count) + |list|
    {
      var i := 0;
      while i < |list|
        invariant 0 <= i <= |list|
        invariant count == old(count)
        invariant instances == old(instances) + list[..i] && |ids| == |instances|
        invariant forall j :: 0 <= j < |ids| ==> ids[j] == idOf(instances[j])
      {
        var obj := list[i];
        ids := ids + [idOf(obj)];
        instances := instances + [obj];
        i := i + 1;
      }
      assert list[..i] == list;
      count := count + |list|;
    }

    /** Appends `value` unless an entry with the same id is present; tells which. */
    method AddUnique(value: T) returns (added: bool)
      requires Valid()
      modifies this
      ensures Valid()
      ensures added <==> !HasId(idOf, old(instances), idOf(value))
      ensures instances == WithUnique(idOf, old(instances), value)
      ensures count == old(count) + (if added then 1 else 0)
    {
      var present := Contains(value);
      if !present {
        Add(value);
        return true;
      }
      return false;
    }

    method AddUniqueRange(list: seq<T>)
      requires Valid()
      modifies this
      ensures Valid()
      ensures instances == WithAllUnique(idOf, old(instances), list)
    {
      var i := 0;
      while i < |list|
        invariant 0 <= i <= |list|
        invariant Valid()
        invariant WithAllUnique(idOf, instances, list[i..]) == WithAllUnique(idOf, old(instances), list)
      {
        assert list[i..][1..] == list[i + 1..];
        var _ := AddUnique(list[i]);
        i := i + 1;
      }
    }

    /** Whether some entry has the id of `value`. */
    method Contains(value: T) returns (found: bool)
      requires Valid()
      ensures found <==> HasId(idOf, instances, idOf(value))
    {
      var id := idOf(value);
      var i := 0;
      while i < count
        invariant 0 <= i <= count
        invariant forall j :: 0 <= j < i ==> ids[j] != id
      {
        if id == ids[i] {
          return true;
        }
        i := i + 1;
      }
      return false;
    }

    /** Swap-back removal by slot; throws, changing nothing, unless `0 <= index < count`. */
    method RemoveAtWithReorder(index: int) returns (r: Outcome<ListError>)
      requires Valid()
      modifies this
      ensures Valid()
      ensures r.Pass? <==> 0 <= index < old(count)
      ensures r.Fail? ==> r.error == ArgumentOutOfRange && instances == old(instances)
      ensures r.Pass? ==> instances == SwapBack(old(instances), index) && count == old(count) - 1
    {
      var last := count - 1;
      if index > last {
        return Fail(ArgumentOutOfRange);
      }
      if index < 0 {
        // `List<T>` itself throws on the negative slot, before anything is written
        return Fail(ArgumentOutOfRange);
      }
      MoveLastInto(index);
      return Pass;
    }

    /** The swap-back step both removals share: the last entry (and its id) is copied into
        slot `i`, then the last slot is dropped; when `i` is the last slot it is simply
        dropped. */
    method MoveLastInto(i: int)
      requires Valid() && 0 <= i < count
      modifies this
      ensures Valid()
      ensures instances == SwapBack(old(instances), i) && count == old(count) - 1
    {
      var last := count - 1;
      ghost var before, beforeIds := instances, ids;
      if i < last {
        ids := ids[i := ids[last]];
        instances := instances[i := instances[last]];
        ids := RemoveAt(ids, last);
        instances := RemoveAt(instances, last);
      } else {
        ids := RemoveAt(ids, i);
        instances := RemoveAt(instances, i);
      }
      count := count - 1;
      assert instances == SwapBack(before, i) && ids == SwapBack(beforeIds, i);
      SwapBackParallel(idOf, before, beforeIds, i);
    }

    /** Swap-back removal of the first entry with the id of `value`. */
    method RemoveSwapBack(value: T) returns (removed: bool)
      requires Valid()
      modifies this
      ensures Valid()
      ensures removed <==> HasId(idOf, old(instances), idOf(value))
      ensures instances == WithoutSwapBack(idOf, old(instances), idOf(value))
      ensures count == old(count) - (if removed then 1 else 0)
    {
      var id := idOf(value);
      var i := 0;
      while i < count
        invariant 0 <= i <= count
        invariant instances == old(instances) && ids == old(ids) && count == old(count)
        invariant forall j :: 0 <= j < i ==> ids[j] != id
      {
        if id == ids[i] {
          assert FirstWithId(idOf, instances, id) == i;
          MoveLastInto(i);
          return true;
        }
        i := i + 1;
      }
      return false;
    }

    /** Order-preserving removal of the first entry with the id of `value`. */
    method Remove(value: T) returns (removed: bool)
      requires Valid()
      modifies this
      ensures Valid()
      ensures removed <==> HasId(idOf, old(instances), idOf(value))
      ensures instances == WithoutInOrder(idOf, old(instances), idOf(value))
      ensures count == old(count) - (if removed then 1 else 0)
    {
      var id := idOf(value);
      var i := 0;
      while i < count
        invariant 0 <= i <= count
        invariant instances == old(instances) && ids == old(ids) && count == old(count)
        invariant forall j :: 0 <= j < i ==> ids[j] != id
      {
        if id == ids[i] {
          assert FirstWithId(idOf, instances, id) == i;
          ids := RemoveAt(ids, i);
          instances := RemoveAt(instances, i);
          count := count - 1;
          return true;
        }
        i := i + 1;
      }
      return false;
    }

    /** The least slot holding an entry with the id of `value`, or -1. */
    method IndexOf(value: T) returns (r: int)
      requires Valid()
      ensures r == FirstWithId(idOf, instances, idOf(value))
    {
      var id := idOf(value);
      var i := 0;
      while i < count
        invariant 0 <= i <= count
        invariant forall j :: 0 <= j < i ==> ids[j] != id
      {
        if ids[i] == id {
          return i;
        }
        i := i + 1;
      }
      return -1;
    }
  }
}
