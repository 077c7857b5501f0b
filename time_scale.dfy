/** The composed time scale of `TimeManager`: the product of every registered modifier's
    `TimeScale` factor, folded left to right from 1. Factors are real numbers here, so the
    product is exact. */
module TimeScale {
  import opened Lists

  /** The fold `UpdateTimeScale` computes over the modifier list. */
  function ComposedScale<M>(modifiers: seq<M>, scaleOf: M -> real): real {
    if |modifiers| == 0 then 1.0
    else ComposedScale(modifiers[..|modifiers| - 1], scaleOf) * scaleOf(modifiers[|modifiers| - 1])
  }

  /** Modifiers that never reverse time compose to a time scale that does not either. */
  lemma {:induction false} ComposedScaleNonNegative<M>(modifiers: seq<M>, scaleOf: M -> real)
    requires forall i :: 0 <= i < |modifiers| ==> scaleOf(modifiers[i]) >= 0.0
    ensures ComposedScale(modifiers, scaleOf) >= 0.0
    decreases |modifiers|
  {
    if |modifiers| > 0 {
      var init := modifiers[..|modifiers| - 1];
      ComposedScaleNonNegative(init, scaleOf);
      NonNegativeProduct(ComposedScale(init, scaleOf), scaleOf(modifiers[|modifiers| - 1]));
    }
  }

  lemma NonNegativeProduct(a: real, b: real)
    requires a >= 0.0 && b >= 0.0
    ensures a * b >= 0.0
  {
  }

  /** The scale of two lists one after the other is the product of their scales. */
  lemma {:induction false} ComposedScaleAppend<M>(a: seq<M>, b: seq<M>, scaleOf: M -> real)
    ensures ComposedScale(a + b, scaleOf) == ComposedScale(a, scaleOf) * ComposedScale(b, scaleOf)
    decreases |b|
  {
    if |b| == 0 {
      assert a + b == a;
    } else {
      var b' := b[..|b| - 1];
      var x := b[|b| - 1];
      ComposedScaleAppend(a, b', scaleOf);
      assert a + b == (a + b') + [x] && b == b' + [x];
      ComposedScaleSnoc(a + b', x, scaleOf);
      ComposedScaleSnoc(b', x, scaleOf);
      Rearrange(ComposedScale(a, scaleOf), scaleOf(x), ComposedScale(b', scaleOf));
    }
  }

  /** Taking one modifier out of any slot divides its factor out of the scale. */
  lemma {:induction false} ComposedScaleRemoveAt<M>(modifiers: seq<M>, i: nat, scaleOf: M -> real)
    requires i < |modifiers|
    ensures ComposedScale(modifiers, scaleOf) ==
            scaleOf(modifiers[i]) * ComposedScale(RemoveAt(modifiers, i), scaleOf)
  {
    var pre, x, post := modifiers[..i], modifiers[i], modifiers[i + 1..];
    ComposedScaleSplit(pre, x, post, scaleOf);
    assert modifiers == (pre + [x]) + post;
    assert RemoveAt(modifiers, i) == pre + post;
  }

  /** The factor of a modifier in the middle of the list can be pulled out in front. */
  lemma {:induction false} ComposedScaleSplit<M>(pre: seq<M>, x: M, post: seq<M>, scaleOf: M -> real)
    ensures ComposedScale((pre + [x]) + post, scaleOf) == scaleOf(x) * ComposedScale(pre + post, scaleOf)
  {
    ComposedScaleAppend(pre + [x], post, scaleOf);
    ComposedScaleAppend(pre, post, scaleOf);
    assert (pre + [x])[..|pre|] == pre;
    Rearrange(ComposedScale(pre, scaleOf), scaleOf(x), ComposedScale(post, scaleOf));
  }

  lemma Rearrange(a: real, x: real, b: real)
    ensures (a * x) * b == x * (a * b)
  {
  }

  /** The order of the modifiers never matters: any rearrangement has the same scale. */
  lemma {:induction false} ComposedScalePermutation<M>(a: seq<M>, b: seq<M>, scaleOf: M -> real)
    requires multiset(a) == multiset(b)
    ensures ComposedScale(a, scaleOf) == ComposedScale(b, scaleOf)
    decreases |a|
  {
    if |a| == 0 {
      assert |b| == |multiset(b)| == 0;
    } else {
      var a' := a[..|a| - 1];
      var x := a[|a| - 1];
      assert a == a' + [x];
      assert x in multiset(b);
      var i :| 0 <= i < |b| && b[i] == x;
      var b' := RemoveAt(b, i);
      RemoveAtMultiset(b, i);
      assert multiset(a') == multiset(a) - multiset{x};
      assert multiset(b') == multiset(b) - multiset{x};
      ComposedScalePermutation(a', b', scaleOf);
      ComposedScaleMoveLast(a', b, i, scaleOf);
    }
  }

  /** If the rest of `b` scales like `a'`, then `a'` followed by `b[i]` scales like `b`. */
  lemma ComposedScaleMoveLast<M>(a': seq<M>, b: seq<M>, i: nat, scaleOf: M -> real)
    requires i < |b| && ComposedScale(a', scaleOf) == ComposedScale(RemoveAt(b, i), scaleOf)
    ensures ComposedScale(a' + [b[i]], scaleOf) == ComposedScale(b, scaleOf)
  {
    ComposedScaleRemoveAt(b, i, scaleOf);
    assert (a' + [b[i]])[..|a'|] == a';
  }

  /** `RemoveTimeScaleModifier`: removing a registered modifier divides exactly one copy of
      its factor out of the scale; removing an unregistered one changes nothing. */
  lemma {:induction false} RemoveModifierScale<M>(modifiers: seq<M>, m: M, scaleOf: M -> real)
    ensures m in modifiers ==>
      ComposedScale(modifiers, scaleOf) == scaleOf(m) * ComposedScale(RemoveFirst(modifiers, m), scaleOf)
    ensures m !in modifiers ==>
      ComposedScale(RemoveFirst(modifiers, m), scaleOf) == ComposedScale(modifiers, scaleOf)
  {
    if m in modifiers {
      var r := RemoveFirst(modifiers, m);
      assert multiset(r + [m]) == multiset(modifiers) by {
        assert multiset(r + [m]) == multiset(r) + multiset{m};
      }
      ComposedScalePermutation(r + [m], modifiers, scaleOf);
      ComposedScaleSnoc(r, m, scaleOf);
    }
  }

  /** Appending a modifier multiplies its factor into the scale. */
  lemma ComposedScaleSnoc<M>(s: seq<M>, x: M, scaleOf: M -> real)
    ensures ComposedScale(s + [x], scaleOf) == scaleOf(x) * ComposedScale(s, scaleOf)
  {
    assert (s + [x])[..|s|] == s;
  }

  /** `AddTimeScaleModifier` followed by `RemoveTimeScaleModifier` of the same modifier
      restores the scale, even when the modifier was already registered (the removal then
      takes out an earlier copy). */
  lemma {:induction false} AddThenRemoveModifierScale<M>(modifiers: seq<M>, m: M, scaleOf: M -> real)
    ensures ComposedScale(RemoveFirst(modifiers + [m], m), scaleOf) == ComposedScale(modifiers, scaleOf)
  {
    var r := RemoveFirst(modifiers + [m], m);
    assert m in modifiers + [m];
    assert multiset(r) == multiset(modifiers + [m]) - multiset{m};
    assert multiset(modifiers + [m]) == multiset(modifiers) + multiset{m};
    ComposedScalePermutation(r, modifiers, scaleOf);
  }
}
