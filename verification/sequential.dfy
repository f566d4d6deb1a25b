/** A sequential loop over a sequence whose body may yield a value and makes requests:
    the values are kept in order and the requests are recorded in order. */
module Sequential {
  import opened Wrappers

  /** Runs `step` on each element in order, keeping the values it yields and every
      request it makes: the shape of an awaited `for … of` loop that pushes on success. */
  function Collect<A, B, R>(step: A -> Traced<Option<B>, R>, xs: seq<A>): (r: Traced<seq<B>, R>)
    ensures |r.value| <= |xs|
    decreases |xs|
  {
    if |xs| == 0 then Traced([], [])
    else
      var before := Collect(step, xs[..|xs| - 1]);
      var last := step(xs[|xs| - 1]);
      Traced(before.value + (if last.value.Some? then [last.value.value] else []), before.calls + last.calls)
  }

  /** One more turn of the loop: collecting over the first `i + 1` elements extends
      collecting over the first `i` with what the step does on element `i`. */
  lemma CollectStep<A, B, R>(step: A -> Traced<Option<B>, R>, xs: seq<A>, i: nat)
    requires i < |xs|
    ensures var before := Collect(step, xs[..i]);
      var last := step(xs[i]);
      && Collect(step, xs[..i + 1]).value == before.value + (if last.value.Some? then [last.value.value] else [])
      && Collect(step, xs[..i + 1]).calls == before.calls + last.calls
  {
    var done := xs[..i + 1];
    assert done[..|done| - 1] == xs[..i] && done[|done| - 1] == xs[i];
  }

  /** Collecting over `a + b` is collecting over `a`, then over `b`: values keep the
      order of their elements. */
  lemma {:induction false} CollectAppend<A, B, R>(step: A -> Traced<Option<B>, R>, a: seq<A>, b: seq<A>)
    ensures Collect(step, a + b).value == Collect(step, a).value + Collect(step, b).value
    ensures Collect(step, a + b).calls == Collect(step, a).calls + Collect(step, b).calls
    decreases |b|
  {
    if |b| == 0 {
      assert a + b == a;
    } else {
      var init := b[..|b| - 1];
      CollectAppend(step, a, init);
      var ab := a + b;
      assert ab[..|ab| - 1] == a + init;
      assert ab[|ab| - 1] == b[|b| - 1];
    }
  }

  /** Every collected value was yielded by the step on some element. */
  lemma {:induction false} CollectSound<A, B, R>(step: A -> Traced<Option<B>, R>, xs: seq<A>, t: nat) returns (k: nat)
    requires t < |Collect(step, xs).value|
    ensures k < |xs| && step(xs[k]).value == Some(Collect(step, xs).value[t])
    decreases |xs|
  {
    var n := |xs| - 1;
    var init := xs[..n];
    if t < |Collect(step, init).value| {
      k := CollectSound(step, init, t);
      assert init[k] == xs[k];
    } else {
      k := n;
    }
  }

  /** Every value the step yields on an element is collected. */
  lemma {:induction false} CollectComplete<A, B, R>(step: A -> Traced<Option<B>, R>, xs: seq<A>, k: nat)
    requires k < |xs| && step(xs[k]).value.Some?
    ensures step(xs[k]).value.value in Collect(step, xs).value
    decreases |xs|
  {
    var n := |xs| - 1;
    var init := xs[..n];
    if k < n {
      assert init[k] == xs[k];
      CollectComplete(step, init, k);
    }
  }

  /** When the step yields a value on every element, the values line up one to one. */
  lemma {:induction false} CollectAllSome<A, B, R>(step: A -> Traced<Option<B>, R>, xs: seq<A>)
    requires forall k :: 0 <= k < |xs| ==> step(xs[k]).value.Some?
    ensures |Collect(step, xs).value| == |xs|
    ensures forall k :: 0 <= k < |xs| ==> Collect(step, xs).value[k] == step(xs[k]).value.value
    decreases |xs|
  {
    if |xs| > 0 {
      var n := |xs| - 1;
      var init := xs[..n];
      forall k | 0 <= k < |init| ensures step(init[k]).value.Some? {
        assert init[k] == xs[k];
      }
      CollectAllSome(step, init);
      var before := Collect(step, init).value;
      var values := Collect(step, xs).value;
      forall k | 0 <= k < n
        ensures values[k] == step(xs[k]).value.value
      {
        assert init[k] == xs[k];
        assert values[k] == before[k];
      }
    }
  }

  /** When the step makes exactly one request per element, the requests line up one to one. */
  lemma {:induction false} CollectOneCallEach<A, B, R>(step: A -> Traced<Option<B>, R>, xs: seq<A>, call: A -> R)
    requires forall k :: 0 <= k < |xs| ==> step(xs[k]).calls == [call(xs[k])]
    ensures Collect(step, xs).calls == seq(|xs|, k requires 0 <= k < |xs| => call(xs[k]))
    decreases |xs|
  {
    if |xs| > 0 {
      var n := |xs| - 1;
      var init := xs[..n];
      forall k | 0 <= k < |init| ensures step(init[k]).calls == [call(init[k])] {
        assert init[k] == xs[k];
      }
      CollectOneCallEach(step, init, call);
    }
  }

  /** The positions of `xs` on which the step yields a value. */
  function Yielding<A, B, R>(step: A -> Traced<Option<B>, R>, xs: seq<A>): set<nat> {
    set k: nat | k < |xs| && step(xs[k]).value.Some?
  }

  /** Collecting yields one value per element on which the step yields one. */
  lemma {:induction false} CollectCount<A, B, R>(step: A -> Traced<Option<B>, R>, xs: seq<A>)
    ensures |Collect(step, xs).value| == |Yielding(step, xs)|
    decreases |xs|
  {
    if |xs| > 0 {
      var n := |xs| - 1;
      var init := xs[..n];
      CollectCount(step, init);
      var before := Yielding(step, init);
      var all := Yielding(step, xs);
      forall k | 0 <= k < n ensures init[k] == xs[k] { }
      if step(xs[n]).value.Some? {
        assert all == before + {n};
        assert n !in before;
      } else {
        assert all == before;
      }
    }
  }
}
