/** The shape of a loop that walks a list in order and appends what it keeps
    of each element: `for x in xs: if keeps(x): out.append(value(x))`.
    The keeping function is a parameter, so the facts about order, length and
    skipped elements hold whatever decides what is kept. */
module FilterMaps {
  import opened Wrappers

  /** What `f` keeps of one element: its value, or nothing. */
  function Keep<A, B>(x: A, f: A -> Option<B>): seq<B> {
    match f(x)
    case Some(y) => [y]
    case None => []
  }

  /** The values `f` keeps from `xs`, in the order of `xs`. */
  function FilterMap<A, B>(xs: seq<A>, f: A -> Option<B>): seq<B> {
    if xs == [] then []
    else FilterMap(xs[..|xs| - 1], f) + Keep(xs[|xs| - 1], f)
  }

  /** One more element appends what is kept of it, and nothing else. */
  lemma FilterMapSnoc<A, B>(xs: seq<A>, x: A, f: A -> Option<B>)
    ensures FilterMap(xs + [x], f) == FilterMap(xs, f) + Keep(x, f)
  {
    assert (xs + [x])[..|xs|] == xs;
  }

  /** The step of a loop over `xs` at index `i`: the values kept from the
      first `i + 1` elements are those of the first `i` and then the value of
      element `i`, if it is kept. */
  lemma FilterMapStep<A, B>(xs: seq<A>, i: nat, f: A -> Option<B>)
    requires i < |xs|
    ensures FilterMap(xs[..i + 1], f) ==
              FilterMap(xs[..i], f) + if f(xs[i]).Some? then [f(xs[i]).value] else []
  {
    assert xs[..i + 1] == xs[..i] + [xs[i]];
    FilterMapSnoc(xs[..i], xs[i], f);
  }

  /** No more values come out than elements go in. */
  lemma {:induction false} FilterMapBounded<A, B>(xs: seq<A>, f: A -> Option<B>)
    ensures |FilterMap(xs, f)| <= |xs|
  {
    if xs != [] {
      FilterMapBounded(xs[..|xs| - 1], f);
    }
  }

  /** Walking two stretches one after the other yields the values of the
      first followed by those of the second. */
  lemma {:induction false} FilterMapAppend<A, B>(xs: seq<A>, ys: seq<A>, f: A -> Option<B>)
    ensures FilterMap(xs + ys, f) == FilterMap(xs, f) + FilterMap(ys, f)
    decreases |ys|
  {
    if ys == [] {
      assert xs + ys == xs;
    } else {
      var init := ys[..|ys| - 1];
      var last := ys[|ys| - 1];
      assert xs + ys == (xs + init) + [last];
      assert ys == init + [last];
      FilterMapSnoc(xs + init, last, f);
      FilterMapSnoc(init, last, f);
      FilterMapAppend(xs, init, f);
    }
  }

  /** An element `f` does not keep is dropped, not replaced: removing it
      changes nothing. */
  lemma FilterMapSkips<A, B>(xs: seq<A>, x: A, ys: seq<A>, f: A -> Option<B>)
    requires f(x).None?
    ensures FilterMap(xs + [x] + ys, f) == FilterMap(xs + ys, f)
  {
    FilterMapAppend(xs + [x], ys, f);
    FilterMapSnoc(xs, x, f);
    FilterMapAppend(xs, ys, f);
  }

  /** Every value is what `f` keeps of some element. */
  lemma {:induction false} FilterMapFrom<A, B>(xs: seq<A>, f: A -> Option<B>)
    ensures forall y :: y in FilterMap(xs, f) ==> exists i :: 0 <= i < |xs| && f(xs[i]) == Some(y)
  {
    if xs != [] {
      var n := |xs| - 1;
      FilterMapFrom(xs[..n], f);
      forall y | y in FilterMap(xs, f) ensures exists i :: 0 <= i < |xs| && f(xs[i]) == Some(y) {
        if y in FilterMap(xs[..n], f) {
          var i :| 0 <= i < n && f(xs[..n][i]) == Some(y);
          assert xs[..n][i] == xs[i];
        } else {
          assert f(xs[n]) == Some(y);
        }
      }
    }
  }

  /** The index of the element behind each value. */
  ghost function Origins<A, B>(xs: seq<A>, f: A -> Option<B>): seq<nat> {
    if xs == [] then []
    else
      var n := |xs| - 1;
      Origins(xs[..n], f) + if f(xs[n]).Some? then [n] else []
  }

  /** One value per kept element: the value at position `k` is what `f`
      keeps of the element at `Origins(xs, f)[k]`. */
  lemma {:induction false} OriginsMatchValues<A, B>(xs: seq<A>, f: A -> Option<B>)
    ensures |Origins(xs, f)| == |FilterMap(xs, f)|
    ensures forall k :: 0 <= k < |Origins(xs, f)| ==>
              Origins(xs, f)[k] < |xs| && f(xs[Origins(xs, f)[k]]) == Some(FilterMap(xs, f)[k])
  {
    if xs != [] {
      var n := |xs| - 1;
      var init := xs[..n];
      OriginsMatchValues(init, f);
      var o := Origins(xs, f);
      var v := FilterMap(xs, f);
      forall k | 0 <= k < |o| ensures o[k] < |xs| && f(xs[o[k]]) == Some(v[k]) {
        if k < |Origins(init, f)| {
          assert o[k] == Origins(init, f)[k];
          assert xs[o[k]] == init[o[k]];
        }
      }
    }
  }

  /** The values keep the order of their elements: origins increase. */
  lemma {:induction false} OriginsIncrease<A, B>(xs: seq<A>, f: A -> Option<B>)
    ensures forall k :: 0 <= k < |Origins(xs, f)| ==> Origins(xs, f)[k] < |xs|
    ensures forall k, l :: 0 <= k < l < |Origins(xs, f)| ==> Origins(xs, f)[k] < Origins(xs, f)[l]
  {
    if xs != [] {
      OriginsIncrease(xs[..|xs| - 1], f);
    }
  }

  /** No kept element goes missing. */
  lemma {:induction false} OriginsComplete<A, B>(xs: seq<A>, f: A -> Option<B>)
    ensures forall i :: 0 <= i < |xs| && f(xs[i]).Some? ==> i in Origins(xs, f)
  {
    if xs != [] {
      var n := |xs| - 1;
      var init := xs[..n];
      OriginsComplete(init, f);
      forall i | 0 <= i < |xs| && f(xs[i]).Some? ensures i in Origins(xs, f) {
        if i < n {
          assert xs[i] == init[i];
        }
      }
    }
  }
}
