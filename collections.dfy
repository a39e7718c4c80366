/** The two ways the scripts accumulate per-item results: appending to a
    list (in input order, duplicates kept) and assigning into a dict (a
    later assignment to the same key replaces the earlier one). */
module Collections {

  datatype Option<T> = None | Some(value: T)

  datatype Result<T, E> = Success(value: T) | Failure(error: E)

  /** The list built by `for x in xs: if f(x) is not None: out.append(...)`:
      the defined images of `xs`, in order. */
  function Collect<T, U>(xs: seq<T>, f: T -> Option<U>): (ys: seq<U>)
    ensures |ys| <= |xs|
    decreases |xs|
  {
    if xs == [] then []
    else
      var y := f(xs[|xs| - 1]);
      Collect(xs[..|xs| - 1], f) + (if y.Some? then [y.value] else [])
  }

  /** Collecting is done line by line: the result for a concatenation is the
      concatenation of the results, so input order and duplicates survive. */
  lemma {:induction false} CollectAppend<T, U>(a: seq<T>, b: seq<T>, f: T -> Option<U>)
    ensures Collect(a + b, f) == Collect(a, f) + Collect(b, f)
    decreases |b|
  {
    if b != [] {
      var b' := b[..|b| - 1];
      assert (a + b)[..|a + b| - 1] == a + b';
      assert (a + b)[|a + b| - 1] == b[|b| - 1];
      CollectAppend(a, b', f);
      var y := f(b[|b| - 1]);
      var tail := if y.Some? then [y.value] else [];
      assert Collect(a + b, f) == Collect(a, f) + Collect(b', f) + tail;
      assert Collect(b, f) == Collect(b', f) + tail;
    } else {
      assert a + b == a;
    }
  }

  /** Every collected element is the image of some input, and every defined
      image is collected. */
  lemma {:induction false} CollectMembers<T, U>(xs: seq<T>, f: T -> Option<U>, y: U)
    ensures y in Collect(xs, f) <==> exists i :: 0 <= i < |xs| && f(xs[i]) == Some(y)
    decreases |xs|
  {
    if xs != [] {
      var xs' := xs[..|xs| - 1];
      CollectMembers(xs', f, y);
      if exists i :: 0 <= i < |xs| && f(xs[i]) == Some(y) {
        var i :| 0 <= i < |xs| && f(xs[i]) == Some(y);
        if i < |xs'| {
          assert f(xs'[i]) == Some(y);
        }
      }
      if exists i :: 0 <= i < |xs'| && f(xs'[i]) == Some(y) {
        var i :| 0 <= i < |xs'| && f(xs'[i]) == Some(y);
        assert f(xs[i]) == Some(y);
      }
    }
  }

  /** Collecting by a test and by its negation splits the input: the two
      lists together are as long as the input. */
  lemma {:induction false} CollectSplit<T, U, W>(xs: seq<T>, f: T -> Option<U>, g: T -> Option<W>)
    requires forall x :: f(x).Some? <==> g(x).None?
    ensures |Collect(xs, f)| + |Collect(xs, g)| == |xs|
    decreases |xs|
  {
    if xs != [] {
      CollectSplit(xs[..|xs| - 1], f, g);
    }
  }

  /** The dict built by `for x in xs: if f(x) is (k, v): d[k] = v`. */
  function Assigned<T, K, V>(xs: seq<T>, f: T -> Option<(K, V)>): map<K, V>
    decreases |xs|
  {
    if xs == [] then map[]
    else
      var e := f(xs[|xs| - 1]);
      var d := Assigned(xs[..|xs| - 1], f);
      if e.Some? then d[e.value.0 := e.value.1] else d
  }

  /** The keys of the dict are exactly the keys some input assigns. */
  lemma {:induction false} AssignedKeys<T, K, V>(xs: seq<T>, f: T -> Option<(K, V)>, k: K)
    ensures k in Assigned(xs, f) <==> exists i :: 0 <= i < |xs| && f(xs[i]).Some? && f(xs[i]).value.0 == k
    decreases |xs|
  {
    if xs != [] {
      var xs' := xs[..|xs| - 1];
      AssignedKeys(xs', f, k);
      assert forall i :: 0 <= i < |xs'| ==> xs'[i] == xs[i];
    }
  }

  /** Last write wins: the value kept for a key is the one from the last
      input whose image assigns that key. */
  lemma {:induction false} AssignedLastWins<T, K, V>(xs: seq<T>, f: T -> Option<(K, V)>, i: nat)
    requires i < |xs| && f(xs[i]).Some?
    requires forall j :: i < j < |xs| ==> f(xs[j]).None? || f(xs[j]).value.0 != f(xs[i]).value.0
    ensures f(xs[i]).value.0 in Assigned(xs, f)
    ensures Assigned(xs, f)[f(xs[i]).value.0] == f(xs[i]).value.1
    decreases |xs|
  {
    if i < |xs| - 1 {
      var xs' := xs[..|xs| - 1];
      assert xs'[i] == xs[i];
      AssignedLastWins(xs', f, i);
    }
  }
}
