/** Python's ordering of str values and `sorted(d.items())` for a dict from
    str to str, the order in which both scripts print their results. */
module Ordering {

  /** a < b on Python strings: lexicographic by code point, and a proper
      prefix comes first. */
  predicate Below(a: string, b: string)
    decreases |a|
  {
    if a == [] then b != []
    else b != [] && (if a[0] == b[0] then Below(a[1..], b[1..]) else a[0] < b[0])
  }

  lemma {:induction false} BelowIrreflexive(a: string)
    ensures !Below(a, a)
    decreases |a|
  {
    if a != [] {
      BelowIrreflexive(a[1..]);
    }
  }

  lemma {:induction false} BelowTransitive(a: string, b: string, c: string)
    requires Below(a, b) && Below(b, c)
    ensures Below(a, c)
    decreases |a|
  {
    if a != [] && a[0] == b[0] && b[0] == c[0] {
      BelowTransitive(a[1..], b[1..], c[1..]);
    }
  }

  /** Any two different strings are ordered one way or the other. */
  lemma {:induction false} BelowTotal(a: string, b: string)
    requires a != b
    ensures Below(a, b) || Below(b, a)
    decreases |a|
  {
    if a != [] && b != [] && a[0] == b[0] {
      assert a == [a[0]] + a[1..] && b == [b[0]] + b[1..];
      BelowTotal(a[1..], b[1..]);
    }
  }

  /** Strictly ascending by name; in particular no name occurs twice. */
  ghost predicate SortedByName(items: seq<(string, string)>)
  {
    forall i, j :: 0 <= i < j < |items| ==> Below(items[i].0, items[j].0)
  }

  /** Insert an item at its place in a list sorted by name. */
  function InsertByName(items: seq<(string, string)>, x: (string, string)): (r: seq<(string, string)>)
    requires SortedByName(items)
    requires forall i :: 0 <= i < |items| ==> items[i].0 != x.0
    ensures SortedByName(r)
    ensures |r| == |items| + 1
    ensures forall p :: p in r <==> p in items || p == x
    decreases |items|
  {
    if items == [] then [x]
    else if Below(x.0, items[0].0) then
      forall j | 0 < j < |items| {
        BelowTransitive(x.0, items[0].0, items[j].0);
      }
      [x] + items
    else
      BelowTotal(x.0, items[0].0);
      var rest := InsertByName(items[1..], x);
      assert forall p :: p in items <==> p == items[0] || p in items[1..];
      assert forall j :: 0 <= j < |rest| ==> rest[j] in rest;
      [items[0]] + rest
  }

  /** `sorted(d.items())`: every entry of `d` exactly once, ascending by key. */
  method SortedItems(d: map<string, string>) returns (items: seq<(string, string)>)
    ensures SortedByName(items)
    ensures |items| == |d|
    ensures forall p :: p in items <==> p.0 in d && d[p.0] == p.1
  {
    items := [];
    var rest := d.Keys;
    while rest != {}
      invariant rest <= d.Keys
      invariant SortedByName(items)
      invariant |items| + |rest| == |d|
      invariant forall p :: p in items <==> p.0 in d - rest && d[p.0] == p.1
      decreases rest
    {
      var k :| k in rest;
      forall i | 0 <= i < |items|
        ensures items[i].0 != k
      {
        assert items[i] in items;
      }
      items := InsertByName(items, (k, d[k]));
      rest := rest - {k};
    }
  }

  /** The sorted listing is determined by its entries: two lists sorted by
      name that hold the same entries are the same list. */
  lemma {:induction false} SortedByNameUnique(a: seq<(string, string)>, b: seq<(string, string)>)
    requires SortedByName(a) && SortedByName(b)
    requires forall p :: p in a <==> p in b
    ensures a == b
    decreases |a|
  {
    if a != [] {
      assert a[0] in a;
    }
    if b != [] {
      assert b[0] in b;
    }
    if a != [] && b != [] {
      SameHead(a, b);
      SameTail(a, b);
      SortedByNameUnique(a[1..], b[1..]);
      assert a == [a[0]] + a[1..] && b == [b[0]] + b[1..];
    }
  }

  /** Two non-empty sorted lists with the same entries start alike. */
  lemma SameHead(a: seq<(string, string)>, b: seq<(string, string)>)
    requires SortedByName(a) && SortedByName(b) && a != [] && b != []
    requires forall p :: p in a <==> p in b
    ensures a[0] == b[0]
  {
    assert a[0] in a && b[0] in b;
    var i :| 0 <= i < |b| && b[i] == a[0];
    var j :| 0 <= j < |a| && a[j] == b[0];
    if i != 0 && j != 0 {
      BelowTransitive(a[0].0, a[j].0, a[0].0);
      BelowIrreflexive(a[0].0);
    } else if i != 0 {
      BelowIrreflexive(b[0].0);
    } else if j != 0 {
      BelowIrreflexive(a[0].0);
    }
  }

  /** ... and then hold the same entries after the first. */
  lemma SameTail(a: seq<(string, string)>, b: seq<(string, string)>)
    requires SortedByName(a) && SortedByName(b) && a != [] && b != [] && a[0] == b[0]
    requires forall p :: p in a <==> p in b
    ensures forall p :: p in a[1..] <==> p in b[1..]
  {
    forall p
      ensures p in a[1..] <==> p in b[1..]
    {
      if p in a[1..] {
        TailEntry(a, b, p);
      }
      if p in b[1..] {
        TailEntry(b, a, p);
      }
    }
  }

  /** An entry after the head of one list is after the head of the other. */
  lemma TailEntry(a: seq<(string, string)>, b: seq<(string, string)>, p: (string, string))
    requires SortedByName(a) && a != [] && b != [] && a[0] == b[0]
    requires forall q :: q in a <==> q in b
    requires p in a[1..]
    ensures p in b[1..]
  {
    var k :| 1 <= k < |a| && a[k] == p;
    assert p != a[0] by { BelowIrreflexive(a[0].0); }
    assert a[k] in a;
    var m :| 0 <= m < |b| && b[m] == p;
    assert b[1..][m - 1] == p;
  }
}
