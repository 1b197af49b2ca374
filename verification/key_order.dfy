/** The order in which JavaScript enumerates the own keys of a plain object,
    as used when the shadow maps are turned into arrays for the Z engine
    (`d3.values` iterates with `for ... in`). Integer keys that are array
    indices come first, in ascending numeric order; every other key follows
    in the order it was first inserted. */
module KeyOrder {

  /** The largest array index of JavaScript: 2^32 - 2. */
  const MaxArrayIndex: int := 0xFFFF_FFFE

  predicate IsArrayIndex(k: int) {
    0 <= k <= MaxArrayIndex
  }

  predicate Sorted(s: seq<int>) {
    forall i, j :: 0 <= i < j < |s| ==> s[i] <= s[j]
  }

  /** No key occurs twice: the keys of one object. */
  predicate Distinct(s: seq<int>) {
    forall i, j :: 0 <= i < j < |s| ==> s[i] != s[j]
  }

  /** Putting an element no larger than the head in front of an ascending
      sequence keeps it ascending. */
  lemma ConsSorted(a: int, t: seq<int>)
    requires Sorted(t)
    requires t != [] ==> a <= t[0]
    ensures Sorted([a] + t)
  {
    var r := [a] + t;
    forall i, j | 0 <= i < j < |r|
      ensures r[i] <= r[j]
    {
      assert r[j] == t[j - 1];
      if i == 0 {
        assert t[0] <= t[j - 1];
      } else {
        assert r[i] == t[i - 1];
      }
    }
  }

  /** Inserts `x` into an ascending sequence. */
  function Insert(x: int, s: seq<int>): (r: seq<int>)
    requires Sorted(s)
    ensures Sorted(r)
    ensures multiset(r) == multiset(s) + multiset{x}
    ensures |r| == |s| + 1
    ensures r[0] == if s == [] || x <= s[0] then x else s[0]
    decreases |s|
  {
    if s == [] || x <= s[0] then
      ConsSorted(x, s);
      [x] + s
    else
      var rest := Insert(x, s[1..]);
      assert s == [s[0]] + s[1..];
      ConsSorted(s[0], rest);
      [s[0]] + rest
  }

  /** Ascending insertion sort. */
  function Sort(s: seq<int>): (r: seq<int>)
    ensures Sorted(r)
    ensures multiset(r) == multiset(s)
    decreases |s|
  {
    if s == [] then
      []
    else
      assert s == [s[0]] + s[1..];
      Insert(s[0], Sort(s[1..]))
  }

  /** The elements of `s` that are array indices (`indices` true) or that
      are not (`indices` false), in their original order. */
  function Select(s: seq<int>, indices: bool): (r: seq<int>)
    ensures forall i :: 0 <= i < |r| ==> IsArrayIndex(r[i]) == indices
    ensures forall x :: multiset(r)[x] == if IsArrayIndex(x) == indices then multiset(s)[x] else 0
    decreases |s|
  {
    if s == [] then
      []
    else
      assert s == [s[0]] + s[1..];
      if IsArrayIndex(s[0]) == indices then [s[0]] + Select(s[1..], indices)
      else Select(s[1..], indices)
  }

  /** Selecting from a sequence split in two is selecting from each part
      and joining the results: the selection keeps the input order. */
  lemma {:induction false} SelectConcat(a: seq<int>, b: seq<int>, indices: bool)
    ensures Select(a + b, indices) == Select(a, indices) + Select(b, indices)
    decreases |a|
  {
    if a == [] {
      assert a + b == b;
    } else {
      var x, rest := a[0], a[1..];
      assert a == [x] + rest;
      assert a + b == [x] + (rest + b);
      SelectCons(x, rest + b, indices);
      SelectCons(x, rest, indices);
      SelectConcat(rest, b, indices);
      if IsArrayIndex(x) == indices {
        ConsAssoc(x, Select(rest, indices), Select(b, indices));
      }
    }
  }

  /** Putting a key in front commutes with joining. */
  lemma ConsAssoc(x: int, s: seq<int>, t: seq<int>)
    ensures [x] + (s + t) == ([x] + s) + t
  {
  }

  /** Selection looks at the first key and then at the rest. */
  lemma {:induction false} SelectCons(x: int, rest: seq<int>, indices: bool)
    ensures Select([x] + rest, indices) == if IsArrayIndex(x) == indices then [x] + Select(rest, indices) else Select(rest, indices)
  {
    assert ([x] + rest)[0] == x;
    assert ([x] + rest)[1..] == rest;
  }

  /** A single key is selected exactly when its kind is the one asked for. */
  lemma {:induction false} SelectOne(x: int, indices: bool)
    ensures Select([x], indices) == if IsArrayIndex(x) == indices then [x] else []
  {
    assert [x][1..] == [];
  }

  /** Sorting the array indices keeps them all and keeps them indices. */
  lemma SortedIndices(inserted: seq<int>)
    ensures var front := Sort(Select(inserted, true));
      && |front| == |Select(inserted, true)|
      && forall i :: 0 <= i < |front| ==> IsArrayIndex(front[i])
  {
    var sel := Select(inserted, true);
    var front := Sort(sel);
    assert |multiset(front)| == |multiset(sel)|;
    forall i | 0 <= i < |front|
      ensures IsArrayIndex(front[i])
    {
      assert front[i] in multiset(sel);
    }
  }

  /** The array indices and the other keys together are the keys. */
  lemma SplitKeepsKeys(inserted: seq<int>)
    ensures multiset(Sort(Select(inserted, true)) + Select(inserted, false)) == multiset(inserted)
  {
    var front := Sort(Select(inserted, true));
    var back := Select(inserted, false);
    assert multiset(front + back) == multiset(front) + multiset(back);
    forall x
      ensures multiset(front + back)[x] == multiset(inserted)[x]
    {
    }
  }

  /** The enumeration order of an object whose keys were inserted in the
      order `inserted`: sorted array indices, then the remaining keys in
      insertion order. */
  function Enumerate(inserted: seq<int>): (r: seq<int>)
    ensures multiset(r) == multiset(inserted)
    ensures var n := |Select(inserted, true)|;
      && n <= |r|
      && Sorted(r[..n])
      && (forall i :: 0 <= i < n ==> IsArrayIndex(r[i]))
      && (forall i :: n <= i < |r| ==> !IsArrayIndex(r[i]))
      && r[n..] == Select(inserted, false)
  {
    var front := Sort(Select(inserted, true));
    var back := Select(inserted, false);
    SortedIndices(inserted);
    SplitKeepsKeys(inserted);
    var r := front + back;
    assert r[..|front|] == front;
    assert r[|front|..] == back;
    r
  }

  /** A sequence that holds every element of `keys` is at least as long
      as `keys` has elements. */
  lemma {:induction false} CoverBound(s: seq<int>, keys: set<int>)
    requires forall k :: k in keys ==> k in s
    ensures |keys| <= |s|
    decreases |s|
  {
    if s == [] {
      assert forall k :: k !in keys;
      assert keys == {};
    } else {
      var n := |s| - 1;
      var rest := keys - {s[n]};
      forall k | k in rest
        ensures k in s[..n]
      {
        var i :| 0 <= i < |s| && s[i] == k;
        assert s[..n][i] == k;
      }
      CoverBound(s[..n], rest);
    }
  }

  /** A sequence exactly as long as `keys` whose elements are exactly the
      elements of `keys` lists each of them once. */
  lemma {:induction false} CoverIsDistinct(s: seq<int>, keys: set<int>)
    requires |s| == |keys|
    requires forall k :: k in s <==> k in keys
    ensures Distinct(s)
  {
    forall i, j | 0 <= i < j < |s|
      ensures s[i] != s[j]
    {
      if s[i] == s[j] {
        var u := s[..j] + s[j + 1..];
        forall k | k in keys
          ensures k in u
        {
          var m :| 0 <= m < |s| && s[m] == k;
          if m < j {
            assert u[m] == k;
          } else if m == j {
            assert u[i] == k;
          } else {
            assert u[m - 1] == k;
          }
        }
        CoverBound(u, keys);
        assert false;
      }
    }
  }
}
