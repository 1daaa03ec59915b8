/** Python's dict as the store uses it: keys are strings, lookup is by key,
    assignment to a new key appends it at the end of the iteration order,
    assignment to an existing key keeps its place, and `del` removes the key
    and keeps the order of the others. */
module Dicts {

  /** No string occurs twice in `s`. */
  predicate NoDup(s: seq<string>)
  {
    forall i, j | 0 <= i < j < |s| :: s[i] != s[j]
  }

  /** The elements of `s` that satisfy `p`, in their original order. */
  function Filter(s: seq<string>, p: string -> bool): (r: seq<string>)
    ensures |r| <= |s|
  {
    if s == [] then []
    else Filter(s[..|s| - 1], p) + (if p(s[|s| - 1]) then [s[|s| - 1]] else [])
  }

  /** Filtering keeps exactly the elements that pass. */
  lemma {:induction false} FilterMembers(s: seq<string>, p: string -> bool, x: string)
    ensures x in Filter(s, p) <==> x in s && p(x)
  {
    if s != [] {
      var s' := s[..|s| - 1];
      FilterMembers(s', p, x);
      assert x in s <==> x in s' || x == s[|s| - 1];
    }
  }

  lemma FilterKeeps(s: seq<string>, p: string -> bool)
    ensures forall x :: x in Filter(s, p) <==> x in s && p(x)
  {
    forall x {
      FilterMembers(s, p, x);
    }
  }

  lemma {:induction false} FilterNoDup(s: seq<string>, p: string -> bool)
    requires NoDup(s)
    ensures NoDup(Filter(s, p))
  {
    if s != [] {
      var s' := s[..|s| - 1];
      assert NoDup(s');
      FilterNoDup(s', p);
      assert s[|s| - 1] !in s';
      FilterMembers(s', p, s[|s| - 1]);
    }
  }

  /** Filtering keeps everything when every element passes. */
  lemma {:induction false} FilterKeepsAll(s: seq<string>, p: string -> bool)
    requires forall i | 0 <= i < |s| :: p(s[i])
    ensures Filter(s, p) == s
  {
    if s != [] {
      var s', x := s[..|s| - 1], s[|s| - 1];
      FilterKeepsAll(s', p);
      assert Filter(s, p) == s' + [x];
      assert s' + [x] == s;
    }
  }

  /** `s` with `k` taken out, the rest in order. */
  function Without(s: seq<string>, k: string): (r: seq<string>)
    ensures forall x :: x in r <==> x in s && x != k
  {
    FilterKeeps(s, x => x != k);
    Filter(s, x => x != k)
  }

  /** Taking out a string that is not there changes nothing. */
  lemma WithoutAbsent(s: seq<string>, k: string)
    requires k !in s
    ensures Without(s, k) == s
  {
    FilterKeepsAll(s, x => x != k);
  }

  /** A dict: its keys in iteration order, and the value of each key. */
  datatype Dict<V> = Dict(keys: seq<string>, vals: map<string, V>)

  predicate WellFormed<V>(d: Dict<V>)
  {
    && NoDup(d.keys)
    && (forall x | x in d.vals :: x in d.keys)
    && (forall x | x in d.keys :: x in d.vals)
  }

  type Dictionary<V> = d: Dict<V> | WellFormed(d) witness Dict([], map[])

  function Empty<V>(): (r: Dictionary<V>)
    ensures r.keys == [] && r.vals == map[]
  {
    Dict([], map[])
  }

  /** `d[k] = v`. */
  function Put<V>(d: Dictionary<V>, k: string, v: V): (r: Dictionary<V>)
    ensures r.vals == d.vals[k := v]
    ensures r.keys == if k in d.vals then d.keys else d.keys + [k]
  {
    if k in d.vals then Dict(d.keys, d.vals[k := v]) else Dict(d.keys + [k], d.vals[k := v])
  }

  /** Two dicts with the same keys in the same order and the same values are equal. */
  lemma SameDict<V>(d: Dictionary<V>, e: Dictionary<V>)
    requires d.keys == e.keys
    requires forall x | x in d.vals :: x in e.vals && d.vals[x] == e.vals[x]
    ensures d == e
  {
    assert d.vals.Keys == e.vals.Keys;
  }

  /** `del d[k]` (a no-op here when `k` is absent; the callers check first). */
  function Del<V>(d: Dictionary<V>, k: string): (r: Dictionary<V>)
    ensures r.vals == d.vals - {k}
    ensures r.keys == Without(d.keys, k)
  {
    FilterNoDup(d.keys, x => x != k);
    Dict(Without(d.keys, k), d.vals - {k})
  }

  /** Taking out a string that was just appended to a sequence without it
      gives back that sequence. */
  lemma WithoutAppended(s: seq<string>, k: string)
    requires k !in s
    ensures Without(s + [k], k) == s
  {
    var t := s + [k];
    assert t[..|t| - 1] == s;
    WithoutAbsent(s, k);
  }

  /** Adding a new key and deleting it again gives back the original dict,
      order included. */
  lemma PutThenDel<V>(d: Dictionary<V>, k: string, v: V)
    requires k !in d.vals
    ensures Del(Put(d, k, v), k) == d
  {
    var r := Del(Put(d, k, v), k);
    WithoutAppended(d.keys, k);
    assert r.keys == d.keys;
    assert r.vals == d.vals;
  }

  /** The (key, value) pairs in iteration order: `d.items()`. */
  function Items<V>(d: Dictionary<V>): (r: seq<(string, V)>)
    ensures |r| == |d.keys|
    ensures forall i | 0 <= i < |r| :: r[i].0 == d.keys[i] && r[i].1 == d.vals[d.keys[i]]
    ensures forall x :: x in d.vals <==> exists i | 0 <= i < |r| :: r[i].0 == x
  {
    var r := seq(|d.keys|, i requires 0 <= i < |d.keys| => (d.keys[i], d.vals[d.keys[i]]));
    assert forall x | x in d.vals :: r[IndexOf(d.keys, x)].0 == x;
    r
  }

  /** Position of a string that occurs in `s`. */
  function IndexOf(s: seq<string>, x: string): (i: nat)
    requires x in s
    ensures i < |s| && s[i] == x
  {
    if s[0] == x then 0 else 1 + IndexOf(s[1..], x)
  }

  // ---------------------------------------------------------------------
  // json.dumps(..., sort_keys=True): an object is written with its keys in
  // ascending order of Python's string comparison

  /** Python's `<` on str: lexicographic on code points, a proper prefix
      coming first. */
  predicate Below(a: string, b: string)
  {
    if a == [] then b != []
    else if b == [] then false
    else if a[0] != b[0] then a[0] < b[0]
    else Below(a[1..], b[1..])
  }

  lemma {:induction false} BelowIrreflexive(a: string)
    ensures !Below(a, a)
  {
    if a != [] {
      BelowIrreflexive(a[1..]);
    }
  }

  lemma {:induction false} BelowTotal(a: string, b: string)
    requires a != b
    ensures Below(a, b) || Below(b, a)
  {
    if a != [] && b != [] && a[0] == b[0] {
      assert a == [a[0]] + a[1..] && b == [b[0]] + b[1..];
      BelowTotal(a[1..], b[1..]);
    }
  }

  lemma {:induction false} BelowTransitive(a: string, b: string, c: string)
    requires Below(a, b) && Below(b, c)
    ensures Below(a, c)
  {
    if a != [] && a[0] == b[0] && b[0] == c[0] {
      BelowTransitive(a[1..], b[1..], c[1..]);
    }
  }

  /** Strictly ascending, hence without repetition (AscendingNoDup). */
  predicate Ascending(s: seq<string>)
  {
    forall i, j | 0 <= i < j < |s| :: Below(s[i], s[j])
  }

  lemma AscendingNoDup(s: seq<string>)
    requires Ascending(s)
    ensures NoDup(s)
  {
    forall i, j | 0 <= i < j < |s|
      ensures s[i] != s[j]
    {
      BelowIrreflexive(s[i]);
    }
  }

  /** `x` put into the ascending `s` before the first element above it. */
  function Insert(x: string, s: seq<string>): (r: seq<string>)
    ensures |r| == |s| + 1
  {
    if s == [] then [x]
    else if Below(x, s[0]) then [x] + s
    else [s[0]] + Insert(x, s[1..])
  }

  lemma {:induction false} InsertMembers(x: string, s: seq<string>, y: string)
    ensures y in Insert(x, s) <==> y == x || y in s
  {
    if s != [] && !Below(x, s[0]) {
      InsertMembers(x, s[1..], y);
      assert s == [s[0]] + s[1..];
    }
  }

  lemma {:induction false} InsertAscending(x: string, s: seq<string>)
    requires Ascending(s) && x !in s
    ensures Ascending(Insert(x, s))
  {
    if s != [] && !Below(x, s[0]) {
      var t := s[1..];
      assert x != s[0];
      BelowTotal(x, s[0]);
      InsertAscending(x, t);
      var r := Insert(x, s);
      var rt := Insert(x, t);
      assert r == [s[0]] + rt;
      forall j | 0 < j < |r|
        ensures Below(s[0], r[j])
      {
        InsertMembers(x, t, r[j]);
        if r[j] != x {
          var m :| 0 <= m < |t| && t[m] == r[j];
          assert s[m + 1] == r[j];
        }
      }
    } else if s != [] {
      forall j | 0 < j < |s| + 1
        ensures Below(x, ([x] + s)[j])
      {
        if j > 1 {
          BelowTransitive(x, s[0], s[j - 1]);
        }
      }
    }
  }

  /** The strings of `s` in ascending order (an insertion sort). */
  function SortStrings(s: seq<string>): (r: seq<string>)
    ensures |r| == |s|
  {
    if s == [] then [] else Insert(s[|s| - 1], SortStrings(s[..|s| - 1]))
  }

  lemma {:induction false} SortStringsMembers(s: seq<string>, y: string)
    ensures y in SortStrings(s) <==> y in s
  {
    if s != [] {
      var p := s[..|s| - 1];
      SortStringsMembers(p, y);
      InsertMembers(s[|s| - 1], SortStrings(p), y);
      assert y in s <==> y in p || y == s[|s| - 1];
    }
  }

  /** Sorting distinct strings gives them in ascending order. */
  lemma {:induction false} SortStringsAscending(s: seq<string>)
    requires NoDup(s)
    ensures Ascending(SortStrings(s))
  {
    if s != [] {
      var p := s[..|s| - 1];
      assert NoDup(p);
      SortStringsAscending(p);
      SortStringsMembers(p, s[|s| - 1]);
      InsertAscending(s[|s| - 1], SortStrings(p));
    }
  }

  /** Two ascending sequences with the same elements are equal: the sorted
      order of a set of strings is unique. */
  lemma {:induction false} AscendingUnique(a: seq<string>, b: seq<string>)
    requires Ascending(a) && Ascending(b)
    requires forall x :: x in a <==> x in b
    ensures a == b
  {
    assert a != [] ==> a[0] in b;
    assert b != [] ==> b[0] in a;
    if a != [] {
      if a[0] != b[0] {
        var i :| 0 <= i < |a| && a[i] == b[0];
        var j :| 0 <= j < |b| && b[j] == a[0];
        assert Below(a[0], a[i]) && Below(b[0], b[j]);
        BelowTransitive(a[0], b[0], a[0]);
        BelowIrreflexive(a[0]);
      }
      AscendingNoDup(a);
      AscendingNoDup(b);
      forall x
        ensures x in a[1..] <==> x in b[1..]
      {
        assert x in a <==> x == a[0] || x in a[1..];
        assert x in b <==> x == b[0] || x in b[1..];
        if x in a[1..] {
          var i :| 0 <= i < |a[1..]| && a[1..][i] == x;
          assert a[i + 1] == x;
        }
        if x in b[1..] {
          var j :| 0 <= j < |b[1..]| && b[1..][j] == x;
          assert b[j + 1] == x;
        }
      }
      AscendingUnique(a[1..], b[1..]);
      assert a == [a[0]] + a[1..] && b == [b[0]] + b[1..];
    }
  }

  /** Filtering keeps an ascending sequence ascending. */
  lemma {:induction false} FilterAscending(s: seq<string>, p: string -> bool)
    requires Ascending(s)
    ensures Ascending(Filter(s, p))
  {
    if s != [] {
      var t := s[..|s| - 1];
      var x := s[|s| - 1];
      FilterAscending(t, p);
      if p(x) {
        var f := Filter(t, p);
        forall i | 0 <= i < |f|
          ensures Below(f[i], x)
        {
          FilterMembers(t, p, f[i]);
          var m :| 0 <= m < |t| && t[m] == f[i];
        }
        assert Filter(s, p) == f + [x];
      }
    }
  }

  /** The dict as json.dumps(..., sort_keys=True) writes it: the same
      entries, the keys in ascending order. */
  function SortKeys<V>(d: Dictionary<V>): (r: Dictionary<V>)
    ensures r.vals == d.vals && Ascending(r.keys)
  {
    SortStringsAscending(d.keys);
    AscendingNoDup(SortStrings(d.keys));
    forall x {
      SortStringsMembers(d.keys, x);
    }
    Dict(SortStrings(d.keys), d.vals)
  }
}
