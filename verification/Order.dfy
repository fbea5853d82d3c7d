/** Name order and the sorted view of a policy map (pkg/stream/common.go; the same
    function is repeated in pkg/engine/vpol/provider/standalone.go).

    The view is defined without sorting: it lists the value of the least name, then the
    view of the rest. MapToSortedSlice, which collects, sorts and appends as the source
    does, is proved against it. */
module Order {

  // Go's string order: byte-wise, a proper prefix comes first.
  predicate Less(a: string, b: string)
    decreases |a|
  {
    |b| > 0 && (|a| == 0 || a[0] < b[0] || (a[0] == b[0] && Less(a[1..], b[1..])))
  }

  lemma LessIrreflexive(a: string)
    ensures !Less(a, a)
    decreases |a|
  {
    if a != [] { LessIrreflexive(a[1..]); }
  }

  lemma LessTransitive(a: string, b: string, c: string)
    requires Less(a, b) && Less(b, c)
    ensures Less(a, c)
    decreases |a|
  {
    if a != [] && a[0] == b[0] && b[0] == c[0] { LessTransitive(a[1..], b[1..], c[1..]); }
  }

  lemma LessTotal(a: string, b: string)
    ensures Less(a, b) || a == b || Less(b, a)
    decreases |a|
  {
    if a != [] && b != [] && a[0] == b[0] {
      LessTotal(a[1..], b[1..]);
      assert a == [a[0]] + a[1..] && b == [b[0]] + b[1..];
    }
  }

  // The same without recursion: a proper prefix, or the smaller character at the first place
  // where the two differ.
  ghost predicate Before(a: string, b: string) {
    (|a| < |b| && b[..|a|] == a) || exists i: nat :: FirstDifference(a, b, i) && a[i] < b[i]
  }

  ghost predicate FirstDifference(a: string, b: string, i: nat) {
    i < |a| && i < |b| && a[..i] == b[..i] && a[i] != b[i]
  }

  lemma {:induction false} LessIsBefore(a: string, b: string)
    ensures Less(a, b) <==> Before(a, b)
    decreases |a|
  {
    if a == [] || b == [] {
      assert b[..0] == [];
    } else if a[0] != b[0] {
      assert FirstDifference(a, b, 0);
      DifferOnce(a, b, 0);
    } else {
      LessIsBefore(a[1..], b[1..]);
      assert a == [a[0]] + a[1..] && b == [b[0]] + b[1..];
      if |a| < |b| { assert b[..|a|] == [b[0]] + b[1..][..|a| - 1]; }
      forall i: nat | i + 1 < |a| && i + 1 < |b|
        ensures FirstDifference(a, b, i + 1) <==> FirstDifference(a[1..], b[1..], i)
      {
        assert a[..i + 1] == [a[0]] + a[1..][..i] && b[..i + 1] == [b[0]] + b[1..][..i];
        assert a[1..][..i] == a[..i + 1][1..] && b[1..][..i] == b[..i + 1][1..];
      }
      if i: nat :| FirstDifference(a, b, i) && a[i] < b[i] { assert FirstDifference(a[1..], b[1..], i - 1); }
      if i: nat :| FirstDifference(a[1..], b[1..], i) && a[1..][i] < b[1..][i] {
        assert FirstDifference(a, b, i + 1) && a[i + 1] < b[i + 1];
      }
      if |a| < |b| && b[..|a|] == a { assert b[1..][..|a| - 1] == b[..|a|][1..]; }
    }
  }

  // Two strings first differ in one place only, and not at all if one is a prefix.
  lemma DifferOnce(a: string, b: string, i: nat)
    requires FirstDifference(a, b, i)
    ensures forall j: nat :: FirstDifference(a, b, j) ==> j == i
    ensures !(|a| <= |b| && b[..|a|] == a)
  {}

  ghost predicate IsLeast(k: string, ks: set<string>) {
    k in ks && forall j :: j in ks && j != k ==> Less(k, j)
  }

  lemma LeastExists(ks: set<string>)
    requires ks != {}
    ensures exists k :: IsLeast(k, ks)
    decreases |ks|
  {
    var x :| x in ks;
    var rest := ks - {x};
    if rest == {} {
      assert ks == {x};
      assert IsLeast(x, ks);
    } else {
      LeastExists(rest);
      var m :| IsLeast(m, rest);
      LessTotal(x, m);
      if Less(x, m) {
        forall j | j in ks && j != x ensures Less(x, j) {
          if j != m { LessTransitive(x, m, j); }
        }
        assert IsLeast(x, ks);
      } else {
        assert IsLeast(m, ks);
      }
    }
  }

  ghost function Least(ks: set<string>): (k: string)
    requires ks != {}
    ensures IsLeast(k, ks)
  {
    LeastExists(ks);
    var k :| IsLeast(k, ks);
    k
  }

  lemma LeastUnique(k: string, ks: set<string>)
    requires IsLeast(k, ks)
    ensures k == Least(ks)
  {
    var m := Least(ks);
    if m != k {
      LessTransitive(k, m, k);
      LessIrreflexive(k);
    }
  }

  // The values of m in ascending order of their names.
  ghost function View<V>(m: map<string, V>): (out: seq<V>)
    ensures |out| == |m|
    decreases |m|
  {
    if m == map[] then []
    else
      var k := Least(m.Keys);
      assert (m - {k}).Keys == m.Keys - {k};
      [m[k]] + View(m - {k})
  }

  ghost predicate Ascending(s: seq<string>) {
    forall i, j :: 0 <= i < j < |s| ==> Less(s[i], s[j])
  }

  function Insert(k: string, s: seq<string>): (r: seq<string>)
    requires Ascending(s) && k !in s
    ensures Ascending(r)
    ensures forall x :: x in r <==> x == k || x in s
  {
    if s == [] then [k]
    else if Less(k, s[0]) then
      assert forall j :: 0 < j < |s| ==> Less(k, s[j]) by {
        forall j | 0 < j < |s| ensures Less(k, s[j]) { LessTransitive(k, s[0], s[j]); }
      }
      [k] + s
    else
      LessTotal(k, s[0]);
      var rest := Insert(k, s[1..]);
      assert forall x :: x in rest ==> Less(s[0], x) by {
        forall x | x in rest ensures Less(s[0], x) {
          if x != k {
            var j :| 0 <= j < |s[1..]| && s[1..][j] == x;
            assert s[j + 1] == x;
          }
        }
      }
      [s[0]] + rest
  }

  predicate Distinct(s: seq<string>) {
    forall i, j :: 0 <= i < j < |s| ==> s[i] != s[j]
  }

  // Stands for slices.Sort on keys that are pairwise different.
  method SortKeys(s: seq<string>) returns (r: seq<string>)
    requires Distinct(s)
    ensures Ascending(r)
    ensures forall x :: x in r <==> x in s
  {
    r := [];
    for i := 0 to |s|
      invariant Ascending(r)
      invariant forall x :: x in r <==> x in s[..i]
    {
      assert s[i] !in s[..i];
      assert s[..i + 1] == s[..i] + [s[i]];
      r := Insert(s[i], r);
    }
    assert s[..|s|] == s;
  }

  // The keys of left are exactly those still to be appended.
  ghost predicate Remaining<V>(left: map<string, V>, keys: seq<string>) {
    forall x :: x in left.Keys <==> x in keys
  }

  lemma TakeLeast<V>(left: map<string, V>, keys: seq<string>)
    requires keys != [] && Ascending(keys) && Remaining(left, keys)
    ensures keys[0] in left && View(left) == [left[keys[0]]] + View(left - {keys[0]})
    ensures Ascending(keys[1..]) && Remaining(left - {keys[0]}, keys[1..])
  {
    var k := keys[0];
    assert IsLeast(k, left.Keys);
    LeastUnique(k, left.Keys);
    LessIrreflexive(k);
    assert forall n :: 0 <= n < |keys[1..]| ==> Less(k, keys[1..][n]);
    assert forall x :: x in keys <==> x == k || x in keys[1..];
  }

  // The view lists the values in ascending order of the names.
  lemma {:induction false} ViewAt<V>(m: map<string, V>, keys: seq<string>, j: nat)
    requires Ascending(keys) && Remaining(m, keys) && j < |keys|
    ensures j < |View(m)| && keys[j] in m && View(m)[j] == m[keys[j]]
    decreases j
  {
    hide View, Ascending;
    TakeLeast(m, keys);
    if j > 0 {
      ViewAt(m - {keys[0]}, keys[1..], j - 1);
    }
  }

  lemma {:induction false} ViewLength<V>(m: map<string, V>, keys: seq<string>)
    requires Ascending(keys) && Remaining(m, keys)
    ensures |View(m)| == |keys|
    decreases |keys|
  {
    if keys == [] {
      assert m.Keys == {};
    } else {
      TakeLeast(m, keys);
      ViewLength(m - {keys[0]}, keys[1..]);
    }
  }

  // keys lists the names of m in their order, and out the values in that of the keys.
  ghost predicate InNameOrder<V>(m: map<string, V>, keys: seq<string>, out: seq<V>) {
    && (forall i, j :: 0 <= i < j < |keys| ==> Before(keys[i], keys[j]))
    && (forall x :: x in keys <==> x in m)
    && |out| == |keys| && forall i :: 0 <= i < |keys| ==> keys[i] in m && out[i] == m[keys[i]]
  }

  lemma ViewInNameOrder<V>(m: map<string, V>, keys: seq<string>)
    requires Ascending(keys) && Remaining(m, keys)
    ensures InNameOrder(m, keys, View(m))
  {
    hide View, Less, Before;
    ViewLength(m, keys);
    forall i | 0 <= i < |keys| ensures keys[i] in m && View(m)[i] == m[keys[i]] { ViewAt(m, keys, i); }
    forall i, j | 0 <= i < j < |keys| ensures Before(keys[i], keys[j]) { LessIsBefore(keys[i], keys[j]); }
  }

  lemma ViewOfTwo<V>(x: V, y: V)
    ensures View(map["a" := x, "b" := y]) == [x, y]
  {
    var m, keys := map["a" := x, "b" := y], ["a", "b"];
    assert Less("a", "b");
    assert Remaining(m, keys);
    ViewInNameOrder(m, keys);
  }

  method MapToSortedSlice<V>(m: map<string, V>) returns (out: seq<V>)
    ensures out == View(m)
    ensures exists keys :: InNameOrder(m, keys, out)
  {
    hide View, InNameOrder;
    var keys := SortedKeys(m);
    ViewInNameOrder(m, keys);
    out := [];
    for i := 0 to |keys|
      invariant out == View(m)[..i]
    {
      ViewAt(m, keys, i);
      out := out + [m[keys[i]]];
    }
  }

  method SortedKeys<V>(m: map<string, V>) returns (keys: seq<string>)
    ensures Ascending(keys) && Remaining(m, keys) && |keys| == |View(m)|
  {
    var unsorted := CollectKeys(m);
    keys := SortKeys(unsorted);
    ViewLength(m, keys);
  }

  // Stands for maps.Keys: the keys in some order.
  method CollectKeys<V>(m: map<string, V>) returns (keys: seq<string>)
    ensures Remaining(m, keys)
    ensures Distinct(keys)
  {
    keys := [];
    var rest := m.Keys;
    while rest != {}
      invariant rest <= m.Keys
      invariant forall x :: x in keys <==> x in m.Keys && x !in rest
      invariant Distinct(keys)
      decreases rest
    {
      var k :| k in rest;
      keys, rest := keys + [k], rest - {k};
    }
  }

  // Renaming every key with a common prefix keeps the view: "/a" < "/b" exactly when "a" < "b".
  ghost predicate Renamed<V>(m: map<string, V>, r: map<string, V>, prefix: string) {
    && (forall k :: k in m ==> prefix + k in r && r[prefix + k] == m[k])
    && (forall j :: j in r ==> exists k :: k in m && j == prefix + k)
  }

  lemma {:induction false} LessUnderPrefix(prefix: string, a: string, b: string)
    ensures Less(prefix + a, prefix + b) <==> Less(a, b)
    decreases |prefix|
  {
    if prefix == [] {
      assert prefix + a == a && prefix + b == b;
    } else {
      assert (prefix + a)[1..] == prefix[1..] + a && (prefix + b)[1..] == prefix[1..] + b;
      LessUnderPrefix(prefix[1..], a, b);
    }
  }

  lemma PrefixInjective(prefix: string, a: string, b: string)
    requires prefix + a == prefix + b
    ensures a == b
  {
    assert a == (prefix + a)[|prefix|..] && b == (prefix + b)[|prefix|..];
  }

  lemma {:induction false} ViewIgnoresPrefix<V>(m: map<string, V>, r: map<string, V>, prefix: string)
    requires Renamed(m, r, prefix)
    ensures View(m) == View(r)
    decreases |m|
  {
    if m == map[] {
      assert r.Keys == {};
    } else {
      var k := Least(m.Keys);
      assert IsLeast(prefix + k, r.Keys) by {
        forall j | j in r.Keys && j != prefix + k ensures Less(prefix + k, j) {
          var i :| i in m && j == prefix + i;
          LessUnderPrefix(prefix, k, i);
        }
      }
      LeastUnique(prefix + k, r.Keys);
      var m', r' := m - {k}, r - {prefix + k};
      assert Renamed(m', r', prefix) by {
        forall i | i in m' ensures prefix + i in r' && r'[prefix + i] == m'[i] {
          if prefix + i == prefix + k { PrefixInjective(prefix, i, k); }
        }
        forall j | j in r' ensures exists i :: i in m' && j == prefix + i {
          var i :| i in m && j == prefix + i;
          assert i in m';
        }
      }
      assert m'.Keys == m.Keys - {k};
      ViewIgnoresPrefix(m', r', prefix);
    }
  }

  // Two maps over the same names have the same view exactly when they are equal.
  lemma {:induction false} ViewDeterminesMap<V>(m: map<string, V>, r: map<string, V>)
    requires m.Keys == r.Keys
    ensures View(m) == View(r) <==> m == r
    decreases |m|
  {
    if m == map[] {
      assert r == map[];
    } else {
      var k := Least(m.Keys);
      assert r != map[];
      var m', r' := m - {k}, r - {k};
      assert m'.Keys == m.Keys - {k} && r'.Keys == m.Keys - {k};
      ViewDeterminesMap(m', r');
      assert View(m) == [m[k]] + View(m') && View(r) == [r[k]] + View(r');
      if View(m) == View(r) {
        assert View(m') == View(m)[1..] && View(r') == View(r)[1..];
        assert m[k] == View(m)[0] && r[k] == View(r)[0];
        forall x | x in m ensures m[x] == r[x] {
          if x != k { assert m[x] == m'[x] && r[x] == r'[x]; }
        }
        assert m == r;
      }
    }
  }
}
