/** File names and directory listings: Python's string order and `sorted`,
    the extension filters, list filtering and the `[:limit]` slice. */
module Names {
  import opened Text

  /** Python's `<=` on strings: code point by code point, a proper prefix
      first. */
  predicate LessEq(a: string, b: string)
    decreases |a|
  {
    a == [] || (b != [] && (a[0] < b[0] || (a[0] == b[0] && LessEq(a[1..], b[1..]))))
  }

  lemma {:induction false} LessEqTotal(a: string, b: string)
    ensures LessEq(a, b) || LessEq(b, a)
    decreases |a|
  {
    if a != [] && b != [] && a[0] == b[0] {
      LessEqTotal(a[1..], b[1..]);
    }
  }

  lemma {:induction false} LessEqTrans(a: string, b: string, c: string)
    requires LessEq(a, b) && LessEq(b, c)
    ensures LessEq(a, c)
    decreases |a|
  {
    if a != [] && b != [] && c != [] && a[0] == b[0] && b[0] == c[0] {
      LessEqTrans(a[1..], b[1..], c[1..]);
    }
  }

  lemma {:induction false} LessEqAntisym(a: string, b: string)
    requires LessEq(a, b) && LessEq(b, a)
    ensures a == b
    decreases |a|
  {
    if a != [] {
      LessEqAntisym(a[1..], b[1..]);
      assert a == [a[0]] + a[1..] && b == [b[0]] + b[1..];
    }
  }

  predicate Sorted(s: seq<string>) {
    forall i, j :: 0 <= i < j < |s| ==> LessEq(s[i], s[j])
  }

  /** `x` put into the sorted list `s` before the first element above it. */
  function Insert(x: string, s: seq<string>): (r: seq<string>)
    requires Sorted(s)
    ensures Sorted(r) && multiset(r) == multiset(s) + multiset{x}
  {
    if s == [] then [x]
    else if LessEq(x, s[0]) then
      InsertFront(x, s);
      [x] + s
    else
      LessEqTotal(x, s[0]);
      var t := Insert(x, s[1..]);
      assert s == [s[0]] + s[1..];
      InsertBehind(s, x, t);
      [s[0]] + t
  }

  /** `x` below the head of a sorted list is below all of it. */
  lemma InsertFront(x: string, s: seq<string>)
    requires Sorted(s) && s != [] && LessEq(x, s[0])
    ensures Sorted([x] + s)
  {
    forall j | 0 < j < |s| ensures LessEq(x, s[j]) {
      LessEqTrans(x, s[0], s[j]);
    }
  }

  /** The head of a sorted list stays in front of the rest with `x` put
      in, when `x` is not below it. */
  lemma InsertBehind(s: seq<string>, x: string, t: seq<string>)
    requires Sorted(s) && s != [] && LessEq(s[0], x)
    requires Sorted(t) && multiset(t) == multiset(s[1..]) + multiset{x}
    ensures Sorted([s[0]] + t)
  {
    forall k | 0 <= k < |t| ensures LessEq(s[0], t[k]) {
      assert t[k] in multiset(s[1..]) + multiset{x};
      if t[k] != x {
        var j :| 0 <= j < |s[1..]| && s[1..][j] == t[k];
        assert s[j + 1] == t[k];
      }
    }
  }

  /** `sorted(s)`: the names of `s` in ascending order. An ascending
      permutation is unique, so any sorting algorithm gives this list. */
  function Sort(s: seq<string>): (r: seq<string>)
    ensures Sorted(r) && multiset(r) == multiset(s) && |r| == |s|
  {
    if s == [] then []
    else
      assert s == s[..|s| - 1] + [s[|s| - 1]];
      var rest := Sort(s[..|s| - 1]);
      var r := Insert(s[|s| - 1], rest);
      assert |r| == |multiset(r)| == |multiset(rest)| + 1 == |rest| + 1;
      r
  }

  /** `[x for x in s if p(x)]`. */
  function Filter(s: seq<string>, p: string -> bool): (r: seq<string>)
    ensures |r| <= |s|
    ensures forall x :: x in r <==> x in s && p(x)
  {
    if s == [] then []
    else if p(s[0]) then [s[0]] + Filter(s[1..], p)
    else Filter(s[1..], p)
  }

  lemma {:induction false} FilterConcat(a: seq<string>, b: seq<string>, p: string -> bool)
    ensures Filter(a + b, p) == Filter(a, p) + Filter(b, p)
  {
    if a != [] {
      assert (a + b)[1..] == a[1..] + b;
      FilterConcat(a[1..], b, p);
    } else {
      assert a + b == b;
    }
  }

  /** Filtering one element further into a list. */
  lemma FilterStep(s: seq<string>, i: nat, p: string -> bool)
    requires i < |s|
    ensures Filter(s[..i + 1], p) == Filter(s[..i], p) + (if p(s[i]) then [s[i]] else [])
  {
    FilterConcat(s[..i], [s[i]], p);
    assert s[..i + 1] == s[..i] + [s[i]];
  }

  /** Once the filtered prefix holds `n` elements, the rest of the list
      does not change the first `n` of the filtered list. */
  lemma TakeFilterPrefix(s: seq<string>, i: nat, p: string -> bool, n: nat)
    requires i <= |s| && |Filter(s[..i], p)| <= n
    requires i == |s| || |Filter(s[..i], p)| == n
    ensures Take(Filter(s, p), n) == Filter(s[..i], p)
  {
    FilterConcat(s[..i], s[i..], p);
    assert s[..i] + s[i..] == s;
  }

  /** A filtered sorted list stays sorted. */
  lemma {:induction false} FilterSorted(s: seq<string>, p: string -> bool)
    requires Sorted(s)
    ensures Sorted(Filter(s, p))
  {
    if s != [] {
      FilterSorted(s[1..], p);
      var t := Filter(s[1..], p);
      forall k | 0 <= k < |t| ensures LessEq(s[0], t[k]) {
        assert t[k] in s[1..];
      }
    }
  }

  /** `s[:n]`. */
  function Take(s: seq<string>, n: nat): (r: seq<string>)
    ensures |r| == if n < |s| then n else |s|
    ensures r == s[..|r|]
    ensures multiset(r) <= multiset(s)
  {
    if n < |s| then
      assert s == s[..n] + s[n..];
      s[..n]
    else s
  }

  /** The first `n` of a sorted list are the smallest: each of them comes
      before every element left out. */
  lemma TakeSmallest(s: seq<string>, n: nat, x: string, y: string)
    requires Sorted(s) && x in Take(s, n) && y in s && y !in Take(s, n)
    ensures LessEq(x, y)
  {
    var t := Take(s, n);
    var i :| 0 <= i < |t| && t[i] == x;
    var j :| 0 <= j < |s| && s[j] == y;
    assert s[i] == x;
  }

  /** The first `n` of a sorted list are sorted. */
  lemma TakeSorted(s: seq<string>, n: nat)
    requires Sorted(s)
    ensures Sorted(Take(s, n))
  {
    var t := Take(s, n);
    forall i, j | 0 <= i < j < |t| ensures LessEq(t[i], t[j]) {
      assert t[i] == s[i] && t[j] == s[j];
    }
  }

  /** `name.lower().endswith(('.jpg', '.jpeg', '.png'))`: every `.jpg` name
      passes, an upper-case `.PNG` too, and a name without a dot never. */
  predicate IsImageName(name: string)
    ensures IsJpgName(name) ==> IsImageName(name)
    ensures EndsWith(name, ".PNG") ==> IsImageName(name)
    ensures IsImageName(name) ==> '.' in name
  {
    var l := Lower(name);
    LowerSuffix(name, ".PNG", ".png");
    DotBeforeSuffix(name, 4);
    DotBeforeSuffix(name, 5);
    EndsWith(l, ".jpg") || EndsWith(l, ".jpeg") || EndsWith(l, ".png")
  }

  /** `name.lower().endswith('.jpg')`: the test ignores case, so `.JPG`
      passes, and the name then ends in a dot and three letters. */
  predicate IsJpgName(name: string)
    ensures EndsWith(name, ".JPG") ==> IsJpgName(name)
    ensures IsJpgName(name) ==> |name| >= 4 && name[|name| - 4] == '.'
  {
    var l := Lower(name);
    LowerSuffix(name, ".JPG", ".jpg");
    DotBeforeSuffix(name, 4);
    EndsWith(l, ".jpg")
  }

  /** A name ending in `up` ends, lower-cased, in `up` lower-cased. */
  lemma LowerSuffix(name: string, up: string, low: string)
    requires |up| == |low| && forall k :: 0 <= k < |up| ==> LowerChar(up[k]) == low[k]
    ensures EndsWith(name, up) ==> EndsWith(Lower(name), low)
  {
    if EndsWith(name, up) {
      var l, d := Lower(name), |name| - |up|;
      forall k | 0 <= k < |up| ensures l[d..][k] == low[k] {
        assert name[d + k] == name[d..][k] == up[k];
      }
    }
  }

  /** Lower-casing keeps a dot where it is. */
  lemma DotBeforeSuffix(name: string, n: nat)
    requires n > 0
    ensures n <= |name| && Lower(name)[|name| - n] == '.' ==> name[|name| - n] == '.' && '.' in name
  {
    if n <= |name| && Lower(name)[|name| - n] == '.' {
      assert name[|name| - n] in name;
    }
  }
}
