/** Sequence and string helpers: Array.prototype.filter, join('') and join(sep) with its inverse. */
module Seqs {

  /** The elements of `s` that satisfy `f`, in their original order. */
  function Filter<T>(f: T -> bool, s: seq<T>): (r: seq<T>)
    ensures |r| <= |s|
  {
    if s == [] then []
    else Filter(f, s[..|s| - 1]) + (if f(s[|s| - 1]) then [s[|s| - 1]] else [])
  }

  /** Filter keeps exactly the elements that satisfy the predicate. */
  lemma {:induction false} FilterMembers<T>(f: T -> bool, s: seq<T>)
    ensures forall k :: 0 <= k < |Filter(f, s)| ==> Filter(f, s)[k] in s && f(Filter(f, s)[k])
    ensures forall k :: 0 <= k < |s| && f(s[k]) ==> s[k] in Filter(f, s)
  {
    if s != [] {
      var init := s[..|s| - 1];
      FilterMembers(f, init);
      assert forall k :: 0 <= k < |init| ==> init[k] == s[k];
    }
  }

  lemma {:induction false} FilterAppend<T>(f: T -> bool, a: seq<T>, b: seq<T>)
    ensures Filter(f, a + b) == Filter(f, a) + Filter(f, b)
  {
    if b == [] {
      assert a + b == a;
    } else {
      var ab := a + b;
      assert ab[..|ab| - 1] == a + b[..|b| - 1];
      assert ab[|ab| - 1] == b[|b| - 1];
      FilterAppend(f, a, b[..|b| - 1]);
    }
  }

  /** Filtering by a predicate and by its complement splits `s` without loss or duplication. */
  lemma {:induction false} FilterSplits<T>(f: T -> bool, g: T -> bool, s: seq<T>)
    requires forall x :: g(x) == !f(x)
    ensures multiset(Filter(f, s)) + multiset(Filter(g, s)) == multiset(s)
    ensures |Filter(f, s)| + |Filter(g, s)| == |s|
  {
    if s != [] {
      var init, last := s[..|s| - 1], s[|s| - 1];
      FilterSplits(f, g, init);
      assert s == init + [last];
      FilterSplitsLast(f, g, init, last);
    }
    assert |multiset(Filter(f, s))| == |Filter(f, s)|;
    assert |multiset(Filter(g, s))| == |Filter(g, s)|;
  }

  /** One step of FilterSplits: the appended element goes to exactly one side. */
  lemma FilterSplitsLast<T>(f: T -> bool, g: T -> bool, init: seq<T>, last: T)
    requires g(last) == !f(last)
    requires multiset(Filter(f, init)) + multiset(Filter(g, init)) == multiset(init)
    ensures multiset(Filter(f, init + [last])) + multiset(Filter(g, init + [last])) == multiset(init + [last])
  {
    var s := init + [last];
    assert s[..|s| - 1] == init;
    assert s[|s| - 1] == last;
    var fi, gi := Filter(f, init), Filter(g, init);
    assert multiset(s) == multiset(init) + multiset{last};
    if f(last) {
      assert Filter(f, s) == fi + [last];
      assert Filter(g, s) == gi;
      assert multiset(fi + [last]) == multiset(fi) + multiset{last};
    } else {
      assert Filter(f, s) == fi;
      assert Filter(g, s) == gi + [last];
      assert multiset(gi + [last]) == multiset(gi) + multiset{last};
    }
  }

  /** `ss.join('')`. */
  function Concat(ss: seq<string>): string {
    if ss == [] then "" else ss[0] + Concat(ss[1..])
  }

  /** Cuts `s` into consecutive pieces of width `w` (the last one may be shorter). */
  function Chunks(s: string, w: nat): seq<string>
    requires w > 0
    decreases |s|
  {
    if s == [] then []
    else if |s| <= w then [s]
    else [s[..w]] + Chunks(s[w..], w)
  }

  /** Cutting a concatenation of width-`w` pieces into width-`w` chunks gives the pieces back. */
  lemma {:induction false} ChunksConcat(ss: seq<string>, w: nat)
    requires w > 0
    requires forall k :: 0 <= k < |ss| ==> |ss[k]| == w
    ensures Chunks(Concat(ss), w) == ss
  {
    if ss != [] {
      var rest := Concat(ss[1..]);
      ChunksConcat(ss[1..], w);
      var c := ss[0] + rest;
      assert Concat(ss) == c;
      if rest == [] {
        assert c == ss[0];
        assert ss == [ss[0]];
      } else {
        assert c[..w] == ss[0];
        assert c[w..] == rest;
        assert [ss[0]] + ss[1..] == ss;
      }
    }
  }

  /** `ts.join(sep)` for a one-character separator. */
  function Join(ts: seq<string>, sep: char): string {
    if ts == [] then ""
    else if |ts| == 1 then ts[0]
    else ts[0] + [sep] + Join(ts[1..], sep)
  }

  /** `s.split(sep)`: undoes Join on non-empty lists of separator-free strings (SplitJoin). */
  function Split(s: string, sep: char): (r: seq<string>)
    ensures |r| >= 1
  {
    if s == [] then [""]
    else
      var rest := Split(s[1..], sep);
      if s[0] == sep then [""] + rest else [[s[0]] + rest[0]] + rest[1..]
  }

  lemma {:induction false} SplitWithoutSeparator(a: string, sep: char)
    requires sep !in a
    ensures Split(a, sep) == [a]
  {
    if a != [] {
      SplitWithoutSeparator(a[1..], sep);
      assert [a[0]] + a[1..] == a;
    }
  }

  lemma {:induction false} SplitAtSeparator(a: string, sep: char, b: string)
    requires sep !in a
    ensures Split(a + [sep] + b, sep) == [a] + Split(b, sep)
  {
    var s := a + [sep] + b;
    if a == [] {
      assert s[1..] == b;
    } else {
      assert s[1..] == a[1..] + [sep] + b;
      SplitAtSeparator(a[1..], sep, b);
      assert [a[0]] + a[1..] == a;
    }
  }

  /** Join of a non-empty list is undone by Split when no element contains the separator. */
  lemma {:induction false} SplitJoin(ts: seq<string>, sep: char)
    requires |ts| >= 1
    requires forall k :: 0 <= k < |ts| ==> sep !in ts[k]
    ensures Split(Join(ts, sep), sep) == ts
  {
    if |ts| == 1 {
      SplitWithoutSeparator(ts[0], sep);
    } else {
      SplitJoin(ts[1..], sep);
      SplitAtSeparator(ts[0], sep, Join(ts[1..], sep));
      assert [ts[0]] + ts[1..] == ts;
    }
  }

  /** Join is injective on lists of non-empty, separator-free strings. */
  lemma JoinInjective(xs: seq<string>, ys: seq<string>, sep: char)
    requires forall k :: 0 <= k < |xs| ==> xs[k] != "" && sep !in xs[k]
    requires forall k :: 0 <= k < |ys| ==> ys[k] != "" && sep !in ys[k]
    requires Join(xs, sep) == Join(ys, sep)
    ensures xs == ys
  {
    if xs != [] && ys != [] {
      SplitJoin(xs, sep);
      SplitJoin(ys, sep);
    }
  }
}
