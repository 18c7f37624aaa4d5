/** Stable sorting by a comparator, as Rust's `sort_by` / `sort_by_key` and Python's
    `list.sort` provide it, and `Vec::dedup`. The sort is specified by insertion: each
    element goes before the first element it is less than or equal to, which keeps
    equivalent elements in their input order. Also the sequence helpers the rest of the
    model shares: filtering, mapping, concatenation. */
module Sorting {
  import opened Wrappers

  ghost predicate Transitive<T(!new)>(le: (T, T) -> bool) {
    forall a, b, c :: le(a, b) && le(b, c) ==> le(a, c)
  }

  ghost predicate Total<T(!new)>(le: (T, T) -> bool) {
    forall a, b :: le(a, b) || le(b, a)
  }

  ghost predicate TotalPreorder<T(!new)>(le: (T, T) -> bool) {
    Transitive(le) && Total(le)
  }

  predicate SortedBy<T>(s: seq<T>, le: (T, T) -> bool) {
    forall i, j :: 0 <= i < j < |s| ==> le(s[i], s[j])
  }

  function Insert<T>(x: T, s: seq<T>, le: (T, T) -> bool): (r: seq<T>)
    ensures |r| == |s| + 1
  {
    if s == [] then [x]
    else if le(x, s[0]) then [x] + s
    else [s[0]] + Insert(x, s[1..], le)
  }

  /** Inserting adds exactly the one element. */
  lemma {:induction false} InsertMultiset<T>(x: T, s: seq<T>, le: (T, T) -> bool)
    ensures multiset(Insert(x, s, le)) == multiset(s) + multiset{x}
  {
    if s != [] && !le(x, s[0]) {
      InsertMultiset(x, s[1..], le);
      assert s == [s[0]] + s[1..];
    }
  }

  /** The stable sort of `s` by `le`: a permutation of `s`. */
  function Sort<T>(s: seq<T>, le: (T, T) -> bool): (r: seq<T>)
    ensures |r| == |s|
    ensures multiset(r) == multiset(s)
  {
    if s == [] then []
    else
      assert s == [s[0]] + s[1..];
      InsertMultiset(s[0], Sort(s[1..], le), le);
      Insert(s[0], Sort(s[1..], le), le)
  }

  lemma {:induction false} InsertSorted<T(!new)>(x: T, s: seq<T>, le: (T, T) -> bool)
    requires TotalPreorder(le) && SortedBy(s, le)
    ensures SortedBy(Insert(x, s, le), le)
  {
    if s != [] && !le(x, s[0]) {
      InsertSorted(x, s[1..], le);
      InsertMultiset(x, s[1..], le);
      var r := Insert(x, s, le);
      var t := Insert(x, s[1..], le);
      assert r == [s[0]] + t;
      assert le(s[0], x);
      assert forall k :: 0 <= k < |t| ==> le(s[0], t[k]) by {
        forall k | 0 <= k < |t| ensures le(s[0], t[k]) {
          assert t[k] in multiset(t);
          assert t[k] in multiset(s[1..]) + multiset{x};
          if t[k] != x {
            assert t[k] in multiset(s[1..]);
            var m :| 0 <= m < |s[1..]| && s[1..][m] == t[k];
            assert s[m + 1] == t[k];
          }
        }
      }
    }
  }

  /** The sort's output is ordered when `le` is a total preorder. */
  lemma {:induction false} SortSorted<T(!new)>(s: seq<T>, le: (T, T) -> bool)
    requires TotalPreorder(le)
    ensures SortedBy(Sort(s, le), le)
  {
    if s != [] {
      SortSorted(s[1..], le);
      InsertSorted(s[0], Sort(s[1..], le), le);
    }
  }

  /** The elements of `s` that are equivalent to `y` under `le`, in order. */
  function Equivalents<T>(s: seq<T>, y: T, le: (T, T) -> bool): (r: seq<T>)
    ensures |r| <= |s|
  {
    if s == [] then []
    else (if le(s[0], y) && le(y, s[0]) then [s[0]] else []) + Equivalents(s[1..], y, le)
  }

  lemma EquivalentsAppend<T>(a: seq<T>, b: seq<T>, y: T, le: (T, T) -> bool)
    ensures Equivalents(a + b, y, le) == Equivalents(a, y, le) + Equivalents(b, y, le)
  {
    if a != [] {
      EquivalentsAppend(a[1..], b, y, le);
      assert (a + b)[1..] == a[1..] + b;
    } else {
      assert a + b == b;
    }
  }

  lemma {:induction false} InsertEquivalents<T(!new)>(x: T, s: seq<T>, y: T, le: (T, T) -> bool)
    requires Transitive(le)
    ensures Equivalents(Insert(x, s, le), y, le) == Equivalents([x], y, le) + Equivalents(s, y, le)
  {
    if s == [] {
    } else if le(x, s[0]) {
      EquivalentsAppend([x], s, y, le);
    } else {
      InsertEquivalents(x, s[1..], y, le);
      EquivalentsAppend([s[0]], Insert(x, s[1..], le), y, le);
      EquivalentsAppend([s[0]], s[1..], y, le);
      assert [s[0]] + s[1..] == s;
      var ex := Equivalents([x], y, le);
      var e0 := Equivalents([s[0]], y, le);
      assert ex == [] || e0 == [];
    }
  }

  /** Stability: the elements equivalent to any `y` keep their input order. */
  lemma {:induction false} SortStable<T(!new)>(s: seq<T>, y: T, le: (T, T) -> bool)
    requires Transitive(le)
    ensures Equivalents(Sort(s, le), y, le) == Equivalents(s, y, le)
  {
    if s != [] {
      var t := Sort(s[1..], le);
      calc {
        Equivalents(Sort(s, le), y, le);
        Equivalents(Insert(s[0], t, le), y, le);
        { InsertEquivalents(s[0], t, y, le); }
        Equivalents([s[0]], y, le) + Equivalents(t, y, le);
        { SortStable(s[1..], y, le); }
        Equivalents([s[0]], y, le) + Equivalents(s[1..], y, le);
        { EquivalentsAppend([s[0]], s[1..], y, le); assert [s[0]] + s[1..] == s; }
        Equivalents(s, y, le);
      }
    }
  }

  /** `Vec::dedup`: consecutive repeats collapsed to one element. */
  function Dedup<T(==)>(s: seq<T>): (r: seq<T>)
    ensures |r| <= |s|
    ensures forall i :: 0 <= i < |r| ==> r[i] in s
    ensures forall i :: 0 <= i < |s| ==> s[i] in r
    ensures forall i :: 0 <= i < |r| - 1 ==> r[i] != r[i + 1]
    ensures |s| > 0 ==> |r| > 0 && r[0] == s[0] && r[|r| - 1] == s[|s| - 1]
  {
    if |s| <= 1 then s
    else if s[0] == s[1] then Dedup(s[1..])
    else [s[0]] + Dedup(s[1..])
  }

  /** Appending to a sequence before collapsing repeats: the new element disappears
      exactly when it repeats the last one. */
  lemma {:induction false} DedupSnoc<T>(s: seq<T>, x: T)
    ensures Dedup(s + [x]) == if s != [] && s[|s| - 1] == x then Dedup(s) else Dedup(s) + [x]
    decreases |s|
  {
    if |s| <= 1 {
      DedupSnocShort(s, x);
    } else {
      var u := s[1..];
      DedupSnoc(u, x);
      DedupSnocLong(s, u, x);
    }
  }

  lemma DedupSnocShort<T>(s: seq<T>, x: T)
    requires |s| <= 1
    ensures Dedup(s + [x]) == if s != [] && s[|s| - 1] == x then Dedup(s) else Dedup(s) + [x]
  {
    var t := s + [x];
    if |s| == 0 {
      assert t == [x];
    } else {
      assert t[0] == s[0] && t[1] == x && t[1..] == [x];
    }
  }

  lemma {:induction false} DedupSnocLong<T>(s: seq<T>, u: seq<T>, x: T)
    requires |s| >= 2 && u == s[1..]
    requires Dedup(u + [x]) == if u != [] && u[|u| - 1] == x then Dedup(u) else Dedup(u) + [x]
    ensures Dedup(s + [x]) == if s != [] && s[|s| - 1] == x then Dedup(s) else Dedup(s) + [x]
  {
    var t, ux := s + [x], u + [x];
    SnocShape(s, u, x);
    DedupUnfold(s, u);
    DedupUnfold(t, ux);
    DedupSnocStep(Dedup(s), Dedup(t), Dedup(u), Dedup(ux), s[0], s[0] == s[1], s[|s| - 1] == x, x);
  }

  lemma SnocShape<T>(s: seq<T>, u: seq<T>, x: T)
    requires |s| >= 2 && u == s[1..]
    ensures |s + [x]| >= 2 && (s + [x])[1..] == u + [x]
    ensures (s + [x])[0] == s[0] && (s + [x])[1] == s[1]
    ensures u != [] && u[|u| - 1] == s[|s| - 1]
  {
  }

  lemma DedupUnfold<T>(s: seq<T>, u: seq<T>)
    requires |s| >= 2 && u == s[1..]
    ensures Dedup(s) == if s[0] == s[1] then Dedup(u) else [s[0]] + Dedup(u)
  {
  }

  /** The step of `DedupSnoc`, on the four collapsed sequences: `ds` of `s`, `dt` of
      `s + [x]`, `du` of the tail of `s` and `dux` of that tail and `x`. */
  lemma DedupSnocStep<T>(ds: seq<T>, dt: seq<T>, du: seq<T>, dux: seq<T>, s0: T,
                         same: bool, repeat: bool, x: T)
    requires ds == if same then du else [s0] + du
    requires dt == if same then dux else [s0] + dux
    requires dux == if repeat then du else du + [x]
    ensures dt == if repeat then ds else ds + [x]
  {
    if !same && !repeat {
      assert [s0] + (du + [x]) == ([s0] + du) + [x];
    }
  }

  /** Keeps the elements that satisfy `p`, in order. */
  function Filter<T(==)>(s: seq<T>, p: T -> bool): (r: seq<T>)
    ensures |r| <= |s|
    ensures forall i :: 0 <= i < |r| ==> p(r[i])
  {
    if s == [] then []
    else (if p(s[0]) then [s[0]] else []) + Filter(s[1..], p)
  }

  /** Nothing is kept when nothing satisfies `p`. */
  lemma {:induction false} FilterNone<T>(s: seq<T>, p: T -> bool)
    requires forall x :: !p(x)
    ensures Filter(s, p) == []
  {
    if s != [] {
      FilterNone(s[1..], p);
    }
  }

  lemma FilterAppend<T>(a: seq<T>, b: seq<T>, p: T -> bool)
    ensures Filter(a + b, p) == Filter(a, p) + Filter(b, p)
  {
    if a != [] {
      FilterAppend(a[1..], b, p);
      assert (a + b)[1..] == a[1..] + b;
    } else {
      assert a + b == b;
    }
  }

  /** An element is kept exactly when it occurs and satisfies `p`. */
  lemma {:induction false} FilterMembers<T>(s: seq<T>, p: T -> bool, x: T)
    ensures x in Filter(s, p) <==> x in s && p(x)
    decreases |s|
  {
    if s != [] {
      FilterMembers(s[1..], p, x);
      assert s == [s[0]] + s[1..];
    }
  }

  /** The values `f` gives, skipping the elements it maps to None, in order
      (`filter_map`). */
  function FilterMap<T, U>(s: seq<T>, f: T -> Option<U>): (r: seq<U>)
    ensures |r| <= |s|
    decreases |s|
  {
    if s == [] then []
    else (match f(s[0]) case Some(y) => [y] case None => []) + FilterMap(s[1..], f)
  }

  /** The result is empty exactly when `f` gives None everywhere, and each value is what
      `f` gives for some element. */
  lemma {:induction false} FilterMapFrom<T, U>(s: seq<T>, f: T -> Option<U>)
    ensures FilterMap(s, f) == [] <==> forall j :: 0 <= j < |s| ==> f(s[j]).None?
    ensures forall k :: 0 <= k < |FilterMap(s, f)| ==>
              exists j :: 0 <= j < |s| && f(s[j]) == Some(FilterMap(s, f)[k])
    decreases |s|
  {
    if s != [] {
      var tail := s[1..];
      var r := FilterMap(s, f);
      FilterMapFrom(tail, f);
      var head := if f(s[0]).Some? then 1 else 0;
      assert r[head..] == FilterMap(tail, f);
      forall k | 0 <= k < |r|
        ensures exists j :: 0 <= j < |s| && f(s[j]) == Some(r[k])
      {
        if k < head {
          assert f(s[0]) == Some(r[k]);
        } else {
          var j :| 0 <= j < |tail| && f(tail[j]) == Some(FilterMap(tail, f)[k - head]);
          assert s[j + 1] == tail[j];
        }
      }
      if r == [] {
        forall j | 0 <= j < |s| ensures f(s[j]).None? {
          if j > 0 {
            assert s[j] == tail[j - 1];
          }
        }
      }
    }
  }

  /** A property every value of `f` has holds of every element of the result. */
  lemma FilterMapAll<T, U>(s: seq<T>, f: T -> Option<U>, p: U -> bool)
    requires forall x :: f(x).Some? ==> p(f(x).value)
    ensures forall k :: 0 <= k < |FilterMap(s, f)| ==> p(FilterMap(s, f)[k])
  {
    FilterMapFrom(s, f);
  }

  function Map<T, U>(s: seq<T>, f: T -> U): (r: seq<U>)
    ensures |r| == |s|
    ensures forall i :: 0 <= i < |s| ==> r[i] == f(s[i])
  {
    seq(|s|, i requires 0 <= i < |s| => f(s[i]))
  }
  lemma MapSnoc<T, U>(s: seq<T>, x: T, f: T -> U)
    ensures Map(s + [x], f) == Map(s, f) + [f(x)]
  {
  }


  /** Lexicographic order on integer sequences, as Rust's `Ord` on slices: a proper prefix
      comes first. */
  predicate LexLe(a: seq<int>, b: seq<int>)
    decreases |a|
  {
    a == [] || (b != [] && (a[0] < b[0] || (a[0] == b[0] && LexLe(a[1..], b[1..]))))
  }

  lemma {:induction false} LexLeTotal(a: seq<int>, b: seq<int>)
    ensures LexLe(a, b) || LexLe(b, a)
    decreases |a|
  {
    if a != [] && b != [] && a[0] == b[0] {
      LexLeTotal(a[1..], b[1..]);
    }
  }

  lemma {:induction false} LexLeTransitive(a: seq<int>, b: seq<int>, c: seq<int>)
    requires LexLe(a, b) && LexLe(b, c)
    ensures LexLe(a, c)
    decreases |a|
  {
    if a != [] && a[0] == b[0] && b[0] == c[0] {
      LexLeTransitive(a[1..], b[1..], c[1..]);
    }
  }

  lemma {:induction false} LexLeAntisymmetric(a: seq<int>, b: seq<int>)
    requires LexLe(a, b) && LexLe(b, a)
    ensures a == b
    decreases |a|
  {
    if a != [] {
      LexLeAntisymmetric(a[1..], b[1..]);
      assert a == [a[0]] + a[1..] && b == [b[0]] + b[1..];
    }
  }

  /** The code points of a string; comparing them lexicographically is Rust's `Ord` on
      `String`, since UTF-8 preserves code point order. */
  function Codes(s: string): (r: seq<int>)
    ensures |r| == |s|
    ensures forall i :: 0 <= i < |s| ==> r[i] == s[i] as int
  {
    seq(|s|, i requires 0 <= i < |s| => s[i] as int)
  }

  lemma CodesInjective(s: string, t: string)
    requires Codes(s) == Codes(t)
    ensures s == t
  {
    assert |s| == |t|;
    forall i | 0 <= i < |s| ensures s[i] == t[i] {
      assert Codes(s)[i] == Codes(t)[i];
    }
  }

  /** The first `n` elements of `s`, or all of it when it is shorter. */
  function Take<T>(s: seq<T>, n: nat): (r: seq<T>)
    ensures |r| <= n && |r| <= |s| && r == s[..|r|]
    ensures |s| >= n ==> |r| == n
  {
    if n <= |s| then s[..n] else s
  }

  lemma TakeCons<T>(x: T, s: seq<T>, n: nat)
    requires n >= 1
    ensures Take([x] + s, n) == [x] + Take(s, n - 1)
  {
  }

  /** Taking from a concatenation whose first part is already long enough. */
  lemma TakeAppendLong<T>(x: seq<T>, y: seq<T>, n: nat)
    requires |x| >= n
    ensures Take(x + y, n) == Take(x, n)
  {
    assert (x + y)[..n] == x[..n];
  }

  function Last<T>(s: seq<T>): T
    requires s != []
  {
    s[|s| - 1]
  }

  /** The concatenation of a list of lists, in order. */
  function Flatten<T>(ss: seq<seq<T>>): (r: seq<T>)
    decreases |ss|
  {
    if ss == [] then [] else Flatten(ss[..|ss| - 1]) + Last(ss)
  }

  lemma FlattenSnoc<T>(ss: seq<seq<T>>, p: nat)
    requires p < |ss|
    ensures Flatten(ss[..p + 1]) == Flatten(ss[..p]) + ss[p]
  {
    assert ss[..p + 1][..p] == ss[..p];
  }

  /** A loop over `xs` after the elements `pre`: one more element read. */
  lemma PrefixPush<T>(pre: seq<T>, xs: seq<T>, q: nat)
    requires q < |xs|
    ensures pre + xs[..q + 1] == (pre + xs[..q]) + [xs[q]]
  {
    assert xs[..q + 1] == xs[..q] + [xs[q]];
  }

  /** Concatenating a list put in front is the list followed by the rest's concatenation. */
  lemma {:induction false} FlattenCons<T>(x: seq<T>, ss: seq<seq<T>>)
    ensures Flatten([x] + ss) == x + Flatten(ss)
    decreases |ss|
  {
    if ss == [] {
      assert [x] + ss == [x];
      assert [x][..0] == [];
    } else {
      var init := ss[..|ss| - 1];
      FlattenCons(x, init);
      assert ([x] + ss)[..|ss|] == [x] + init;
    }
  }

  /** An element of the concatenation comes from one of the lists. */
  lemma {:induction false} FlattenMembers<T>(ss: seq<seq<T>>, x: T)
    ensures x in Flatten(ss) <==> exists j :: 0 <= j < |ss| && x in ss[j]
    decreases |ss|
  {
    if ss != [] {
      var front := ss[..|ss| - 1];
      FlattenMembers(front, x);
      if x in Flatten(front) {
        var j :| 0 <= j < |front| && x in front[j];
        assert x in ss[j];
      }
      if exists j :: 0 <= j < |ss| && x in ss[j] {
        var j :| 0 <= j < |ss| && x in ss[j];
        if j < |front| {
          assert x in front[j];
        }
      }
    }
  }

  /** What `pick` gives for the names, in listing order, skipping those it gives nothing
      for. */
  function Chosen<S, T>(names: seq<S>, pick: S -> Option<T>): (r: seq<T>)
    ensures |r| <= |names|
  {
    if names == [] then []
    else Chosen(names[..|names| - 1], pick) + (match pick(Last(names)) case Some(x) => [x] case None => [])
  }

  /** An element is chosen exactly when some name gives it. */
  lemma {:induction false} ChosenMembers<S, T>(names: seq<S>, pick: S -> Option<T>, x: T)
    ensures x in Chosen(names, pick) <==> exists i :: 0 <= i < |names| && pick(names[i]) == Some(x)
    decreases |names|
  {
    if names != [] {
      var front := names[..|names| - 1];
      ChosenMembers(front, pick, x);
      ChosenSnoc(names, pick, x);
      PickedSnoc(names, front, pick, x);
    }
  }

  lemma ChosenSnoc<S, T>(names: seq<S>, pick: S -> Option<T>, x: T)
    requires names != []
    ensures x in Chosen(names, pick) <==> x in Chosen(names[..|names| - 1], pick) || pick(Last(names)) == Some(x)
  {
  }

  lemma PickedSnoc<S, T>(names: seq<S>, front: seq<S>, pick: S -> Option<T>, x: T)
    requires names != [] && front == names[..|names| - 1]
    ensures (exists i :: 0 <= i < |names| && pick(names[i]) == Some(x)) <==>
            (exists i :: 0 <= i < |front| && pick(front[i]) == Some(x)) || pick(Last(names)) == Some(x)
  {
    if exists i :: 0 <= i < |front| && pick(front[i]) == Some(x) {
      var i :| 0 <= i < |front| && pick(front[i]) == Some(x);
      assert names[i] == front[i];
    }
    if exists i :: 0 <= i < |names| && pick(names[i]) == Some(x) {
      var i :| 0 <= i < |names| && pick(names[i]) == Some(x);
      if i < |front| {
        assert front[i] == names[i];
      }
    }
  }
}
