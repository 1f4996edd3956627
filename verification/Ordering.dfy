/** String order as Rust's `str::cmp` computes it, and the stable sort built on it. */
module Ordering {

  /** Lexicographic order on code points, which is also byte order on UTF-8. */
  predicate StrLe(a: string, b: string) {
    if a == "" then true
    else if b == "" then false
    else if a[0] == b[0] then StrLe(a[1..], b[1..])
    else a[0] < b[0]
  }

  /** Read off the strings: behind a common prefix, the first one ends or has the smaller
      character. */
  ghost predicate Precedes(a: string, b: string) {
    exists n :: 0 <= n <= |a| && n <= |b| && a[..n] == b[..n] && (n == |a| || (n < |b| && a[n] < b[n]))
  }

  lemma {:induction false} StrLeIs(a: string, b: string)
    ensures StrLe(a, b) <==> Precedes(a, b)
  {
    if a == "" {
      assert a[..0] == b[..0];
    } else if b != "" && a[0] == b[0] {
      StrLeIs(a[1..], b[1..]);
      PrecedesTails(a, b);
    } else {
      assert forall n :: 0 < n <= |a| && n <= |b| ==> a[..n][0] == a[0] && b[..n][0] == b[0];
      assert a[..0] == b[..0];
    }
  }

  lemma {:induction false} PrecedesTails(a: string, b: string)
    requires a != "" && b != "" && a[0] == b[0]
    ensures Precedes(a, b) <==> Precedes(a[1..], b[1..])
  {
    if n :| 0 <= n <= |a| && n <= |b| && a[..n] == b[..n] && (n == |a| || (n < |b| && a[n] < b[n])) {
      assert n > 0;
      assert a[1..][..n - 1] == a[..n][1..] && b[1..][..n - 1] == b[..n][1..];
    }
    if n :| 0 <= n <= |a[1..]| && n <= |b[1..]| && a[1..][..n] == b[1..][..n]
            && (n == |a[1..]| || (n < |b[1..]| && a[1..][n] < b[1..][n])) {
      assert a[..n + 1] == [a[0]] + a[1..][..n] && b[..n + 1] == [b[0]] + b[1..][..n];
    }
  }

  lemma {:induction false} StrLeTotal(a: string, b: string)
    ensures StrLe(a, b) || StrLe(b, a)
  {
    if a != "" && b != "" { StrLeTotal(a[1..], b[1..]); }
  }

  lemma {:induction false} StrLeAntisymmetric(a: string, b: string)
    requires StrLe(a, b) && StrLe(b, a)
    ensures a == b
  {
    if a != "" && b != "" {
      StrLeAntisymmetric(a[1..], b[1..]);
      assert a == [a[0]] + a[1..] && b == [b[0]] + b[1..];
    }
  }

  lemma {:induction false} StrLeTransitive(a: string, b: string, c: string)
    requires StrLe(a, b) && StrLe(b, c)
    ensures StrLe(a, c)
  {
    if a != "" && b != "" && c != "" && a[0] == b[0] == c[0] { StrLeTransitive(a[1..], b[1..], c[1..]); }
  }

  /** A comparator `sort_by` may be given: total and transitive, ties allowed. */
  ghost predicate Preorder<T(!new)>(le: (T, T) -> bool) {
    && (forall x, y :: le(x, y) || le(y, x))
    && (forall x, y, z :: le(x, y) && le(y, z) ==> le(x, z))
  }

  ghost predicate Sorted<T>(le: (T, T) -> bool, s: seq<T>) {
    forall i, j :: 0 <= i < j < |s| ==> le(s[i], s[j])
  }

  /** Insert `x` behind every element that is not greater: equal elements keep their order. */
  function Insert<T>(le: (T, T) -> bool, s: seq<T>, x: T): (r: seq<T>) {
    if s == [] || le(s[|s| - 1], x) then s + [x]
    else Insert(le, s[..|s| - 1], x) + [s[|s| - 1]]
  }

  /** Stable sort (`slice::sort_by`). */
  function Sort<T>(le: (T, T) -> bool, s: seq<T>): (r: seq<T>) {
    if s == [] then [] else Insert(le, Sort(le, s[..|s| - 1]), s[|s| - 1])
  }

  lemma {:induction false} InsertKeepsElements<T>(le: (T, T) -> bool, s: seq<T>, x: T)
    ensures multiset(Insert(le, s, x)) == multiset(s) + multiset{x}
    ensures |Insert(le, s, x)| == |s| + 1
  {
    if !(s == [] || le(s[|s| - 1], x)) {
      InsertKeepsElements(le, s[..|s| - 1], x);
      assert s == s[..|s| - 1] + [s[|s| - 1]];
    }
  }

  lemma {:induction false} InsertSorted<T(!new)>(le: (T, T) -> bool, s: seq<T>, x: T)
    requires Preorder(le) && Sorted(le, s)
    ensures Sorted(le, Insert(le, s, x))
  {
    if s == [] {
    } else if le(s[|s| - 1], x) {
      forall i | 0 <= i < |s| ensures le(s[i], x) {
        assert i == |s| - 1 || le(s[i], s[|s| - 1]);
      }
    } else {
      var init, last := s[..|s| - 1], s[|s| - 1];
      InsertSorted(le, init, x);
      var r := Insert(le, init, x);
      InsertKeepsElements(le, init, x);
      forall i | 0 <= i < |r| ensures le(r[i], last) {
        assert r[i] in multiset(r);
        if r[i] != x {
          assert r[i] in multiset(init);
          assert r[i] in init;
        }
      }
    }
  }

  /** The sort is a sorted permutation. */
  lemma {:induction false} SortSorts<T(!new)>(le: (T, T) -> bool, s: seq<T>)
    requires Preorder(le)
    ensures Sorted(le, Sort(le, s))
    ensures multiset(Sort(le, s)) == multiset(s)
    ensures |Sort(le, s)| == |s|
  {
    if s != [] {
      var init, last := s[..|s| - 1], s[|s| - 1];
      SortSorts(le, init);
      SortSnoc(le, init, last);
      assert s == init + [last];
      InsertSorted(le, Sort(le, init), last);
      InsertKeepsElements(le, Sort(le, init), last);
    }
  }

  /** A sorted sequence is left alone, ties included. */
  lemma {:induction false} SortOfSorted<T>(le: (T, T) -> bool, s: seq<T>)
    requires Sorted(le, s)
    ensures Sort(le, s) == s
  {
    if s != [] {
      var init, last := s[..|s| - 1], s[|s| - 1];
      SortOfSorted(le, init);
      SortSnoc(le, init, last);
      assert init == [] || le(init[|init| - 1], last);
      assert s == init + [last];
    }
  }

  /** Different elements do not compare equal. */
  ghost predicate NoTies<T>(le: (T, T) -> bool, s: seq<T>) {
    forall i, j :: 0 <= i < j < |s| && le(s[i], s[j]) && le(s[j], s[i]) ==> s[i] == s[j]
  }

  lemma {:induction false} SameLast<T>(le: (T, T) -> bool, a: seq<T>, b: seq<T>)
    requires Sorted(le, a) && Sorted(le, b) && NoTies(le, a)
    requires multiset(a) == multiset(b) && |a| == |b| > 0
    ensures a[|a| - 1] == b[|b| - 1]
  {
    var n := |a| - 1;
    var x, y := a[n], b[n];
    assert x in multiset(b) && y in multiset(a);
    var i :| 0 <= i < |a| && a[i] == y;
    var j :| 0 <= j < |b| && b[j] == x;
  }

  lemma {:induction false} InitMultiset<T>(s: seq<T>)
    requires s != []
    ensures multiset(s[..|s| - 1]) == multiset(s) - multiset{s[|s| - 1]}
  {
    assert s == s[..|s| - 1] + [s[|s| - 1]];
  }

  lemma {:induction false} InitKeeps<T>(le: (T, T) -> bool, s: seq<T>)
    requires s != []
    ensures Sorted(le, s) ==> Sorted(le, s[..|s| - 1])
    ensures NoTies(le, s) ==> NoTies(le, s[..|s| - 1])
  {}

  lemma {:induction false} SameLength<T>(a: seq<T>, b: seq<T>)
    requires multiset(a) == multiset(b)
    ensures |a| == |b|
  {
    assert |a| == |multiset(a)| && |b| == |multiset(b)|;
  }

  lemma {:induction false} SameInitAndLast<T>(a: seq<T>, b: seq<T>)
    requires |a| == |b| > 0 && a[..|a| - 1] == b[..|b| - 1] && a[|a| - 1] == b[|b| - 1]
    ensures a == b
  {
    assert a == a[..|a| - 1] + [a[|a| - 1]];
    assert b == b[..|b| - 1] + [b[|b| - 1]];
  }

  /** Without ties a sorted permutation is unique. */
  lemma {:induction false} SortedUnique<T>(le: (T, T) -> bool, a: seq<T>, b: seq<T>)
    requires Sorted(le, a) && Sorted(le, b) && NoTies(le, a)
    requires multiset(a) == multiset(b)
    ensures a == b
  {
    SameLength(a, b);
    if a != [] {
      var n := |a| - 1;
      SameLast(le, a, b);
      assert multiset(a[..n]) == multiset(b[..n]) by {
        InitMultiset(a);
        InitMultiset(b);
      }
      InitKeeps(le, a);
      InitKeeps(le, b);
      SortedUnique(le, a[..n], b[..n]);
      SameInitAndLast(a, b);
    }
  }

  lemma {:induction false} MiddleMultiset<T>(u: seq<T>, x: T, v: seq<T>)
    ensures multiset(u + v) == multiset(u + [x] + v) - multiset{x}
  {
    assert multiset(u + [x] + v) == multiset(u) + multiset{x} + multiset(v);
  }

  /** The last element of `a`, taken out of a permutation `b` of `a`. */
  lemma {:induction false} WithoutLast<T>(a: seq<T>, b: seq<T>) returns (u: seq<T>, v: seq<T>)
    requires multiset(a) == multiset(b) && a != []
    ensures b == u + [a[|a| - 1]] + v
    ensures multiset(a[..|a| - 1]) == multiset(u + v)
  {
    var n := |a| - 1;
    var x := a[n];
    assert x in multiset(b);
    var j :| 0 <= j < |b| && b[j] == x;
    u, v := b[..j], b[j + 1..];
    assert b == u + [x] + v;
    InitMultiset(a);
    MiddleMultiset(u, x, v);
  }

  // ------------------------------------------------------------------- stability

  /** The elements that compare equal to `x`, in their order. */
  function TiedWith<T>(le: (T, T) -> bool, x: T, s: seq<T>): seq<T> {
    if s == [] then []
    else
      var rest, last := TiedWith(le, x, s[..|s| - 1]), s[|s| - 1];
      if le(last, x) && le(x, last) then rest + [last] else rest
  }

  lemma {:induction false} TiedSnoc<T>(le: (T, T) -> bool, x: T, s: seq<T>, y: T)
    ensures TiedWith(le, x, s + [y])
            == if le(y, x) && le(x, y) then TiedWith(le, x, s) + [y] else TiedWith(le, x, s)
  {
    assert (s + [y])[..|s|] == s;
  }

  lemma {:induction false} TiedConcat<T>(le: (T, T) -> bool, x: T, a: seq<T>, b: seq<T>)
    ensures TiedWith(le, x, a + b) == TiedWith(le, x, a) + TiedWith(le, x, b)
  {
    if b == [] {
      assert a + b == a;
    } else {
      var n := |b| - 1;
      assert a + b == a + b[..n] + [b[n]] && b == b[..n] + [b[n]];
      TiedSnoc(le, x, a + b[..n], b[n]);
      TiedSnoc(le, x, b[..n], b[n]);
      TiedConcat(le, x, a, b[..n]);
    }
  }

  lemma {:induction false} InsertTied<T(!new)>(le: (T, T) -> bool, x: T, s: seq<T>, y: T)
    requires Preorder(le)
    ensures TiedWith(le, x, Insert(le, s, y)) == TiedWith(le, x, s + [y])
  {
    if !(s == [] || le(s[|s| - 1], y)) {
      var init, last := s[..|s| - 1], s[|s| - 1];
      InsertTied(le, x, init, y);
      TiedSnoc(le, x, Insert(le, init, y), last);
      TiedSnoc(le, x, init, y);
      TiedSnoc(le, x, s, y);
      assert le(last, x) && le(x, y) ==> le(last, y);
    }
  }

  lemma {:induction false} SortSnoc<T>(le: (T, T) -> bool, s: seq<T>, y: T)
    ensures Sort(le, s + [y]) == Insert(le, Sort(le, s), y)
  {
    assert (s + [y])[..|s|] == s;
  }

  /** The sort is stable. */
  lemma {:induction false} SortStable<T(!new)>(le: (T, T) -> bool, x: T, s: seq<T>)
    requires Preorder(le)
    ensures TiedWith(le, x, Sort(le, s)) == TiedWith(le, x, s)
  {
    if s != [] {
      SortStable(le, x, s[..|s| - 1]);
      SortStableSnoc(le, x, s[..|s| - 1], s[|s| - 1]);
      assert s[..|s| - 1] + [s[|s| - 1]] == s;
    }
  }

  lemma {:induction false} SortStableSnoc<T(!new)>(le: (T, T) -> bool, x: T, s: seq<T>, y: T)
    requires Preorder(le) && TiedWith(le, x, Sort(le, s)) == TiedWith(le, x, s)
    ensures TiedWith(le, x, Sort(le, s + [y])) == TiedWith(le, x, s + [y])
  {
    SortSnoc(le, s, y);
    InsertTied(le, x, Sort(le, s), y);
    TiedBefore(le, x, Sort(le, s), s, y);
  }

  lemma {:induction false} TiedBefore<T>(le: (T, T) -> bool, x: T, a: seq<T>, b: seq<T>, y: T)
    requires TiedWith(le, x, a) == TiedWith(le, x, b)
    ensures TiedWith(le, x, a + [y]) == TiedWith(le, x, b + [y])
  {
    TiedSnoc(le, x, a, y);
    TiedSnoc(le, x, b, y);
  }

  lemma {:induction false} SwapTied<T>(le: (T, T) -> bool, u: seq<T>, x: T, m: seq<T>, y: T, v: seq<T>)
    requires x != y && le(x, y) && le(y, x) && le(x, x)
    ensures TiedWith(le, x, u + [x] + m + [y] + v) != TiedWith(le, x, u + [y] + m + [x] + v)
  {
    TiedHead(le, x, u, x, m + [y] + v);
    TiedHead(le, x, u, y, m + [x] + v);
    assert u + [x] + m + [y] + v == u + ([x] + (m + [y] + v));
    assert u + [y] + m + [x] + v == u + ([y] + (m + [x] + v));
  }

  /** Exchanging two different elements that compare equal shows in the sorted result. */
  lemma {:induction false} SwapShows<T(!new)>(le: (T, T) -> bool, u: seq<T>, x: T, m: seq<T>, y: T, v: seq<T>)
    requires Preorder(le) && x != y && le(x, y) && le(y, x)
    ensures Sort(le, u + [x] + m + [y] + v) != Sort(le, u + [y] + m + [x] + v)
  {
    SortStable(le, x, u + [x] + m + [y] + v);
    SortStable(le, x, u + [y] + m + [x] + v);
    SwapTied(le, u, x, m, y, v);
  }

  /** Behind the tied elements of `u` comes the next one. */
  lemma {:induction false} TiedHead<T>(le: (T, T) -> bool, x: T, u: seq<T>, y: T, v: seq<T>)
    requires le(x, y) && le(y, x)
    ensures var n := |TiedWith(le, x, u)|;
            n < |TiedWith(le, x, u + ([y] + v))| && TiedWith(le, x, u + ([y] + v))[n] == y
  {
    TiedConcat(le, x, u, [y] + v);
    TiedConcat(le, x, [y], v);
    assert [] + [y] == [y];
    TiedSnoc(le, x, [], y);
  }
}
