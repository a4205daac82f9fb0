/** Python's `sorted`: a stable sort driven only by a "less than" relation, and
    Python's `<` on `str`, which orders file names. */
module Sorting {

  // ---------------------------------------------------------------------------
  // Orders

  ghost predicate Irreflexive<T(!new)>(lt: (T, T) -> bool)
  {
    forall a :: !lt(a, a)
  }

  ghost predicate Transitive<T(!new)>(lt: (T, T) -> bool)
  {
    forall a, b, c :: lt(a, b) && lt(b, c) ==> lt(a, c)
  }

  /** If `a` is below `c`, then any `b` is above `a` or below `c`. */
  ghost predicate NegativelyTransitive<T(!new)>(lt: (T, T) -> bool)
  {
    forall a, b, c :: lt(a, c) ==> lt(a, b) || lt(b, c)
  }

  /** What `sorted` needs of `<` to be well behaved: a strict weak order, such as
      "has a smaller key". */
  ghost predicate StrictWeakOrder<T(!new)>(lt: (T, T) -> bool)
  {
    Irreflexive(lt) && Transitive(lt) && NegativelyTransitive(lt)
  }

  /** No later element is below an earlier one. */
  predicate SortedBy<T>(s: seq<T>, lt: (T, T) -> bool)
  {
    forall i, j | 0 <= i < j < |s| :: !lt(s[j], s[i])
  }

  /** `x` and `y` are ranked level: neither is below the other. */
  predicate Level<T>(x: T, y: T, lt: (T, T) -> bool)
  {
    !lt(x, y) && !lt(y, x)
  }

  /** The elements of `s` ranked level with `y`, in their order in `s`. */
  function LevelWith<T>(s: seq<T>, y: T, lt: (T, T) -> bool): (r: seq<T>)
    ensures |r| <= |s|
  {
    if s == [] then []
    else (if Level(s[0], y, lt) then [s[0]] else []) + LevelWith(s[1..], y, lt)
  }

  /** The elements of `l`, as a set. */
  function Members<T>(l: seq<T>): set<T>
  {
    set x | x in l
  }

  /** `l` lists every element of `s` exactly once (what a directory glob yields). */
  ghost predicate Enumerates<T>(l: seq<T>, s: set<T>)
  {
    multiset(l) == multiset(s)
  }

  // ---------------------------------------------------------------------------
  // The stable sort

  /** Places `x` after every element of `sorted` that is not above it. */
  function Insert<T>(x: T, sorted: seq<T>, lt: (T, T) -> bool): (r: seq<T>)
    ensures multiset(r) == multiset(sorted) + multiset{x}
  {
    if sorted == [] then [x]
    else if lt(x, sorted[0]) then [x] + sorted
    else
      assert sorted == [sorted[0]] + sorted[1..];
      [sorted[0]] + Insert(x, sorted[1..], lt)
  }

  /** `sorted(s, key=...)` where `lt(a, b)` is "the key of a < the key of b":
      insertion of each element, in input order, after its equals. */
  function SortBy<T>(s: seq<T>, lt: (T, T) -> bool): (r: seq<T>)
    ensures multiset(r) == multiset(s)
  {
    if s == [] then []
    else
      assert s == s[..|s| - 1] + [s[|s| - 1]];
      Insert(s[|s| - 1], SortBy(s[..|s| - 1], lt), lt)
  }

  lemma {:induction false} InsertSorted<T(!new)>(x: T, t: seq<T>, lt: (T, T) -> bool)
    requires StrictWeakOrder(lt) && SortedBy(t, lt)
    ensures SortedBy(Insert(x, t, lt), lt)
  {
    if t != [] && !lt(x, t[0]) {
      InsertSorted(x, t[1..], lt);
      var r := Insert(x, t[1..], lt);
      forall y | y in r ensures !lt(y, t[0]) {
        assert y in multiset(r);
        assert y == x || y in t[1..];
      }
      assert forall j | 0 < j <= |r| :: ([t[0]] + r)[j] == r[j - 1];
    }
  }

  /** The result of `sorted` is in order. */
  lemma {:induction false} SortBySorted<T(!new)>(s: seq<T>, lt: (T, T) -> bool)
    requires StrictWeakOrder(lt)
    ensures SortedBy(SortBy(s, lt), lt)
  {
    if s != [] {
      SortBySorted(s[..|s| - 1], lt);
      InsertSorted(s[|s| - 1], SortBy(s[..|s| - 1], lt), lt);
    }
  }

  lemma {:induction false} LevelWithAppend<T>(a: seq<T>, b: seq<T>, y: T, lt: (T, T) -> bool)
    ensures LevelWith(a + b, y, lt) == LevelWith(a, y, lt) + LevelWith(b, y, lt)
  {
    if a == [] {
      assert a + b == b;
    } else {
      var head := if Level(a[0], y, lt) then [a[0]] else [];
      assert (a + b)[0] == a[0] && (a + b)[1..] == a[1..] + b;
      assert LevelWith(a + b, y, lt) == head + LevelWith(a[1..] + b, y, lt);
      LevelWithAppend(a[1..], b, y, lt);
      assert LevelWith(a, y, lt) == head + LevelWith(a[1..], y, lt);
    }
  }

  /** Nothing in a sorted sequence whose head is above `x` is level with anything `x`
      is level with. */
  lemma {:induction false} AboveNotLevel<T(!new)>(x: T, t: seq<T>, y: T, lt: (T, T) -> bool)
    requires NegativelyTransitive(lt) && SortedBy(t, lt)
    requires t != [] && lt(x, t[0]) && Level(x, y, lt)
    ensures LevelWith(t, y, lt) == []
  {
    assert lt(x, y) || lt(y, t[0]);
    if |t| > 1 {
      AboveNotLevel(x, t[1..], y, lt);
    }
  }

  lemma AppendAssoc<T>(a: seq<T>, b: seq<T>, c: seq<T>)
    ensures a + (b + c) == (a + b) + c
  {
  }

  lemma HeadTail<T>(t: seq<T>)
    requires t != []
    ensures [t[0]] + t[1..] == t
  {
  }

  lemma TailMultiset<T>(t: seq<T>)
    requires t != []
    ensures multiset(t[1..]) == multiset(t) - multiset{t[0]}
  {
    HeadTail(t);
    assert multiset(t) == multiset([t[0]]) + multiset(t[1..]);
  }

  lemma FrontLast<T>(s: seq<T>)
    requires s != []
    ensures s[..|s| - 1] + [s[|s| - 1]] == s
  {
  }

  lemma LevelWithOne<T>(x: T, y: T, lt: (T, T) -> bool)
    ensures LevelWith([x], y, lt) == if Level(x, y, lt) then [x] else []
  {
    LevelWithCons(x, [], y, lt);
    assert [x] + [] == [x];
  }

  lemma LevelWithCons<T>(h: T, r: seq<T>, y: T, lt: (T, T) -> bool)
    ensures LevelWith([h] + r, y, lt) == (if Level(h, y, lt) then [h] else []) + LevelWith(r, y, lt)
  {
    assert ([h] + r)[0] == h && ([h] + r)[1..] == r;
  }

  /** Inserting past the head keeps the head's place among the elements level with `y`. */
  lemma InsertLevelStep<T>(x: T, t: seq<T>, y: T, lt: (T, T) -> bool)
    requires t != [] && !lt(x, t[0])
    requires LevelWith(Insert(x, t[1..], lt), y, lt)
          == LevelWith(t[1..], y, lt) + (if Level(x, y, lt) then [x] else [])
    ensures LevelWith(Insert(x, t, lt), y, lt)
         == LevelWith(t, y, lt) + (if Level(x, y, lt) then [x] else [])
  {
    var hx := if Level(x, y, lt) then [x] else [];
    var h, rest := t[0], t[1..];
    var r := Insert(x, rest, lt);
    var hh := if Level(h, y, lt) then [h] else [];
    assert Insert(x, t, lt) == [h] + r;
    LevelWithCons(h, r, y, lt);
    LevelWithCons(h, rest, y, lt);
    HeadTail(t);
    AppendAssoc(hh, LevelWith(rest, y, lt), hx);
  }

  /** Inserting an element places it after everything already level with it. */
  lemma {:induction false} InsertLevel<T(!new)>(x: T, t: seq<T>, y: T, lt: (T, T) -> bool)
    requires NegativelyTransitive(lt) && SortedBy(t, lt)
    ensures LevelWith(Insert(x, t, lt), y, lt)
         == LevelWith(t, y, lt) + (if Level(x, y, lt) then [x] else [])
  {
    if t == [] {
      LevelWithOne(x, y, lt);
    } else if lt(x, t[0]) {
      LevelWithCons(x, t, y, lt);
      if Level(x, y, lt) {
        AboveNotLevel(x, t, y, lt);
      }
    } else {
      assert SortedBy(t[1..], lt);
      InsertLevel(x, t[1..], y, lt);
      InsertLevelStep(x, t, y, lt);
    }
  }

  lemma {:induction false} SortByStable<T(!new)>(s: seq<T>, y: T, lt: (T, T) -> bool)
    requires StrictWeakOrder(lt)
    ensures LevelWith(SortBy(s, lt), y, lt) == LevelWith(s, y, lt)
  {
    if s != [] {
      var pre, last := s[..|s| - 1], s[|s| - 1];
      var sortedPre := SortBy(pre, lt);
      assert SortBy(s, lt) == Insert(last, sortedPre, lt);
      SortBySorted(pre, lt);
      InsertLevel(last, sortedPre, y, lt);
      SortByStable(pre, y, lt);
      FrontLast(s);
      LevelWithAppend(pre, [last], y, lt);
      LevelWithOne(last, y, lt);
    }
  }

  lemma SortedSameHead<T>(a: seq<T>, b: seq<T>, lt: (T, T) -> bool)
    requires a != [] && SortedBy(a, lt) && SortedBy(b, lt)
    requires multiset(a) == multiset(b)
    requires lt(a[0], b[0]) || lt(b[0], a[0]) || a[0] == b[0]
    ensures b != [] && a[0] == b[0]
  {
    assert a[0] in multiset(b);
    assert b[0] in multiset(a);
    var i :| 0 <= i < |a| && a[i] == b[0];
    var j :| 0 <= j < |b| && b[j] == a[0];
    assert i == 0 || !lt(a[i], a[0]);
    assert j == 0 || !lt(b[j], b[0]);
  }

  /** Two sorted arrangements of the same elements, any two distinct of which are
      ranked apart, are the same sequence. */
  lemma {:induction false} SortedUnique<T>(a: seq<T>, b: seq<T>, lt: (T, T) -> bool)
    requires SortedBy(a, lt) && SortedBy(b, lt)
    requires multiset(a) == multiset(b)
    requires forall x, y | x in a && y in a && x != y :: lt(x, y) || lt(y, x)
    ensures a == b
  {
    if a != [] {
      assert b != [] by {
        assert a[0] in multiset(b);
      }
      assert b[0] in a by {
        assert b[0] in multiset(a);
      }
      SortedSameHead(a, b, lt);
      var a', b' := a[1..], b[1..];
      HeadTail(a);
      HeadTail(b);
      TailMultiset(a);
      TailMultiset(b);
      assert SortedBy(a', lt) && SortedBy(b', lt);
      assert forall x | x in a' :: x in a;
      SortedUnique(a', b', lt);
    } else {
      assert |multiset(b)| == 0;
    }
  }

  // ---------------------------------------------------------------------------
  // Python's `<` on str

  /** Code-point lexicographic order; a proper prefix comes first. */
  predicate StrLess(a: string, b: string)
  {
    |b| > 0 && (|a| == 0 || a[0] < b[0] || (a[0] == b[0] && StrLess(a[1..], b[1..])))
  }

  lemma {:induction false} StrLessIrreflexive(a: string)
    ensures !StrLess(a, a)
  {
    if a != [] {
      StrLessIrreflexive(a[1..]);
    }
  }

  lemma {:induction false} StrLessTransitive(a: string, b: string, c: string)
    requires StrLess(a, b) && StrLess(b, c)
    ensures StrLess(a, c)
  {
    if a != [] && a[0] == b[0] == c[0] {
      StrLessTransitive(a[1..], b[1..], c[1..]);
    }
  }

  lemma {:induction false} StrLessTotal(a: string, b: string)
    ensures a == b || StrLess(a, b) || StrLess(b, a)
  {
    if a != [] && b != [] && a[0] == b[0] {
      StrLessTotal(a[1..], b[1..]);
      if a[1..] == b[1..] {
        assert a == [a[0]] + a[1..] && b == [b[0]] + b[1..];
      }
    }
  }

  /** Python's `<` on str is a strict total order. */
  lemma StrLessOrder()
    ensures StrictWeakOrder(StrLess)
    ensures forall a, b :: a == b || StrLess(a, b) || StrLess(b, a)
  {
    forall a ensures !StrLess(a, a) {
      StrLessIrreflexive(a);
    }
    forall a, b, c | StrLess(a, b) && StrLess(b, c) ensures StrLess(a, c) {
      StrLessTransitive(a, b, c);
    }
    forall a, b, c | StrLess(a, c) ensures StrLess(a, b) || StrLess(b, c) {
      StrLessTotal(a, b);
      StrLessTotal(b, c);
      if a == b {
      } else if StrLess(b, a) {
        StrLessTransitive(b, a, c);
      } else if b != c && StrLess(c, b) {
        StrLessTransitive(a, c, b);
      }
    }
    forall a, b ensures a == b || StrLess(a, b) || StrLess(b, a) {
      StrLessTotal(a, b);
    }
  }

  /** A common prefix does not change the comparison. */
  lemma {:induction false} StrLessPrefix(p: string, a: string, b: string)
    requires StrLess(a, b)
    ensures StrLess(p + a, p + b)
  {
    if p == [] {
      assert p + a == a && p + b == b;
    } else {
      assert (p + a)[1..] == p[1..] + a && (p + b)[1..] == p[1..] + b;
      StrLessPrefix(p[1..], a, b);
    }
  }

  /** Between equally long strings, the comparison is decided inside them: whatever
      follows does not matter. */
  lemma {:induction false} StrLessSuffix(a: string, b: string, u: string, v: string)
    requires |a| == |b| && StrLess(a, b)
    ensures StrLess(a + u, b + v)
  {
    if a[0] == b[0] {
      assert (a + u)[1..] == a[1..] + u && (b + v)[1..] == b[1..] + v;
      StrLessSuffix(a[1..], b[1..], u, v);
    }
  }

  // ---------------------------------------------------------------------------
  // Sorting a set of names

  lemma {:induction false} EnumerationExists<T>(s: set<T>)
    ensures exists l :: Enumerates(l, s)
    decreases |s|
  {
    if s == {} {
      assert Enumerates([], s);
    } else {
      var x :| x in s;
      EnumerationExists(s - {x});
      var l :| Enumerates(l, s - {x});
      assert multiset(s - {x}) + multiset{x} == multiset(s);
      assert Enumerates(l + [x], s);
    }
  }

  /** An enumeration lists exactly the members of its set. */
  lemma EnumeratesMembers<T>(l: seq<T>, s: set<T>)
    requires Enumerates(l, s)
    ensures forall x :: x in l <==> x in s
  {
    forall x ensures x in l <==> x in s {
      assert x in l <==> x in multiset(l);
      assert x in s <==> x in multiset(s);
    }
  }

  /** Listing one more element extends an enumeration. */
  lemma EnumeratesAppend<T>(l: seq<T>, s: set<T>, x: T)
    requires Enumerates(l, s) && x !in s
    ensures Enumerates(l + [x], s + {x})
  {
    assert multiset(s + {x}) == multiset(s) + multiset{x};
  }

  /** An enumeration of a set repeats nothing. */
  lemma EnumerationDistinct<T>(l: seq<T>, s: set<T>)
    requires Enumerates(l, s)
    ensures forall i, j | 0 <= i < j < |l| :: l[i] != l[j]
  {
    forall i, j | 0 <= i < j < |l| ensures l[i] != l[j] {
      assert l == l[..j] + l[j..];
      assert multiset(l) == multiset(l[..j]) + multiset(l[j..]);
      assert multiset(l[..j])[l[i]] >= 1 && multiset(l[j..])[l[j]] >= 1;
      assert multiset(l)[l[i]] <= 1;
    }
  }

  /** `sorted` over `str` puts a listing in order. */
  lemma SortByStrLessSorted(l: seq<string>)
    ensures SortedBy(SortBy(l, StrLess), StrLess)
  {
    StrLessOrder();
    SortBySorted(l, StrLess);
  }

  /** A sorted enumeration of a set of names is strictly ascending. */
  lemma SortedEnumerationAscends(r: seq<string>, s: set<string>)
    requires Enumerates(r, s) && SortedBy(r, StrLess)
    ensures forall i, j | 0 <= i < j < |r| :: StrLess(r[i], r[j])
  {
    EnumerationDistinct(r, s);
    forall i, j | 0 <= i < j < |r| ensures StrLess(r[i], r[j]) {
      StrLessTotal(r[i], r[j]);
    }
  }

  /** `sorted(names)` for a set of distinct names: ascending by Python's `<`. */
  ghost function SortedNames(s: set<string>): (r: seq<string>)
    ensures Enumerates(r, s)
    ensures forall i, j | 0 <= i < j < |r| :: StrLess(r[i], r[j])
  {
    EnumerationExists(s);
    var l :| Enumerates(l, s);
    SortByStrLessSorted(l);
    SortedEnumerationAscends(SortBy(l, StrLess), s);
    SortBy(l, StrLess)
  }

  /** A strictly ascending sequence is sorted. */
  lemma AscendingSorted(a: seq<string>)
    requires forall i, j | 0 <= i < j < |a| :: StrLess(a[i], a[j])
    ensures SortedBy(a, StrLess)
  {
    forall i, j | 0 <= i < j < |a| ensures !StrLess(a[j], a[i]) {
      StrLessIrreflexive(a[i]);
      if StrLess(a[j], a[i]) {
        StrLessTransitive(a[i], a[j], a[i]);
      }
    }
  }

  /** Two strictly ascending arrangements of the same names are the same. */
  lemma AscendingUnique(a: seq<string>, b: seq<string>)
    requires multiset(a) == multiset(b)
    requires forall i, j | 0 <= i < j < |a| :: StrLess(a[i], a[j])
    requires forall i, j | 0 <= i < j < |b| :: StrLess(b[i], b[j])
    ensures a == b
  {
    AscendingSorted(a);
    AscendingSorted(b);
    forall x, y | x in a && y in a && x != y ensures StrLess(x, y) || StrLess(y, x) {
      StrLessTotal(x, y);
    }
    SortedUnique(a, b, StrLess);
  }

  /** Whatever order the directory listing came in, sorting it gives `SortedNames`. */
  lemma SortListing(l: seq<string>, s: set<string>)
    requires Enumerates(l, s)
    ensures SortBy(l, StrLess) == SortedNames(s)
  {
    var a := SortBy(l, StrLess);
    SortByStrLessSorted(l);
    SortedEnumerationAscends(a, s);
    AscendingUnique(a, SortedNames(s));
  }

  /** A list without repeats enumerates the set of its members. */
  lemma {:induction false} DistinctEnumerates<T>(l: seq<T>)
    requires forall i, j | 0 <= i < j < |l| :: l[i] != l[j]
    ensures Enumerates(l, Members(l))
  {
    if l != [] {
      var p, x := l[..|l| - 1], l[|l| - 1];
      assert l == p + [x];
      DistinctEnumerates(p);
      assert x !in p;
      EnumeratesAppend(p, Members(p), x);
      assert Members(p) + {x} == Members(l);
    }
  }
}
