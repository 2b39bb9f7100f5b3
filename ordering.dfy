/**
 * Orders and the stable sort behind `Array.prototype.sort`.
 *
 * ECMAScript requires `sort` to be stable. For a comparator that is a total
 * preorder there is exactly one sorted, stable permutation of the input
 * (lemma `StableSortIsUnique`), so the insertion sort `SortBy` below is the
 * engines' result, whatever algorithm they run. `le(x, y)` stands for
 * `compare(x, y) <= 0`.
 */
module Ordering {
  import opened Seqs

  ghost predicate Transitive<T(!new)>(le: (T, T) -> bool)
  {
    forall x, y, z :: le(x, y) && le(y, z) ==> le(x, z)
  }

  ghost predicate TotalPreorder<T(!new)>(le: (T, T) -> bool)
  {
    && (forall x, y :: le(x, y) || le(y, x))
    && Transitive(le)
  }

  predicate Sorted<T>(le: (T, T) -> bool, s: seq<T>)
  {
    forall i, j :: 0 <= i < j < |s| ==> le(s[i], s[j])
  }

  predicate Equivalent<T>(le: (T, T) -> bool, x: T, y: T)
  {
    le(x, y) && le(y, x)
  }

  /** Keeping some elements of a sorted sequence leaves it sorted. */
  lemma {:induction false} FilterSorted<T>(le: (T, T) -> bool, s: seq<T>, p: T -> bool)
    requires Sorted(le, s)
    ensures Sorted(le, Filter(s, p))
  {
    if s != [] {
      FilterSorted(le, s[1..], p);
      var r := Filter(s, p);
      var t := Filter(s[1..], p);
      if p(s[0]) {
        assert r == [s[0]] + t;
        forall j | 0 < j < |r| ensures le(r[0], r[j]) {
          assert r[j] == t[j - 1];
          var k :| 0 <= k < |s[1..]| && s[1..][k] == r[j];
          assert s[k + 1] == r[j];
        }
      } else {
        assert r == t;
      }
    }
  }

  /** Inserts `x` after every element that is not strictly greater than it. */
  function Insert<T>(x: T, s: seq<T>, le: (T, T) -> bool): (r: seq<T>)
    ensures multiset(r) == multiset(s) + multiset{x}
    ensures |r| == |s| + 1
  {
    if s == [] then [x]
    else if !le(s[0], x) then [x] + s
    else
      assert s == [s[0]] + s[1..];
      [s[0]] + Insert(x, s[1..], le)
  }

  /** The stable sort of `s` under `le`: insertion sort, left to right. */
  function SortBy<T>(s: seq<T>, le: (T, T) -> bool): (r: seq<T>)
    ensures multiset(r) == multiset(s)
    ensures |r| == |s|
  {
    if s == [] then []
    else
      assert s == s[..|s| - 1] + [s[|s| - 1]];
      Insert(s[|s| - 1], SortBy(s[..|s| - 1], le), le)
  }

  lemma {:induction false} InsertSorted<T(!new)>(x: T, s: seq<T>, le: (T, T) -> bool)
    requires TotalPreorder(le)
    requires Sorted(le, s)
    ensures Sorted(le, Insert(x, s, le))
  {
    if s != [] && le(s[0], x) {
      InsertSorted(x, s[1..], le);
      var r := Insert(x, s, le);
      var t := Insert(x, s[1..], le);
      assert r == [s[0]] + t;
      assert multiset(t) == multiset(s[1..]) + multiset{x};
      forall j | 0 < j < |r| ensures le(r[0], r[j]) {
        assert r[j] == t[j - 1];
        assert r[j] in multiset(t);
        if r[j] != x {
          assert r[j] in multiset(s[1..]);
          var k :| 0 <= k < |s[1..]| && s[1..][k] == r[j];
          assert s[k + 1] == r[j];
        }
      }
    }
  }

  /** The result of `SortBy` is sorted. */
  lemma {:induction false} SortBySorted<T(!new)>(s: seq<T>, le: (T, T) -> bool)
    requires TotalPreorder(le)
    ensures Sorted(le, SortBy(s, le))
  {
    if s != [] {
      SortBySorted(s[..|s| - 1], le);
      InsertSorted(s[|s| - 1], SortBy(s[..|s| - 1], le), le);
    }
  }

  /** The elements of `s` equivalent to `x`, in order. */
  function Tied<T>(s: seq<T>, x: T, le: (T, T) -> bool): seq<T>
  {
    if s == [] then []
    else (if Equivalent(le, s[0], x) then [s[0]] else []) + Tied(s[1..], x, le)
  }

  lemma {:induction false} TiedAppend<T>(a: seq<T>, b: seq<T>, x: T, le: (T, T) -> bool)
    ensures Tied(a + b, x, le) == Tied(a, x, le) + Tied(b, x, le)
  {
    if a == [] {
      assert a + b == b;
    } else {
      var h := if Equivalent(le, a[0], x) then [a[0]] else [];
      ConsAppend(a, b);
      assert Tied(a + b, x, le) == h + Tied(a[1..] + b, x, le);
      TiedAppend(a[1..], b, x, le);
      AppendAssoc(h, Tied(a[1..], x, le), Tied(b, x, le));
    }
  }

  /** Sorting keeps the relative order of equivalent elements. */
  ghost predicate Stable<T(!new)>(le: (T, T) -> bool, s: seq<T>, r: seq<T>)
  {
    forall x :: Tied(r, x, le) == Tied(s, x, le)
  }

  lemma {:induction false} TiedOfAllGreater<T(!new)>(s: seq<T>, x: T, y: T, le: (T, T) -> bool)
    requires TotalPreorder(le)
    requires Equivalent(le, x, y)
    requires forall k :: 0 <= k < |s| ==> !le(s[k], x)
    ensures Tied(s, y, le) == []
  {
    if s != [] {
      TiedOfAllGreater(s[1..], x, y, le);
    }
  }

  lemma {:induction false} InsertTied<T(!new)>(x: T, s: seq<T>, y: T, le: (T, T) -> bool)
    requires TotalPreorder(le)
    requires Sorted(le, s)
    ensures Tied(Insert(x, s, le), y, le) == Tied(s + [x], y, le)
  {
    if s == [] {
      assert s + [x] == [x];
    } else if !le(s[0], x) {
      InsertTiedFront(x, s, y, le);
    } else {
      InsertTied(x, s[1..], y, le);
      InsertTiedCons(x, s, y, le);
    }
  }

  /** `x` goes in front of a sorted sequence whose first element is not `<= x`. */
  lemma InsertTiedFront<T(!new)>(x: T, s: seq<T>, y: T, le: (T, T) -> bool)
    requires TotalPreorder(le)
    requires Sorted(le, s) && s != [] && !le(s[0], x)
    ensures Tied(Insert(x, s, le), y, le) == Tied(s + [x], y, le)
  {
    var c := Tied([x], y, le);
    TiedAppend(s, [x], y, le);
    assert Insert(x, s, le) == [x] + s;
    TiedAppend([x], s, y, le);
    if Equivalent(le, x, y) {
      TiedOfAllGreater(s, x, y, le);
      assert Tied(s, y, le) == [];
      assert Tied(s, y, le) + c == c == c + Tied(s, y, le);
    } else {
      assert c == [];
      assert Tied(s, y, le) + c == Tied(s, y, le) == c + Tied(s, y, le);
    }
  }

  /** `x` goes after the first element of `s`, which is `<= x`. */
  lemma InsertTiedCons<T>(x: T, s: seq<T>, y: T, le: (T, T) -> bool)
    requires s != [] && le(s[0], x)
    requires Tied(Insert(x, s[1..], le), y, le) == Tied(s[1..] + [x], y, le)
    ensures Tied(Insert(x, s, le), y, le) == Tied(s + [x], y, le)
  {
    var t := s[1..];
    var a, b, c := Tied([s[0]], y, le), Tied(t, y, le), Tied([x], y, le);
    assert Tied(Insert(x, s, le), y, le) == a + (b + c) by {
      TiedAppend(t, [x], y, le);
      assert Insert(x, s, le) == [s[0]] + Insert(x, t, le);
      TiedAppend([s[0]], Insert(x, t, le), y, le);
    }
    assert Tied(s + [x], y, le) == (a + b) + c by {
      assert s == [s[0]] + t;
      TiedAppend([s[0]], t, y, le);
      TiedAppend(s, [x], y, le);
    }
    AppendAssoc(a, b, c);
  }

  lemma {:induction false} SortByTied<T(!new)>(s: seq<T>, y: T, le: (T, T) -> bool)
    requires TotalPreorder(le)
    ensures Tied(SortBy(s, le), y, le) == Tied(s, y, le)
  {
    if s != [] {
      var p := s[..|s| - 1];
      var x := s[|s| - 1];
      SortByTied(p, y, le);
      SortBySorted(p, le);
      InsertTied(x, SortBy(p, le), y, le);
      InsertKeepsTied(p, x, y, le, SortBy(p, le));
      assert p + [x] == s;
    }
  }

  /** One step of the insertion sort keeps the equivalent elements in order. */
  lemma InsertKeepsTied<T>(p: seq<T>, x: T, y: T, le: (T, T) -> bool, sp: seq<T>)
    requires Tied(sp, y, le) == Tied(p, y, le)
    requires Tied(Insert(x, sp, le), y, le) == Tied(sp + [x], y, le)
    ensures Tied(Insert(x, sp, le), y, le) == Tied(p + [x], y, le)
  {
    TiedAppend(sp, [x], y, le);
    TiedAppend(p, [x], y, le);
  }

  /** `SortBy` is stable. */
  lemma SortByStable<T(!new)>(s: seq<T>, le: (T, T) -> bool)
    requires TotalPreorder(le)
    ensures Stable(le, s, SortBy(s, le))
  {
    forall y ensures Tied(SortBy(s, le), y, le) == Tied(s, y, le) {
      SortByTied(s, y, le);
    }
  }

  lemma {:induction false} TiedHead<T(!new)>(s: seq<T>, le: (T, T) -> bool)
    requires TotalPreorder(le)
    requires s != []
    ensures Tied(s, s[0], le) == [s[0]] + Tied(s[1..], s[0], le)
  {
  }

  lemma {:induction false} SortedHeadIsLeast<T(!new)>(s: seq<T>, x: T, le: (T, T) -> bool)
    requires TotalPreorder(le)
    requires Sorted(le, s)
    requires x in multiset(s)
    ensures le(s[0], x)
  {
    var k :| 0 <= k < |s| && s[k] == x;
    if k > 0 {
      assert le(s[0], s[k]);
    }
  }

  lemma {:induction false} TiedDropHead<T(!new)>(r: seq<T>, t: seq<T>, le: (T, T) -> bool)
    requires TotalPreorder(le)
    requires r != [] && t != [] && r[0] == t[0]
    requires forall x :: Tied(r, x, le) == Tied(t, x, le)
    ensures forall x :: Tied(r[1..], x, le) == Tied(t[1..], x, le)
  {
    forall x ensures Tied(r[1..], x, le) == Tied(t[1..], x, le) {
      var h := if Equivalent(le, r[0], x) then [r[0]] else [];
      assert Tied(r, x, le) == h + Tied(r[1..], x, le);
      assert Tied(t, x, le) == h + Tied(t[1..], x, le);
      assert (h + Tied(r[1..], x, le))[|h|..] == Tied(r[1..], x, le);
      assert (h + Tied(t[1..], x, le))[|h|..] == Tied(t[1..], x, le);
    }
  }

  /** Two sorted permutations whose elements equivalent to the first one agree start alike. */
  lemma HeadsAgree<T(!new)>(r: seq<T>, t: seq<T>, le: (T, T) -> bool)
    requires TotalPreorder(le)
    requires Sorted(le, r) && Sorted(le, t)
    requires r != [] && multiset(r) == multiset(t)
    requires Tied(r, r[0], le) == Tied(t, r[0], le)
    ensures t != [] && r[0] == t[0]
  {
    assert r[0] in multiset(t);
    assert t[0] in multiset(r);
    SortedHeadIsLeast(t, r[0], le);
    SortedHeadIsLeast(r, t[0], le);
    TiedHead(r, le);
    assert Equivalent(le, t[0], r[0]);
    assert Tied(t, r[0], le) == [t[0]] + Tied(t[1..], r[0], le);
    assert Tied(t, r[0], le)[0] == t[0];
  }

  lemma TailMultiset<T>(r: seq<T>, t: seq<T>)
    requires r != [] && t != [] && r[0] == t[0] && multiset(r) == multiset(t)
    ensures multiset(r[1..]) == multiset(t[1..])
  {
    assert r == [r[0]] + r[1..] && t == [t[0]] + t[1..];
    assert multiset(r) == multiset{r[0]} + multiset(r[1..]);
    assert multiset(t) == multiset{t[0]} + multiset(t[1..]);
    assert multiset(r[1..]) == multiset(r) - multiset{r[0]};
    assert multiset(t[1..]) == multiset(t) - multiset{t[0]};
  }

  lemma SortedTail<T>(le: (T, T) -> bool, r: seq<T>)
    requires Sorted(le, r) && r != []
    ensures Sorted(le, r[1..])
  {
    forall i, j | 0 <= i < j < |r| - 1 ensures le(r[1..][i], r[1..][j]) {
      assert r[1..][i] == r[i + 1] && r[1..][j] == r[j + 1];
    }
  }

  /**
   * A sorted permutation that keeps equivalent elements in their original
   * relative order is unique.
   */
  lemma {:induction false} SortedTiedUnique<T(!new)>(r: seq<T>, t: seq<T>, le: (T, T) -> bool)
    requires TotalPreorder(le)
    requires Sorted(le, r) && Sorted(le, t)
    requires multiset(r) == multiset(t)
    requires forall x :: Tied(r, x, le) == Tied(t, x, le)
    ensures r == t
    decreases |r|
  {
    if r != [] {
      HeadsAgree(r, t, le);
      TiedDropHead(r, t, le);
      TailMultiset(r, t);
      SortedTail(le, r);
      SortedTail(le, t);
      SortedTiedUnique(r[1..], t[1..], le);
      assert r == [r[0]] + r[1..] && t == [t[0]] + t[1..];
    } else {
      assert |t| == 0 by {
        assert |multiset(t)| == |multiset(r)|;
      }
    }
  }

  /**
   * Whatever stable algorithm an engine uses, its result for a total
   * preorder is the one `SortBy` computes.
   */
  lemma StableSortIsUnique<T(!new)>(s: seq<T>, r: seq<T>, le: (T, T) -> bool)
    requires TotalPreorder(le)
    requires multiset(r) == multiset(s)
    requires Sorted(le, r)
    requires Stable(le, s, r)
    ensures r == SortBy(s, le)
  {
    SortBySorted(s, le);
    SortByStable(s, le);
    SortedTiedUnique(r, SortBy(s, le), le);
  }

  /** The reverse of a total preorder is one: the "desc" comparators. */
  lemma ReverseIsTotalPreorder<T(!new)>(le: (T, T) -> bool)
    requires TotalPreorder(le)
    ensures TotalPreorder((x: T, y: T) => le(y, x))
  {
  }

  /** Comparing by a key under a total preorder of keys is a total preorder. */
  lemma KeyedIsTotalPreorder<T(!new), K(!new)>(key: T -> K, le: (K, K) -> bool)
    requires TotalPreorder(le)
    ensures TotalPreorder((x: T, y: T) => le(key(x), key(y)))
  {
  }

  // ---------------------------------------------------------------------
  // The default order of `Array.prototype.sort()`: UTF-16 code units.
  // ---------------------------------------------------------------------

  /** The UTF-16 code units of one Unicode scalar value. */
  function Utf16(c: char): (u: seq<int>)
    ensures 1 <= |u| <= 2
  {
    var v := c as int;
    if v < 0x10000 then [v]
    else [0xD800 + (v - 0x10000) / 0x400, 0xDC00 + (v - 0x10000) % 0x400]
  }

  function CodeUnits(s: string): seq<int>
  {
    if s == [] then [] else Utf16(s[0]) + CodeUnits(s[1..])
  }

  /** Lexicographic order on code-unit sequences (a prefix comes first). */
  predicate LexLe(a: seq<int>, b: seq<int>)
  {
    if a == [] then true
    else if b == [] then false
    else a[0] < b[0] || (a[0] == b[0] && LexLe(a[1..], b[1..]))
  }

  /** Sequences that agree up to `k` and differ there are ordered by their elements at `k`. */
  lemma {:induction false} LexLeFirstDifference(a: seq<int>, b: seq<int>, k: nat)
    requires k < |a| && k < |b| && a[..k] == b[..k] && a[k] < b[k]
    ensures LexLe(a, b) && !LexLe(b, a)
  {
    if k > 0 {
      assert a[0] == a[..k][0] == b[..k][0] == b[0];
      assert a[1..][..k - 1] == a[1..k] == b[1..k] == b[1..][..k - 1];
      LexLeFirstDifference(a[1..], b[1..], k - 1);
    }
  }

  /** `a` sorts no later than `b` under the default `sort()` comparison. */
  predicate CodeUnitLe(a: string, b: string)
  {
    LexLe(CodeUnits(a), CodeUnits(b))
  }

  lemma {:induction false} LexLeTotal(a: seq<int>, b: seq<int>)
    ensures LexLe(a, b) || LexLe(b, a)
  {
    if a != [] && b != [] && a[0] == b[0] {
      LexLeTotal(a[1..], b[1..]);
    }
  }

  lemma {:induction false} LexLeTransitive(a: seq<int>, b: seq<int>, c: seq<int>)
    requires LexLe(a, b) && LexLe(b, c)
    ensures LexLe(a, c)
  {
    if a != [] && b != [] && c != [] && a[0] == b[0] == c[0] {
      LexLeTransitive(a[1..], b[1..], c[1..]);
    }
  }

  lemma {:induction false} LexLeAntisymmetric(a: seq<int>, b: seq<int>)
    requires LexLe(a, b) && LexLe(b, a)
    ensures a == b
  {
    if a != [] && b != [] {
      LexLeAntisymmetric(a[1..], b[1..]);
      assert a == [a[0]] + a[1..] && b == [b[0]] + b[1..];
    }
  }

  lemma CodeUnitLeIsTotalPreorder()
    ensures TotalPreorder(CodeUnitLe)
  {
    forall x, y ensures CodeUnitLe(x, y) || CodeUnitLe(y, x) {
      LexLeTotal(CodeUnits(x), CodeUnits(y));
    }
    forall x, y, z | CodeUnitLe(x, y) && CodeUnitLe(y, z) ensures CodeUnitLe(x, z) {
      LexLeTransitive(CodeUnits(x), CodeUnits(y), CodeUnits(z));
    }
  }

  lemma Utf16Prefix(c: char, d: char, ra: seq<int>, rb: seq<int>)
    requires Utf16(c) + ra == Utf16(d) + rb
    ensures c == d && ra == rb
  {
    var v, w := c as int, d as int;
    var a, b := Utf16(c) + ra, Utf16(d) + rb;
    assert a[0] == b[0];
    if v < 0x10000 {
      assert !(0xD800 <= v < 0xE000);
      assert w < 0x10000;
      assert a[1..] == ra && b[1..] == rb;
    } else {
      assert w >= 0x10000;
      assert (v - 0x10000) / 0x400 == (w - 0x10000) / 0x400;
      assert a[1] == b[1];
      assert (v - 0x10000) % 0x400 == (w - 0x10000) % 0x400;
      assert a[2..] == ra && b[2..] == rb;
    }
  }

  lemma {:induction false} CodeUnitsInjective(s: string, t: string)
    requires CodeUnits(s) == CodeUnits(t)
    ensures s == t
  {
    if s != [] && t != [] {
      Utf16Prefix(s[0], t[0], CodeUnits(s[1..]), CodeUnits(t[1..]));
      CodeUnitsInjective(s[1..], t[1..]);
      assert s == [s[0]] + s[1..] && t == [t[0]] + t[1..];
    }
  }

  /** Distinct strings never compare equal under the default order. */
  lemma CodeUnitLeAntisymmetric(a: string, b: string)
    requires CodeUnitLe(a, b) && CodeUnitLe(b, a)
    ensures a == b
  {
    LexLeAntisymmetric(CodeUnits(a), CodeUnits(b));
    CodeUnitsInjective(a, b);
  }

  /**
   * `Array.from(set).sort()`: the default sort of distinct strings is
   * strictly increasing.
   */
  lemma SortedDistinctIsStrict(s: seq<string>)
    requires Sorted(CodeUnitLe, s)
    requires forall i, j :: 0 <= i < j < |s| ==> s[i] != s[j]
    ensures forall i, j :: 0 <= i < j < |s| ==> !CodeUnitLe(s[j], s[i])
  {
    forall i, j | 0 <= i < j < |s| ensures !CodeUnitLe(s[j], s[i]) {
      if CodeUnitLe(s[j], s[i]) {
        CodeUnitLeAntisymmetric(s[i], s[j]);
      }
    }
  }

  // ---------------------------------------------------------------------
  // The in-place sort of an array.
  // ---------------------------------------------------------------------

  /** In a sorted sequence, everything before an element `<= x` is `<= x`. */
  lemma SortedBelow<T(!new)>(s: seq<T>, j: nat, x: T, le: (T, T) -> bool)
    requires Transitive(le)
    requires Sorted(le, s)
    requires 0 < j <= |s| && le(s[j - 1], x)
    ensures forall k :: 0 <= k < j ==> le(s[k], x)
  {
    forall k | 0 <= k < j - 1 ensures le(s[k], x) {
      assert le(s[k], s[j - 1]);
    }
  }

  /** `Insert` places `x` at the boundary between the elements `<= x` and the rest. */
  lemma {:induction false} InsertAt<T>(x: T, s: seq<T>, j: nat, le: (T, T) -> bool)
    requires j <= |s|
    requires forall k :: 0 <= k < j ==> le(s[k], x)
    requires forall k :: j <= k < |s| ==> !le(s[k], x)
    ensures Insert(x, s, le) == s[..j] + [x] + s[j..]
  {
    if j == 0 {
      assert s[..0] == [] && s[0..] == s;
    } else {
      var t := s[1..];
      InsertAtTail(x, s, j, le);
      InsertAt(x, t, j - 1, le);
      assert Insert(x, s, le) == [s[0]] + Insert(x, t, le) by {
        assert le(s[0], x);
      }
      ConsSplit(s, j, x);
    }
  }

  lemma InsertAtTail<T>(x: T, s: seq<T>, j: nat, le: (T, T) -> bool)
    requires 0 < j <= |s|
    requires forall k :: 0 <= k < j ==> le(s[k], x)
    requires forall k :: j <= k < |s| ==> !le(s[k], x)
    ensures forall k :: 0 <= k < j - 1 ==> le(s[1..][k], x)
    ensures forall k :: j - 1 <= k < |s[1..]| ==> !le(s[1..][k], x)
  {
    var t := s[1..];
    forall k | 0 <= k < j - 1 ensures le(t[k], x) {
      assert t[k] == s[k + 1];
    }
    forall k | j - 1 <= k < |t| ensures !le(t[k], x) {
      assert t[k] == s[k + 1];
    }
  }

  /** Moves `a[i]` left past the larger elements of the sorted prefix `a[..i]`. */
  method InsertIntoPrefix<T(!new)>(a: array<T>, i: nat, le: (T, T) -> bool)
    requires Transitive(le)
    requires i < a.Length
    requires Sorted(le, a[..i])
    modifies a
    ensures a[..i + 1] == Insert(old(a[i]), old(a[..i]), le)
    ensures a[i + 1..] == old(a[i + 1..])
  {
    ghost var sorted := a[..i];
    var x := a[i];
    var j := ShiftLarger(a, i, x, le);
    a[j] := x;
    if j > 0 {
      SortedBelow(sorted, j, x, le);
    }
    ShiftedIsInsert(sorted, x, j, a[..i + 1], le);
    assert a[i + 1..] == old(a[i + 1..]);
  }

  /**
   * The shifting loop of the insertion step: moves the elements of `a[..i]`
   * that are not `<= x`, scanning from the right, one place up, and returns
   * the hole left behind.
   */
  method ShiftLarger<T>(a: array<T>, i: nat, x: T, le: (T, T) -> bool) returns (j: nat)
    requires i < a.Length
    modifies a
    ensures j <= i
    ensures forall k :: 0 <= k < j ==> a[k] == old(a[k])
    ensures forall k :: j < k <= i ==> a[k] == old(a[k - 1])
    ensures forall k :: i < k < a.Length ==> a[k] == old(a[k])
    ensures forall k :: j <= k < i ==> !le(old(a[k]), x)
    ensures j > 0 ==> le(old(a[j - 1]), x)
  {
    j := i;
    while j > 0 && !le(a[j - 1], x)
      invariant 0 <= j <= i
      invariant forall k :: 0 <= k < j ==> a[k] == old(a[k])
      invariant forall k :: j < k <= i ==> a[k] == old(a[k - 1])
      invariant forall k :: i < k < a.Length ==> a[k] == old(a[k])
      invariant forall k :: j <= k < i ==> !le(old(a[k]), x)
    {
      a[j] := a[j - 1];
      j := j - 1;
    }
  }

  /** The prefix after the shifting loop: `sorted` with `x` dropped in at `j`. */
  lemma ShiftedIsInsert<T>(sorted: seq<T>, x: T, j: nat, b: seq<T>, le: (T, T) -> bool)
    requires j <= |sorted| && |b| == |sorted| + 1
    requires forall k :: 0 <= k < j ==> b[k] == sorted[k]
    requires b[j] == x
    requires forall k :: j < k < |b| ==> b[k] == sorted[k - 1]
    requires forall k :: 0 <= k < j ==> le(sorted[k], x)
    requires forall k :: j <= k < |sorted| ==> !le(sorted[k], x)
    ensures b == Insert(x, sorted, le)
  {
    InsertAt(x, sorted, j, le);
    var r := sorted[..j] + [x] + sorted[j..];
    forall k | 0 <= k < |b| ensures b[k] == r[k] {
      if k < j {
        assert r[k] == sorted[k];
      } else if j < k {
        assert r[k] == sorted[k - 1];
      }
    }
  }

  /** Sorts `a` in place; the result is `SortBy` of the old contents. */
  method SortInPlace<T(!new)>(a: array<T>, le: (T, T) -> bool)
    requires TotalPreorder(le)
    modifies a
    ensures a[..] == SortBy(old(a[..]), le)
  {
    ghost var s0 := a[..];
    var i := 0;
    while i < a.Length
      invariant 0 <= i <= a.Length
      invariant a[..i] == SortBy(s0[..i], le)
      invariant a[i..] == s0[i..]
    {
      SortBySorted(s0[..i], le);
      assert a[i] == s0[i] && a[i + 1..] == s0[i + 1..] by {
        assert a[i] == a[i..][0] && a[i + 1..] == a[i..][1..];
        assert s0[i] == s0[i..][0] && s0[i + 1..] == s0[i..][1..];
      }
      InsertIntoPrefix(a, i, le);
      SortByStep(s0, i, le);
      i := i + 1;
    }
    assert a[..] == a[..a.Length] && s0 == s0[..a.Length];
  }

  /** Sorting one more element inserts it into the sorted prefix. */
  lemma SortByStep<T>(s: seq<T>, i: nat, le: (T, T) -> bool)
    requires i < |s|
    ensures SortBy(s[..i + 1], le) == Insert(s[i], SortBy(s[..i], le), le)
  {
    var p := s[..i + 1];
    assert p[..|p| - 1] == s[..i] && p[|p| - 1] == s[i];
  }

  /** `[...s].sort(compare)`: a copy of `s`, sorted in place. */
  method SortCopy<T(!new)>(s: seq<T>, le: (T, T) -> bool) returns (r: seq<T>)
    requires TotalPreorder(le)
    ensures r == SortBy(s, le)
  {
    var a := new T[|s|](i requires 0 <= i < |s| => s[i]);
    assert a[..] == s;
    SortInPlace(a, le);
    r := a[..];
  }

  /** The default sort of the distinct values: sorted, repeat-free, the same members. */
  lemma DistinctSorted(xs: seq<string>)
    ensures var r := SortBy(Dedup(xs), CodeUnitLe);
      && Sorted(CodeUnitLe, r) && NoDuplicates(r)
      && (forall i :: 0 <= i < |r| ==> r[i] in xs)
      && (forall j :: 0 <= j < |xs| ==> xs[j] in r)
      && (forall x :: x in r <==> x in xs)
  {
    var d := Dedup(xs);
    var r := SortBy(d, CodeUnitLe);
    CodeUnitLeIsTotalPreorder();
    SortBySorted(d, CodeUnitLe);
    NoDuplicatesPermutation(d, r);
    MembersOfPermutation(d, r);
    forall i | 0 <= i < |r| ensures r[i] in xs {
      assert r[i] in d;
    }
    forall j | 0 <= j < |xs| ensures xs[j] in r {
      assert xs[j] in d;
    }
    forall x ensures x in r <==> x in xs {
      DedupMembers(xs, x);
    }
  }

  /** `[...].sort()` on strings, into a fresh sequence. */
  method SortCodeUnits(s: seq<string>) returns (r: seq<string>)
    ensures r == SortBy(s, CodeUnitLe)
  {
    CodeUnitLeIsTotalPreorder();
    r := SortCopy(s, CodeUnitLe);
  }
}
