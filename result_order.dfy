/** The order in which results are reported: character count ascending, then
    file name ascending, as a stable sort. */
module ResultOrder {
  import opened JavaLang
  import opened FileResults

  /** `String.compareTo`: the difference of the first pair of code units that
      differ, or else the difference of the lengths. Only its sign matters. */
  function CompareTo(a: JString, b: JString): int
  {
    if a == [] || b == [] then |a| - |b|
    else if a[0] != b[0] then a[0] as int - b[0] as int
    else CompareTo(a[1..], b[1..])
  }

  /** `Comparator.comparing(FileResult::getCharacterCount)
      .thenComparing(FileResult::getFileName)`: `Long.compare` on the counts,
      and on a tie `String.compareTo` on the names. */
  function Compare(x: FileResult, y: FileResult): int
  {
    if x.characterCount < y.characterCount then -1
    else if x.characterCount > y.characterCount then 1
    else CompareTo(x.fileName, y.fileName)
  }

  /** `x` may come before `y`. */
  predicate Le(x: FileResult, y: FileResult)
  {
    Compare(x, y) <= 0
  }

  /** `x` and `y` have the same sort key. */
  predicate SameKey(x: FileResult, y: FileResult)
  {
    x.characterCount == y.characterCount && x.fileName == y.fileName
  }

  ghost predicate Sorted(s: seq<FileResult>)
  {
    forall i, j | 0 <= i < j < |s| :: Le(s[i], s[j])
  }

  /** The results of `s` whose key is that of `k`, in the order of `s`. */
  function Ties(s: seq<FileResult>, k: FileResult): (r: seq<FileResult>)
  {
    if s == [] then []
    else (if SameKey(s[0], k) then [s[0]] else []) + Ties(s[1..], k)
  }

  /** Insertion of `x` in front of every result it may precede. */
  function Insert(x: FileResult, t: seq<FileResult>): (r: seq<FileResult>)
    ensures multiset(r) == multiset(t) + multiset{x}
  {
    if t == [] then [x]
    else if Le(x, t[0]) then [x] + t
    else
      assert t == [t[0]] + t[1..];
      [t[0]] + Insert(x, t[1..])
  }

  /** The sort `printFileResults` applies (`Stream.sorted`, which is stable
      on an ordered stream), as an insertion sort. */
  function SortResults(s: seq<FileResult>): (r: seq<FileResult>)
    ensures multiset(r) == multiset(s)
  {
    if s == [] then []
    else
      assert s == [s[0]] + s[1..];
      Insert(s[0], SortResults(s[1..]))
  }

  // ---------------------------------------------------------------------------
  // String.compareTo is a total order on strings.

  lemma {:induction false} CompareToZeroIffEqual(a: JString, b: JString)
    ensures CompareTo(a, b) == 0 <==> a == b
  {
    if a != [] && b != [] && a[0] == b[0] {
      CompareToZeroIffEqual(a[1..], b[1..]);
      assert a == [a[0]] + a[1..] && b == [b[0]] + b[1..];
    }
  }

  lemma {:induction false} CompareToAntisymmetric(a: JString, b: JString)
    ensures CompareTo(b, a) == -CompareTo(a, b)
  {
    if a != [] && b != [] && a[0] == b[0] {
      CompareToAntisymmetric(a[1..], b[1..]);
    }
  }

  lemma {:induction false} CompareToTransitive(a: JString, b: JString, c: JString)
    requires CompareTo(a, b) <= 0 && CompareTo(b, c) <= 0
    ensures CompareTo(a, c) <= 0
  {
    if a != [] && b != [] && c != [] && a[0] == b[0] == c[0] {
      CompareToTransitive(a[1..], b[1..], c[1..]);
    }
  }

  // ---------------------------------------------------------------------------
  // The comparator is a total preorder whose ties are exactly equal keys.

  lemma CompareAntisymmetric(x: FileResult, y: FileResult)
    ensures Compare(y, x) == -Compare(x, y)
  {
    CompareToAntisymmetric(x.fileName, y.fileName);
  }

  lemma CompareZeroIffSameKey(x: FileResult, y: FileResult)
    ensures Compare(x, y) == 0 <==> SameKey(x, y)
  {
    CompareToZeroIffEqual(x.fileName, y.fileName);
  }

  lemma LeTotal(x: FileResult, y: FileResult)
    ensures Le(x, y) || Le(y, x)
  {
    CompareAntisymmetric(x, y);
  }

  lemma LeTransitive(x: FileResult, y: FileResult, z: FileResult)
    requires Le(x, y) && Le(y, z)
    ensures Le(x, z)
  {
    if x.characterCount == y.characterCount == z.characterCount {
      CompareToTransitive(x.fileName, y.fileName, z.fileName);
    }
  }

  // ---------------------------------------------------------------------------
  // Sortedness.

  lemma {:induction false} InsertSorted(x: FileResult, t: seq<FileResult>)
    requires Sorted(t)
    ensures Sorted(Insert(x, t))
  {
    if t == [] {
    } else if Le(x, t[0]) {
      var r := [x] + t;
      forall i, j | 0 <= i < j < |r| ensures Le(r[i], r[j]) {
        if i == 0 && j > 1 {
          LeTransitive(x, t[0], t[j - 1]);
        }
      }
    } else {
      var rest := Insert(x, t[1..]);
      assert Sorted(t[1..]) by {
        forall i, j | 0 <= i < j < |t[1..]| ensures Le(t[1..][i], t[1..][j]) {
          assert t[1..][i] == t[i + 1] && t[1..][j] == t[j + 1];
        }
      }
      InsertSorted(x, t[1..]);
      LeTotal(x, t[0]);
      forall y | y in rest ensures Le(t[0], y) {
        assert y in multiset(rest);
        if y != x {
          assert y in t[1..];
          var j :| 0 <= j < |t[1..]| && t[1..][j] == y;
          assert y == t[j + 1];
        }
      }
      var r := [t[0]] + rest;
      forall i, j | 0 <= i < j < |r| ensures Le(r[i], r[j]) {
        if i == 0 {
          assert r[j] == rest[j - 1] && r[j] in rest;
        } else {
          assert r[i] == rest[i - 1] && r[j] == rest[j - 1];
        }
      }
    }
  }

  /** The report order is non-decreasing in count, and within one count
      non-decreasing in file name. */
  lemma {:induction false} SortResultsSorted(s: seq<FileResult>)
    ensures Sorted(SortResults(s))
  {
    if s != [] {
      SortResultsSorted(s[1..]);
      InsertSorted(s[0], SortResults(s[1..]));
    }
  }

  /** The same, spelt out key by key. */
  lemma SortResultsOrdered(s: seq<FileResult>, i: int, j: int)
    requires 0 <= i < j < |SortResults(s)|
    ensures SortResults(s)[i].characterCount <= SortResults(s)[j].characterCount
    ensures SortResults(s)[i].characterCount == SortResults(s)[j].characterCount ==>
              CompareTo(SortResults(s)[i].fileName, SortResults(s)[j].fileName) <= 0
  {
    SortResultsSorted(s);
  }

  // ---------------------------------------------------------------------------
  // Stability: results with equal keys keep their relative order.

  lemma TiesCons(y: FileResult, s: seq<FileResult>, k: FileResult)
    ensures Ties([y] + s, k) == (if SameKey(y, k) then [y] else []) + Ties(s, k)
  {
  }

  lemma {:induction false} TiesOfInsert(x: FileResult, t: seq<FileResult>, k: FileResult)
    ensures Ties(Insert(x, t), k) == (if SameKey(x, k) then [x] else []) + Ties(t, k)
  {
    if t == [] {
      TiesCons(x, [], k);
    } else if Le(x, t[0]) {
      TiesCons(x, t, k);
    } else {
      var px := if SameKey(x, k) then [x] else [];
      var p0 := if SameKey(t[0], k) then [t[0]] else [];
      var rest := Insert(x, t[1..]);
      assert Insert(x, t) == [t[0]] + rest;
      TiesCons(t[0], rest, k);
      TiesOfInsert(x, t[1..], k);
      CompareZeroIffSameKey(x, t[0]);
      assert p0 == [] || px == [];
      calc {
        Ties(Insert(x, t), k);
        p0 + (px + Ties(t[1..], k));
        { assert p0 + px == px + p0; }
        px + (p0 + Ties(t[1..], k));
        px + Ties(t, k);
      }
    }
  }

  lemma {:induction false} SortResultsStable(s: seq<FileResult>, k: FileResult)
    ensures Ties(SortResults(s), k) == Ties(s, k)
  {
    if s != [] {
      SortResultsStable(s[1..], k);
      TiesOfInsert(s[0], SortResults(s[1..]), k);
    }
  }

  // ---------------------------------------------------------------------------
  // A sorted sequence is determined by its ties, so the stable sort has exactly
  // one possible outcome.

  lemma {:induction false} TiesHead(s: seq<FileResult>)
    requires s != []
    ensures Ties(s, s[0]) == [s[0]] + Ties(s[1..], s[0])
  {
  }

  lemma {:induction false} TiesWitness(s: seq<FileResult>, k: FileResult)
    requires Ties(s, k) != []
    ensures exists j :: 0 <= j < |s| && SameKey(s[j], k)
  {
    if !SameKey(s[0], k) {
      TiesWitness(s[1..], k);
      var j :| 0 <= j < |s[1..]| && SameKey(s[1..][j], k);
      assert s[j + 1] == s[1..][j];
    }
  }

  /** In a sorted sequence, the head's key is no greater than the key of any
      result with ties in it. */
  lemma HeadPrecedesTies(s: seq<FileResult>, k: FileResult)
    requires Sorted(s) && Ties(s, k) != []
    ensures Compare(s[0], k) <= 0
  {
    TiesWitness(s, k);
    var j :| 0 <= j < |s| && SameKey(s[j], k);
    CompareZeroIffSameKey(s[j], k);
    CompareAntisymmetric(s[j], k);
    if j > 0 {
      assert Le(s[0], s[j]);
      LeTransitive(s[0], s[j], k);
    }
  }

  lemma SortedTail(s: seq<FileResult>)
    requires Sorted(s) && s != []
    ensures Sorted(s[1..])
  {
  }

  lemma {:induction false} SortedDeterminedByTies(t: seq<FileResult>, u: seq<FileResult>)
    requires Sorted(t) && Sorted(u)
    requires forall k :: Ties(t, k) == Ties(u, k)
    ensures t == u
    decreases |t|
  {
    if t == [] || u == [] {
      if t != [] {
        TiesHead(t);
      }
      if u != [] {
        TiesHead(u);
      }
    } else {
      var a, b := t[0], u[0];
      TiesHead(t);
      TiesHead(u);
      HeadPrecedesTies(u, a);
      HeadPrecedesTies(t, b);
      CompareAntisymmetric(a, b);
      CompareZeroIffSameKey(a, b);
      assert Ties(t, a) == [a] + Ties(t[1..], a);
      assert Ties(u, a) == [b] + Ties(u[1..], a);
      assert a == b by {
        assert Ties(t, a)[0] == a && Ties(u, a)[0] == b;
      }
      forall k ensures Ties(t[1..], k) == Ties(u[1..], k) {
        var p := if SameKey(a, k) then [a] else [];
        assert Ties(t, k) == p + Ties(t[1..], k);
        assert Ties(u, k) == p + Ties(u[1..], k);
        assert (p + Ties(t[1..], k))[|p|..] == Ties(t[1..], k);
        assert (p + Ties(u[1..], k))[|p|..] == Ties(u[1..], k);
      }
      SortedTail(t);
      SortedTail(u);
      SortedDeterminedByTies(t[1..], u[1..]);
      assert t == [a] + t[1..] && u == [b] + u[1..];
    }
  }

  /** Any order of `s` that is sorted and keeps tied results in their original
      order is the one `SortResults` gives: the report order does not depend
      on which stable sorting algorithm the library uses. */
  lemma SortResultsUnique(s: seq<FileResult>, t: seq<FileResult>)
    requires Sorted(t)
    requires forall k :: Ties(t, k) == Ties(s, k)
    ensures t == SortResults(s)
  {
    SortResultsSorted(s);
    forall k ensures Ties(t, k) == Ties(SortResults(s), k) {
      SortResultsStable(s, k);
    }
    SortedDeterminedByTies(t, SortResults(s));
  }

  // ---------------------------------------------------------------------------
  // A worked example.

  /** (3, "b"), (1, "a"), (3, "a") are reported as (1, "a"), (3, "a"), (3, "b"). */
  lemma SortResultsExample(bucket: Bucket)
    ensures
      var a, b := [0x61 as Char16], [0x62 as Char16];
      var r3b := FileResult(bucket, b, 0x61, 3, true, None);
      var r1a := FileResult(bucket, a, 0x61, 1, true, None);
      var r3a := FileResult(bucket, a, 0x61, 3, true, None);
      SortResults([r3b, r1a, r3a]) == [r1a, r3a, r3b]
  {
    var a, b := [0x61 as Char16], [0x62 as Char16];
    var r3b := FileResult(bucket, b, 0x61, 3, true, None);
    var r1a := FileResult(bucket, a, 0x61, 1, true, None);
    var r3a := FileResult(bucket, a, 0x61, 3, true, None);
    var s := [r3b, r1a, r3a];
    assert s[0] == r3b && s[1..] == [r1a, r3a];
    assert [r1a, r3a][0] == r1a && [r1a, r3a][1..] == [r3a];
    assert SortResults([r3a]) == [r3a];
    assert Insert(r1a, [r3a]) == [r1a, r3a] by {
      assert Le(r1a, r3a);
    }
    assert SortResults([r1a, r3a]) == [r1a, r3a];
    assert Insert(r3b, [r3a]) == [r3a, r3b] by {
      assert CompareTo(b, a) == 1;
      assert !Le(r3b, r3a);
    }
    assert Insert(r3b, [r1a, r3a]) == [r1a, r3a, r3b] by {
      assert !Le(r3b, r1a);
      assert [r1a, r3a][1..] == [r3a];
    }
  }
}
