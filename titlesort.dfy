/** The two sort handlers (script.js0.js:169-179): `books.sort` with a comparator that
    compares titles by `localeCompare` at base sensitivity, A to Z or Z to A. The
    comparison is taken as the lexicographic order of ASCII-lower-cased titles, and
    the engine's sort (stable since ECMAScript 2019) as a stable insertion sort. */
module TitleSort {
  import Seqs
  import opened Books

  /** ASCII upper case to lower case; every other character as it is. */
  function Lower(c: char): (l: char)
  {
    if 'A' <= c <= 'Z' then (c as int + 32) as char else c
  }

  /** `s` with ASCII case folded away. */
  function FoldCase(s: string): (r: string)
    ensures |r| == |s|
    ensures forall i :: 0 <= i < |s| ==> r[i] == Lower(s[i])
    decreases |s|
  {
    if s == [] then [] else [Lower(s[0])] + FoldCase(s[1..])
  }

  /** The comparison key: the title with case folded away. */
  function Key(b: Book): (k: string)
  {
    FoldCase(b.title)
  }

  /** Lexicographic order on strings, by character code. */
  predicate LexLe(a: string, b: string)
    decreases |a|
  {
    if a == [] then true
    else if b == [] then false
    else if a[0] != b[0] then a[0] < b[0]
    else LexLe(a[1..], b[1..])
  }

  lemma {:induction false} LexLeReflexive(a: string)
    ensures LexLe(a, a)
    decreases |a|
  {
    if a != [] {
      LexLeReflexive(a[1..]);
    }
  }

  lemma {:induction false} LexLeTotal(a: string, b: string)
    ensures LexLe(a, b) || LexLe(b, a)
    decreases |a|
  {
    if a != [] && b != [] && a[0] == b[0] {
      LexLeTotal(a[1..], b[1..]);
    }
  }

  lemma {:induction false} LexLeTransitive(a: string, b: string, c: string)
    requires LexLe(a, b) && LexLe(b, c)
    ensures LexLe(a, c)
    decreases |a|
  {
    if a != [] && b != [] && c != [] && a[0] == b[0] == c[0] {
      LexLeTransitive(a[1..], b[1..], c[1..]);
    }
  }

  lemma {:induction false} LexLeAntisymmetric(a: string, b: string)
    requires LexLe(a, b) && LexLe(b, a)
    ensures a == b
    decreases |a|
  {
    if a != [] && b != [] {
      LexLeAntisymmetric(a[1..], b[1..]);
      assert a == [a[0]] + a[1..] && b == [b[0]] + b[1..];
    }
  }

  /** Whether the comparator lets `a` stand before `b`: A to Z compares `a` with `b`,
      Z to A compares `b` with `a`. */
  predicate Before(a: Book, b: Book, descending: bool)
  {
    if descending then LexLe(Key(b), Key(a)) else LexLe(Key(a), Key(b))
  }

  /** Titles that compare equal (`localeCompare` gives 0) let either record stand first. */
  lemma BeforeEqualTitles(a: Book, b: Book, descending: bool)
    requires Key(a) == Key(b)
    ensures Before(a, b, descending) && Before(b, a, descending)
  {
    LexLeReflexive(Key(a));
  }

  lemma BeforeTotal(a: Book, b: Book, descending: bool)
    ensures Before(a, b, descending) || Before(b, a, descending)
  {
    LexLeTotal(Key(a), Key(b));
  }

  lemma BeforeTransitive(a: Book, b: Book, c: Book, descending: bool)
    requires Before(a, b, descending) && Before(b, c, descending)
    ensures Before(a, c, descending)
  {
    if descending {
      LexLeTransitive(Key(c), Key(b), Key(a));
    } else {
      LexLeTransitive(Key(a), Key(b), Key(c));
    }
  }

  ghost predicate Sorted(s: seq<Book>, descending: bool)
  {
    forall i, j :: 0 <= i < j < |s| ==> Before(s[i], s[j], descending)
  }

  /** The records whose title compares equal to `k`, in list order. */
  function SameKey(s: seq<Book>, k: string): (r: seq<Book>)
  {
    Seqs.Filter(s, (b: Book) => Key(b) == k)
  }

  /** `x` placed before the first record it may stand before, so that it precedes the
      records whose titles compare equal to its own. */
  function Insert(x: Book, s: seq<Book>, descending: bool): (r: seq<Book>)
    ensures |r| == |s| + 1
    decreases |s|
  {
    if s == [] then [x]
    else if Before(x, s[0], descending) then [x] + s
    else [s[0]] + Insert(x, s[1..], descending)
  }

  /** Insertion adds `x` and loses nothing. */
  lemma {:induction false} InsertPermutes(x: Book, s: seq<Book>, descending: bool)
    ensures multiset(Insert(x, s, descending)) == multiset(s) + multiset{x}
    decreases |s|
  {
    if s == [] || Before(x, s[0], descending) {
      assert Insert(x, s, descending) == [x] + s;
    } else {
      var rest := Insert(x, s[1..], descending);
      InsertPermutes(x, s[1..], descending);
      assert Insert(x, s, descending) == [s[0]] + rest;
      assert multiset(s) == multiset{s[0]} + multiset(s[1..]) by {
        assert s == [s[0]] + s[1..];
      }
    }
  }

  /** A record that may stand before every element of a sorted list may head it. */
  lemma SortedCons(h: Book, t: seq<Book>, descending: bool)
    requires Sorted(t, descending)
    requires forall j :: 0 <= j < |t| ==> Before(h, t[j], descending)
    ensures Sorted([h] + t, descending)
  {
    var r := [h] + t;
    forall i, j | 0 <= i < j < |r| ensures Before(r[i], r[j], descending) {
      if i == 0 {
        assert r[j] == t[j - 1];
      } else {
        assert r[i] == t[i - 1] && r[j] == t[j - 1];
      }
    }
  }

  /** Insertion keeps a sorted list sorted. */
  lemma {:induction false} InsertSorted(x: Book, s: seq<Book>, descending: bool)
    requires Sorted(s, descending)
    ensures Sorted(Insert(x, s, descending), descending)
    decreases |s|
  {
    if s == [] {
    } else if Before(x, s[0], descending) {
      forall j | 0 <= j < |s| ensures Before(x, s[j], descending) {
        if j > 0 { BeforeTransitive(x, s[0], s[j], descending); }
      }
      SortedCons(x, s, descending);
    } else {
      var tail := s[1..];
      var rest := Insert(x, tail, descending);
      assert Sorted(tail, descending);
      InsertSorted(x, tail, descending);
      BeforeTotal(x, s[0], descending);
      InsertPermutes(x, tail, descending);
      forall j | 0 <= j < |rest| ensures Before(s[0], rest[j], descending) {
        assert rest[j] in multiset(rest);
        if rest[j] != x {
          assert rest[j] in multiset(tail);
          var k :| 0 <= k < |tail| && tail[k] == rest[j];
          assert s[k + 1] == rest[j];
        }
      }
      SortedCons(s[0], rest, descending);
    }
  }

  lemma SameKeyCons(x: Book, s: seq<Book>, k: string)
    ensures SameKey([x] + s, k) == (if Key(x) == k then [x] else []) + SameKey(s, k)
  {
    assert ([x] + s)[1..] == s;
  }

  /** Inserting keeps, for every key, the order of the records with that key, with `x`
      first among its equals. */
  lemma {:induction false} InsertStable(x: Book, s: seq<Book>, descending: bool, k: string)
    ensures SameKey(Insert(x, s, descending), k) == (if Key(x) == k then [x] else []) + SameKey(s, k)
    decreases |s|
  {
    if s == [] || Before(x, s[0], descending) {
      assert Insert(x, s, descending) == [x] + s;
      SameKeyCons(x, s, k);
    } else {
      var rest := Insert(x, s[1..], descending);
      assert Insert(x, s, descending) == [s[0]] + rest;
      assert s == [s[0]] + s[1..];
      InsertStable(x, s[1..], descending, k);
      SameKeyCons(s[0], rest, k);
      SameKeyCons(s[0], s[1..], k);
      if Key(x) == k {
        assert Key(s[0]) != k by {
          if Key(s[0]) == k { LexLeReflexive(k); }
        }
      }
    }
  }

  /** Sorting by title: each record inserted, from the last to the first, into the
      sorted rest of the list. */
  function SortByTitle(s: seq<Book>, descending: bool): (r: seq<Book>)
    ensures |r| == |s|
    decreases |s|
  {
    if s == [] then [] else Insert(s[0], SortByTitle(s[1..], descending), descending)
  }

  /** The sorted list holds exactly the records of the input. */
  lemma {:induction false} SortByTitlePermutes(s: seq<Book>, descending: bool)
    ensures multiset(SortByTitle(s, descending)) == multiset(s)
    decreases |s|
  {
    if s != [] {
      var t := s[1..];
      var sorted := SortByTitle(t, descending);
      SortByTitlePermutes(t, descending);
      InsertPermutes(s[0], sorted, descending);
      assert SortByTitle(s, descending) == Insert(s[0], sorted, descending);
      assert multiset(s) == multiset(t) + multiset{s[0]} by {
        assert s == [s[0]] + t;
      }
    }
  }

  /** The sorted list is in title order. */
  lemma {:induction false} SortByTitleSorted(s: seq<Book>, descending: bool)
    ensures Sorted(SortByTitle(s, descending), descending)
    decreases |s|
  {
    if s != [] {
      SortByTitleSorted(s[1..], descending);
      InsertSorted(s[0], SortByTitle(s[1..], descending), descending);
    }
  }

  /** Records whose titles compare equal keep their relative order. */
  lemma {:induction false} SortByTitleStable(s: seq<Book>, descending: bool, k: string)
    ensures SameKey(SortByTitle(s, descending), k) == SameKey(s, k)
    decreases |s|
  {
    if s != [] {
      SortByTitleStable(s[1..], descending, k);
      InsertStable(s[0], SortByTitle(s[1..], descending), descending, k);
      assert s == [s[0]] + s[1..];
    }
  }

  /** The tail of a sorted list is sorted, and its head may stand before its second record. */
  lemma SortedTail(s: seq<Book>, descending: bool)
    requires s != [] && Sorted(s, descending)
    ensures Sorted(s[1..], descending)
    ensures |s| > 1 ==> Before(s[0], s[1], descending)
  {
  }

  /** A record that may stand before the list's head is inserted at the front. */
  lemma InsertAtFront(x: Book, s: seq<Book>, descending: bool)
    requires s == [] || Before(x, s[0], descending)
    ensures Insert(x, s, descending) == [x] + s
  {
  }

  /** A head that may stand before its already sorted tail stays where it is. */
  lemma SortKeepsHead(s: seq<Book>, descending: bool)
    requires s != [] && SortByTitle(s[1..], descending) == s[1..]
    requires |s| > 1 ==> Before(s[0], s[1], descending)
    ensures SortByTitle(s, descending) == s
  {
    InsertAtFront(s[0], s[1..], descending);
    assert [s[0]] + s[1..] == s;
  }

  /** A list already in order is left as it is. */
  lemma {:induction false} SortSortedIsIdentity(s: seq<Book>, descending: bool)
    requires Sorted(s, descending)
    ensures SortByTitle(s, descending) == s
    decreases |s|
  {
    if s != [] {
      SortedTail(s, descending);
      SortSortedIsIdentity(s[1..], descending);
      SortKeepsHead(s, descending);
    }
  }

  /** Sorting twice in the same direction is sorting once. */
  lemma SortByTitleIdempotent(s: seq<Book>, descending: bool)
    ensures SortByTitle(SortByTitle(s, descending), descending) == SortByTitle(s, descending)
  {
    SortByTitleSorted(s, descending);
    SortSortedIsIdentity(SortByTitle(s, descending), descending);
  }

  /** No two different records have titles that compare equal. */
  ghost predicate DistinctKeys(s: seq<Book>)
  {
    forall a, b :: a in s && b in s && Key(a) == Key(b) ==> a == b
  }

  /** Two sorted arrangements of the same records with distinct keys start alike. */
  lemma SortedHeadsEqual(x: seq<Book>, y: seq<Book>, descending: bool)
    requires x != [] && multiset(x) == multiset(y)
    requires Sorted(x, descending) && Sorted(y, descending)
    requires DistinctKeys(x)
    ensures y != [] && x[0] == y[0]
  {
    assert x[0] in multiset(y);
    assert y[0] in multiset(x);
    var i :| 0 <= i < |x| && x[i] == y[0];
    var j :| 0 <= j < |y| && y[j] == x[0];
    assert Before(x[0], y[0], descending) by {
      if i == 0 { LexLeReflexive(Key(x[0])); }
    }
    assert Before(y[0], x[0], descending) by {
      if j == 0 { LexLeReflexive(Key(y[0])); }
    }
    if descending {
      LexLeAntisymmetric(Key(y[0]), Key(x[0]));
    } else {
      LexLeAntisymmetric(Key(x[0]), Key(y[0]));
    }
    assert x[0] in x && y[0] in x;
  }

  lemma TailsAgree(x: seq<Book>, y: seq<Book>)
    requires x != [] && y != [] && x[0] == y[0] && multiset(x) == multiset(y)
    ensures multiset(x[1..]) == multiset(y[1..])
  {
    assert x == [x[0]] + x[1..] && y == [y[0]] + y[1..];
    assert multiset(x) == multiset{x[0]} + multiset(x[1..]);
    assert multiset(y) == multiset{y[0]} + multiset(y[1..]);
    forall b ensures multiset(x[1..])[b] == multiset(y[1..])[b] {
      assert multiset(x)[b] == multiset{x[0]}[b] + multiset(x[1..])[b];
      assert multiset(y)[b] == multiset{x[0]}[b] + multiset(y[1..])[b];
    }
  }

  lemma DistinctKeysTail(x: seq<Book>)
    requires x != [] && DistinctKeys(x)
    ensures DistinctKeys(x[1..])
  {
    forall a, b | a in x[1..] && b in x[1..] && Key(a) == Key(b) ensures a == b {
      assert a in x && b in x;
    }
  }

  /** With distinct keys there is only one sorted arrangement of a multiset of records. */
  lemma {:induction false} SortedUnique(x: seq<Book>, y: seq<Book>, descending: bool)
    requires multiset(x) == multiset(y)
    requires Sorted(x, descending) && Sorted(y, descending)
    requires DistinctKeys(x)
    ensures x == y
    decreases |x|
  {
    if x == [] {
      assert |y| == |multiset(y)| == 0;
    } else {
      SortedHeadsEqual(x, y, descending);
      TailsAgree(x, y);
      DistinctKeysTail(x);
      assert Sorted(x[1..], descending) && Sorted(y[1..], descending);
      SortedUnique(x[1..], y[1..], descending);
      assert x == [x[0]] + x[1..] && y == [y[0]] + y[1..];
    }
  }

  /** When no two titles compare equal, sorting Z to A after A to Z reverses the list. */
  lemma SortDescendingReversesAscending(s: seq<Book>)
    requires DistinctKeys(s)
    ensures SortByTitle(SortByTitle(s, false), true) == Seqs.Reverse(SortByTitle(s, false))
  {
    var a := SortByTitle(s, false);
    var d := SortByTitle(a, true);
    var r := Seqs.Reverse(a);
    SortByTitleSorted(s, false);
    SortByTitleSorted(a, true);
    SortByTitlePermutes(s, false);
    SortByTitlePermutes(a, true);
    assert Sorted(r, true) by {
      forall i, j | 0 <= i < j < |r| ensures Before(r[i], r[j], true) {
        assert Before(a[|a| - 1 - j], a[|a| - 1 - i], false);
      }
    }
    assert DistinctKeys(d) by {
      forall x, y | x in d && y in d && Key(x) == Key(y) ensures x == y {
        assert x in multiset(d) && y in multiset(d);
        assert x in s && y in s;
      }
    }
    SortedUnique(d, r, true);
  }

  /** The titles "Banana" and "apple" sort A to Z as "apple", "Banana". */
  lemma SortIgnoresCase(id1: int, id2: int, author: string, category: string)
    ensures var banana := MakeBook(id1, "Banana", author, category);
            var apple := MakeBook(id2, "apple", author, category);
            SortByTitle([banana, apple], false) == [apple, banana]
  {
    var banana := MakeBook(id1, "Banana", author, category);
    var apple := MakeBook(id2, "apple", author, category);
    assert Key(banana)[0] == Lower('B') == 'b';
    assert Key(apple)[0] == 'a';
    assert !Before(banana, apple, false);
    assert [banana, apple][1..] == [apple];
    assert SortByTitle([apple], false) == [apple];
    assert Insert(banana, [apple], false) == [apple] + [banana];
  }
}
