/** The media scanner: turns one raw directory listing into the ordered
    catalog of image names (the filtering loop and `natcasesort` followed by
    `array_values`). */
module Scanner {
  import opened Text
  import opened NatOrder

  /** The extensions the gallery shows, compared after lower-casing. */
  const Allowed: seq<string> := ["jpg", "jpeg", "png", "gif", "webp"]

  /** PHP's strict `in_array`: a front-to-back scan for an equal element. */
  predicate InArray(x: string, list: seq<string>) {
    |list| > 0 && (list[0] == x || InArray(x, list[1..]))
  }

  /** The scan finds exactly the members of the list. */
  lemma {:induction false} InArrayIsMembership(x: string, list: seq<string>)
    ensures InArray(x, list) <==> x in list
  {
    if |list| > 0 {
      InArrayIsMembership(x, list[1..]);
      assert list == [list[0]] + list[1..];
    }
  }

  /** The filter's test for one directory entry. */
  predicate Keep(name: string) {
    name != "." && name != ".." && InArray(Lower(Extension(name)), Allowed)
  }

  /** Each name occurs at most once. */
  ghost predicate Distinct(s: seq<string>) {
    forall x :: multiset(s)[x] <= 1
  }

  /** The entries `keep` accepts, in listing order. */
  function FilterBy(keep: string -> bool, listing: seq<string>): (r: seq<string>)
  {
    if |listing| == 0 then []
    else (if keep(listing[0]) then [listing[0]] else []) + FilterBy(keep, listing[1..])
  }

  /** Filtering keeps exactly the accepted entries, each as often as it was listed. */
  lemma {:induction false} FilterByCounts(keep: string -> bool, listing: seq<string>)
    ensures forall x :: x in FilterBy(keep, listing) <==> x in listing && keep(x)
    ensures forall x :: multiset(FilterBy(keep, listing))[x]
                       == if keep(x) then multiset(listing)[x] else 0
  {
    if |listing| > 0 {
      FilterByCounts(keep, listing[1..]);
      assert listing == [listing[0]] + listing[1..];
    }
  }

  /** The kept entries, in listing order. */
  function Filter(listing: seq<string>): (r: seq<string>)
    ensures forall x :: x in r <==> x in listing && Keep(x)
    ensures forall x :: multiset(r)[x] == if Keep(x) then multiset(listing)[x] else 0
    ensures multiset(r) <= multiset(listing)
  {
    FilterByCounts(Keep, listing);
    FilterBy(Keep, listing)
  }

  /** Filtering commutes with splitting the listing: kept names keep their
      relative order. */
  lemma {:induction false} FilterByAppend(keep: string -> bool, a: seq<string>, b: seq<string>)
    ensures FilterBy(keep, a + b) == FilterBy(keep, a) + FilterBy(keep, b)
  {
    if |a| > 0 {
      assert (a + b)[0] == a[0];
      assert (a + b)[1..] == a[1..] + b;
      FilterByAppend(keep, a[1..], b);
    } else {
      assert a + b == b;
    }
  }

  /** Neighbouring names are in natural order. */
  predicate Sorted(s: seq<string>) {
    forall i :: 0 < i < |s| ==> NatLe(s[i - 1], s[i])
  }

  /** Every earlier name is in natural order with every later one. */
  predicate SortedAll(s: seq<string>) {
    forall i, j :: 0 <= i < j < |s| ==> NatLe(s[i], s[j])
  }

  /** Places `x` after every name it does not sort strictly before. */
  function Insert(x: string, s: seq<string>): (r: seq<string>)
  {
    if |s| == 0 then [x]
    else if Compare(x, s[0]) < 0 then [x] + s
    else [s[0]] + Insert(x, s[1..])
  }

  /** Inserting adds exactly `x`, and the result starts with `x` or with
      the old first name. */
  lemma {:induction false} InsertCounts(x: string, s: seq<string>)
    ensures multiset(Insert(x, s)) == multiset(s) + multiset{x}
    ensures |Insert(x, s)| == |s| + 1
    ensures Insert(x, s)[0] == x || (|s| > 0 && Insert(x, s)[0] == s[0])
  {
    if |s| > 0 && Compare(x, s[0]) >= 0 {
      assert s == [s[0]] + s[1..];
      InsertCounts(x, s[1..]);
    }
  }

  /** Inserting into a naturally ordered sequence keeps it ordered. */
  lemma {:induction false} InsertKeepsSorted(x: string, s: seq<string>)
    requires Sorted(s)
    ensures Sorted(Insert(x, s))
  {
    InsertCounts(x, s);
    if |s| > 0 && Compare(x, s[0]) >= 0 {
      NatLeTotal(x, s[0]);
      InsertCounts(x, s[1..]);
      InsertKeepsSorted(x, s[1..]);
      var r := Insert(x, s[1..]);
      assert NatLe(s[0], r[0]) by {
        if |s| > 1 && r[0] == s[1] { assert NatLe(s[0], s[1]); }
      }
      assert Insert(x, s) == [s[0]] + r;
    }
  }

  /** Insertion sort that appends each name after its equals, so names
      that tie keep their listing order, as PHP 8's stable sort does. */
  function Sort(s: seq<string>): (r: seq<string>)
    ensures |r| == |s|
  {
    if |s| == 0 then []
    else
      InsertCounts(s[|s| - 1], Sort(s[..|s| - 1]));
      Insert(s[|s| - 1], Sort(s[..|s| - 1]))
  }

  /** Sorting permutes its input into natural order. */
  lemma {:induction false} SortCorrect(s: seq<string>)
    ensures multiset(Sort(s)) == multiset(s)
    ensures Sorted(Sort(s))
  {
    if |s| > 0 {
      SortCorrect(s[..|s| - 1]);
      InsertCounts(s[|s| - 1], Sort(s[..|s| - 1]));
      InsertKeepsSorted(s[|s| - 1], Sort(s[..|s| - 1]));
      assert s == s[..|s| - 1] + [s[|s| - 1]];
    }
  }

  /** The test "ties with `y` in the natural order". */
  function TiedWith(y: string): (tied: string -> bool) {
    x => Compare(x, y) == 0
  }

  /** A listing in which `keep` accepts nothing filters to nothing. */
  lemma {:induction false} FilterByNone(keep: string -> bool, t: seq<string>)
    requires forall i :: 0 <= i < |t| ==> !keep(t[i])
    ensures FilterBy(keep, t) == []
  {
    if |t| > 0 {
      assert !keep(t[0]);
      FilterByNone(keep, t[1..]);
    }
  }

  /** In an ordered sequence whose first name sorts strictly after `x`,
      no name ties with `x`. */
  lemma {:induction false} NoneTiedAfter(x: string, t: seq<string>, y: string)
    requires Sorted(t) && |t| > 0
    requires Compare(x, t[0]) < 0 && Compare(x, y) == 0
    ensures FilterBy(TiedWith(y), t) == []
  {
    SortedIsSortedAll(t);
    forall i | 0 <= i < |t|
      ensures Compare(t[i], y) != 0
    {
      if i > 0 {
        assert NatLe(t[0], t[i]);
        CompareTokensTransitive(Tokens(x), Tokens(t[0]), Tokens(t[i]));
      }
      CompareTokensAntisymmetric(Tokens(t[0]), Tokens(t[i]));
    }
    FilterByNone(TiedWith(y), t);
  }

  /** Inserting `x` puts it after every name already present that ties with it. */
  lemma {:induction false} InsertAfterTies(x: string, t: seq<string>, y: string)
    requires Sorted(t)
    ensures FilterBy(TiedWith(y), Insert(x, t))
         == FilterBy(TiedWith(y), t) + FilterBy(TiedWith(y), [x])
  {
    var keep := TiedWith(y);
    assert FilterBy(keep, []) == [];
    if |t| == 0 {
    } else if Compare(x, t[0]) < 0 {
      FilterByAppend(keep, [x], t);
      if keep(x) {
        NoneTiedAfter(x, t, y);
      }
    } else {
      assert Sorted(t[1..]) by {
        forall i | 0 < i < |t[1..]| ensures NatLe(t[1..][i - 1], t[1..][i]) {
          assert NatLe(t[i], t[i + 1]);
        }
      }
      InsertAfterTies(x, t[1..], y);
      FilterByAppend(keep, [t[0]], Insert(x, t[1..]));
      FilterByAppend(keep, [t[0]], t[1..]);
      assert t == [t[0]] + t[1..];
    }
  }

  /** The sort is stable: the names that tie with any `y` (such as `a.jpg`
      and `A.jpg`) come out in their listing order. */
  lemma {:induction false} SortStable(s: seq<string>, y: string)
    ensures FilterBy(TiedWith(y), Sort(s)) == FilterBy(TiedWith(y), s)
  {
    if |s| > 0 {
      var init := s[..|s| - 1];
      var last := s[|s| - 1];
      SortStable(init, y);
      SortCorrect(init);
      InsertAfterTies(last, Sort(init), y);
      assert s == init + [last];
      FilterByAppend(TiedWith(y), init, [last]);
    }
  }

  /** The ordered catalog of one request. */
  function Catalog(listing: seq<string>): (r: seq<string>)
    ensures forall x :: x in r <==> x in listing && Keep(x)
    ensures forall x :: multiset(r)[x] == if Keep(x) then multiset(listing)[x] else 0
    ensures Sorted(r)
  {
    SortCorrect(Filter(listing));
    Sort(Filter(listing))
  }

  /** Neighbour order extends to the whole sequence. */
  lemma {:induction false} SortedIsSortedAll(s: seq<string>)
    requires Sorted(s)
    ensures SortedAll(s)
  {
    if |s| > 1 {
      var init := s[..|s| - 1];
      assert Sorted(init);
      SortedIsSortedAll(init);
      forall i | 0 <= i < |s| - 1
        ensures NatLe(s[i], s[|s| - 1])
      {
        if i < |s| - 2 {
          assert NatLe(init[i], init[|s| - 2]);
          NatLeTransitive(s[i], s[|s| - 2], s[|s| - 1]);
        }
      }
    }
  }

  /** A directory lists each name once, so the catalog does too; and it
      never holds `.` or `..`. */
  lemma CatalogDistinct(listing: seq<string>)
    requires Distinct(listing)
    ensures Distinct(Catalog(listing))
    ensures "." !in Catalog(listing) && ".." !in Catalog(listing)
  {
    var c := Catalog(listing);
    forall x
      ensures multiset(c)[x] <= 1
    {
      assert multiset(c)[x] <= multiset(listing)[x];
    }
  }

  /** The extension is lower-cased before the test: `A.JPG` is kept. */
  lemma UpperCaseExtensionKept()
    ensures Keep("A.JPG")
  {
    assert "A" + "." + "JPG" == "A.JPG";
    KeptByExtension("A", "JPG");
    LowerJpg();
    assert Allowed[0] == "jpg";
  }

  /** A name whose extension is not an image type is dropped. */
  lemma DropNotes()
    ensures !Keep("notes.txt")
  {
    assert "notes" + "." + "txt" == "notes.txt";
    KeptByExtension("notes", "txt");
    TxtNotAllowed();
  }

  /** Whether `stem.ext` is kept depends on the lower-cased `ext` alone. */
  lemma KeptByExtension(stem: string, ext: string)
    requires '/' !in stem && '/' !in ext && '.' !in ext
    ensures Keep(stem + "." + ext) <==> Lower(ext) in Allowed
  {
    ExtensionOfName(stem, ext);
    InArrayIsMembership(Lower(ext), Allowed);
    var name := stem + "." + ext;
    if Lower(ext) in Allowed {
      AllowedAreLong(Lower(ext));
      assert |name| >= 4;
      assert name != "." && name != "..";
    }
  }

  lemma AllowedAreLong(e: string)
    requires e in Allowed
    ensures |e| >= 3
  {
    var k :| 0 <= k < |Allowed| && Allowed[k] == e;
  }

  lemma LowerJpg()
    ensures Lower("JPG") == "jpg"
  {
    assert "JPG"[0] == 'J' && "JPG"[1] == 'P' && "JPG"[2] == 'G';
  }

  lemma TxtNotAllowed()
    ensures Lower("txt") !in Allowed
  {
    assert Lower("txt")[0] == 't';
    assert forall k :: 0 <= k < |Allowed| ==> Allowed[k][0] != 't';
  }

  lemma BeforeByFirstChar(x: string, y: string, cx: char, cy: char)
    requires |x| > 0 && |y| > 0 && !IsDigit(x[0]) && !IsDigit(y[0])
    requires UpperChar(x[0]) == cx && UpperChar(y[0]) == cy
    requires TokenLess(Chr(cx), Chr(cy))
    ensures Compare(x, y) < 0
  {
  }

  lemma OrderFacts()
    ensures Compare("a.jpg", "b.png") < 0
    ensures Compare("c10.gif", "a.jpg") > 0 && Compare("c10.gif", "b.png") > 0
    ensures Compare("c2.gif", "a.jpg") > 0 && Compare("c2.gif", "b.png") > 0
    ensures Compare("c2.gif", "c10.gif") < 0
  {
    NumericRunsExample();
    BeforeByFirstChar("a.jpg", "b.png", 'A', 'B');
    BeforeByFirstChar("a.jpg", "c10.gif", 'A', 'C');
    BeforeByFirstChar("b.png", "c10.gif", 'B', 'C');
    BeforeByFirstChar("a.jpg", "c2.gif", 'A', 'C');
    BeforeByFirstChar("b.png", "c2.gif", 'B', 'C');
    CompareTokensAntisymmetric(Tokens("a.jpg"), Tokens("c10.gif"));
    CompareTokensAntisymmetric(Tokens("b.png"), Tokens("c10.gif"));
    CompareTokensAntisymmetric(Tokens("a.jpg"), Tokens("c2.gif"));
    CompareTokensAntisymmetric(Tokens("b.png"), Tokens("c2.gif"));
  }

  lemma SortThree(a: string, b: string, c: string)
    requires Compare(a, b) < 0
    requires Compare(c, a) > 0 && Compare(c, b) > 0
    ensures Sort([b, a, c]) == [a, b, c]
  {
    assert Sort([b]) == [b];
    assert Sort([b, a]) == [a, b] by {
      assert [b, a][..1] == [b];
    }
    assert [b, a, c][..2] == [b, a];
    assert Insert(c, [b]) == [b, c];
    assert [a, b][1..] == [b];
  }

  /** Inserting a name that belongs between the last two of three. */
  lemma InsertThird(a: string, b: string, c: string, d: string)
    requires Compare(d, a) > 0 && Compare(d, b) > 0
    requires Compare(d, c) < 0
    ensures Insert(d, [a, b, c]) == [a, b, d, c]
  {
    assert Insert(d, [c]) == [d, c];
    assert [b, c][1..] == [c];
    assert Insert(d, [b, c]) == [b, d, c];
    assert [a, b, c][1..] == [b, c];
    assert [a, b, c][0] == a;
  }

  /** Sorting four names whose pairwise order is known: the shape of the
      example below, with the names left abstract. */
  lemma SortFour(a: string, b: string, c: string, d: string)
    requires Compare(a, b) < 0
    requires Compare(c, a) > 0 && Compare(c, b) > 0
    requires Compare(d, a) > 0 && Compare(d, b) > 0
    requires Compare(d, c) < 0
    ensures Sort([b, a, c, d]) == [a, b, d, c]
  {
    SortThree(a, b, c);
    InsertThird(a, b, c, d);
    var l := [b, a, c, d];
    assert l[..3] == [b, a, c];
    assert l[3] == d;
    assert Sort(l) == Insert(d, Sort([b, a, c]));
  }

  /** Kept names come out in natural order: `b.png, a.jpg, c10.gif, c2.gif`
      becomes `a.jpg, b.png, c2.gif, c10.gif`. */
  lemma SortExample()
    ensures Sort(["b.png", "a.jpg", "c10.gif", "c2.gif"])
         == ["a.jpg", "b.png", "c2.gif", "c10.gif"]
  {
    OrderFacts();
    SortFour("a.jpg", "b.png", "c10.gif", "c2.gif");
  }
}
