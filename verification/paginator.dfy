/** The paginator: page count, the `(int)` cast of the `page` query
    parameter, clamping, and the `array_slice` that cuts one page out of the
    catalog. */
module Paginator {
  import opened Basics
  import opened Text

  /** Items per page. */
  const PerPage: nat := 20

  /** The number of pages: enough pages of `PerPage` for `n` items, and never fewer than one. */
  function TotalPages(n: nat): (t: nat)
    ensures t >= 1
    ensures n <= t * PerPage
    ensures t == 1 || (t - 1) * PerPage < n
  {
    if n == 0 then 1 else (n + PerPage - 1) / PerPage
  }

  predicate IsSpace(c: char) {
    c == ' ' || c == '\t' || c == '\n' || c == '\r' || c == '\U{0B}' || c == '\U{0C}'
  }

  /** Drops leading whitespace. */
  function TrimStart(s: string): (r: string)
    ensures |r| <= |s| && r == s[|s| - |r|..]
    ensures |r| > 0 ==> !IsSpace(r[0])
  {
    if |s| > 0 && IsSpace(s[0]) then TrimStart(s[1..]) else s
  }

  /** PHP's `(int)` cast of a query string, restricted to decimal forms:
      leading whitespace, an optional sign, then the longest run of digits;
      a string without such a run gives 0. */
  function IntCast(s: string): (v: int)
    ensures var t := TrimStart(s);
      (|t| == 0 || (!IsDigit(t[0]) && t[0] != '+' && t[0] != '-')) ==> v == 0
  {
    var t := TrimStart(s);
    if |t| == 0 then 0
    else if t[0] == '-' then -(DigitPrefixValue(t[1..]) as int)
    else if t[0] == '+' then DigitPrefixValue(t[1..])
    else DigitPrefixValue(t)
  }

  /** The value of the digit run at the front of `s` (0 when there is none). */
  function DigitPrefixValue(s: string): (v: nat) {
    DecimalValue(s[..DigitPrefix(s)])
  }

  /** The decimal spelling of a number, as a link's `?page=` carries it. */
  function Decimal(n: nat): (s: string)
    ensures |s| > 0
    ensures forall i :: 0 <= i < |s| ==> IsDigit(s[i])
  {
    if n < 10 then [('0' as int + n) as char]
    else Decimal(n / 10) + [('0' as int + n % 10) as char]
  }

  /** Reading back a spelled-out page number gives the number. */
  lemma {:induction false} DecimalRoundTrip(n: nat)
    ensures DecimalValue(Decimal(n)) == n
    ensures DigitPrefix(Decimal(n)) == |Decimal(n)|
  {
    var s := Decimal(n);
    DigitPrefixAllDigits(s);
    if n >= 10 {
      DecimalRoundTrip(n / 10);
      assert s[..|s| - 1] == Decimal(n / 10);
    }
  }

  lemma {:induction false} DigitPrefixAllDigits(s: string)
    requires forall i :: 0 <= i < |s| ==> IsDigit(s[i])
    ensures DigitPrefix(s) == |s|
  {
    if |s| > 0 {
      DigitPrefixAllDigits(s[1..]);
    }
  }

  /** The cast inverts the decimal spelling, with or without a sign. */
  lemma IntCastRoundTrip(n: nat)
    ensures IntCast(Decimal(n)) == n
    ensures IntCast("-" + Decimal(n)) == -(n as int)
  {
    DecimalRoundTrip(n);
    IntCastOfDigits(Decimal(n));
    IntCastOfNegated(Decimal(n));
  }

  lemma IntCastOfDigits(s: string)
    requires |s| > 0 && IsDigit(s[0]) && DigitPrefix(s) == |s|
    ensures IntCast(s) == DecimalValue(s)
  {
    assert !IsSpace(s[0]);
    assert TrimStart(s) == s;
    assert s[0] != '-' && s[0] != '+';
    assert s[..|s|] == s;
    assert DigitPrefixValue(s) == DecimalValue(s);
  }

  lemma IntCastOfNegated(s: string)
    requires |s| > 0 && DigitPrefix(s) == |s|
    ensures IntCast("-" + s) == -(DecimalValue(s) as int)
  {
    var t := "-" + s;
    assert t[0] == '-' && !IsSpace(t[0]);
    assert TrimStart(t) == t;
    assert t[1..] == s;
    assert s[..|s|] == s;
    assert DigitPrefixValue(s) == DecimalValue(s);
  }

  /** The requested page: the integer cast of the `page` parameter when one
      is given, and page 1 when it is absent. */
  function RequestedPage(query: Option<string>): (p: int)
    ensures query.None? ==> p == 1
    ensures query.Some? ==> p == IntCast(query.value)
  {
    match query
    case None => 1
    case Some(s) => IntCast(s)
  }

  /** What the `page` parameter means once clamped to a catalog of `t`
      pages: no parameter, or one without a leading number, shows page 1;
      the decimal spelling of an existing page shows that page; a negative
      number shows page 1. */
  lemma RequestedPageMeaning(query: Option<string>, n: nat, t: nat)
    requires t >= 1
    ensures query.None? ==> ClampPage(RequestedPage(query), t) == 1
    ensures query.Some? && (var v := TrimStart(query.value);
              |v| == 0 || (!IsDigit(v[0]) && v[0] != '+' && v[0] != '-'))
            ==> ClampPage(RequestedPage(query), t) == 1
    ensures 1 <= n <= t ==> ClampPage(RequestedPage(Some(Decimal(n))), t) == n
    ensures ClampPage(RequestedPage(Some("-" + Decimal(n))), t) == 1
  {
    IntCastRoundTrip(n);
  }

  /** The requested page pulled into range: below 1 becomes 1, beyond the last page becomes the last. */
  function ClampPage(requested: int, total: nat): (p: nat)
    requires total >= 1
    ensures 1 <= p <= total
    ensures 1 <= requested <= total ==> p == requested
    ensures requested < 1 ==> p == 1
    ensures requested > total ==> p == total
  {
    Max(1, Min(requested, total))
  }

  /** `array_slice(s, offset, len)` for a non-negative offset and length. */
  function ArraySlice<T>(s: seq<T>, offset: nat, len: nat): (r: seq<T>)
    ensures |r| == if offset >= |s| then 0 else Min(len, |s| - offset)
    ensures forall i :: 0 <= i < |r| ==> r[i] == s[offset + i]
  {
    if offset >= |s| then [] else s[offset..Min(offset + len, |s|)]
  }

  function Offset(page: nat): (o: nat)
    requires page >= 1
    ensures o % PerPage == 0 && o / PerPage == page - 1
  {
    (page - 1) * PerPage
  }

  /** The files shown on `page`. */
  function PageFiles<T>(files: seq<T>, page: nat): (r: seq<T>)
    requires 1 <= page <= TotalPages(|files|)
    ensures |r| <= PerPage
    ensures |r| == Min(PerPage, |files| - Offset(page))
    ensures |r| == 0 <==> |files| == 0
    ensures forall i :: 0 <= i < |r| ==> r[i] == files[Offset(page) + i]
  {
    ArraySlice(files, Offset(page), PerPage)
  }

  /** Pages `page`, `page + 1`, ..., `TotalPages` laid end to end. */
  function PagesFrom<T>(files: seq<T>, page: nat): (r: seq<T>)
    requires 1 <= page <= TotalPages(|files|) + 1
    decreases TotalPages(|files|) + 1 - page
  {
    if page > TotalPages(|files|) then []
    else PageFiles(files, page) + PagesFrom(files, page + 1)
  }

  /** Reading every page in order gives back the catalog: nothing is lost,
      repeated or reordered by pagination. */
  lemma AllPagesRebuildCatalog<T>(files: seq<T>)
    ensures PagesFrom(files, 1) == files
  {
    PagesFromSuffix(files, 1);
    assert files[0..] == files;
  }

  lemma {:induction false} PagesFromSuffix<T>(files: seq<T>, page: nat)
    requires 1 <= page <= TotalPages(|files|) + 1
    ensures PagesFrom(files, page) == files[Min(Offset(page), |files|)..]
    decreases TotalPages(|files|) + 1 - page
  {
    var n := |files|;
    OffsetBounds(n, page);
    if page <= TotalPages(n) {
      PagesFromSuffix(files, page + 1);
      if n > 0 {
        var lo := Offset(page);
        var hi := Min(Offset(page + 1), n);
        assert PageFiles(files, page) == files[lo..hi];
        assert files[lo..] == files[lo..hi] + files[hi..];
      }
    }
  }

  /** Where page `page` starts relative to a catalog of `n` items. */
  lemma OffsetBounds(n: nat, page: nat)
    requires 1 <= page
    ensures Offset(page + 1) == Offset(page) + PerPage
    ensures page > TotalPages(n) ==> Offset(page) >= n
    ensures page <= TotalPages(n) && n > 0 ==> Offset(page) < n
  {
    var t := TotalPages(n);
    if page > t {
      assert (page - 1) * PerPage >= t * PerPage;
    } else if n > 0 {
      assert (page - 1) * PerPage <= (t - 1) * PerPage;
    }
  }

  /** Every catalog position lies on exactly the page its index says. */
  lemma PositionOnPage<T>(files: seq<T>, i: nat)
    requires i < |files|
    ensures 1 <= i / PerPage + 1 <= TotalPages(|files|)
    ensures i % PerPage < |PageFiles(files, i / PerPage + 1)|
    ensures PageFiles(files, i / PerPage + 1)[i % PerPage] == files[i]
  {
    var t := TotalPages(|files|);
    var p := i / PerPage + 1;
    assert i == (p - 1) * PerPage + i % PerPage;
  }

  /** Forty-five items: three pages, the last starting at item 40 and
      holding five; an empty catalog still has one, empty, page. */
  lemma PaginationExamples()
    ensures TotalPages(45) == 3
    ensures Offset(3) == 40 && |PageFiles(seq(45, i => i), 3)| == 5
    ensures TotalPages(0) == 1 && PageFiles(seq(0, i => i), 1) == []
  {
  }

  /** A missing or non-numeric `page` parameter shows page 1. */
  lemma DefaultPageExamples()
    ensures ClampPage(RequestedPage(None), TotalPages(45)) == 1
    ensures ClampPage(RequestedPage(Some("abc")), TotalPages(45)) == 1
  {
    assert TrimStart("abc") == "abc";
    assert !IsDigit("abc"[0]);
    RequestedPageMeaning(Some("abc"), 0, TotalPages(45));
  }

  /** `?page=99` on forty-five items is clamped to the last page, 3. */
  lemma PageNinetyNineExample()
    ensures ClampPage(RequestedPage(Some("99")), TotalPages(45)) == 3
  {
    assert DecimalValue("99") == 99 by {
      assert "99"[..1] == "9";
    }
    assert DigitPrefix("99") == 2 by {
      assert "99"[1..] == "9";
    }
    assert TrimStart("99") == "99";
    assert "99"[..2] == "99";
  }
}
