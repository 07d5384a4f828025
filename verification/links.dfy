/** The page-link bar under the gallery: Prev, an optional jump to page 1,
    the pages within `Range` of the current one, an optional jump to the
    last page, and Next.  Stated over whole numbers, as the code intends. */
module Links {
  import opened Basics

  /** How many pages either side of the current one get their own link. */
  const Range: int := 2

  /** A Prev or Next control: a link to a page, or a disabled label. */
  datatype Nav = Link(target: int) | Disabled

  /** A numbered item of the window: a link, or the marked current page. */
  datatype Slot = PageLink(page: int) | Current(page: int)

  /** The bar in output order.  `first` is the `1 …` jump and `last` the
      `… total` jump, each present or not. */
  datatype LinkBar = LinkBar(prev: Nav, first: Option<int>, slots: seq<Slot>, last: Option<int>, next: Nav)

  /** The `for` loop over pages `p..hi`, marking `cur`. */
  function Slots(p: int, hi: int, cur: int): (r: seq<Slot>)
    ensures |r| == if p <= hi then hi - p + 1 else 0
    ensures forall i :: 0 <= i < |r| ==> r[i].page == p + i
    ensures forall i :: 0 <= i < |r| ==> (r[i].Current? <==> p + i == cur)
    decreases if p <= hi then hi - p + 1 else 0
  {
    if p > hi then []
    else [if p == cur then Current(p) else PageLink(p)] + Slots(p + 1, hi, cur)
  }

  function LinkWindow(cur: int, total: int): (bar: LinkBar)
    requires 1 <= cur <= total
    ensures bar.prev.Link? <==> cur > 1
    ensures bar.prev.Link? ==> bar.prev.target == cur - 1
    ensures bar.next.Link? <==> cur < total
    ensures bar.next.Link? ==> bar.next.target == cur + 1
    ensures bar.first.Some? <==> cur > Range + 1
    ensures bar.first.Some? ==> bar.first.value == 1
    ensures bar.last.Some? <==> cur < total - Range
    ensures bar.last.Some? ==> bar.last.value == total
    ensures 1 <= |bar.slots| <= 2 * Range + 1
    ensures bar.slots[0].page == Max(1, cur - Range)
    ensures bar.slots[|bar.slots| - 1].page == Min(total, cur + Range)
    ensures forall i :: 0 <= i < |bar.slots| ==> bar.slots[i].page == bar.slots[0].page + i
    ensures forall i :: 0 <= i < |bar.slots| ==> (bar.slots[i].Current? <==> bar.slots[i].page == cur)
  {
    LinkBar(
      if cur > 1 then Link(cur - 1) else Disabled,
      if cur > Range + 1 then Some(1) else None,
      Slots(Max(1, cur - Range), Min(total, cur + Range), cur),
      if cur < total - Range then Some(total) else None,
      if cur < total then Link(cur + 1) else Disabled)
  }

  /** Page numbers in the order the bar shows them, jumps included. */
  function Numbers(bar: LinkBar): (ns: seq<int>)
    ensures |ns| == |bar.slots| + (if bar.first.Some? then 1 else 0) + (if bar.last.Some? then 1 else 0)
  {
    (if bar.first.Some? then [bar.first.value] else [])
    + seq(|bar.slots|, i requires 0 <= i < |bar.slots| => bar.slots[i].page)
    + (if bar.last.Some? then [bar.last.value] else [])
  }

  predicate Increasing(s: seq<int>) {
    forall i, j :: 0 <= i < j < |s| ==> s[i] < s[j]
  }

  /** In a strictly increasing sequence a member occurs exactly once. */
  lemma {:induction false} IncreasingOccursOnce(s: seq<int>, x: int)
    requires Increasing(s) && x in s
    ensures multiset(s)[x] == 1
  {
    assert s == [s[0]] + s[1..];
    assert Increasing(s[1..]);
    if x == s[0] {
      assert x !in s[1..];
    } else {
      IncreasingOccursOnce(s[1..], x);
    }
  }

  /** The whole numbers `lo..hi`. */
  function Run(lo: int, hi: int): (r: seq<int>)
    ensures |r| == if lo <= hi then hi - lo + 1 else 0
    ensures forall i :: 0 <= i < |r| ==> r[i] == lo + i
  {
    if lo <= hi then seq(hi - lo + 1, i => lo + i) else []
  }

  lemma IncreasingConcat(a: seq<int>, b: seq<int>)
    requires Increasing(a) && Increasing(b)
    requires |a| > 0 && |b| > 0 ==> a[|a| - 1] < b[0]
    ensures Increasing(a + b)
  {
    forall i, j | 0 <= i < j < |a + b|
      ensures (a + b)[i] < (a + b)[j]
    {
      if i < |a| && j >= |a| {
        assert a[i] <= a[|a| - 1] && b[0] <= b[j - |a|];
      }
    }
  }

  lemma NumbersAreRun(cur: int, total: int)
    requires 1 <= cur <= total
    ensures var bar := LinkWindow(cur, total);
      Numbers(bar) == (if bar.first.Some? then [1] else [])
                      + Run(Max(1, cur - Range), Min(total, cur + Range))
                      + (if bar.last.Some? then [total] else [])
  {
    var bar := LinkWindow(cur, total);
    assert seq(|bar.slots|, i requires 0 <= i < |bar.slots| => bar.slots[i].page)
        == Run(Max(1, cur - Range), Min(total, cur + Range));
  }

  /** The page numbers `1`, then `lo..hi`, then `total`, where a jump is
      only present when the run does not already reach that end. */
  function Framed(lo: int, hi: int, total: int): (ns: seq<int>) {
    (if lo > 1 then [1] else []) + Run(lo, hi) + (if hi < total then [total] else [])
  }

  lemma FramedIncreasing(lo: int, hi: int, total: int)
    requires 1 <= lo <= hi <= total
    ensures Increasing(Framed(lo, hi, total))
  {
    var pre: seq<int> := if lo > 1 then [1] else [];
    var post: seq<int> := if hi < total then [total] else [];
    IncreasingConcat(pre, Run(lo, hi));
    IncreasingConcat(pre + Run(lo, hi), post);
  }

  lemma FramedMembers(lo: int, hi: int, total: int)
    requires 1 <= lo <= hi <= total
    ensures forall p :: p in Framed(lo, hi, total) <==> p == 1 || p == total || lo <= p <= hi
  {
    var pre: seq<int> := if lo > 1 then [1] else [];
    var post: seq<int> := if hi < total then [total] else [];
    var run := Run(lo, hi);
    var ns := Framed(lo, hi, total);
    forall p
      ensures p in ns <==> p == 1 || p == total || lo <= p <= hi
    {
      if lo <= p <= hi {
        assert run[p - lo] == p;
      }
      if p in run {
        var i :| 0 <= i < |run| && run[i] == p;
      }
      if p == 1 && lo == 1 {
        assert run[0] == 1;
      }
      if p == total && hi == total {
        assert run[|run| - 1] == total;
      }
    }
  }

  /** The numbered items run upward without repeats, cover the first and
      last pages and the pages near the current one and nothing else, and
      pages 1 and `total` are each shown exactly once. */
  lemma LinkWindowPages(cur: int, total: int)
    requires 1 <= cur <= total
    ensures Increasing(Numbers(LinkWindow(cur, total)))
    ensures forall p :: p in Numbers(LinkWindow(cur, total)) <==>
      p == 1 || p == total || Max(1, cur - Range) <= p <= Min(total, cur + Range)
    ensures multiset(Numbers(LinkWindow(cur, total)))[1] == 1
    ensures multiset(Numbers(LinkWindow(cur, total)))[total] == 1
  {
    var lo := Max(1, cur - Range);
    var hi := Min(total, cur + Range);
    NumbersAreRun(cur, total);
    assert Numbers(LinkWindow(cur, total)) == Framed(lo, hi, total);
    FramedIncreasing(lo, hi, total);
    FramedMembers(lo, hi, total);
    IncreasingOccursOnce(Framed(lo, hi, total), 1);
    IncreasingOccursOnce(Framed(lo, hi, total), total);
  }

  /** Exactly one item is marked current, and it is the current page. */
  lemma CurrentMarkedOnce(cur: int, total: int)
    requires 1 <= cur <= total
    ensures exists i :: 0 <= i < |LinkWindow(cur, total).slots| && LinkWindow(cur, total).slots[i] == Current(cur)
    ensures forall i, j ::
      (0 <= i < |LinkWindow(cur, total).slots| && 0 <= j < |LinkWindow(cur, total).slots|
       && LinkWindow(cur, total).slots[i].Current? && LinkWindow(cur, total).slots[j].Current?) ==> i == j
  {
    var s := LinkWindow(cur, total).slots;
    var i := cur - s[0].page;
    assert s[i].page == cur;
  }
}
