/** The page numbers as PHP actually holds them.  `ceil` returns a float,
    and `max`/`min` return whichever argument wins, keeping its type (the
    first one on a tie), so `$totalPages` and `$currentPage` can be floats.
    The link loop marks the current page with the identity test `===`,
    which is false between an int and a float of the same value.  All the
    floats here hold whole numbers, so a float is modelled by its integer
    value plus a tag. */
module PhpNumbers {
  import opened Basics
  import Paginator
  import Links

  datatype Number = Int(v: int) | Float(v: int)

  /** PHP's `max(a, b)`: `b` only when it compares strictly greater. */
  function PhpMax(a: Number, b: Number): (r: Number)
    ensures r.v == Max(a.v, b.v)
    ensures r == a || r == b
    ensures a.v == b.v ==> r == a
  {
    if b.v > a.v then b else a
  }

  /** PHP's `min(a, b)`: `b` only when it compares strictly smaller. */
  function PhpMin(a: Number, b: Number): (r: Number)
    ensures r.v == Min(a.v, b.v)
    ensures r == a || r == b
    ensures a.v == b.v ==> r == a
  {
    if b.v < a.v then b else a
  }

  /** Adding a whole number keeps the type: int stays int, float stays float. */
  function Add(a: Number, k: int): (r: Number)
    ensures r.v == a.v + k
    ensures r.Int? == a.Int?
  {
    match a
    case Int(x) => Int(x + k)
    case Float(x) => Float(x + k)
  }

  /** The page count as PHP holds it: the rounded-up quotient is a float,
      and it survives the comparison with the integer 1 unless it is smaller. */
  function TotalPagesAsWritten(n: nat): (t: Number)
    ensures t.v == Paginator.TotalPages(n)
    ensures t.Float? <==> n > Paginator.PerPage
  {
    var c := (n + Paginator.PerPage - 1) / Paginator.PerPage;
    PhpMax(Int(1), Float(c))
  }

  /** The clamped current page as PHP holds it: each comparison passes on
      whichever argument wins, with its int or float kind. */
  function CurrentPageAsWritten(requested: int, total: Number): (c: Number)
    requires total.v >= 1
    ensures c.v == Paginator.ClampPage(requested, total.v)
  {
    PhpMax(Int(1), PhpMin(Int(requested), total))
  }

  /** The numbering loop with a counter of whatever kind it started as; a
      slot is marked only where counter and current page are identical in
      kind as well as in value. */
  function SlotsAsWritten(p: Number, hi: int, cur: Number): (r: seq<Links.Slot>)
    ensures |r| == if p.v <= hi then hi - p.v + 1 else 0
    ensures forall i :: 0 <= i < |r| ==> r[i].page == p.v + i
    ensures forall i :: 0 <= i < |r| ==> (r[i].Current? <==> p.Int? == cur.Int? && p.v + i == cur.v)
    decreases if p.v <= hi then hi - p.v + 1 else 0
  {
    if p.v > hi then []
    else [if p == cur then Links.Current(p.v) else Links.PageLink(p.v)] + SlotsAsWritten(Add(p, 1), hi, cur)
  }

  /** The numbered items the page actually renders for `n` catalog items
      and the requested page number. */
  function WindowAsWritten(n: nat, requested: int): (w: seq<Links.Slot>)
    ensures var t := Paginator.TotalPages(n);
      var c := Paginator.ClampPage(requested, t);
      && |w| == Min(t, c + Links.Range) - Max(1, c - Links.Range) + 1
      && (forall i :: 0 <= i < |w| ==> w[i].page == Max(1, c - Links.Range) + i)
      && (forall i :: 0 <= i < |w| ==> w[i].Current? ==> w[i].page == c)
  {
    var total := TotalPagesAsWritten(n);
    var cur := CurrentPageAsWritten(requested, total);
    SlotsAsWritten(PhpMax(Int(1), Add(cur, -Links.Range)), Min(total.v, cur.v + Links.Range), cur)
  }

  predicate HasCurrent(slots: seq<Links.Slot>) {
    exists i :: 0 <= i < |slots| && slots[i].Current?
  }

  /** Forty-five images and `?page=99`: pages 1, 2 and 3 are all rendered
      as plain links, and none is marked current. */
  lemma MarkerLostExample()
    ensures |WindowAsWritten(45, 99)| == 3
    ensures !HasCurrent(WindowAsWritten(45, 99))
  {
    var total := TotalPagesAsWritten(45);
    assert total == Float(3);
    var cur := CurrentPageAsWritten(99, total);
    assert cur == Float(3);
    assert PhpMax(Int(1), Add(cur, -Links.Range)) == Int(1);
  }

  /** Exactly when the marker goes missing: the request lies beyond the
      last page and there are two or three pages.  With four or more pages
      the loop starts from a float and the marker is shown. */
  lemma MarkerLostExactly(n: nat, requested: int)
    ensures !HasCurrent(WindowAsWritten(n, requested)) <==>
      var t := Paginator.TotalPages(n);
      requested > t && 2 <= t <= 3
  {
    var total := TotalPagesAsWritten(n);
    var cur := CurrentPageAsWritten(requested, total);
    var start := PhpMax(Int(1), Add(cur, -Links.Range));
    var hi := Min(total.v, cur.v + Links.Range);
    var w := WindowAsWritten(n, requested);
    assert cur.Float? <==> total.Float? && requested > total.v;
    assert start.v <= cur.v <= hi;
    assert w[cur.v - start.v].page == cur.v;
    assert HasCurrent(w) <==> start.Int? == cur.Int?;
  }

  /** Apart from the marker, what PHP renders agrees with the whole-number
      model: the same page count, the same current page, the same numbers. */
  lemma AsWrittenAgreesOnNumbers(n: nat, requested: int)
    ensures var t := Paginator.TotalPages(n);
      var c := Paginator.ClampPage(requested, t);
      var w := WindowAsWritten(n, requested);
      var bar := Links.LinkWindow(c, t);
      && |w| == |bar.slots|
      && forall i :: 0 <= i < |w| ==> w[i].page == bar.slots[i].page
  {
  }
}
