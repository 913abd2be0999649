/** What a data table shows: the rows of a virtual window, and the pages of the filtered data. Lengths are pixels. */
module TableView {
  import opened Prelude

  // ---- the virtual window -------------------------------------------------------------------------

  datatype View = View(rowHeight: real, viewportHeight: real, overscan: nat, scrollTop: real)

  datatype Window = Window(startIndex: int, endIndex: int, offsetTop: real, totalHeight: real)

  function Ceil(x: real): int { -(-x).Floor }

  function RowHeight(v: View): (r: real)
    ensures r >= 1.0
  {
    if v.rowHeight >= 1.0 then v.rowHeight else 1.0
  }

  function Scrolled(v: View): real { if v.scrollTop >= 0.0 then v.scrollTop else 0.0 }

  /** The row at the top edge. */
  function TopRow(v: View): int { (Scrolled(v) / RowHeight(v)).Floor }

  function VisibleCount(v: View): int { Ceil(v.viewportHeight / RowHeight(v)) }

  function VirtualWindow(total: nat, v: View): Window {
    var start := Max(0, TopRow(v) - v.overscan);
    var end := Min(total, TopRow(v) + VisibleCount(v) + v.overscan);
    Window(start, end, start as real * RowHeight(v), total as real * RowHeight(v))
  }

  /** Row k takes the pixels from k to k + 1 row heights; some of them are inside the viewport. */
  predicate Meets(v: View, k: int) {
    var top, bottom := k as real * RowHeight(v), (k + 1) as real * RowHeight(v);
    top < Scrolled(v) + v.viewportHeight && Scrolled(v) < bottom
  }

  ghost predicate ShowsEverythingInView(total: nat, v: View) {
    var w := VirtualWindow(total, v);
    forall k :: 0 <= k < total && Meets(v, k) ==> w.startIndex <= k < w.endIndex
  }

  /** How many rows begin above the bottom edge. */
  function RowsAboveBottom(v: View): int { Ceil((Scrolled(v) + v.viewportHeight) / RowHeight(v)) }

  lemma BelowQuotient(x: real, y: real, h: real)
    requires h > 0.0
    ensures x * h < y <==> x < y / h
  {
    assert y / h * h == y;
    if x < y / h { assert x * h < y / h * h; }
    if x >= y / h { assert x * h >= y / h * h; }
  }

  lemma AboveQuotient(x: real, y: real, h: real)
    requires h > 0.0
    ensures y < x * h <==> y / h < x
  {
    assert y / h * h == y;
    if y / h < x { assert y / h * h < x * h; }
    if y / h >= x { assert y / h * h >= x * h; }
  }

  lemma MeetsByIndex(v: View, k: int)
    ensures Meets(v, k) <==> TopRow(v) <= k < RowsAboveBottom(v)
  {
    var h, top, bottom := RowHeight(v), Scrolled(v), Scrolled(v) + v.viewportHeight;
    BelowQuotient(k as real, bottom, h);
    AboveQuotient((k + 1) as real, top, h);
  }

  lemma SumOfQuotients(a: real, b: real, h: real)
    requires h > 0.0
    ensures (a + b) / h == a / h + b / h
  {
  }

  lemma BottomRow(v: View)
    requires v.viewportHeight > 0.0
    ensures TopRow(v) < RowsAboveBottom(v) <= TopRow(v) + VisibleCount(v) + 1
  {
    SumOfQuotients(Scrolled(v), v.viewportHeight, RowHeight(v));
    BelowQuotient(0.0, v.viewportHeight, RowHeight(v));
  }

  /** Every row in view is in the window if and only if the overscan reaches the bottom row; one row of overscan always
      does, and without any a row cut by the bottom edge can be missing. */
  lemma WindowCoversViewportIff(total: nat, v: View)
    requires v.viewportHeight > 0.0
    ensures ShowsEverythingInView(total, v) <==>
      total <= TopRow(v) || Min(total, RowsAboveBottom(v)) <= TopRow(v) + VisibleCount(v) + v.overscan
    ensures v.overscan >= 1 ==> ShowsEverythingInView(total, v)
  {
    BottomRow(v);
    forall k ensures Meets(v, k) <==> TopRow(v) <= k < RowsAboveBottom(v) { MeetsByIndex(v, k); }
    var last := Min(total, RowsAboveBottom(v)) - 1;
    assert 0.0 <= Scrolled(v) / RowHeight(v) by { BelowQuotient(0.0, Scrolled(v), RowHeight(v)); }
    if total > TopRow(v) { assert Meets(v, last); }
  }

  /** The window has at most the visible rows and twice the overscan. */
  lemma WindowIsSmall(total: nat, v: View)
    ensures var w := VirtualWindow(total, v); w.endIndex - w.startIndex <= VisibleCount(v) + 2 * v.overscan
  {
  }

  /** The window is a slice of the rows, inside the total height, exactly while the scroll position, less the
      overscan, is not past the last row. Rows filtered away under an old scroll position leave an empty window below
      the table. */
  lemma WindowStaysInsideIff(total: nat, v: View)
    requires v.viewportHeight > 0.0
    ensures var w := VirtualWindow(total, v);
      0 <= w.startIndex <= w.endIndex <= total && w.offsetTop <= w.totalHeight <==> TopRow(v) - v.overscan <= total
  {
    var w := VirtualWindow(total, v);
    BelowQuotient(0.0, v.viewportHeight, RowHeight(v));
    assert 0.0 <= Scrolled(v) / RowHeight(v) by { BelowQuotient(0.0, Scrolled(v), RowHeight(v)); }
    if w.startIndex <= total { assert w.startIndex as real * RowHeight(v) <= total as real * RowHeight(v); }
  }

  lemma RowPlaces(start: int, k: int, h: real)
    ensures start as real * h + (k - start) as real * h == k as real * h
    ensures (k + 1) as real * h == k as real * h + h
  {
    assert (k - start) as real == k as real - start as real;
    assert start as real * h + (k as real - start as real) * h == k as real * h;
  }

  /** Where row k is drawn: the rows of the window stand one under the other from `offsetTop`. */
  function DrawnAt(total: nat, v: View, k: int): real {
    var w := VirtualWindow(total, v);
    w.offsetTop + (k - w.startIndex) as real * RowHeight(v)
  }

  /** The rows are where they would be if all were drawn: row k meets the viewport exactly if the place where it is
      drawn does, the first row of all is at the top and the end of the last one at `totalHeight`. */
  lemma RowsAreDrawnInPlace(total: nat, v: View, k: int)
    ensures Meets(v, k) <==>
      DrawnAt(total, v, k) < Scrolled(v) + v.viewportHeight && Scrolled(v) < DrawnAt(total, v, k) + RowHeight(v)
    ensures DrawnAt(total, v, 0) == 0.0 && DrawnAt(total, v, total) == VirtualWindow(total, v).totalHeight
  {
    var start, h := VirtualWindow(total, v).startIndex, RowHeight(v);
    RowPlaces(start, k, h);
    RowPlaces(start, 0, h);
    RowPlaces(start, total, h);
    assert 0 as real * h == 0.0;
  }

  // ---- pages ----------------------------------------------------------------------------------------

  function TotalPages(total: nat, pageSize: nat): int
    requires pageSize >= 1
  {
    Max(1, Ceil(total as real / pageSize as real))
  }

  /** `rows.slice(start, start + size)`. */
  function Slice<T>(rows: seq<T>, start: nat, size: nat): (r: seq<T>)
    ensures start < |rows| && size > 0 ==> r != []
  {
    rows[Min(start, |rows|)..Min(start + size, |rows|)]
  }

  function PageData<T>(rows: seq<T>, page: nat, pageSize: nat): seq<T>
    requires page >= 1
  {
    Slice(rows, (page - 1) * pageSize, pageSize)
  }

  function Pages<T>(rows: seq<T>, pageSize: nat, n: nat): seq<T> {
    if n == 0 then [] else Pages(rows, pageSize, n - 1) + PageData(rows, n, pageSize)
  }

  lemma {:induction false} PagesSoFar<T>(rows: seq<T>, pageSize: nat, n: nat)
    ensures Pages(rows, pageSize, n) == rows[..Min(n * pageSize, |rows|)]
  {
    if n > 0 {
      PagesSoFar(rows, pageSize, n - 1);
      assert n * pageSize == (n - 1) * pageSize + pageSize;
    }
  }

  lemma EnoughPages(total: nat, pageSize: nat)
    requires pageSize >= 1
    ensures total <= TotalPages(total, pageSize) * pageSize
    ensures TotalPages(total, pageSize) == 1 || (TotalPages(total, pageSize) - 1) * pageSize < total
  {
    var n, h := Ceil(total as real / pageSize as real), pageSize as real;
    assert (n - 1) as real < total as real / h <= n as real;
    BelowQuotient((n - 1) as real, total as real, h);
    BelowQuotient(n as real, total as real, h);
    assert (n * pageSize) as real == n as real * h && ((n - 1) * pageSize) as real == (n - 1) as real * h;
  }

  lemma TimesIsMonotone(a: nat, b: nat, c: nat)
    requires a <= b
    ensures a * c <= b * c
  {
  }

  lemma PageHasRows<T>(rows: seq<T>, page: nat, pageSize: nat, n: nat)
    requires pageSize >= 1 && 1 <= page <= n && rows != [] && (n == 1 || (n - 1) * pageSize < |rows|)
    ensures PageData(rows, page, pageSize) != []
  {
    if n == 1 {
      assert (page - 1) * pageSize == 0;
    } else {
      TimesIsMonotone(page - 1, n - 1, pageSize);
    }
  }

  /** The pages, one after the other, are the filtered data: no row is lost, doubled or moved, and no page but an
      only one is empty. */
  lemma PagesPartitionTheRows<T>(rows: seq<T>, pageSize: nat)
    requires pageSize >= 1
    ensures Pages(rows, pageSize, TotalPages(|rows|, pageSize)) == rows
    ensures forall page :: 1 <= page <= TotalPages(|rows|, pageSize) && rows != [] ==>
      PageData(rows, page, pageSize) != []
  {
    var n := TotalPages(|rows|, pageSize);
    EnoughPages(|rows|, pageSize);
    PagesSoFar(rows, pageSize, n);
    forall page | 1 <= page <= n && rows != [] ensures PageData(rows, page, pageSize) != [] {
      PageHasRows(rows, page, pageSize, n);
    }
  }
}
