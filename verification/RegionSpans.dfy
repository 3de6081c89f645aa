/** Spanerator.blitSpan of hsRegion_InLine.h: blitting the part of a row that
    lies inside a region. */
module RegionSpans {

  /** The pixels left <= i < right. */
  datatype Span = Span(left: int, right: int)

  datatype Option<T> = None | Some(value: T)

  // ----- the contract of clipSpan -----

  /** s is a run of row pixels that cannot be extended inside the window. */
  ghost predicate MaximalRun(row: set<int>, left: int, right: int, s: Span) {
    && left <= s.left < s.right <= right
    && (forall i :: s.left <= i < s.right ==> i in row)
    && (s.left > left ==> s.left - 1 !in row)
    && (s.right < right ==> s.right !in row)
  }

  /** clipSpan narrows the window to the leftmost run of the row inside it, and
      fails when the row has no pixel there. */
  ghost predicate ClipsTo(row: set<int>, left: int, right: int, r: Option<Span>) {
    match r
    case None => forall i :: left <= i < right ==> i !in row
    case Some(s) => MaximalRun(row, left, right, s) && forall i :: left <= i < s.left ==> i !in row
  }

  ghost predicate ClipsRow(clip: (int, int) -> Option<Span>, row: set<int>) {
    forall left, right :: ClipsTo(row, left, right, clip(left, right))
  }

  // ----- what a row looks like through a window -----

  ghost predicate Covers(spans: seq<Span>, i: int) {
    exists k :: 0 <= k < |spans| && spans[k].left <= i < spans[k].right
  }

  /** The spans are exactly the maximal runs of the row in the window, from left
      to right. */
  ghost predicate IsRowOf(spans: seq<Span>, row: set<int>, left: int, right: int) {
    && (forall k :: 0 <= k < |spans| ==> MaximalRun(row, left, right, spans[k]))
    && (forall j, k :: 0 <= j < k < |spans| ==> spans[j].right < spans[k].left)
    && (forall i :: left <= i < right && i in row ==> Covers(spans, i))
  }

  /** The runs that start before done have been found, and no run reaches done. */
  ghost predicate FoundUpTo(spans: seq<Span>, row: set<int>, left: int, right: int, done: int) {
    && (forall k :: 0 <= k < |spans| ==> MaximalRun(row, left, right, spans[k]) && spans[k].right < done)
    && (forall j, k :: 0 <= j < k < |spans| ==> spans[j].right < spans[k].left)
    && (forall i :: left <= i < done && i in row ==> Covers(spans, i))
    && (done == left || done - 1 !in row)
  }

  /** The blits are issued in order as (left, width) pairs of the row y. */
  method BlitSpan(clip: (int, int) -> Option<Span>, ghost row: set<int>, x: int, count: int)
    returns (blits: seq<Span>)
    requires ClipsRow(clip, row)
    ensures IsRowOf(blits, row, x, x + count)
  {
    blits := [];
    var left, right := x, x + count;
    assert FoundUpTo(blits, row, x, x + count, left);
    hide *;
    while true
      invariant x <= left && right == x + count
      invariant FoundUpTo(blits, row, x, x + count, left)
      decreases x + count - left
    {
      var run := clip(left, right);
      Clipped(clip, row, left, right);
      if run.None? {
        NoMoreRuns(blits, row, x, x + count, left);
        break;
      }
      OneMoreRun(blits, row, x, x + count, left, run.value);
      left, right := run.value.left, run.value.right;
      blits := blits + [Span(left, right)];
      if right + 1 >= x + count {
        break;
      }
      left := right + 1;
      right := x + count;
    }
  }

  /** Runs apart from each other, and the row's pixels in them. */
  lemma RowPixels(spans: seq<Span>, row: set<int>, left: int, right: int)
    requires IsRowOf(spans, row, left, right)
    ensures forall k :: 0 <= k < |spans| ==> left <= spans[k].left < spans[k].right <= right
    ensures forall j, k :: 0 <= j < k < |spans| ==> spans[j].right < spans[k].left
    ensures forall i :: left <= i < right ==>
      (i in row <==> exists k :: 0 <= k < |spans| && spans[k].left <= i < spans[k].right)
  {
    CoversExactly(spans, row, left, right);
    forall i | left <= i < right
      ensures i in row <==> exists k :: 0 <= k < |spans| && spans[k].left <= i < spans[k].right
    {
      assert Covers(spans, i) <==> i in row;
    }
    assert forall k :: 0 <= k < |spans| ==> MaximalRun(row, left, right, spans[k]);
  }

  lemma NoMoreRuns(spans: seq<Span>, row: set<int>, left: int, right: int, done: int)
    requires left <= done && FoundUpTo(spans, row, left, right, done)
    requires ClipsTo(row, done, right, None)
    ensures IsRowOf(spans, row, left, right)
  {
  }

  lemma Clipped(clip: (int, int) -> Option<Span>, row: set<int>, left: int, right: int)
    requires ClipsRow(clip, row)
    ensures ClipsTo(row, left, right, clip(left, right))
  {
  }

  /** The pixel after a maximal run need not be looked at again. */
  lemma OneMoreRun(spans: seq<Span>, row: set<int>, left: int, right: int, done: int, s: Span)
    requires left <= done && FoundUpTo(spans, row, left, right, done)
    requires ClipsTo(row, done, right, Some(s))
    ensures done <= s.left < s.right <= right
    ensures s.right + 1 >= right ==> IsRowOf(spans + [s], row, left, right)
    ensures s.right < right ==> FoundUpTo(spans + [s], row, left, right, s.right + 1)
  {
    var more := spans + [s];
    assert MaximalRun(row, left, right, s);
    forall i | left <= i < right && i <= s.right && i in row
      ensures Covers(more, i)
    {
      if i < done {
        var k :| 0 <= k < |spans| && spans[k].left <= i < spans[k].right;
        assert more[k] == spans[k];
      } else {
        assert more[|spans|] == s;
      }
    }
  }

  lemma CoversExactly(spans: seq<Span>, row: set<int>, left: int, right: int)
    requires IsRowOf(spans, row, left, right)
    ensures forall i :: Covers(spans, i) <==> left <= i < right && i in row
  {
    forall i | Covers(spans, i)
      ensures left <= i < right && i in row
    {
      var k :| 0 <= k < |spans| && spans[k].left <= i < spans[k].right;
      assert MaximalRun(row, left, right, spans[k]);
    }
  }

  /** A row has only one list of runs, so the contract fixes every blit. */
  lemma {:induction false} RunsAreUnique(a: seq<Span>, b: seq<Span>, row: set<int>, left: int, right: int)
    requires IsRowOf(a, row, left, right) && IsRowOf(b, row, left, right)
    ensures a == b
    decreases |a|
  {
    if a == [] || b == [] {
      SomeRunCovers(a, b, row, left, right);
      SomeRunCovers(b, a, row, left, right);
    } else {
      FirstNotBefore(a, b, row, left, right);
      FirstNotBefore(b, a, row, left, right);
      assert MaximalRun(row, left, right, a[0]) && MaximalRun(row, left, right, b[0]);
      SameEnd(a[0], b[0], row, left, right);
      SameEnd(b[0], a[0], row, left, right);
      TailIsRow(a, row, left, right);
      TailIsRow(b, row, left, right);
      RunsAreUnique(a[1..], b[1..], row, a[0].right, right);
      hide *;
      assert a == [a[0]] + a[1..] && b == [b[0]] + b[1..];
    }
  }

  lemma SameEnd(s: Span, t: Span, row: set<int>, left: int, right: int)
    requires MaximalRun(row, left, right, s) && MaximalRun(row, left, right, t) && s.left == t.left
    ensures s.right >= t.right
  {
  }

  lemma SomeRunCovers(a: seq<Span>, b: seq<Span>, row: set<int>, left: int, right: int)
    requires IsRowOf(a, row, left, right) && IsRowOf(b, row, left, right)
    ensures a == [] ==> b == []
  {
    if b != [] {
      assert MaximalRun(row, left, right, b[0]);
      assert Covers(a, b[0].left);
    }
  }

  lemma FirstNotBefore(a: seq<Span>, b: seq<Span>, row: set<int>, left: int, right: int)
    requires IsRowOf(a, row, left, right) && IsRowOf(b, row, left, right) && a != [] && b != []
    ensures a[0].left <= b[0].left
  {
    assert MaximalRun(row, left, right, b[0]);
    assert Covers(a, b[0].left);
    var k :| 0 <= k < |a| && a[k].left <= b[0].left < a[k].right;
    assert MaximalRun(row, left, right, a[0]);
    assert k > 0 ==> a[0].right < a[k].left;
  }

  lemma TailIsRow(a: seq<Span>, row: set<int>, left: int, right: int)
    requires IsRowOf(a, row, left, right) && a != []
    ensures IsRowOf(a[1..], row, a[0].right, right)
  {
    var t := a[1..];
    assert MaximalRun(row, left, right, a[0]);
    forall k | 0 <= k < |t|
      ensures MaximalRun(row, a[0].right, right, t[k])
    {
      assert MaximalRun(row, left, right, a[k + 1]);
    }
    forall i | a[0].right <= i < right && i in row
      ensures Covers(t, i)
    {
      assert Covers(a, i);
      var k :| 0 <= k < |a| && a[k].left <= i < a[k].right;
      assert t[k - 1] == a[k];
    }
  }

  // ----- the contract can be met -----

  function RunEnd(row: set<int>, i: int, right: int): (r: int)
    requires i <= right
    ensures i <= r <= right
    ensures forall j :: i <= j < r ==> j in row
    ensures r < right ==> r !in row
    decreases right - i
  {
    if i < right && i in row then RunEnd(row, i + 1, right) else i
  }

  /** The leftmost run, found pixel by pixel. */
  function LeftmostRun(row: set<int>, left: int, right: int): (r: Option<Span>)
    ensures ClipsTo(row, left, right, r)
    decreases right - left
  {
    if left >= right then None
    else if left in row then Some(Span(left, RunEnd(row, left, right)))
    else LeftmostRun(row, left + 1, right)
  }

  lemma LeftmostClips(row: set<int>)
    ensures ClipsRow((left, right) => LeftmostRun(row, left, right), row)
  {
  }
}
