/** Rectangular pixel windows on the common map grid, with the union
    (bounding box) and intersection that the raster layers are aligned to
    before any pixelwise operation. A window starts at pixel column `x`, row
    `y` and spans `w` columns and `h` rows. */
module Windows {
  import opened Wrappers

  datatype Window = Window(x: int, y: int, w: nat, h: nat)
  {
    /** One past the last column. */
    function Right(): int { x + w }

    /** One past the last row. */
    function Bottom(): int { y + h }

    predicate Contains(px: int, py: int)
    {
      x <= px < Right() && y <= py < Bottom()
    }

    /** Every edge of `inner` lies on or inside the edges of this window. */
    predicate Covers(inner: Window)
    {
      x <= inner.x && y <= inner.y && inner.Right() <= Right() && inner.Bottom() <= Bottom()
    }
  }

  function Min(a: int, b: int): int { if a <= b then a else b }

  function Max(a: int, b: int): int { if a >= b then a else b }

  /** Window with the given edges; `left <= right` and `top <= bottom`. */
  function FromEdges(left: int, top: int, right: int, bottom: int): (r: Window)
    requires left <= right && top <= bottom
    ensures r.x == left && r.y == top && r.Right() == right && r.Bottom() == bottom
  {
    Window(left, top, right - left, bottom - top)
  }

  /** `find_union` of two windows: the bounding box of both. */
  function Union(a: Window, b: Window): (r: Window)
    ensures r.Covers(a) && r.Covers(b)
  {
    FromEdges(Min(a.x, b.x), Min(a.y, b.y), Max(a.Right(), b.Right()), Max(a.Bottom(), b.Bottom()))
  }

  /** `find_intersection` of two windows: the overlap, or `None` (the library
      raises ValueError) when they share no pixel. */
  function Intersection(a: Window, b: Window): (r: Option<Window>)
    ensures r.Some? ==> a.Covers(r.value) && b.Covers(r.value)
  {
    var left, top := Max(a.x, b.x), Max(a.y, b.y);
    var right, bottom := Min(a.Right(), b.Right()), Min(a.Bottom(), b.Bottom());
    if left < right && top < bottom then Some(FromEdges(left, top, right, bottom)) else None
  }

  /** The union is the least window covering both: a window covers the union
      exactly when it covers each of the two. */
  lemma UnionLeast(a: Window, b: Window, c: Window)
    ensures c.Covers(Union(a, b)) <==> c.Covers(a) && c.Covers(b)
  {
  }

  /** A pixel of either window is a pixel of the union. */
  lemma UnionContains(a: Window, b: Window, px: int, py: int)
    ensures a.Contains(px, py) || b.Contains(px, py) ==> Union(a, b).Contains(px, py)
  {
  }

  lemma UnionCommutative(a: Window, b: Window)
    ensures Union(a, b) == Union(b, a)
  {
  }

  lemma UnionAssociative(a: Window, b: Window, c: Window)
    ensures Union(Union(a, b), c) == Union(a, Union(b, c))
  {
  }

  lemma UnionIdempotent(a: Window)
    ensures Union(a, a) == a
  {
  }

  /** The intersection holds exactly the pixels common to both windows, and
      is missing exactly when there are none. */
  lemma IntersectionExact(a: Window, b: Window)
    ensures forall px, py :: a.Contains(px, py) && b.Contains(px, py) <==>
      Intersection(a, b).Some? && Intersection(a, b).value.Contains(px, py)
    ensures Intersection(a, b).None? <==> forall px, py :: !(a.Contains(px, py) && b.Contains(px, py))
  {
    var r := Intersection(a, b);
    if r.Some? {
      assert r.value.Contains(r.value.x, r.value.y);
    }
  }

  lemma IntersectionCommutative(a: Window, b: Window)
    ensures Intersection(a, b) == Intersection(b, a)
  {
  }

  /** `find_union` over a non-empty list of windows, folded from the left. */
  function UnionAll(ws: seq<Window>): Window
    requires |ws| >= 1
  {
    if |ws| == 1 then ws[0] else Union(UnionAll(ws[..|ws| - 1]), ws[|ws| - 1])
  }

  /** `hull` is the bounding box of `ws`: each of its four edges is reached by
      some window of `ws` and no window of `ws` reaches past it. */
  predicate IsHull(hull: Window, ws: seq<Window>)
  {
    && (forall i :: 0 <= i < |ws| ==> hull.Covers(ws[i]))
    && (exists i :: 0 <= i < |ws| && ws[i].x == hull.x)
    && (exists i :: 0 <= i < |ws| && ws[i].y == hull.y)
    && (exists i :: 0 <= i < |ws| && ws[i].Right() == hull.Right())
    && (exists i :: 0 <= i < |ws| && ws[i].Bottom() == hull.Bottom())
  }

  /** The folded union is the bounding box of the list. */
  lemma {:induction false} UnionAllIsHull(ws: seq<Window>)
    requires |ws| >= 1
    ensures IsHull(UnionAll(ws), ws)
  {
    if |ws| > 1 {
      var init := ws[..|ws| - 1];
      UnionAllIsHull(init);
      var u := UnionAll(init);
      var last := |ws| - 1;
      forall i | 0 <= i < |ws|
        ensures UnionAll(ws).Covers(ws[i])
      {
        if i < last {
          assert ws[i] == init[i];
        }
      }
      var ix :| 0 <= ix < |init| && init[ix].x == u.x;
      var iy :| 0 <= iy < |init| && init[iy].y == u.y;
      var ir :| 0 <= ir < |init| && init[ir].Right() == u.Right();
      var ib :| 0 <= ib < |init| && init[ib].Bottom() == u.Bottom();
      var r := UnionAll(ws);
      assert ws[if r.x == u.x then ix else last].x == r.x;
      assert ws[if r.y == u.y then iy else last].y == r.y;
      assert ws[if r.Right() == u.Right() then ir else last].Right() == r.Right();
      assert ws[if r.Bottom() == u.Bottom() then ib else last].Bottom() == r.Bottom();
    }
  }

  /** Lists with the same windows (in any order, with any repetition) have
      the same bounding box. */
  lemma HullUnique(h1: Window, ws1: seq<Window>, h2: Window, ws2: seq<Window>)
    requires IsHull(h1, ws1) && IsHull(h2, ws2)
    requires forall w :: w in ws1 <==> w in ws2
    ensures h1 == h2
  {
    var i1 :| 0 <= i1 < |ws1| && ws1[i1].x == h1.x;
    var i2 :| 0 <= i2 < |ws2| && ws2[i2].x == h2.x;
    assert ws1[i1] in ws2 && ws2[i2] in ws1;
    var j1 :| 0 <= j1 < |ws1| && ws1[j1].y == h1.y;
    var j2 :| 0 <= j2 < |ws2| && ws2[j2].y == h2.y;
    assert ws1[j1] in ws2 && ws2[j2] in ws1;
    var k1 :| 0 <= k1 < |ws1| && ws1[k1].Right() == h1.Right();
    var k2 :| 0 <= k2 < |ws2| && ws2[k2].Right() == h2.Right();
    assert ws1[k1] in ws2 && ws2[k2] in ws1;
    var l1 :| 0 <= l1 < |ws1| && ws1[l1].Bottom() == h1.Bottom();
    var l2 :| 0 <= l2 < |ws2| && ws2[l2].Bottom() == h2.Bottom();
    assert ws1[l1] in ws2 && ws2[l2] in ws1;
  }

  /** The folded union does not depend on the order of the windows. */
  lemma UnionAllOrderFree(ws1: seq<Window>, ws2: seq<Window>)
    requires |ws1| >= 1 && |ws2| >= 1
    requires forall w :: w in ws1 <==> w in ws2
    ensures UnionAll(ws1) == UnionAll(ws2)
  {
    UnionAllIsHull(ws1);
    UnionAllIsHull(ws2);
    HullUnique(UnionAll(ws1), ws1, UnionAll(ws2), ws2);
  }

  /** A pixel of any window of the list is a pixel of the folded union, and
      a pixel outside the union lies outside every window. */
  lemma UnionAllContains(ws: seq<Window>, i: int, px: int, py: int)
    requires |ws| >= 1 && 0 <= i < |ws|
    ensures ws[i].Contains(px, py) ==> UnionAll(ws).Contains(px, py)
  {
    UnionAllIsHull(ws);
  }

  /** The union of a concatenation is the union of the two parts' unions. */
  lemma {:induction false} UnionAllAppend(a: seq<Window>, b: seq<Window>)
    requires |a| >= 1 && |b| >= 1
    ensures UnionAll(a + b) == Union(UnionAll(a), UnionAll(b))
    decreases |b|
  {
    var ab := a + b;
    if |b| == 1 {
      assert ab[..|ab| - 1] == a;
    } else {
      var init := b[..|b| - 1];
      assert ab[..|ab| - 1] == a + init;
      UnionAllAppend(a, init);
      UnionAssociative(UnionAll(a), UnionAll(init), b[|b| - 1]);
    }
  }

  /** `find_intersection` over a non-empty list of windows: the common
      overlap, or `None` once some pair of partial results shares no pixel. */
  function IntersectAll(ws: seq<Window>): Option<Window>
    requires |ws| >= 1
  {
    if |ws| == 1 then Some(ws[0])
    else
      var init := IntersectAll(ws[..|ws| - 1]);
      if init.None? then None else Intersection(init.value, ws[|ws| - 1])
  }

  /** Pixel (px, py) lies in every window of the list. */
  predicate Common(ws: seq<Window>, px: int, py: int)
  {
    forall i :: 0 <= i < |ws| ==> ws[i].Contains(px, py)
  }

  /** The intersection holds exactly the pixels every window holds; it is
      missing only when no pixel is common to all of them, and for two or
      more windows exactly then. */
  lemma {:induction false} IntersectAllExact(ws: seq<Window>)
    requires |ws| >= 1
    ensures IntersectAll(ws).Some? ==> forall px, py :: IntersectAll(ws).value.Contains(px, py) <==> Common(ws, px, py)
    ensures IntersectAll(ws).None? ==> forall px, py :: !Common(ws, px, py)
    ensures |ws| >= 2 && IntersectAll(ws).Some? ==> exists px, py :: Common(ws, px, py)
  {
    if |ws| > 1 {
      var init, last := ws[..|ws| - 1], ws[|ws| - 1];
      IntersectAllExact(init);
      assert forall i :: 0 <= i < |init| ==> init[i] == ws[i];
      var r := IntersectAll(init);
      forall px, py
        ensures Common(ws, px, py) <==> Common(init, px, py) && last.Contains(px, py)
      {
      }
      if r.Some? {
        IntersectionExact(r.value, last);
        var i := IntersectAll(ws);
        if i.Some? {
          assert i.value.Contains(i.value.x, i.value.y);
          assert Common(ws, i.value.x, i.value.y);
        }
      }
    }
  }
}
