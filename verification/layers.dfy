/** Windowed raster layers: a window on the common grid plus one row of
    pixel values per window row. Reading outside a layer's own extent yields
    the padding value (0 for numeric layers), which is how a layer behaves once
    its window is widened to a union. */
module Layers {
  import opened Wrappers
  import opened Windows
  import opened Seqs

  datatype Raster<T> = Raster(window: Window, rows: seq<seq<T>>)

  /** The pixel data has exactly the window's shape. */
  predicate Valid<T>(r: Raster<T>)
  {
    |r.rows| == r.window.h && forall j :: 0 <= j < |r.rows| ==> |r.rows[j]| == r.window.w
  }

  /** The value at grid pixel (px, py), or `pad` outside the raster's data. */
  function Get<T>(r: Raster<T>, px: int, py: int, pad: T): T
  {
    if r.window.Contains(px, py) && py - r.window.y < |r.rows| && px - r.window.x < |r.rows[py - r.window.y]|
    then r.rows[py - r.window.y][px - r.window.x]
    else pad
  }

  /** The raster over `win` whose pixel (px, py) is `f(px, py)`. */
  function Tabulate<T(!new)>(win: Window, f: (int, int) -> T): (r: Raster<T>)
    ensures Valid(r) && r.window == win
    ensures forall px, py, pad :: Get(r, px, py, pad) == if win.Contains(px, py) then f(px, py) else pad
  {
    Raster(win, seq(win.h, j => seq(win.w, i => f(win.x + i, win.y + j))))
  }

  /** Pixelwise application of `f`, keeping the window. */
  function MapPixels<T(!new), U(!new)>(r: Raster<T>, f: T -> U): (m: Raster<U>)
    requires Valid(r)
    ensures Valid(m) && m.window == r.window
    ensures forall px, py, pad: T, mpad: U :: r.window.Contains(px, py) ==> Get(m, px, py, mpad) == f(Get(r, px, py, pad))
  {
    Raster(r.window, seq(|r.rows|, j requires 0 <= j < |r.rows| => seq(|r.rows[j]|, i requires 0 <= i < |r.rows[j]| => f(r.rows[j][i]))))
  }

  /** Two well-formed rasters with the same window and the same pixels are
      the same raster. */
  lemma Extensionality<T>(a: Raster<T>, b: Raster<T>, pad: T)
    requires Valid(a) && Valid(b) && a.window == b.window
    requires forall px, py :: a.window.Contains(px, py) ==> Get(a, px, py, pad) == Get(b, px, py, pad)
    ensures a == b
  {
    forall j | 0 <= j < |a.rows|
      ensures a.rows[j] == b.rows[j]
    {
      forall i | 0 <= i < |a.rows[j]|
        ensures a.rows[j][i] == b.rows[j][i]
      {
        var px, py := a.window.x + i, a.window.y + j;
        assert a.window.Contains(px, py);
        assert Get(a, px, py, pad) == a.rows[j][i];
      }
    }
  }

  type Layer = Raster<real>

  /** The numeric value of a layer at a grid pixel, 0 outside its extent. */
  function At(l: Layer, px: int, py: int): real
  {
    Get(l, px, py, 0.0)
  }

  /** A layer saved into a fresh raster of the same extent. */
  function Saved(l: Layer): (r: Layer)
    ensures Valid(r) && r.window == l.window
    ensures forall px, py :: At(r, px, py) == At(l, px, py)
  {
    Tabulate(l.window, (px, py) => At(l, px, py))
  }

  /** Saving a well-formed layer changes nothing. */
  lemma SavedValid(l: Layer)
    requires Valid(l)
    ensures Saved(l) == l
  {
    Extensionality(Saved(l), l, 0.0);
  }

  /** `set_window_for_union` / `set_window_for_intersection`: the layer seen
      through another window, zero where that window leaves its extent. */
  function Realign(l: Layer, win: Window): (r: Layer)
    ensures Valid(r) && r.window == win
    ensures forall px, py :: At(r, px, py) == if win.Contains(px, py) then At(l, px, py) else 0.0
  {
    Tabulate(win, (px, py) => At(l, px, py))
  }

  /** The layer seen through `win`, flattened row by row onto the pixel grid
      of `win`: position `k` is pixel (x + k % w, y + k / w). */
  function Crop(l: Layer, win: Window): (g: seq<real>)
    ensures |g| == win.w * win.h
    ensures forall k :: 0 <= k < |g| ==> g[k] == At(l, win.x + k % win.w, win.y + k / win.w)
  {
    seq(win.w * win.h, k requires 0 <= k < win.w * win.h => At(l, win.x + k % win.w, win.y + k / win.w))
  }

  /** Every position of a cropped layer is a pixel of the window, so the
      values cropped from a layer are values it holds inside `win`. */
  lemma CropInside(win: Window, k: int)
    requires 0 <= k < win.w * win.h
    ensures win.Contains(win.x + k % win.w, win.y + k / win.w)
  {
    assert win.w > 0;
  }

  /** Realigning to a window that covers the layer keeps every pixel. */
  lemma RealignCovering(l: Layer, win: Window)
    requires win.Covers(l.window)
    ensures forall px, py :: At(Realign(l, win), px, py) == At(l, px, py)
  {
  }

  /** Both layers aligned to their union window, then added pixelwise. */
  function AddUnion(a: Layer, b: Layer): (r: Layer)
    ensures Valid(r) && r.window == Union(a.window, b.window)
    ensures forall px, py :: At(r, px, py) == At(a, px, py) + At(b, px, py)
  {
    Tabulate(Union(a.window, b.window), (px, py) => At(a, px, py) + At(b, px, py))
  }

  lemma AddUnionCommutative(a: Layer, b: Layer)
    ensures AddUnion(a, b) == AddUnion(b, a)
  {
    UnionCommutative(a.window, b.window);
    Extensionality(AddUnion(a, b), AddUnion(b, a), 0.0);
  }

  lemma AddUnionAssociative(a: Layer, b: Layer, c: Layer)
    ensures AddUnion(AddUnion(a, b), c) == AddUnion(a, AddUnion(b, c))
  {
    var left, right := AddUnion(AddUnion(a, b), c), AddUnion(a, AddUnion(b, c));
    UnionAssociative(a.window, b.window, c.window);
    forall px, py
      ensures Get(left, px, py, 0.0) == Get(right, px, py, 0.0)
    {
      assert At(left, px, py) == At(a, px, py) + At(b, px, py) + At(c, px, py);
      assert At(right, px, py) == At(a, px, py) + At(b, px, py) + At(c, px, py);
    }
    Extensionality(left, right, 0.0);
  }

  function WindowsOf(ls: seq<Layer>): (ws: seq<Window>)
    ensures |ws| == |ls| && forall i :: 0 <= i < |ls| ==> ws[i] == ls[i].window
  {
    seq(|ls|, i requires 0 <= i < |ls| => ls[i].window)
  }

  /** The sum of the layers' values at one pixel, each padded with 0. */
  function SumAt(ls: seq<Layer>, px: int, py: int): real
  {
    if |ls| == 0 then 0.0 else SumAt(ls[..|ls| - 1], px, py) + At(ls[|ls| - 1], px, py)
  }

  /** The accumulation loop of the summary workers: the first layer is saved
      as the running result, and each further layer is added after both are
      aligned to their union. `None` when there is nothing to accumulate. */
  function FoldAdd(ls: seq<Layer>): (r: Option<Layer>)
    ensures r.None? <==> |ls| == 0
    ensures r.Some? ==> Valid(r.value)
  {
    if |ls| == 0 then None
    else if |ls| == 1 then Some(Saved(ls[0]))
    else Some(AddUnion(FoldAdd(ls[..|ls| - 1]).value, ls[|ls| - 1]))
  }

  /** The accumulated raster spans the union of all the layers' windows. */
  lemma {:induction false} FoldAddWindow(ls: seq<Layer>)
    requires |ls| >= 1
    ensures FoldAdd(ls).value.window == UnionAll(WindowsOf(ls))
  {
    if |ls| > 1 {
      FoldAddWindow(ls[..|ls| - 1]);
      assert WindowsOf(ls)[..|ls| - 1] == WindowsOf(ls[..|ls| - 1]);
    }
  }

  /** Every pixel of the accumulated raster is the sum of the layers' values
      there, each layer contributing 0 outside its own extent. */
  lemma {:induction false} FoldAddPixel(ls: seq<Layer>, px: int, py: int)
    requires |ls| >= 1
    ensures At(FoldAdd(ls).value, px, py) == SumAt(ls, px, py)
  {
    if |ls| > 1 {
      FoldAddPixel(ls[..|ls| - 1], px, py);
    }
  }

  /** Both properties of the accumulated raster for every pixel. */
  lemma FoldAddSpec(ls: seq<Layer>)
    requires |ls| >= 1
    ensures FoldAdd(ls).value.window == UnionAll(WindowsOf(ls))
    ensures forall px, py :: At(FoldAdd(ls).value, px, py) == SumAt(ls, px, py)
  {
    FoldAddWindow(ls);
    forall px, py
      ensures At(FoldAdd(ls).value, px, py) == SumAt(ls, px, py)
    {
      FoldAddPixel(ls, px, py);
    }
  }

  lemma {:induction false} SumAtAppend(a: seq<Layer>, b: seq<Layer>, px: int, py: int)
    ensures SumAt(a + b, px, py) == SumAt(a, px, py) + SumAt(b, px, py)
    decreases |b|
  {
    if |b| == 0 {
      assert a + b == a;
    } else {
      assert (a + b)[..|a + b| - 1] == a + b[..|b| - 1];
      SumAtAppend(a, b[..|b| - 1], px, py);
    }
  }

  /** Taking one layer out of the list takes its value out of the sum. */
  lemma SumAtRemove(ys: seq<Layer>, k: nat, px: int, py: int)
    requires k < |ys|
    ensures SumAt(ys, px, py) == SumAt(ys[..k] + ys[k + 1..], px, py) + At(ys[k], px, py)
  {
    assert ys == ys[..k] + [ys[k]] + ys[k + 1..];
    SumAtAppend(ys[..k] + [ys[k]], ys[k + 1..], px, py);
    SumAtAppend(ys[..k], [ys[k]], px, py);
    SumAtAppend(ys[..k], ys[k + 1..], px, py);
    assert [ys[k]][..0] == [];
  }

  /** The per-pixel sum does not depend on the order of the layers. */
  lemma {:induction false} SumAtPermutation(xs: seq<Layer>, ys: seq<Layer>, px: int, py: int)
    requires multiset(xs) == multiset(ys)
    ensures SumAt(xs, px, py) == SumAt(ys, px, py)
    decreases |xs|
  {
    if |xs| == 0 {
      assert |ys| == |multiset(ys)| == 0;
    } else {
      var last := xs[|xs| - 1];
      assert last in multiset(ys);
      var k :| 0 <= k < |ys| && ys[k] == last;
      MultisetRemoveMatch(xs, ys, k);
      SumAtPermutation(xs[..|xs| - 1], ys[..k] + ys[k + 1..], px, py);
      SumAtRemove(ys, k, px, py);
    }
  }

  /** Accumulating the same layers in any order gives the same raster. */
  lemma FoldAddPermutation(xs: seq<Layer>, ys: seq<Layer>)
    requires multiset(xs) == multiset(ys)
    ensures FoldAdd(xs) == FoldAdd(ys)
  {
    if |xs| == 0 {
      assert |ys| == |multiset(ys)| == 0;
    } else {
      assert |ys| == |multiset(ys)| == |multiset(xs)| == |xs|;
      forall w
        ensures w in WindowsOf(xs) <==> w in WindowsOf(ys)
      {
        if w in WindowsOf(xs) {
          var i :| 0 <= i < |xs| && WindowsOf(xs)[i] == w;
          assert xs[i] in multiset(ys);
          var j :| 0 <= j < |ys| && ys[j] == xs[i];
          assert WindowsOf(ys)[j] == w;
        }
        if w in WindowsOf(ys) {
          var j :| 0 <= j < |ys| && WindowsOf(ys)[j] == w;
          assert ys[j] in multiset(xs);
          var i :| 0 <= i < |xs| && xs[i] == ys[j];
          assert WindowsOf(xs)[i] == w;
        }
      }
      UnionAllOrderFree(WindowsOf(xs), WindowsOf(ys));
      FoldAddSpec(xs);
      FoldAddSpec(ys);
      forall px, py
        ensures At(FoldAdd(xs).value, px, py) == At(FoldAdd(ys).value, px, py)
      {
        SumAtPermutation(xs, ys, px, py);
      }
      Extensionality(FoldAdd(xs).value, FoldAdd(ys).value, 0.0);
    }
  }

  /** Accumulating a concatenation is adding the two parts' accumulations. */
  lemma FoldAddAppend(a: seq<Layer>, b: seq<Layer>)
    requires |a| >= 1 && |b| >= 1
    ensures FoldAdd(a + b) == Some(AddUnion(FoldAdd(a).value, FoldAdd(b).value))
  {
    assert WindowsOf(a + b) == WindowsOf(a) + WindowsOf(b);
    UnionAllAppend(WindowsOf(a), WindowsOf(b));
    FoldAddSpec(a + b);
    FoldAddSpec(a);
    FoldAddSpec(b);
    forall px, py
      ensures At(FoldAdd(a + b).value, px, py) == At(AddUnion(FoldAdd(a).value, FoldAdd(b).value), px, py)
    {
      SumAtAppend(a, b, px, py);
    }
    Extensionality(FoldAdd(a + b).value, AddUnion(FoldAdd(a).value, FoldAdd(b).value), 0.0);
  }
}
