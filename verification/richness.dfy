/** Species richness: each species' seasonal AOH rasters are merged into one
    presence layer (1 where any season is non-zero), the presence layers are
    summed by a pool of workers reading species from a shared queue, and the
    workers' partial sums are summed once more into the final raster. The
    pool is modelled by the lists of species each worker ends up with; the
    central result is that the final raster is the same however the species
    are split among the workers and in whatever order the partial files are
    read back. */
module Richness {
  import opened Wrappers
  import opened Windows
  import opened Layers
  import opened Text
  import opened Seqs

  /** The seasonal AOH rasters of one species, grouped by file name. */
  type Species = seq<Layer>

  /** Every species has at least one seasonal raster (the grouping never
      yields an empty group). */
  predicate Grouped(species: seq<Species>)
  {
    forall i :: 0 <= i < |species| ==> |species[i]| >= 1
  }

  /** Some season of the species is non-zero at the pixel. */
  function AnyNonZero(rasters: seq<Layer>, px: int, py: int): (b: bool)
    ensures b <==> exists i :: 0 <= i < |rasters| && At(rasters[i], px, py) != 0.0
  {
    if |rasters| == 0 then false
    else
      var b := AnyNonZero(rasters[..|rasters| - 1], px, py) || At(rasters[|rasters| - 1], px, py) != 0.0;
      assert forall i :: 0 <= i < |rasters| - 1 ==> rasters[..|rasters| - 1][i] == rasters[i];
      b
  }

  /** The OR over the seasons of `value != 0`, over the union of the
      seasons' windows. */
  function Presence(rasters: Species): (r: Layer)
    requires |rasters| >= 1
    ensures Valid(r) && r.window == UnionAll(WindowsOf(rasters))
    ensures forall px, py :: At(r, px, py) == 1.0 <==> exists i :: 0 <= i < |rasters| && At(rasters[i], px, py) != 0.0
    ensures forall px, py :: At(r, px, py) == 0.0 || At(r, px, py) == 1.0
  {
    var win := UnionAll(WindowsOf(rasters));
    var r := Tabulate(win, (px, py) => if AnyNonZero(rasters, px, py) then 1.0 else 0.0);
    forall px, py | AnyNonZero(rasters, px, py)
      ensures win.Contains(px, py)
    {
      var i :| 0 <= i < |rasters| && At(rasters[i], px, py) != 0.0;
      UnionAllContains(WindowsOf(rasters), i, px, py);
    }
    r
  }

  /** The presence layer of every species, in order. */
  function Presences(species: seq<Species>): (ps: seq<Layer>)
    requires Grouped(species)
    ensures |ps| == |species|
    ensures forall i :: 0 <= i < |ps| ==> ps[i] == Presence(species[i])
  {
    seq(|species|, i requires 0 <= i < |species| && Grouped(species) => Presence(species[i]))
  }

  lemma PresencesAppend(a: seq<Species>, b: seq<Species>)
    requires Grouped(a) && Grouped(b)
    ensures Grouped(a + b) && Presences(a + b) == Presences(a) + Presences(b)
  {
    assert Grouped(a + b) by {
      forall i | 0 <= i < |a + b|
        ensures |(a + b)[i]| >= 1
      {
        if i >= |a| {
          assert (a + b)[i] == b[i - |a|];
        }
      }
    }
  }

  /** The number of species present at a pixel. */
  function CountPresent(species: seq<Species>, px: int, py: int): (n: nat)
    ensures n <= |species|
    ensures n == 0 <==> forall i :: 0 <= i < |species| ==> !AnyNonZero(species[i], px, py)
  {
    if |species| == 0 then 0
    else
      var init := species[..|species| - 1];
      assert forall i :: 0 <= i < |init| ==> init[i] == species[i];
      CountPresent(init, px, py) + (if AnyNonZero(species[|species| - 1], px, py) then 1 else 0)
  }

  /** One worker: the presence layers of the species it took from the
      queue, accumulated; `None` (no file written) when it took none. */
  function Worker(taken: seq<Species>): (r: Option<Layer>)
    requires Grouped(taken)
    ensures r.None? <==> |taken| == 0
  {
    FoldAdd(Presences(taken))
  }

  /** Richness counts species: at every pixel the accumulated presence
      layers hold the number of species with a non-zero season there. */
  lemma {:induction false} RichnessCounts(species: seq<Species>, px: int, py: int)
    requires Grouped(species)
    ensures SumAt(Presences(species), px, py) == CountPresent(species, px, py) as real
  {
    if |species| > 0 {
      var init := species[..|species| - 1];
      assert Grouped(init);
      assert Presences(species)[..|species| - 1] == Presences(init);
      RichnessCounts(init, px, py);
    }
  }

  /** The accumulated raster spans the union of every season of every
      species and holds, at each pixel, the number of species present. */
  lemma RichnessRaster(species: seq<Species>)
    requires Grouped(species) && |species| >= 1
    ensures Worker(species).value.window == UnionAll(WindowsOf(Presences(species)))
    ensures forall px, py :: At(Worker(species).value, px, py) == CountPresent(species, px, py) as real
  {
    FoldAddSpec(Presences(species));
    forall px, py
      ensures At(Worker(species).value, px, py) == CountPresent(species, px, py) as real
    {
      RichnessCounts(species, px, py);
    }
  }

  lemma {:induction false} ConcatGrouped(parts: seq<seq<Species>>)
    requires forall w :: 0 <= w < |parts| ==> Grouped(parts[w])
    ensures Grouped(Concat(parts))
  {
    if |parts| > 0 {
      ConcatGrouped(parts[..|parts| - 1]);
      PresencesAppend(Concat(parts[..|parts| - 1]), parts[|parts| - 1]);
    }
  }

  /** The partial files: one per worker that took at least one species. */
  function Partials(parts: seq<seq<Species>>): (ps: seq<Layer>)
    requires forall w :: 0 <= w < |parts| ==> Grouped(parts[w])
    ensures |ps| <= |parts|
  {
    if |parts| == 0 then []
    else
      var last := parts[|parts| - 1];
      Partials(parts[..|parts| - 1]) + (if |last| == 0 then [] else [Worker(last).value])
  }

  /** Accumulating the partial sums gives the accumulation of all species
      in the order the workers hold them. */
  lemma {:induction false} PartialsFlatten(parts: seq<seq<Species>>)
    requires forall w :: 0 <= w < |parts| ==> Grouped(parts[w])
    ensures Grouped(Concat(parts))
    ensures FoldAdd(Partials(parts)) == FoldAdd(Presences(Concat(parts)))
  {
    ConcatGrouped(parts);
    if |parts| > 0 {
      var init, last := parts[..|parts| - 1], parts[|parts| - 1];
      ConcatGrouped(init);
      PartialsFlatten(init);
      PresencesAppend(Concat(init), last);
      if |last| > 0 {
        if |Partials(init)| == 0 {
          FirstPartial(parts);
        } else {
          NextPartial(parts);
        }
      } else {
        IdlePartial(parts);
      }
    }
  }

  /** A worker that took no species adds no partial file and no species. */
  lemma IdlePartial(parts: seq<seq<Species>>)
    requires |parts| >= 1 && forall w :: 0 <= w < |parts| ==> Grouped(parts[w])
    requires |parts[|parts| - 1]| == 0
    ensures Partials(parts) == Partials(parts[..|parts| - 1])
    ensures Concat(parts) == Concat(parts[..|parts| - 1])
  {
    var init := parts[..|parts| - 1];
    assert Partials(parts) == Partials(init) + [];
    assert Concat(parts) == Concat(init) + [];
  }

  /** The first worker with species: its partial is its own accumulation. */
  lemma FirstPartial(parts: seq<seq<Species>>)
    requires |parts| >= 1 && forall w :: 0 <= w < |parts| ==> Grouped(parts[w])
    requires |parts[|parts| - 1]| >= 1 && |Partials(parts[..|parts| - 1])| == 0
    requires Grouped(Concat(parts[..|parts| - 1]))
    requires FoldAdd(Partials(parts[..|parts| - 1])) == FoldAdd(Presences(Concat(parts[..|parts| - 1])))
    ensures Grouped(Concat(parts))
    ensures FoldAdd(Partials(parts)) == FoldAdd(Presences(Concat(parts)))
  {
    var init, last := parts[..|parts| - 1], parts[|parts| - 1];
    assert |Presences(Concat(init))| == 0;
    assert Concat(parts) == [] + last;
    assert [] + last == last;
    var v := Worker(last).value;
    assert Partials(parts) == [] + [v];
    SavedValid(v);
  }

  /** A further worker: its partial is added to the running sum. */
  lemma NextPartial(parts: seq<seq<Species>>)
    requires |parts| >= 1 && forall w :: 0 <= w < |parts| ==> Grouped(parts[w])
    requires |parts[|parts| - 1]| >= 1 && |Partials(parts[..|parts| - 1])| >= 1
    requires Grouped(Concat(parts[..|parts| - 1]))
    requires FoldAdd(Partials(parts[..|parts| - 1])) == FoldAdd(Presences(Concat(parts[..|parts| - 1])))
    ensures Grouped(Concat(parts))
    ensures FoldAdd(Partials(parts)) == FoldAdd(Presences(Concat(parts)))
  {
    var init, last := parts[..|parts| - 1], parts[|parts| - 1];
    PresencesAppend(Concat(init), last);
    var pi, v := Partials(init), Worker(last).value;
    assert Partials(parts) == pi + [v];
    assert (pi + [v])[..|pi|] == pi;
    assert |Presences(Concat(init))| >= 1;
    FoldAddAppend(Presences(Concat(init)), Presences(last));
  }

  lemma PresencesSlice(ys: seq<Species>, i: nat, j: nat)
    requires Grouped(ys) && i <= j <= |ys|
    ensures Grouped(ys[i..j]) && Presences(ys[i..j]) == Presences(ys)[i..j]
  {
    assert Grouped(ys[i..j]) by {
      forall k | 0 <= k < j - i
        ensures |ys[i..j][k]| >= 1
      {
        assert ys[i..j][k] == ys[i + k];
      }
    }
  }

  /** Removing species `k` removes its presence layer. */
  lemma PresencesRemove(ys: seq<Species>, k: nat)
    requires Grouped(ys) && k < |ys|
    ensures Grouped(ys[..k] + ys[k + 1..])
    ensures Presences(ys[..k] + ys[k + 1..]) == Presences(ys)[..k] + Presences(ys)[k + 1..]
  {
    PresencesSlice(ys, 0, k);
    PresencesSlice(ys, k + 1, |ys|);
    assert ys[..k] == ys[0..k];
    assert ys[k + 1..] == ys[k + 1..|ys|];
    PresencesAppend(ys[..k], ys[k + 1..]);
  }

  /** Multiset equality carries over to the presence layers. */
  lemma {:induction false} PresencesPermutation(xs: seq<Species>, ys: seq<Species>)
    requires Grouped(xs) && Grouped(ys) && multiset(xs) == multiset(ys)
    ensures multiset(Presences(xs)) == multiset(Presences(ys))
    decreases |xs|
  {
    if |xs| == 0 {
      assert |ys| == |multiset(ys)| == 0;
    } else {
      var last := |xs| - 1;
      var x := xs[last];
      assert x in multiset(xs);
      var k := FindIn(x, ys);
      var xi, yr := xs[..last], ys[..k] + ys[k + 1..];
      MultisetRemoveMatch(xs, ys, k);
      PresencesSlice(xs, 0, last);
      assert xs[0..last] == xi;
      PresencesRemove(ys, k);
      PresencesPermutation(xi, yr);
      var p, q := Presences(xs), Presences(ys);
      assert p[0..last] == p[..last];
      assert multiset(p[..last]) == multiset(q[..k] + q[k + 1..]);
      assert p[last] == q[k];
      MultisetSplit(q, k);
      assert p == p[..last] + [p[last]];
      assert multiset(p) == multiset(p[..last]) + multiset{p[last]};
    }
  }

  /** The partition theorem: if the workers between them took exactly the
      species (in any split and any order) and stage 2 reads the partial
      files in any order, the final raster is the plain accumulation of all
      presence layers. */
  lemma PartitionIndependent(species: seq<Species>, parts: seq<seq<Species>>, files: seq<Layer>)
    requires Grouped(species)
    requires forall w :: 0 <= w < |parts| ==> Grouped(parts[w])
    requires multiset(Concat(parts)) == multiset(species)
    requires multiset(files) == multiset(Partials(parts))
    ensures FoldAdd(files) == FoldAdd(Presences(species))
  {
    FoldAddPermutation(files, Partials(parts));
    PartialsFlatten(parts);
    PresencesPermutation(Concat(parts), species);
    FoldAddPermutation(Presences(Concat(parts)), Presences(species));
  }

  /** The richness at every pixel is the number of species present, however
      the work was split. */
  lemma PartitionedRichness(species: seq<Species>, parts: seq<seq<Species>>, files: seq<Layer>)
    requires Grouped(species) && |species| >= 1
    requires forall w :: 0 <= w < |parts| ==> Grouped(parts[w])
    requires multiset(Concat(parts)) == multiset(species)
    requires multiset(files) == multiset(Partials(parts))
    ensures FoldAdd(files).Some?
    ensures forall px, py :: At(FoldAdd(files).value, px, py) == CountPresent(species, px, py) as real
  {
    PartitionIndependent(species, parts, files);
    RichnessRaster(species);
  }

  // The queue protocol.

  /** The queue as filled: every species group, then one sentinel per
      worker. */
  function Enqueue<G>(groups: seq<G>, workers: nat): (q: seq<Option<G>>)
    ensures |q| == |groups| + workers
    ensures forall i :: 0 <= i < |groups| ==> q[i] == Some(groups[i])
    ensures forall i :: |groups| <= i < |q| ==> q[i].None?
  {
    seq(|groups|, i requires 0 <= i < |groups| => Some(groups[i])) + seq(workers, _ => None)
  }

  /** The items a worker loop consumes: everything before the first
      sentinel. */
  function Taken<G>(r: seq<Option<G>>): (t: seq<G>)
    ensures |t| <= |r|
  {
    if |r| == 0 || r[0].None? then [] else [r[0].value] + Taken(r[1..])
  }

  /** The values of all non-sentinel items, as a multiset. */
  function Items<G>(r: seq<Option<G>>): multiset<G>
  {
    if |r| == 0 then multiset{} else Items(r[..|r| - 1]) + (if r[|r| - 1].Some? then multiset{r[|r| - 1].value} else multiset{})
  }

  /** The number of sentinels. */
  function Sentinels<G>(r: seq<Option<G>>): nat
  {
    if |r| == 0 then 0 else Sentinels(r[..|r| - 1]) + (if r[|r| - 1].None? then 1 else 0)
  }

  /** The items of the queue that went to worker `w`, in queue order, when
      item `i` went to worker `who[i]`. */
  function Received<G>(q: seq<Option<G>>, who: seq<nat>, w: nat): (r: seq<Option<G>>)
    requires |who| == |q|
  {
    if |q| == 0 then []
    else Received(q[..|q| - 1], who[..|q| - 1], w) + (if who[|q| - 1] == w then [q[|q| - 1]] else [])
  }

  /** A worker stops at its first sentinel: nothing reaches it afterwards. */
  predicate StopsAtSentinel<G>(r: seq<Option<G>>)
  {
    forall i :: 0 <= i < |r| && r[i].None? ==> i == |r| - 1
  }

  /** A run of the pool: every queue item went to one of the workers, and no
      worker took anything after its sentinel. */
  predicate Schedule<G>(q: seq<Option<G>>, who: seq<nat>, workers: nat)
  {
    && |who| == |q|
    && (forall i :: 0 <= i < |who| ==> who[i] < workers)
    && (forall w :: 0 <= w < workers ==> StopsAtSentinel(Received(q, who, w)))
  }

  /** What the workers `0 .. n-1` took, summed as multisets. */
  function TakenBy<G>(q: seq<Option<G>>, who: seq<nat>, n: nat): multiset<G>
    requires |who| == |q|
  {
    if n == 0 then multiset{} else TakenBy(q, who, n - 1) + multiset(Taken(Received(q, who, n - 1)))
  }

  /** The non-sentinel items received by workers `0 .. n-1`. */
  function ItemsBy<G>(q: seq<Option<G>>, who: seq<nat>, n: nat): multiset<G>
    requires |who| == |q|
  {
    if n == 0 then multiset{} else ItemsBy(q, who, n - 1) + Items(Received(q, who, n - 1))
  }

  /** The sentinels received by workers `0 .. n-1`. */
  function SentinelsBy<G>(q: seq<Option<G>>, who: seq<nat>, n: nat): nat
    requires |who| == |q|
  {
    if n == 0 then 0 else SentinelsBy(q, who, n - 1) + Sentinels(Received(q, who, n - 1))
  }

  lemma {:induction false} ItemsAppend<G>(r: seq<Option<G>>, x: Option<G>)
    ensures Items(r + [x]) == Items(r) + (if x.Some? then multiset{x.value} else multiset{})
    ensures Sentinels(r + [x]) == Sentinels(r) + (if x.None? then 1 else 0)
  {
    assert (r + [x])[..|r|] == r;
  }

  /** Adding one more queue item adds it to the worker it went to. */
  lemma {:induction false} ByStep<G>(q: seq<Option<G>>, who: seq<nat>, n: nat)
    requires |who| == |q| >= 1
    ensures var x, k := q[|q| - 1], who[|q| - 1];
      && ItemsBy(q, who, n) == ItemsBy(q[..|q| - 1], who[..|q| - 1], n)
        + (if k < n && x.Some? then multiset{x.value} else multiset{})
      && SentinelsBy(q, who, n) == SentinelsBy(q[..|q| - 1], who[..|q| - 1], n) + (if k < n && x.None? then 1 else 0)
  {
    if n > 0 {
      ByStep(q, who, n - 1);
      var q', who' := q[..|q| - 1], who[..|q| - 1];
      var x, k := q[|q| - 1], who[|q| - 1];
      var before := Received(q', who', n - 1);
      assert ItemsBy(q, who, n) == ItemsBy(q, who, n - 1) + Items(Received(q, who, n - 1));
      assert SentinelsBy(q, who, n) == SentinelsBy(q, who, n - 1) + Sentinels(Received(q, who, n - 1));
      assert ItemsBy(q', who', n) == ItemsBy(q', who', n - 1) + Items(before);
      assert SentinelsBy(q', who', n) == SentinelsBy(q', who', n - 1) + Sentinels(before);
      if k == n - 1 {
        assert Received(q, who, n - 1) == before + [x];
        ItemsAppend(before, x);
      } else {
        assert Received(q, who, n - 1) == before + [];
        assert before + [] == before;
      }
    }
  }

  /** Every item and every sentinel of the queue went to exactly one worker. */
  lemma {:induction false} ByAll<G>(q: seq<Option<G>>, who: seq<nat>, n: nat)
    requires |who| == |q| && forall i :: 0 <= i < |who| ==> who[i] < n
    ensures ItemsBy(q, who, n) == Items(q)
    ensures SentinelsBy(q, who, n) == Sentinels(q)
  {
    if |q| == 0 {
      EmptyBy(q, who, n);
    } else {
      ByStep(q, who, n);
      ByAll(q[..|q| - 1], who[..|q| - 1], n);
    }
  }

  lemma {:induction false} EmptyBy<G>(q: seq<Option<G>>, who: seq<nat>, n: nat)
    requires |who| == |q| == 0
    ensures ItemsBy(q, who, n) == multiset{} && SentinelsBy(q, who, n) == 0
  {
    if n > 0 {
      EmptyBy(q, who, n - 1);
    }
  }

  /** A worker that stops at its sentinel consumed all the items it
      received, and received at most one sentinel. */
  lemma {:induction false} TakenAll<G>(r: seq<Option<G>>)
    requires StopsAtSentinel(r)
    ensures multiset(Taken(r)) == Items(r)
    ensures Sentinels(r) <= 1
    decreases |r|
  {
    if |r| > 0 {
      var tail := r[1..];
      assert StopsAtSentinel(tail) by {
        forall i | 0 <= i < |tail| && tail[i].None?
          ensures i == |tail| - 1
        {
          assert r[i + 1] == tail[i];
        }
      }
      TakenAll(tail);
      ItemsPrepend(r[0], tail);
      assert r == [r[0]] + tail;
      if r[0].None? {
        assert |r| == 1;
        assert r[..0] == [];
      }
    }
  }

  lemma {:induction false} ItemsPrepend<G>(x: Option<G>, r: seq<Option<G>>)
    ensures Items([x] + r) == (if x.Some? then multiset{x.value} else multiset{}) + Items(r)
    ensures Sentinels([x] + r) == (if x.None? then 1 else 0) + Sentinels(r)
    decreases |r|
  {
    if |r| == 0 {
      assert [x] + r == [] + [x];
      ItemsAppend([], x);
      var empty: seq<Option<G>> := [];
      assert Items(empty) == multiset{} && Sentinels(empty) == 0;
    } else {
      var init, last := r[..|r| - 1], r[|r| - 1];
      ItemsPrepend(x, init);
      assert [x] + r == ([x] + init) + [last];
      ItemsAppend([x] + init, last);
      assert r == init + [last];
      ItemsAppend(init, last);
    }
  }

  lemma {:induction false} TakenByItems<G>(q: seq<Option<G>>, who: seq<nat>, n: nat)
    requires |who| == |q|
    requires forall w :: 0 <= w < n ==> multiset(Taken(Received(q, who, w))) == Items(Received(q, who, w))
    ensures TakenBy(q, who, n) == ItemsBy(q, who, n)
  {
    if n > 0 {
      TakenByItems(q, who, n - 1);
    }
  }

  lemma EnqueueCounts<G>(groups: seq<G>, workers: nat)
    ensures Items(Enqueue(groups, workers)) == multiset(groups)
    ensures Sentinels(Enqueue(groups, workers)) == workers
  {
    var somes := seq(|groups|, i requires 0 <= i < |groups| => Some(groups[i]));
    var nones: seq<Option<G>> := seq(workers, _ => None);
    assert Enqueue(groups, workers) == somes + nones;
    SomesCounts(groups, somes);
    NonesCounts(nones);
    ItemsConcat(somes, nones);
  }

  lemma {:induction false} SomesCounts<G>(groups: seq<G>, somes: seq<Option<G>>)
    requires |somes| == |groups| && forall i :: 0 <= i < |groups| ==> somes[i] == Some(groups[i])
    ensures Items(somes) == multiset(groups) && Sentinels(somes) == 0
  {
    if |groups| > 0 {
      var n := |groups| - 1;
      SomesCounts(groups[..n], somes[..n]);
      assert groups == groups[..n] + [groups[n]];
    }
  }

  lemma {:induction false} NonesCounts<G>(nones: seq<Option<G>>)
    requires forall i :: 0 <= i < |nones| ==> nones[i].None?
    ensures Items(nones) == multiset{} && Sentinels(nones) == |nones|
  {
    if |nones| > 0 {
      NonesCounts(nones[..|nones| - 1]);
    }
  }

  lemma {:induction false} ItemsConcat<G>(a: seq<Option<G>>, b: seq<Option<G>>)
    ensures Items(a + b) == Items(a) + Items(b)
    ensures Sentinels(a + b) == Sentinels(a) + Sentinels(b)
    decreases |b|
  {
    if |b| > 0 {
      var init := b[..|b| - 1];
      ItemsConcat(a, init);
      assert (a + b)[..|a + b| - 1] == a + init;
    } else {
      assert a + b == a;
    }
  }

  /** One sentinel per worker is exactly enough: in any run of the pool the
      workers between them take every species group exactly once, and each
      worker receives a sentinel, so every worker loop ends. */
  lemma SentinelProtocol<G>(groups: seq<G>, workers: nat, who: seq<nat>)
    requires Schedule(Enqueue(groups, workers), who, workers)
    ensures TakenBy(Enqueue(groups, workers), who, workers) == multiset(groups)
    ensures forall w :: 0 <= w < workers ==> Sentinels(Received(Enqueue(groups, workers), who, w)) == 1
  {
    var q := Enqueue(groups, workers);
    ByAll(q, who, workers);
    EnqueueCounts(groups, workers);
    var counts := seq(workers, v requires 0 <= v < workers => Sentinels(Received(q, who, v)));
    forall v | 0 <= v < workers
      ensures multiset(Taken(Received(q, who, v))) == Items(Received(q, who, v)) && counts[v] <= 1
    {
      TakenAll(Received(q, who, v));
    }
    TakenByItems(q, who, workers);
    SentinelsBySum(q, who, workers, counts);
    forall w | 0 <= w < workers
      ensures Sentinels(Received(q, who, w)) == 1
    {
      EachOne(counts, w);
    }
  }

  /** The total of a sequence of counts. */
  function SumNat(c: seq<nat>): nat
  {
    if |c| == 0 then 0 else SumNat(c[..|c| - 1]) + c[|c| - 1]
  }

  lemma {:induction false} SentinelsBySum<G>(q: seq<Option<G>>, who: seq<nat>, n: nat, counts: seq<nat>)
    requires |who| == |q| && |counts| == n
    requires forall v :: 0 <= v < n ==> counts[v] == Sentinels(Received(q, who, v))
    ensures SentinelsBy(q, who, n) == SumNat(counts)
  {
    if n > 0 {
      SentinelsBySum(q, who, n - 1, counts[..n - 1]);
    }
  }

  /** If `n` counts of at most 1 add up to `n`, each of them is 1. */
  lemma {:induction false} EachOne(c: seq<nat>, w: nat)
    requires w < |c| && SumNat(c) == |c|
    requires forall v :: 0 <= v < |c| ==> c[v] <= 1
    ensures c[w] == 1
  {
    var n := |c| - 1;
    SumNatBound(c[..n]);
    if w < n {
      EachOne(c[..n], w);
    }
  }

  lemma {:induction false} SumNatBound(c: seq<nat>)
    requires forall v :: 0 <= v < |c| ==> c[v] <= 1
    ensures SumNat(c) <= |c|
  {
    if |c| > 0 {
      SumNatBound(c[..|c| - 1]);
    }
  }

  /** The species lists the workers end up with in a run. */
  function WorkerParts<G>(q: seq<Option<G>>, who: seq<nat>, n: nat): (parts: seq<seq<G>>)
    requires |who| == |q|
    ensures |parts| == n && forall w :: 0 <= w < n ==> parts[w] == Taken(Received(q, who, w))
  {
    seq(n, w requires 0 <= w < n => Taken(Received(q, who, w)))
  }

  lemma {:induction false} ConcatWorkerParts(q: seq<Option<Species>>, who: seq<nat>, n: nat)
    requires |who| == |q|
    ensures multiset(Concat(WorkerParts(q, who, n))) == TakenBy(q, who, n)
  {
    if n > 0 {
      ConcatWorkerParts(q, who, n - 1);
      var parts := WorkerParts(q, who, n);
      assert parts[..n - 1] == WorkerParts(q, who, n - 1);
      assert Concat(parts) == Concat(parts[..n - 1]) + Taken(Received(q, who, n - 1));
    }
  }

  /** Every species a worker holds is among all the workers' species. */
  lemma {:induction false} InConcat(parts: seq<seq<Species>>, w: nat, x: Species)
    requires w < |parts| && x in parts[w]
    ensures x in Concat(parts)
  {
    if w < |parts| - 1 {
      InConcat(parts[..|parts| - 1], w, x);
    }
  }

  /** Any run of the pool over the queue of species groups, followed by
      stage 2 reading the partial files in any order, yields the plain
      accumulation of the species' presence layers. */
  lemma RichnessOfAnyRun(species: seq<Species>, workers: nat, who: seq<nat>, files: seq<Layer>)
    requires Grouped(species)
    requires Schedule(Enqueue(species, workers), who, workers)
    requires forall w :: 0 <= w < workers ==> Grouped(WorkerParts(Enqueue(species, workers), who, workers)[w])
    requires multiset(files) == multiset(Partials(WorkerParts(Enqueue(species, workers), who, workers)))
    ensures FoldAdd(files) == FoldAdd(Presences(species))
  {
    var q := Enqueue(species, workers);
    SentinelProtocol(species, workers, who);
    ConcatWorkerParts(q, who, workers);
    PartitionIndependent(species, WorkerParts(q, who, workers), files);
  }

  /** The workers only ever hold species from the queue, so each holds
      grouped species. */
  lemma RunGrouped(species: seq<Species>, workers: nat, who: seq<nat>)
    requires Grouped(species)
    requires Schedule(Enqueue(species, workers), who, workers)
    ensures forall w :: 0 <= w < workers ==> Grouped(WorkerParts(Enqueue(species, workers), who, workers)[w])
  {
    var q := Enqueue(species, workers);
    var parts := WorkerParts(q, who, workers);
    SentinelProtocol(species, workers, who);
    ConcatWorkerParts(q, who, workers);
    forall w, i | 0 <= w < workers && 0 <= i < |parts[w]|
      ensures |parts[w][i]| >= 1
    {
      InConcat(parts, w, parts[w][i]);
      assert parts[w][i] in multiset(species);
    }
  }

  /** A worker handed only its sentinel writes no partial file. */
  lemma SentinelOnly()
    ensures Taken<Species>([None]) == []
    ensures Worker(Taken<Species>([None])).None?
  {
  }

  // Grouping and the final file.

  /** The species table built from the AOH file names: each name is added
      to the group of its species key. */
  function GroupBySpecies(names: seq<string>): map<string, set<string>>
  {
    if |names| == 0 then map[]
    else
      var m := GroupBySpecies(names[..|names| - 1]);
      var n := names[|names| - 1];
      m[SpeciesKey(n) := (if SpeciesKey(n) in m then m[SpeciesKey(n)] else {}) + {n}]
  }

  /** The table has a group for each key that occurs, holding exactly the
      names with that key; so the groups are non-empty and disjoint. */
  lemma {:induction false} GroupBySpeciesSpec(names: seq<string>)
    ensures forall k :: k in GroupBySpecies(names) <==> exists n :: n in names && SpeciesKey(n) == k
    ensures forall k, n :: k in GroupBySpecies(names) ==> (n in GroupBySpecies(names)[k] <==> n in names && SpeciesKey(n) == k)
  {
    if |names| > 0 {
      var init, last := names[..|names| - 1], names[|names| - 1];
      GroupBySpeciesSpec(init);
      assert names == init + [last];
      assert forall n :: n in names <==> n in init || n == last;
    }
  }

  lemma GroupsPartition(names: seq<string>)
    ensures forall k :: k in GroupBySpecies(names) ==> GroupBySpecies(names)[k] != {}
    ensures forall k1, k2, n :: (k1 in GroupBySpecies(names) && k2 in GroupBySpecies(names)
      && n in GroupBySpecies(names)[k1] && n in GroupBySpecies(names)[k2]) ==> k1 == k2
  {
    GroupBySpeciesSpec(names);
    var m := GroupBySpecies(names);
    forall k | k in m
      ensures m[k] != {}
    {
      var n :| n in names && SpeciesKey(n) == k;
      assert n in m[k];
    }
  }

  /** The final raster as read back: it is written with nodata 0, so a pixel
      with no species reads as missing. */
  function ReadBack(l: Layer): (r: Raster<Option<real>>)
    requires Valid(l)
    ensures Valid(r) && r.window == l.window
    ensures forall px, py :: l.window.Contains(px, py) ==>
      (Get(r, px, py, None) == None <==> At(l, px, py) == 0.0)
      && (At(l, px, py) != 0.0 ==> Get(r, px, py, None) == Some(At(l, px, py)))
  {
    MapPixels(l, v => if v == 0.0 then None else Some(v))
  }

  /** In the final raster a pixel reads as missing exactly when no species
      is present there, and otherwise as the number of species. */
  lemma EmptyPixelsMissing(species: seq<Species>, px: int, py: int)
    requires Grouped(species) && |species| >= 1
    requires Worker(species).value.window.Contains(px, py)
    ensures var r := ReadBack(Worker(species).value);
      && (Get(r, px, py, None) == None <==> CountPresent(species, px, py) == 0)
      && (CountPresent(species, px, py) > 0 ==> Get(r, px, py, None) == Some(CountPresent(species, px, py) as real))
  {
    RichnessRaster(species);
  }
}
