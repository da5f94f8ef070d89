/** `mergeArrays`: the recursive merge in which the overlay wins, and its
    left-to-right fold over a list of layers. */
module Merge {
  import opened ConfigValue

  /** Whether merging `overlay` onto `base` stays inside what the PHP code
      defines: wherever the overlay holds a non-empty map under a key the base
      also has, the base holds a map there too (recursively). Merging a
      non-empty map onto a scalar or null depends on the PHP version and is
      excluded; merging an empty map onto anything leaves it as it is. */
  predicate Compatible(base: Tree, overlay: Tree)
    decreases Node(overlay)
  {
    forall k :: k in base && k in overlay && overlay[k].Node? ==>
      if base[k].Node? then Compatible(base[k].children, overlay[k].children)
      else overlay[k].children == map[]
  }

  /** `mergeArrays(base, overlay)`: every overlay key is written into the base;
      a map under a key the base already has is merged recursively, anything
      else replaces the base's entry. */
  function MergeMaps(base: Tree, overlay: Tree): (r: Tree)
    requires Compatible(base, overlay)
    ensures r.Keys == base.Keys + overlay.Keys
    ensures forall k :: k in base && k !in overlay ==> r[k] == base[k]
    ensures forall k :: k in overlay && (k !in base || !overlay[k].Node?) ==> r[k] == overlay[k]
    decreases Node(overlay)
  {
    map k | k in base.Keys + overlay.Keys ::
      if k in overlay then
        if k in base && overlay[k].Node? then
          if base[k].Node? then Node(MergeMaps(base[k].children, overlay[k].children))
          else base[k]
        else overlay[k]
      else base[k]
  }

  /** Whether writing `overlay` where `base` may hold a value is defined. */
  predicate SlotCompatible(base: Option<Value>, overlay: Value) {
    base.Some? && overlay.Node? ==>
      if base.value.Node? then Compatible(base.value.children, overlay.children)
      else overlay.children == map[]
  }

  /** The value `mergeArrays` leaves under one key, given what the base held
      there (`None` when the key was absent) and the overlay's value. */
  function Overwrite(base: Option<Value>, overlay: Value): (r: Value)
    requires SlotCompatible(base, overlay)
    ensures !overlay.Node? ==> r == overlay
    ensures base.None? ==> r == overlay
    ensures base.Some? && base.value.Node? && overlay.Node? ==>
              r.Node? && r.children.Keys == base.value.children.Keys + overlay.children.Keys
    ensures base.Some? && !base.value.Node? && overlay.Node? ==> r == base.value
  {
    match base
    case None => overlay
    case Some(b) =>
      if overlay.Node? then
        if b.Node? then Node(MergeMaps(b.children, overlay.children)) else b
      else overlay
  }

  /** Each key of a merge holds what `Overwrite` says. */
  lemma MergeMapsAt(base: Tree, overlay: Tree, k: string)
    requires Compatible(base, overlay)
    requires k in overlay
    ensures SlotCompatible(Get(base, k), overlay[k])
    ensures MergeMaps(base, overlay)[k] == Overwrite(Get(base, k), overlay[k])
  {
  }

  /** Every tree is compatible with itself. */
  lemma {:induction false} CompatibleWithSelf(t: Tree)
    ensures Compatible(t, t)
    decreases Node(t)
  {
    forall k | k in t && t[k].Node?
      ensures Compatible(t[k].children, t[k].children)
    {
      CompatibleWithSelf(t[k].children);
    }
  }

  /** Merging a tree onto itself changes nothing. */
  lemma {:induction false} MergeIdempotent(t: Tree)
    ensures Compatible(t, t)
    ensures MergeMaps(t, t) == t
    decreases Node(t)
  {
    CompatibleWithSelf(t);
    var r := MergeMaps(t, t);
    forall k | k in t ensures r[k] == t[k] {
      if t[k].Node? {
        MergeIdempotent(t[k].children);
      }
    }
  }

  /** Merging into an empty array yields the overlay itself. */
  lemma MergeOntoEmpty(overlay: Tree)
    ensures Compatible(map[], overlay)
    ensures MergeMaps(map[], overlay) == overlay
  {
  }

  /** Merging an empty overlay changes nothing. */
  lemma MergeEmptyOverlay(base: Tree)
    ensures Compatible(base, map[])
    ensures MergeMaps(base, map[]) == base
  {
  }

  /** A merge result stays compatible with a third layer that both of its
      inputs were compatible with. */
  lemma {:induction false} MergeKeepsCompatible(a: Tree, b: Tree, c: Tree)
    requires Compatible(a, b) && Compatible(a, c) && Compatible(b, c)
    ensures Compatible(MergeMaps(a, b), c)
    decreases Node(c)
  {
    var m := MergeMaps(a, b);
    forall k | k in m && k in c && c[k].Node?
      ensures if m[k].Node? then Compatible(m[k].children, c[k].children)
              else c[k].children == map[]
    {
      if k in b && k in a && b[k].Node? && a[k].Node? {
        MergeKeepsCompatible(a[k].children, b[k].children, c[k].children);
      }
    }
  }

  /** Strict lookup inside the overlay reaching a non-map value: the merge
      holds that same value there, at any depth. */
  lemma {:induction false} MergeOverlayLeafWins(base: Tree, overlay: Tree, p: seq<string>, x: Value)
    requires Compatible(base, overlay)
    requires At(Node(overlay), p) == Some(x)
    requires !x.Node?
    ensures At(Node(MergeMaps(base, overlay)), p) == Some(x)
    decreases |p|
  {
    var m := MergeMaps(base, overlay);
    var k := p[0];
    var o := overlay[k];
    if k in base && o.Node? && base[k].Node? {
      MergeOverlayLeafWins(base[k].children, o.children, p[1..], x);
    }
  }

  /** The overlay does not reach path `p`: somewhere along it the overlay
      lacks the segment, and every entry before that is a map. */
  predicate Avoids(overlay: Tree, p: seq<string>)
    decreases |p|
  {
    |p| > 0 &&
    (p[0] !in overlay ||
     (overlay[p[0]].Node? && Avoids(overlay[p[0]].children, p[1..])))
  }

  /** What the overlay does not reach, the merge leaves exactly as the base
      had it: present with the same value, or absent. */
  lemma {:induction false} MergeKeepsBase(base: Tree, overlay: Tree, p: seq<string>)
    requires Compatible(base, overlay)
    requires Avoids(overlay, p)
    ensures At(Node(MergeMaps(base, overlay)), p) == At(Node(base), p)
    decreases |p|
  {
    var k := p[0];
    if k in overlay {
      if k in base {
        var b := base[k];
        if b.Node? {
          MergeKeepsBase(b.children, overlay[k].children, p[1..]);
        }
      } else {
        assert At(Node(base), p) == None;
        AvoidsMeansAbsent(overlay[k].children, p[1..]);
      }
    }
  }

  /** A tree does not reach a path it avoids. */
  lemma {:induction false} AvoidsMeansAbsent(t: Tree, p: seq<string>)
    requires Avoids(t, p)
    ensures At(Node(t), p) == None
    decreases |p|
  {
    if p[0] in t {
      AvoidsMeansAbsent(t[p[0]].children, p[1..]);
    }
  }

  /** Pairwise compatibility of layers, each with every later one. */
  predicate ChainCompatible(layers: seq<Tree>) {
    forall i, j :: 0 <= i < j < |layers| ==> Compatible(layers[i], layers[j])
  }

  /** Merging the first two layers of a compatible chain keeps it compatible. */
  lemma ChainStep(a: Tree, b: Tree, rest: seq<Tree>)
    requires ChainCompatible([a, b] + rest)
    ensures Compatible(a, b)
    ensures ChainCompatible([MergeMaps(a, b)] + rest)
  {
    var l := [a, b] + rest;
    assert Compatible(l[0], l[1]);
    var l' := [MergeMaps(a, b)] + rest;
    forall i, j | 0 <= i < j < |l'| ensures Compatible(l'[i], l'[j]) {
      assert Compatible(l[i + 1], l[j + 1]);
      if i == 0 {
        assert Compatible(l[0], l[j + 1]);
        MergeKeepsCompatible(a, b, l'[j]);
      }
    }
  }

  /** An empty start is compatible with every layer. */
  lemma ChainFromEmpty(layers: seq<Tree>)
    requires ChainCompatible(layers)
    ensures ChainCompatible([map[]] + layers)
  {
    var l := [map[]] + layers;
    forall i, j | 0 <= i < j < |l| ensures Compatible(l[i], l[j]) {
      if i > 0 {
        assert l[i] == layers[i - 1] && l[j] == layers[j - 1];
      }
    }
  }

  /** A prefix of a compatible chain is compatible. */
  lemma ChainPrefix(layers: seq<Tree>, n: nat)
    requires ChainCompatible(layers)
    requires n <= |layers|
    ensures ChainCompatible(layers[..n])
  {
    forall i, j | 0 <= i < j < n ensures Compatible(layers[..n][i], layers[..n][j]) {
      assert layers[..n][i] == layers[i] && layers[..n][j] == layers[j];
    }
  }

  /** Merges `layers` onto `acc` from left to right: later layers win, and no
      key of the start or of any layer is lost. */
  function FoldMerge(acc: Tree, layers: seq<Tree>): (r: Tree)
    requires ChainCompatible([acc] + layers)
    ensures acc.Keys <= r.Keys
    ensures forall j :: 0 <= j < |layers| ==> layers[j].Keys <= r.Keys
    decreases |layers|
  {
    if layers == [] then acc
    else
      assert [acc] + layers == [acc, layers[0]] + layers[1..];
      ChainStep(acc, layers[0], layers[1..]);
      FoldMerge(MergeMaps(acc, layers[0]), layers[1..])
  }

  /** The keys of a fold are those of the start and of every layer. */
  lemma {:induction false} FoldKeys(acc: Tree, layers: seq<Tree>, k: string)
    requires ChainCompatible([acc] + layers)
    ensures k in FoldMerge(acc, layers) <==>
            k in acc || exists j :: 0 <= j < |layers| && k in layers[j]
    decreases |layers|
  {
    if layers != [] {
      assert [acc] + layers == [acc, layers[0]] + layers[1..];
      ChainStep(acc, layers[0], layers[1..]);
      FoldKeys(MergeMaps(acc, layers[0]), layers[1..], k);
      if exists j :: 0 <= j < |layers| && k in layers[j] {
        var j :| 0 <= j < |layers| && k in layers[j];
        if j > 0 {
          assert k in layers[1..][j - 1];
        }
      }
      if exists j :: 0 <= j < |layers[1..]| && k in layers[1..][j] {
        var j :| 0 <= j < |layers[1..]| && k in layers[1..][j];
        assert k in layers[j + 1];
      }
    }
  }

  /** A key no layer mentions keeps the start's value. */
  lemma {:induction false} FoldUntouched(acc: Tree, layers: seq<Tree>, k: string)
    requires ChainCompatible([acc] + layers)
    requires k in acc
    requires forall j :: 0 <= j < |layers| ==> k !in layers[j]
    ensures k in FoldMerge(acc, layers) && FoldMerge(acc, layers)[k] == acc[k]
    decreases |layers|
  {
    if layers != [] {
      assert [acc] + layers == [acc, layers[0]] + layers[1..];
      ChainStep(acc, layers[0], layers[1..]);
      assert k !in layers[0];
      forall j | 0 <= j < |layers[1..]| ensures k !in layers[1..][j] {
        assert layers[1..][j] == layers[j + 1];
      }
      FoldUntouched(MergeMaps(acc, layers[0]), layers[1..], k);
    }
  }

  /** Precedence: the value layer `j` holds under `k` survives the fold when
      no later layer mentions `k`, provided that value is not a map or no
      earlier layer (nor the start) had `k` for it to be merged into. */
  lemma {:induction false} FoldLastWins(acc: Tree, layers: seq<Tree>, j: nat, k: string)
    requires ChainCompatible([acc] + layers)
    requires j < |layers| && k in layers[j]
    requires forall j' :: j < j' < |layers| ==> k !in layers[j']
    requires !layers[j][k].Node? ||
             (k !in acc && forall j' :: 0 <= j' < j ==> k !in layers[j'])
    ensures k in FoldMerge(acc, layers) && FoldMerge(acc, layers)[k] == layers[j][k]
    decreases |layers|
  {
    assert [acc] + layers == [acc, layers[0]] + layers[1..];
    ChainStep(acc, layers[0], layers[1..]);
    var acc' := MergeMaps(acc, layers[0]);
    if j == 0 {
      assert acc'[k] == layers[0][k];
      forall j' | 0 <= j' < |layers[1..]| ensures k !in layers[1..][j'] {
        assert layers[1..][j'] == layers[j' + 1];
      }
      FoldUntouched(acc', layers[1..], k);
    } else {
      assert layers[1..][j - 1] == layers[j];
      forall j' | j - 1 < j' < |layers[1..]| ensures k !in layers[1..][j'] {
        assert layers[1..][j'] == layers[j' + 1];
      }
      if layers[j][k].Node? {
        assert k !in layers[0];
        assert k !in acc';
        forall j' | 0 <= j' < j - 1 ensures k !in layers[1..][j'] {
          assert layers[1..][j'] == layers[j' + 1];
        }
      }
      FoldLastWins(acc', layers[1..], j - 1, k);
    }
  }

  /** A path every layer avoids reads after the fold exactly as in the start. */
  lemma {:induction false} FoldKeepsPath(acc: Tree, layers: seq<Tree>, p: seq<string>)
    requires ChainCompatible([acc] + layers)
    requires forall j :: 0 <= j < |layers| ==> Avoids(layers[j], p)
    ensures At(Node(FoldMerge(acc, layers)), p) == At(Node(acc), p)
    decreases |layers|
  {
    if layers != [] {
      assert [acc] + layers == [acc, layers[0]] + layers[1..];
      ChainStep(acc, layers[0], layers[1..]);
      MergeKeepsBase(acc, layers[0], p);
      forall j | 0 <= j < |layers[1..]| ensures Avoids(layers[1..][j], p) {
        assert layers[1..][j] == layers[j + 1];
      }
      FoldKeepsPath(MergeMaps(acc, layers[0]), layers[1..], p);
    }
  }

  /** Precedence at any depth: a scalar that layer `j` reaches along `p` is
      what the fold reaches there when every later layer avoids `p`, whatever
      the earlier layers held. */
  lemma {:induction false} FoldLeafWins(acc: Tree, layers: seq<Tree>, j: nat, p: seq<string>, x: Value)
    requires ChainCompatible([acc] + layers)
    requires j < |layers| && At(Node(layers[j]), p) == Some(x) && !x.Node?
    requires forall j' :: j < j' < |layers| ==> Avoids(layers[j'], p)
    ensures At(Node(FoldMerge(acc, layers)), p) == Some(x)
    decreases |layers|
  {
    assert [acc] + layers == [acc, layers[0]] + layers[1..];
    ChainStep(acc, layers[0], layers[1..]);
    var acc' := MergeMaps(acc, layers[0]);
    forall j' | j - 1 < j' < |layers[1..]| ensures Avoids(layers[1..][j'], p) {
      assert layers[1..][j'] == layers[j' + 1];
    }
    if j == 0 {
      MergeOverlayLeafWins(acc, layers[0], p, x);
      FoldKeepsPath(acc', layers[1..], p);
    } else {
      assert layers[1..][j - 1] == layers[j];
      FoldLeafWins(acc', layers[1..], j - 1, p, x);
    }
  }
}
