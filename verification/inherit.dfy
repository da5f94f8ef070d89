/** Environment inheritance: which keys `extend` produces, which source wins
    a conflict, and which sources it ignores. */
module Inheritance {
  import opened ConfigValue
  import opened Merge
  import opened Config

  /** Every layer comes from a set entry among the names. */
  lemma {:induction false} LayerOrigin(config: Tree, names: seq<string>, n: nat)
    requires SourcesAreMaps(config, names)
    requires n < |Layers(config, names)|
    ensures exists i :: 0 <= i < |names| && IsSet(config, names[i]) &&
                        Layers(config, names)[n] == config[names[i]].children
    decreases |names|
  {
    LayersSuffix(config, names, 0);
    assert names[0..] == names;
    var rest := Layers(config, names[1..]);
    if IsSet(config, names[0]) && n == 0 {
      assert Layers(config, names)[0] == config[names[0]].children;
    } else {
      var m := if IsSet(config, names[0]) then n - 1 else n;
      assert Layers(config, names)[n] == rest[m];
      LayerOrigin(config, names[1..], m);
      var i :| 0 <= i < |names[1..]| && IsSet(config, names[1..][i]) &&
               rest[m] == config[names[1..][i]].children;
      assert names[1..][i] == names[i + 1];
    }
  }

  /** The layer of a set entry sits after the layers of the names before it
      and before the layers of the names after it. */
  lemma LayersAround(config: Tree, names: seq<string>, j: nat)
    requires SourcesAreMaps(config, names)
    requires j < |names| && IsSet(config, names[j])
    ensures SourcesAreMaps(config, names[..j]) && SourcesAreMaps(config, names[j + 1..])
    ensures Layers(config, names) ==
            Layers(config, names[..j]) + [config[names[j]].children] + Layers(config, names[j + 1..])
  {
    assert names == names[..j] + names[j..];
    LayersAppend(config, names[..j], names[j..]);
    LayersSuffix(config, names[j..], 0);
    assert names[j..][0] == names[j];
    assert names[j..][1..] == names[j + 1..];
    assert names[j..][0..] == names[j..];
  }

  /** The tree `extend(environment, sources)` stores. */
  function Extended(config: Tree, environment: string, sources: seq<string>): Tree
    requires ExtendAllowed(config, environment, sources)
  {
    ChainFromEmpty(Layers(config, sources + [environment]));
    FoldMerge(map[], Layers(config, sources + [environment]))
  }

  /** `extend` stores `Extended` under the environment. */
  lemma ExtendStores(st: State, environment: string, sources: seq<string>)
    requires ExtendAllowed(st.config, environment, sources)
    ensures Extend(st, environment, sources).config[environment] ==
            Node(Extended(st.config, environment, sources))
  {
  }

  /** A set entry among the names has its tree among the layers. */
  lemma NameHasLayer(config: Tree, names: seq<string>, i: nat)
    requires SourcesAreMaps(config, names)
    requires i < |names| && IsSet(config, names[i])
    ensures exists n :: 0 <= n < |Layers(config, names)| &&
                        Layers(config, names)[n] == config[names[i]].children
  {
    LayersAround(config, names, i);
    var n := |Layers(config, names[..i])|;
    assert Layers(config, names)[n] == config[names[i]].children;
  }

  /** Whether `k` is a key of a set source or of the environment's own tree
      (all of which are maps when `extend` is allowed). */
  predicate InSomeSource(config: Tree, environment: string, sources: seq<string>, k: string) {
    (exists i :: 0 <= i < |sources| && IsSet(config, sources[i]) && config[sources[i]].Node? &&
                 k in config[sources[i]].children) ||
    (IsSet(config, environment) && config[environment].Node? && k in config[environment].children)
  }

  /** A key of some layer is a key of a set source or of the environment. */
  lemma LayerKeyFromSource(config: Tree, environment: string, sources: seq<string>, k: string, n: nat)
    requires SourcesAreMaps(config, sources + [environment])
    requires n < |Layers(config, sources + [environment])|
    requires k in Layers(config, sources + [environment])[n]
    ensures InSomeSource(config, environment, sources, k)
  {
    var names := sources + [environment];
    LayerOrigin(config, names, n);
    var i :| 0 <= i < |names| && IsSet(config, names[i]) &&
             Layers(config, names)[n] == config[names[i]].children;
    if i < |sources| {
      assert names[i] == sources[i];
    } else {
      assert names[i] == environment;
    }
  }

  /** A key of a set source or of the environment is a key of some layer. */
  lemma SourceKeyInLayer(config: Tree, environment: string, sources: seq<string>, k: string)
    requires SourcesAreMaps(config, sources + [environment])
    requires InSomeSource(config, environment, sources, k)
    ensures exists n :: 0 <= n < |Layers(config, sources + [environment])| &&
                        k in Layers(config, sources + [environment])[n]
  {
    var names := sources + [environment];
    var i: nat;
    if exists i :: 0 <= i < |sources| && IsSet(config, sources[i]) && k in config[sources[i]].children {
      i :| 0 <= i < |sources| && IsSet(config, sources[i]) && k in config[sources[i]].children;
      assert names[i] == sources[i];
    } else {
      i := |sources|;
      assert names[i] == environment;
    }
    NameHasLayer(config, names, i);
  }

  /** The environment's keys after `extend` are those of every set source
      and of its own existing tree, and no others. */
  lemma ExtendKeys(st: State, environment: string, sources: seq<string>, k: string)
    requires ExtendAllowed(st.config, environment, sources)
    ensures k in Extended(st.config, environment, sources) <==>
            InSomeSource(st.config, environment, sources, k)
  {
    var layers := Layers(st.config, sources + [environment]);
    ChainFromEmpty(layers);
    FoldKeys(map[], layers, k);
    if exists n :: 0 <= n < |layers| && k in layers[n] {
      var n :| 0 <= n < |layers| && k in layers[n];
      LayerKeyFromSource(st.config, environment, sources, k, n);
    }
    if InSomeSource(st.config, environment, sources, k) {
      SourceKeyInLayer(st.config, environment, sources, k);
    }
  }

  /** Precedence among sources: the value source `j` holds under `k` is what
      the environment gets when no later set source and not the environment
      itself has `k`, provided that value is a scalar (a later-wins
      override) or no earlier set source has `k` (plain inheritance). */
  lemma ExtendSourcePrecedence(st: State, environment: string, sources: seq<string>, j: nat, k: string)
    requires ExtendAllowed(st.config, environment, sources)
    requires j < |sources| && IsSet(st.config, sources[j])
    requires k in st.config[sources[j]].children
    requires forall j' :: j < j' < |sources| && IsSet(st.config, sources[j']) ==>
               k !in st.config[sources[j']].children
    requires IsSet(st.config, environment) ==> k !in st.config[environment].children
    requires !st.config[sources[j]].children[k].Node? ||
             forall j' :: 0 <= j' < j && IsSet(st.config, sources[j']) ==>
               k !in st.config[sources[j']].children
    ensures k in Extended(st.config, environment, sources)
    ensures Extended(st.config, environment, sources)[k] == st.config[sources[j]].children[k]
  {
    var config := st.config;
    var names := sources + [environment];
    var layers := Layers(config, names);
    var tree := config[sources[j]].children;
    assert names[j] == sources[j];
    LayersAround(config, names, j);
    var before := Layers(config, names[..j]);
    var after := Layers(config, names[j + 1..]);
    var n := |before|;
    assert layers[n] == tree;
    forall n' | n < n' < |layers| ensures k !in layers[n'] {
      assert layers[n'] == after[n' - n - 1];
      LayerOrigin(config, names[j + 1..], n' - n - 1);
      var i :| 0 <= i < |names[j + 1..]| && IsSet(config, names[j + 1..][i]) &&
               after[n' - n - 1] == config[names[j + 1..][i]].children;
      assert names[j + 1..][i] == names[j + 1 + i];
      if j + 1 + i < |sources| {
        assert names[j + 1 + i] == sources[j + 1 + i];
      } else {
        assert names[j + 1 + i] == environment;
      }
    }
    if tree[k].Node? {
      forall n' | 0 <= n' < n ensures k !in layers[n'] {
        assert layers[n'] == before[n'];
        LayerOrigin(config, names[..j], n');
        var i :| 0 <= i < |names[..j]| && IsSet(config, names[..j][i]) &&
                 before[n'] == config[names[..j][i]].children;
        assert names[..j][i] == sources[i];
      }
    }
    ChainFromEmpty(layers);
    FoldLastWins(map[], layers, n, k);
  }

  /** Entry `name` adds nothing along path `p` when merged: it is unset, or a
      map that avoids `p`. */
  predicate EntryAvoids(config: Tree, name: string, p: seq<string>) {
    IsSet(config, name) ==> config[name].Node? && Avoids(config[name].children, p)
  }

  /** Precedence among sources at any depth: a scalar that source `j` reaches
      along `p` is what the extended environment reaches there when every
      later set source and the environment's own tree avoid `p`, whatever the
      earlier sources hold there. */
  lemma ExtendSourceLeafWins(st: State, environment: string, sources: seq<string>, j: nat,
                             p: seq<string>, x: Value)
    requires ExtendAllowed(st.config, environment, sources)
    requires j < |sources| && IsSet(st.config, sources[j])
    requires At(st.config[sources[j]], p) == Some(x) && !x.Node?
    requires forall j' :: j < j' < |sources| ==> EntryAvoids(st.config, sources[j'], p)
    requires EntryAvoids(st.config, environment, p)
    ensures At(Node(Extended(st.config, environment, sources)), p) == Some(x)
  {
    var config := st.config;
    var names := sources + [environment];
    var layers := Layers(config, names);
    assert names[j] == sources[j];
    LayersAround(config, names, j);
    var before := Layers(config, names[..j]);
    var after := Layers(config, names[j + 1..]);
    var n := |before|;
    assert layers[n] == config[sources[j]].children;
    forall n' | n < n' < |layers| ensures Avoids(layers[n'], p) {
      assert layers[n'] == after[n' - n - 1];
      LayerOrigin(config, names[j + 1..], n' - n - 1);
      var i :| 0 <= i < |names[j + 1..]| && IsSet(config, names[j + 1..][i]) &&
               after[n' - n - 1] == config[names[j + 1..][i]].children;
      assert names[j + 1..][i] == names[j + 1 + i];
      if j + 1 + i < |sources| {
        assert names[j + 1 + i] == sources[j + 1 + i];
        assert EntryAvoids(config, sources[j + 1 + i], p);
      } else {
        assert names[j + 1 + i] == environment;
      }
    }
    ChainFromEmpty(layers);
    FoldLeafWins(map[], layers, n, p, x);
  }

  /** The environment's own existing values win over every source, at any
      depth: a scalar its tree reaches along a path is what the extended
      tree reaches there. */
  lemma ExtendOwnLeavesWin(st: State, environment: string, sources: seq<string>, p: seq<string>, x: Value)
    requires ExtendAllowed(st.config, environment, sources)
    requires IsSet(st.config, environment)
    requires At(st.config[environment], p) == Some(x)
    requires !x.Node?
    ensures At(Node(Extended(st.config, environment, sources)), p) == Some(x)
  {
    var config := st.config;
    var own := config[environment].children;
    LayersAppend(config, sources, [environment]);
    var inherited := Layers(config, sources);
    assert Layers(config, [environment]) == [own];
    var layers := Layers(config, sources + [environment]);
    assert layers == inherited + [own];
    ChainFromEmpty(layers);
    FoldAppend(map[], inherited, own);
    assert Node(own) == config[environment];
    MergeOverlayLeafWins(FoldMerge(map[], inherited), own, p, x);
  }

  /** Sources that are absent or null are skipped: dropping one changes
      nothing. */
  lemma ExtendSkipsUnset(st: State, environment: string, sources: seq<string>, i: nat)
    requires ExtendAllowed(st.config, environment, sources)
    requires i < |sources| && !IsSet(st.config, sources[i])
    ensures ExtendAllowed(st.config, environment, sources[..i] + sources[i + 1..])
    ensures Extend(st, environment, sources) ==
            Extend(st, environment, sources[..i] + sources[i + 1..])
  {
    var config := st.config;
    var names := sources + [environment];
    var names' := sources[..i] + sources[i + 1..] + [environment];
    assert SourcesAreMaps(config, names') by {
      forall t | 0 <= t < |names'| && IsSet(config, names'[t]) ensures config[names'[t]].Node? {
        if t < i {
          assert names'[t] == names[t];
        } else {
          assert names'[t] == names[t + 1];
        }
      }
    }
    assert names == sources[..i] + ([sources[i]] + (sources[i + 1..] + [environment]));
    assert names' == sources[..i] + (sources[i + 1..] + [environment]);
    LayersAppend(config, sources[..i], [sources[i]] + (sources[i + 1..] + [environment]));
    LayersAppend(config, [sources[i]], sources[i + 1..] + [environment]);
    LayersAppend(config, sources[..i], sources[i + 1..] + [environment]);
    assert Layers(config, [sources[i]]) == [];
    assert Layers(config, names) == Layers(config, names');
  }

  /** Extending an environment that is not set from no sources creates it
      as an empty map and touches nothing else. */
  lemma ExtendNothingCreatesEmpty(st: State, environment: string)
    requires !IsSet(st.config, environment)
    ensures ExtendAllowed(st.config, environment, [])
    ensures Extend(st, environment, []).config == st.config[environment := Node(map[])]
  {
    assert [] + [environment] == [environment];
    assert Layers(st.config, [environment]) == [];
  }
}
