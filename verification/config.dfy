/** The static configuration registry `Config`, with its process-wide static
    fields made an explicit `State` that every operation takes and returns. */
module Config {
  import opened ConfigValue
  import opened KeyPath
  import opened Merge

  /** The registry (`$config`), the active environment (`$environment`) and
      the prefix `set` puts in front of every key (`$keyBase`). */
  datatype State = State(config: Tree, env: Option<string>, keyBase: string)

  /** The state before any call: an empty registry, no environment, and a key
      base that is null in PHP, which concatenates as the empty string. */
  const Initial: State := State(map[], None, "")

  /** `getEnvironment`. */
  function GetEnvironment(st: State): Option<string> {
    st.env
  }

  /** `getConfig`. */
  function GetConfig(st: State): Tree {
    st.config
  }

  /** The key base `setBase(key)` stores: `key` and a '.' unless `key` is empty. */
  function KeyBaseFor(key: string): (base: string)
    ensures base == "" <==> key == ""
    ensures base != "" ==> base[|base| - 1] == '.' && base[..|base| - 1] == key
  {
    if key != "" then key + "." else ""
  }

  /** `setBase`: replaces the key base and nothing else. */
  function SetBase(st: State, key: string): (st': State)
    ensures st'.config == st.config && st'.env == st.env
    ensures st'.keyBase == KeyBaseFor(key)
    ensures st'.keyBase == "" || st'.keyBase[|st'.keyBase| - 1] == '.'
    ensures st'.keyBase == "" <==> key == ""
  {
    st.(keyBase := KeyBaseFor(key))
  }

  /** `setRecursiveKey(keys, value)`: a chain of one-entry maps, one per key,
      that strict lookup along `keys` follows down to exactly `value`. */
  function SetRecursiveKey(keys: seq<string>, value: Value): (r: Value)
    ensures At(r, keys) == Some(value)
    ensures |keys| > 0 ==> r.Node? && r.children.Keys == {keys[0]}
    decreases |keys|
  {
    if |keys| > 0 then Node(map[keys[0] := SetRecursiveKey(keys[1..], value)])
    else value
  }

  /** `load(environment)`: activates an environment the registry has (even
      one holding null) and makes it the key base; otherwise does nothing. */
  function Load(st: State, environment: string): (st': State)
    ensures environment !in st.config ==> st' == st
    ensures environment in st.config ==>
              st'.config == st.config && st'.env == Some(environment) &&
              st'.keyBase == KeyBaseFor(environment)
  {
    if environment in st.config then
      SetBase(st.(env := Some(environment)), environment)
    else st
  }

  /** Every named entry that is set (present and not null) holds a map. */
  predicate SourcesAreMaps(config: Tree, names: seq<string>) {
    forall name :: name in names && IsSet(config, name) ==> config[name].Node?
  }

  /** The trees of the named entries that are set, in order. Only map
      entries contribute; `ExtendAllowed` makes every set entry a map. */
  function Layers(config: Tree, names: seq<string>): seq<Tree>
    decreases |names|
  {
    if names == [] then []
    else
      (if IsSet(config, names[0]) && config[names[0]].Node? then [config[names[0]].children] else [])
        + Layers(config, names[1..])
  }

  /** What `extend` can compute without leaving defined PHP behaviour: the
      sources and the environment itself are maps wherever they are set, and
      each of these layers is compatible with every later one. */
  predicate ExtendAllowed(config: Tree, environment: string, sources: seq<string>) {
    SourcesAreMaps(config, sources + [environment]) &&
    ChainCompatible(Layers(config, sources + [environment]))
  }

  /** The layers of a suffix of a list of names. */
  lemma LayersSuffix(config: Tree, names: seq<string>, i: nat)
    requires SourcesAreMaps(config, names)
    requires i < |names|
    ensures SourcesAreMaps(config, names[i..])
    ensures SourcesAreMaps(config, names[i + 1..])
    ensures Layers(config, names[i..]) ==
            (if IsSet(config, names[i]) then [config[names[i]].children] else [])
              + Layers(config, names[i + 1..])
  {
    assert names[i..][1..] == names[i + 1..];
    forall j | 0 <= j < |names[i..]| ensures names[i..][j] == names[i + j] { }
  }

  /** The `for` loop of `extend` from index `i` on, with the accumulated array
      `acc`: at index 0 a set source replaces the accumulator, at later
      indices it is merged onto it, and unset sources are skipped. The loop
      is the same as merging every set source, in order, onto `acc`. */
  function Inherit(config: Tree, sources: seq<string>, i: nat, acc: Tree): (r: Tree)
    requires i <= |sources|
    requires SourcesAreMaps(config, sources[i..])
    requires i == 0 ==> acc == map[]
    requires ChainCompatible([acc] + Layers(config, sources[i..]))
    ensures r == FoldMerge(acc, Layers(config, sources[i..]))
    decreases |sources| - i
  {
    if i == |sources| then
      acc
    else
      var names := sources[i..];
      assert names[0] == sources[i];
      assert names[1..] == sources[i + 1..];
      LayersSuffix(config, names, 0);
      var rest := Layers(config, sources[i + 1..]);
      if i == 0 && IsSet(config, sources[i]) then
        var first := config[sources[i]].children;
        assert [acc] + Layers(config, names) == [acc, first] + rest;
        ChainStep(acc, first, rest);
        MergeOntoEmpty(first);
        Inherit(config, sources, i + 1, first)
      else if IsSet(config, sources[i]) then
        var next := config[sources[i]].children;
        assert [acc] + Layers(config, names) == [acc, next] + rest;
        ChainStep(acc, next, rest);
        Inherit(config, sources, i + 1, MergeMaps(acc, next))
      else
        assert Layers(config, names) == rest;
        Inherit(config, sources, i + 1, acc)
  }

  /** The layers of a concatenation of name lists. */
  lemma {:induction false} LayersAppend(config: Tree, a: seq<string>, b: seq<string>)
    requires SourcesAreMaps(config, a + b)
    ensures SourcesAreMaps(config, a) && SourcesAreMaps(config, b)
    ensures Layers(config, a + b) == Layers(config, a) + Layers(config, b)
    decreases |a|
  {
    if a != [] {
      assert (a + b)[0] == a[0];
      assert (a + b)[1..] == a[1..] + b;
      LayersAppend(config, a[1..], b);
      assert SourcesAreMaps(config, a) by {
        forall name | name in a ensures name in a + b {}
      }
    } else {
      assert a + b == b;
    }
  }

  /** Folding a chain and then merging one more compatible layer. */
  lemma {:induction false} FoldAppend(acc: Tree, layers: seq<Tree>, last: Tree)
    requires ChainCompatible([acc] + (layers + [last]))
    ensures ChainCompatible([acc] + layers)
    ensures Compatible(FoldMerge(acc, layers), last)
    ensures FoldMerge(acc, layers + [last]) == MergeMaps(FoldMerge(acc, layers), last)
    decreases |layers|
  {
    var l := [acc] + (layers + [last]);
    assert ChainCompatible([acc] + layers) by {
      forall i, j | 0 <= i < j < |layers| + 1
        ensures Compatible(([acc] + layers)[i], ([acc] + layers)[j])
      {
        assert l[i] == ([acc] + layers)[i] && l[j] == ([acc] + layers)[j];
      }
    }
    if layers == [] {
      assert l == [acc, last];
      assert Compatible(l[0], l[1]);
      assert [last] == [] + [last];
    } else {
      assert l == [acc, layers[0]] + (layers[1..] + [last]);
      ChainStep(acc, layers[0], layers[1..] + [last]);
      FoldAppend(MergeMaps(acc, layers[0]), layers[1..], last);
      assert (layers + [last])[0] == layers[0];
      assert (layers + [last])[1..] == layers[1..] + [last];
    }
  }

  /** `extend(environment, sources)`: merges the set sources left to right,
      then the environment's own existing values on top, and stores the
      result as the environment, changing nothing else. */
  function Extend(st: State, environment: string, sources: seq<string>): (st': State)
    requires ExtendAllowed(st.config, environment, sources)
    ensures st'.env == st.env && st'.keyBase == st.keyBase
    ensures st'.config ==
            st.config[environment := Node(FoldMerge(map[], Layers(st.config, sources + [environment])))]
  {
    var config := st.config;
    LayersAppend(config, sources, [environment]);
    var inherited := Layers(config, sources);
    var own := Layers(config, [environment]);
    var all := Layers(config, sources + [environment]);
    ChainFromEmpty(all);
    assert [map[]] + all == ([map[]] + inherited) + own;
    ChainPrefix([map[]] + all, 1 + |inherited|);
    assert ([map[]] + all)[..1 + |inherited|] == [map[]] + inherited;
    assert sources[0..] == sources;
    var acc := Inherit(config, sources, 0, map[]);
    if IsSet(config, environment) then
      assert own == [config[environment].children];
      FoldAppend(map[], inherited, config[environment].children);
      var merged := MergeMaps(acc, config[environment].children);
      st.(config := config[environment := Node(merged)])
    else
      assert own == [];
      assert inherited + own == inherited;
      st.(config := config[environment := Node(acc)])
  }

  /** The key path `set(key, …)` writes to: the key base and the key, split. */
  function SetPath(st: State, key: string): (path: seq<string>)
    ensures |path| >= 1 && DotFree(path)
  {
    Split(st.keyBase + key)
  }

  /** The single-branch tree `set(key, value)` merges into the registry: one
      top-level entry, the path's first segment, and strict lookup along the
      path reaches the value. */
  function SetOverlay(st: State, key: string, value: Value): (overlay: Tree)
    ensures overlay.Keys == {SetPath(st, key)[0]}
    ensures At(Node(overlay), SetPath(st, key)) == Some(value)
  {
    SetRecursiveKey(SetPath(st, key), value).children
  }

  /** `set` stays inside defined PHP behaviour: its single-branch tree only
      meets maps on the way down, and a non-empty map value lands on a map or
      on nothing. */
  predicate SetAllowed(st: State, key: string, value: Value) {
    Compatible(st.config, SetOverlay(st, key, value))
  }

  /** `set(key, value)`: merges the single-branch tree for the prefixed key
      into the whole registry. No environment is removed and nothing but the
      registry changes. */
  function Set(st: State, key: string, value: Value): (st': State)
    requires SetAllowed(st, key, value)
    ensures st'.env == st.env && st'.keyBase == st.keyBase
    ensures st'.config.Keys == st.config.Keys + {SetPath(st, key)[0]}
  {
    st.(config := MergeMaps(st.config, SetOverlay(st, key, value)))
  }

  /** The array key PHP uses for the active environment: a null environment
      is coerced to the empty-string key. */
  function EnvKey(env: Option<string>): (k: string)
    ensures env.Some? ==> k == env.value
    ensures k == "" <==> env == None || env == Some("")
  {
    match env
    case None => ""
    case Some(e) => e
  }

  /** Whether `key` names a set entry (present and not null) of a map node;
      leaves have no entries. */
  predicate Resolves(node: Value, key: string) {
    node.Node? && IsSet(node.children, key)
  }

  /** The root `read` descends from: the whole registry when the key's first
      segment is an environment, else the active environment's tree if it is
      set, else nothing. */
  function ReadRoot(st: State, keys: seq<string>): (root: Option<Value>)
    requires |keys| >= 1
    ensures root.Some? ==> root.value != Null
    ensures root.None? <==> keys[0] !in st.config && !IsSet(st.config, EnvKey(st.env))
    ensures keys[0] in st.config ==> root == Some(Node(st.config))
    ensures keys[0] !in st.config && root.Some? ==> Some(root.value) == Get(st.config, EnvKey(st.env))
  {
    if keys[0] in st.config then Some(Node(st.config))
    else if IsSet(st.config, EnvKey(st.env)) then Some(st.config[EnvKey(st.env)])
    else None
  }

  /** The `foreach` of `read`: a segment that resolves in the current node is
      descended into and becomes the value; one that does not is skipped and
      the next segment is looked up in the same node. */
  function Walk(node: Value, keys: seq<string>, value: Value): (r: Value)
    ensures (forall i :: 0 <= i < |keys| ==> !Resolves(node, keys[i])) ==> r == value
    decreases |keys|
  {
    if keys == [] then value
    else if Resolves(node, keys[0]) then
      var child := node.children[keys[0]];
      Walk(child, keys[1..], child)
    else Walk(node, keys[1..], value)
  }

  /** A walk never loses a resolved value: it only moves to set entries. */
  lemma {:induction false} WalkKeepsNonNull(node: Value, keys: seq<string>, value: Value)
    requires value != Null
    ensures Walk(node, keys, value) != Null
    decreases |keys|
  {
    if keys != [] {
      if Resolves(node, keys[0]) {
        WalkKeepsNonNull(node.children[keys[0]], keys[1..], node.children[keys[0]]);
      } else {
        WalkKeepsNonNull(node, keys[1..], value);
      }
    }
  }

  /** A walk starting from null ends at null exactly when no segment
      resolves in the starting node. */
  lemma {:induction false} WalkNullIffNoneResolve(node: Value, keys: seq<string>)
    ensures Walk(node, keys, Null) == Null <==>
            forall i :: 0 <= i < |keys| ==> !Resolves(node, keys[i])
    decreases |keys|
  {
    if keys != [] {
      if Resolves(node, keys[0]) {
        WalkKeepsNonNull(node.children[keys[0]], keys[1..], node.children[keys[0]]);
      } else {
        WalkNullIffNoneResolve(node, keys[1..]);
        if forall i :: 0 <= i < |keys| - 1 ==> !Resolves(node, keys[1..][i]) {
          forall i | 0 <= i < |keys| ensures !Resolves(node, keys[i]) {
            if i > 0 {
              assert keys[i] == keys[1..][i - 1];
            }
          }
        }
      }
    }
  }

  /** `read(key)`: the value reached by the last segment that resolved from
      the root, or null. It is null exactly when there is no root, the root
      is not a map, or no segment of the key is a set entry of the root. */
  function Read(st: State, key: string): (r: Value)
    ensures r == Null <==>
            var root := ReadRoot(st, Split(key));
            root.None? || !root.value.Node? ||
            forall i :: 0 <= i < |Split(key)| ==> !Resolves(root.value, Split(key)[i])
  {
    var keys := Split(key);
    match ReadRoot(st, keys)
    case None => Null
    case Some(root) =>
      if root.Node? then
        WalkNullIffNoneResolve(root, keys);
        Walk(root, keys, Null)
      else Null
  }
}
