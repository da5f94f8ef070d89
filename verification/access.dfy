/** What `set` writes and what `read` finds: the single-branch tree, the
    path `set` touches and the paths it leaves alone, the skipping walk of
    `read`, and the set-then-read round trip. */
module Access {
  import opened ConfigValue
  import opened KeyPath
  import opened Merge
  import opened Config

  /** Strict lookup along every proper prefix of `keys` meets a one-entry map
      whose only key is the next segment. */
  lemma {:induction false} SetRecursiveKeySingleBranch(keys: seq<string>, value: Value, i: nat)
    requires i < |keys|
    ensures At(SetRecursiveKey(keys, value), keys[..i]).Some?
    ensures var n := At(SetRecursiveKey(keys, value), keys[..i]).value;
            n.Node? && n.children.Keys == {keys[i]}
    decreases i
  {
    var r := SetRecursiveKey(keys, value);
    if i > 0 {
      SetRecursiveKeySingleBranch(keys[1..], value, i - 1);
      assert keys[..i] == [keys[0]] + keys[1..][..i - 1];
      AtAppend(r, [keys[0]], keys[1..][..i - 1]);
    }
  }

  /** `p` leaves `path` at some index both have. */
  predicate Diverges(p: seq<string>, path: seq<string>) {
    exists i :: 0 <= i < |p| && i < |path| && p[i] != path[i]
  }

  /** The single-branch tree avoids every path that leaves its own. */
  lemma {:induction false} BranchAvoids(path: seq<string>, value: Value, p: seq<string>)
    requires |path| >= 1
    requires Diverges(p, path)
    ensures Avoids(SetRecursiveKey(path, value).children, p)
    decreases |path|
  {
    var i :| 0 <= i < |p| && i < |path| && p[i] != path[i];
    if p[0] == path[0] {
      assert p[1..][i - 1] != path[1..][i - 1];
      BranchAvoids(path[1..], value, p[1..]);
    }
  }

  /** Merging the single-branch tree for `path` puts `Overwrite(old, value)`
      at `path`, where `old` is what the base held there. */
  lemma {:induction false} MergeBranch(base: Tree, path: seq<string>, value: Value)
    requires |path| >= 1
    requires Compatible(base, SetRecursiveKey(path, value).children)
    ensures SlotCompatible(At(Node(base), path), value)
    ensures At(Node(MergeMaps(base, SetRecursiveKey(path, value).children)), path)
            == Some(Overwrite(At(Node(base), path), value))
    decreases |path|
  {
    var k := path[0];
    var overlay := SetRecursiveKey(path, value).children;
    var sub := SetRecursiveKey(path[1..], value);
    assert overlay[k] == sub;
    MergeMapsAt(base, overlay, k);
    if |path| == 1 {
      assert sub == value;
      assert k in base ==> At(Node(base), path) == Some(base[k]);
    } else if k in base {
      assert sub.Node? && path[1] in sub.children;
      MergeBranch(base[k].children, path[1..], value);
    }
  }

  /** `set(key, value)` writes the prefixed path: a scalar or a new entry
      replaces what was there, and a map is merged into an existing map,
      keeping that map's keys. */
  lemma SetWritesPath(st: State, key: string, value: Value)
    requires SetAllowed(st, key, value)
    ensures var path := SetPath(st, key);
            var prior := At(Node(st.config), path);
            SlotCompatible(prior, value) &&
            At(Node(Set(st, key, value).config), path) == Some(Overwrite(prior, value))
    ensures var path := SetPath(st, key);
            var prior := At(Node(st.config), path);
            (!value.Node? || prior.None?) ==> At(Node(Set(st, key, value).config), path) == Some(value)
    ensures var path := SetPath(st, key);
            var prior := At(Node(st.config), path);
            prior.Some? && prior.value.Node? && value.Node? ==>
              At(Node(Set(st, key, value).config), path) ==
              Some(Node(MergeMaps(prior.value.children, value.children)))
  {
    MergeBranch(st.config, SetPath(st, key), value);
  }

  /** `set(key, value)` leaves every path that leaves the prefixed path
      exactly as it was: present with the same value, or absent. */
  lemma SetOffPathUnchanged(st: State, key: string, value: Value, p: seq<string>)
    requires SetAllowed(st, key, value)
    requires Diverges(p, SetPath(st, key))
    ensures At(Node(Set(st, key, value).config), p) == At(Node(st.config), p)
  {
    BranchAvoids(SetPath(st, key), value, p);
    MergeKeepsBase(st.config, SetOverlay(st, key, value), p);
  }

  /** Every proper prefix of `path` is absent or a map in `t`, so a scalar can
      be written there without merging a map onto a scalar. */
  predicate PathOpen(t: Tree, path: seq<string>)
    decreases |path|
  {
    |path| >= 1 &&
    (|path| == 1 || path[0] !in t ||
     (t[path[0]].Node? && PathOpen(t[path[0]].children, path[1..])))
  }

  /** Setting a scalar is defined exactly when its path does not pass
      through an existing scalar or null. */
  lemma {:induction false} ScalarSetAllowedIff(t: Tree, path: seq<string>, value: Value)
    requires |path| >= 1
    requires !value.Node?
    ensures Compatible(t, SetRecursiveKey(path, value).children) <==> PathOpen(t, path)
    decreases |path|
  {
    var k := path[0];
    var overlay := SetRecursiveKey(path, value).children;
    if |path| > 1 {
      var sub := SetRecursiveKey(path[1..], value);
      assert overlay[k] == sub && sub.Node? && sub.children != map[];
      if k in t && t[k].Node? {
        ScalarSetAllowedIff(t[k].children, path[1..], value);
      }
    }
  }

  /** `read`'s walk agrees with strict lookup whenever strict lookup reaches
      a non-null value. */
  lemma {:induction false} WalkFollowsPath(node: Value, keys: seq<string>, value: Value, x: Value)
    requires |keys| >= 1
    requires At(node, keys) == Some(x)
    requires x != Null
    ensures Walk(node, keys, value) == x
    decreases |keys|
  {
    var child := node.children[keys[0]];
    if |keys| > 1 {
      WalkFollowsPath(child, keys[1..], child, x);
    }
  }

  /** Every position moved one further on. */
  function Shift(idx: seq<nat>): seq<nat> {
    seq(|idx|, t requires 0 <= t < |idx| => idx[t] + 1)
  }

  /** Every position moved one back; none of them is 0. */
  function Unshift(idx: seq<nat>): seq<nat>
    requires forall t :: 0 <= t < |idx| ==> idx[t] > 0
  {
    seq(|idx|, t requires 0 <= t < |idx| => idx[t] - 1)
  }

  /** `idx` and `nodes` trace `read`'s walk over `keys` from `node`: the
      positions `idx` of the segments that resolved, strictly increasing, and
      the nodes the walk stood on, starting at `node`. Each resolved segment
      is a set entry of the node the walk stood on, and the walk moves to that
      entry; every segment before the first of them is not a set entry of
      `node`, and every segment after a resolved one and before the next is
      not a set entry of the node the walk then stood on. */
  predicate WalkTrace(node: Value, keys: seq<string>, idx: seq<nat>, nodes: seq<Value>) {
    |nodes| == |idx| + 1 && nodes[0] == node &&
    (forall t :: 0 <= t < |idx| ==> idx[t] < |keys|) &&
    (forall t :: 0 < t < |idx| ==> idx[t - 1] < idx[t]) &&
    (forall t :: 0 <= t < |idx| ==>
       Resolves(nodes[t], keys[idx[t]]) && nodes[t + 1] == nodes[t].children[keys[idx[t]]]) &&
    (forall i :: 0 <= i < |keys| && (|idx| == 0 || i < idx[0]) ==> !Resolves(node, keys[i])) &&
    (forall t, i :: 0 < t <= |idx| && 0 <= i < |keys| && idx[t - 1] < i && (t == |idx| || i < idx[t]) ==>
                    !Resolves(nodes[t], keys[i]))
  }

  /** After resolving the first segment: the positions increase and each
      step of the child's trace, moved one on, is a step from `node`. */
  lemma ResolveSteps(node: Value, keys: seq<string>, rest: seq<nat>, restNodes: seq<Value>)
    requires keys != [] && Resolves(node, keys[0])
    requires WalkTrace(node.children[keys[0]], keys[1..], rest, restNodes)
    ensures var idx, nodes := [0] + Shift(rest), [node] + restNodes;
            (forall t :: 0 <= t < |idx| ==> idx[t] < |keys|) &&
            (forall t :: 0 < t < |idx| ==> idx[t - 1] < idx[t]) &&
            forall t :: 0 <= t < |idx| ==>
              Resolves(nodes[t], keys[idx[t]]) && nodes[t + 1] == nodes[t].children[keys[idx[t]]]
  {
    var idx := [0] + Shift(rest);
    var nodes := [node] + restNodes;
    assert idx[0] == 0 && nodes[0] == node && nodes[1] == node.children[keys[0]];
    assert forall t :: 0 < t <= |rest| ==> idx[t] == rest[t - 1] + 1;
    assert forall t :: 0 < t <= |rest| + 1 ==> nodes[t] == restNodes[t - 1];
    forall t | 0 <= t < |idx|
      ensures Resolves(nodes[t], keys[idx[t]]) && nodes[t + 1] == nodes[t].children[keys[idx[t]]]
    {
      if t > 0 {
        assert keys[idx[t]] == keys[1..][rest[t - 1]];
      }
    }
  }

  /** After resolving the first segment: nothing lies before position 0, and
      the child's gaps, moved one on, are the gaps from `node`. */
  lemma ResolveGaps(node: Value, keys: seq<string>, rest: seq<nat>, restNodes: seq<Value>)
    requires keys != [] && Resolves(node, keys[0])
    requires WalkTrace(node.children[keys[0]], keys[1..], rest, restNodes)
    ensures var idx, nodes := [0] + Shift(rest), [node] + restNodes;
            forall t, i :: 0 < t <= |idx| && 0 <= i < |keys| && idx[t - 1] < i && (t == |idx| || i < idx[t]) ==>
                           !Resolves(nodes[t], keys[i])
  {
    var idx := [0] + Shift(rest);
    var nodes := [node] + restNodes;
    assert idx[0] == 0;
    assert forall t :: 0 < t <= |rest| ==> idx[t] == rest[t - 1] + 1;
    assert forall t :: 0 < t <= |rest| + 1 ==> nodes[t] == restNodes[t - 1];
    forall t, i | 0 < t <= |idx| && 0 <= i < |keys| && idx[t - 1] < i && (t == |idx| || i < idx[t])
      ensures !Resolves(nodes[t], keys[i])
    {
      assert keys[i] == keys[1..][i - 1];
      if t == 1 {
        assert |rest| == 0 || i - 1 < rest[0];
      } else {
        assert rest[t - 2] < i - 1;
        assert t - 1 == |rest| || i - 1 < rest[t - 1];
      }
    }
  }

  /** A walk that resolves its first segment: the child's trace, moved one
      on, behind position 0. */
  lemma TraceResolve(node: Value, keys: seq<string>, rest: seq<nat>, restNodes: seq<Value>)
    requires keys != [] && Resolves(node, keys[0])
    requires WalkTrace(node.children[keys[0]], keys[1..], rest, restNodes)
    ensures WalkTrace(node, keys, [0] + Shift(rest), [node] + restNodes)
  {
    ResolveSteps(node, keys, rest, restNodes);
    ResolveGaps(node, keys, rest, restNodes);
  }

  /** After skipping the first segment: the tail's steps, moved one on. */
  lemma SkipSteps(node: Value, keys: seq<string>, rest: seq<nat>, restNodes: seq<Value>)
    requires keys != [] && !Resolves(node, keys[0])
    requires WalkTrace(node, keys[1..], rest, restNodes)
    ensures var idx := Shift(rest);
            (forall t :: 0 <= t < |idx| ==> idx[t] < |keys|) &&
            (forall t :: 0 < t < |idx| ==> idx[t - 1] < idx[t]) &&
            forall t :: 0 <= t < |idx| ==>
              Resolves(restNodes[t], keys[idx[t]]) && restNodes[t + 1] == restNodes[t].children[keys[idx[t]]]
  {
    var idx := Shift(rest);
    assert forall t :: 0 <= t < |rest| ==> idx[t] == rest[t] + 1;
    forall t | 0 <= t < |idx|
      ensures Resolves(restNodes[t], keys[idx[t]]) && restNodes[t + 1] == restNodes[t].children[keys[idx[t]]]
    {
      assert keys[idx[t]] == keys[1..][rest[t]];
    }
  }

  /** After skipping the first segment: it joins the first gap, and the
      tail's gaps, moved one on, are the gaps from `node`. */
  lemma SkipGaps(node: Value, keys: seq<string>, rest: seq<nat>, restNodes: seq<Value>)
    requires keys != [] && !Resolves(node, keys[0])
    requires WalkTrace(node, keys[1..], rest, restNodes)
    ensures var idx := Shift(rest);
            (forall i :: 0 <= i < |keys| && (|idx| == 0 || i < idx[0]) ==> !Resolves(node, keys[i])) &&
            forall t, i :: 0 < t <= |idx| && 0 <= i < |keys| && idx[t - 1] < i && (t == |idx| || i < idx[t]) ==>
                           !Resolves(restNodes[t], keys[i])
  {
    var idx := Shift(rest);
    assert forall t :: 0 <= t < |rest| ==> idx[t] == rest[t] + 1;
    forall i | 0 < i < |keys| && (|idx| == 0 || i < idx[0]) ensures !Resolves(node, keys[i]) {
      assert keys[i] == keys[1..][i - 1];
    }
    forall t, i | 0 < t <= |idx| && 0 <= i < |keys| && idx[t - 1] < i && (t == |idx| || i < idx[t])
      ensures !Resolves(restNodes[t], keys[i])
    {
      assert keys[i] == keys[1..][i - 1];
      assert rest[t - 1] < i - 1;
      assert t == |rest| || i - 1 < rest[t];
    }
  }

  /** A walk that skips its first segment: the tail's trace, moved one on. */
  lemma TraceSkip(node: Value, keys: seq<string>, rest: seq<nat>, restNodes: seq<Value>)
    requires keys != [] && !Resolves(node, keys[0])
    requires WalkTrace(node, keys[1..], rest, restNodes)
    ensures WalkTrace(node, keys, Shift(rest), restNodes)
  {
    SkipSteps(node, keys, rest, restNodes);
    SkipGaps(node, keys, rest, restNodes);
  }

  /** `read`'s walk has a trace (the resolved positions and the nodes it
      stood on), and it returns the node the last resolved segment led to,
      or its starting value when none resolved. */
  lemma {:induction false} WalkResolvedPositions(node: Value, keys: seq<string>, value: Value)
    returns (idx: seq<nat>, nodes: seq<Value>)
    ensures WalkTrace(node, keys, idx, nodes)
    ensures Walk(node, keys, value) == if idx == [] then value else nodes[|idx|]
    decreases |keys|
  {
    if keys == [] {
      idx, nodes := [], [node];
    } else if Resolves(node, keys[0]) {
      var child := node.children[keys[0]];
      var rest, restNodes := WalkResolvedPositions(child, keys[1..], child);
      TraceResolve(node, keys, rest, restNodes);
      idx, nodes := [0] + Shift(rest), [node] + restNodes;
    } else {
      var rest, restNodes := WalkResolvedPositions(node, keys[1..], value);
      TraceSkip(node, keys, rest, restNodes);
      idx, nodes := Shift(rest), restNodes;
    }
  }

  /** Positions that increase step by step lie at least `t` past the first. */
  lemma {:induction false} IncreasingFrom(idx: seq<nat>, t: nat)
    requires forall s :: 0 < s < |idx| ==> idx[s - 1] < idx[s]
    requires t < |idx|
    ensures idx[0] + t <= idx[t]
    decreases t
  {
    if t > 0 {
      IncreasingFrom(idx, t - 1);
    }
  }

  /** A trace whose first segment resolves starts at position 0. */
  lemma TraceStartsAtZero(node: Value, keys: seq<string>, idx: seq<nat>, nodes: seq<Value>)
    requires keys != [] && Resolves(node, keys[0])
    requires WalkTrace(node, keys, idx, nodes)
    ensures idx != [] && idx[0] == 0 && nodes[1] == node.children[keys[0]]
    ensures forall t :: 0 <= t < |idx[1..]| ==> idx[1..][t] > 0
  {
    assert idx != [] && idx[0] == 0;
    forall t | 0 <= t < |idx[1..]| ensures idx[1..][t] > 0 {
      IncreasingFrom(idx, t + 1);
    }
  }

  /** The rest of a trace that starts at position 0, moved one back, is the
      child's trace over the tail. */
  lemma TraceTailResolve(node: Value, keys: seq<string>, idx: seq<nat>, nodes: seq<Value>)
    requires keys != [] && Resolves(node, keys[0])
    requires WalkTrace(node, keys, idx, nodes)
    requires idx != [] && idx[0] == 0
    requires forall t :: 0 <= t < |idx[1..]| ==> idx[1..][t] > 0
    ensures WalkTrace(node.children[keys[0]], keys[1..], Unshift(idx[1..]), nodes[1..])
  {
    var rest := Unshift(idx[1..]);
    var restNodes := nodes[1..];
    assert forall t :: 0 <= t < |rest| ==> rest[t] == idx[t + 1] - 1;
    assert forall t :: 0 <= t < |restNodes| ==> restNodes[t] == nodes[t + 1];
    TailResolveSteps(node, keys, idx, nodes);
    forall i | 0 <= i < |keys[1..]| && (|rest| == 0 || i < rest[0])
      ensures !Resolves(restNodes[0], keys[1..][i])
    {
      assert keys[1..][i] == keys[i + 1];
    }
    forall t, i | 0 < t <= |rest| && 0 <= i < |keys[1..]| && rest[t - 1] < i && (t == |rest| || i < rest[t])
      ensures !Resolves(restNodes[t], keys[1..][i])
    {
      assert keys[1..][i] == keys[i + 1];
    }
  }

  /** The steps of the rest of a trace that starts at position 0. */
  lemma TailResolveSteps(node: Value, keys: seq<string>, idx: seq<nat>, nodes: seq<Value>)
    requires keys != [] && WalkTrace(node, keys, idx, nodes)
    requires idx != [] && idx[0] == 0
    requires forall t :: 0 <= t < |idx[1..]| ==> idx[1..][t] > 0
    ensures var rest, restNodes := Unshift(idx[1..]), nodes[1..];
            (forall t :: 0 <= t < |rest| ==> rest[t] < |keys[1..]|) &&
            (forall t :: 0 < t < |rest| ==> rest[t - 1] < rest[t]) &&
            forall t :: 0 <= t < |rest| ==>
              Resolves(restNodes[t], keys[1..][rest[t]]) &&
              restNodes[t + 1] == restNodes[t].children[keys[1..][rest[t]]]
  {
    var rest := Unshift(idx[1..]);
    var restNodes := nodes[1..];
    assert forall t :: 0 <= t < |rest| ==> rest[t] == idx[t + 1] - 1;
    forall t | 0 <= t < |rest|
      ensures Resolves(restNodes[t], keys[1..][rest[t]]) &&
              restNodes[t + 1] == restNodes[t].children[keys[1..][rest[t]]]
    {
      assert restNodes[t] == nodes[t + 1] && restNodes[t + 1] == nodes[t + 2];
      assert keys[1..][rest[t]] == keys[idx[t + 1]];
    }
  }

  /** A trace whose first segment does not resolve, moved one back, is a
      trace over the tail. */
  lemma TraceTailSkip(node: Value, keys: seq<string>, idx: seq<nat>, nodes: seq<Value>)
    requires keys != [] && !Resolves(node, keys[0])
    requires WalkTrace(node, keys, idx, nodes)
    ensures forall t :: 0 <= t < |idx| ==> idx[t] > 0
    ensures WalkTrace(node, keys[1..], Unshift(idx), nodes)
  {
    assert idx != [] ==> idx[0] > 0;
    forall t | 0 <= t < |idx| ensures idx[t] > 0 {
      IncreasingFrom(idx, t);
    }
    var rest := Unshift(idx);
    assert forall t :: 0 <= t < |rest| ==> rest[t] == idx[t] - 1;
    forall t | 0 <= t < |rest|
      ensures Resolves(nodes[t], keys[1..][rest[t]]) && nodes[t + 1] == nodes[t].children[keys[1..][rest[t]]]
    {
      assert keys[1..][rest[t]] == keys[idx[t]];
    }
    forall i | 0 <= i < |keys[1..]| && (|rest| == 0 || i < rest[0])
      ensures !Resolves(node, keys[1..][i])
    {
      assert keys[1..][i] == keys[i + 1];
    }
    forall t, i | 0 < t <= |rest| && 0 <= i < |keys[1..]| && rest[t - 1] < i && (t == |rest| || i < rest[t])
      ensures !Resolves(nodes[t], keys[1..][i])
    {
      assert keys[1..][i] == keys[i + 1];
    }
  }

  /** A trace determines the walk: whatever trace `idx`, `nodes` is given,
      the walk returns the node its last resolved segment led to, or the
      starting value when none resolved. */
  lemma {:induction false} TraceDeterminesWalk(node: Value, keys: seq<string>, value: Value,
                                               idx: seq<nat>, nodes: seq<Value>)
    requires WalkTrace(node, keys, idx, nodes)
    ensures Walk(node, keys, value) == if idx == [] then value else nodes[|idx|]
    decreases |keys|
  {
    if keys == [] {
      assert idx == [];
    } else if Resolves(node, keys[0]) {
      TraceStartsAtZero(node, keys, idx, nodes);
      TraceTailResolve(node, keys, idx, nodes);
      var child := node.children[keys[0]];
      TraceDeterminesWalk(child, keys[1..], child, Unshift(idx[1..]), nodes[1..]);
    } else {
      TraceTailSkip(node, keys, idx, nodes);
      TraceDeterminesWalk(node, keys[1..], value, Unshift(idx), nodes);
    }
  }

  /** A key whose first segment is an environment is read from the whole
      registry, whatever environment is active. */
  lemma ReadQualifiedIgnoresEnvironment(st: State, key: string, env: Option<string>)
    requires Split(key)[0] in st.config
    ensures Read(st, key) == Read(st.(env := env), key)
    ensures Read(st, key) == Walk(Node(st.config), Split(key), Null)
  {
  }

  /** Otherwise the key is read from the active environment's tree if that
      entry is set, and is null if not. */
  lemma ReadUnqualified(st: State, key: string)
    requires Split(key)[0] !in st.config
    ensures IsSet(st.config, EnvKey(st.env)) && st.config[EnvKey(st.env)].Node? ==>
              Read(st, key) == Walk(st.config[EnvKey(st.env)], Split(key), Null)
    ensures !IsSet(st.config, EnvKey(st.env)) || !st.config[EnvKey(st.env)].Node? ==>
              Read(st, key) == Null
  {
  }

  /** Round trip: with environment `e` loaded, `set(key, value)` and then
      `read(key)` gives back a non-null scalar `value`, provided the key's
      first segment is not itself an environment and the path meets no
      scalar on the way down. */
  lemma SetThenRead(st: State, e: string, key: string, value: Value)
    requires st.env == Some(e) && st.keyBase == KeyBaseFor(e)
    requires '.' !in e
    requires Split(key)[0] !in st.config && Split(key)[0] != e
    requires value != Null && !value.Node?
    requires SetAllowed(st, key, value)
    ensures Read(Set(st, key, value), key) == value
  {
    var keys := Split(key);
    var st' := Set(st, key, value);
    SetWritesPath(st, key, value);
    if e == "" {
      assert st.keyBase + key == key;
      assert At(Node(st'.config), keys) == Some(value);
      WalkFollowsPath(Node(st'.config), keys, Null, value);
      ReadQualifiedIgnoresEnvironment(st', key, st'.env);
    } else {
      assert st.keyBase + key == e + "." + key;
      SplitConcat(e, key);
      assert SetPath(st, key) == [e] + keys;
      AtAppend(Node(st'.config), [e], keys);
      assert e in st'.config;
      var tree := st'.config[e];
      assert At(tree, keys) == Some(value);
      WalkFollowsPath(tree, keys, Null, value);
      ReadUnqualified(st', key);
    }
  }

  /** `load(e)` of an existing dot-free environment makes the round trip hold. */
  lemma LoadSetRead(st: State, e: string, key: string, value: Value)
    requires e in st.config && '.' !in e
    requires Split(key)[0] !in st.config && Split(key)[0] != e
    requires value != Null && !value.Node?
    requires SetAllowed(Load(st, e), key, value)
    ensures Read(Set(Load(st, e), key, value), key) == value
  {
    SetThenRead(Load(st, e), e, key, value);
  }

  /** With no key base, setting `e.key` writes the path `e` then `key`'s
      segments. */
  lemma QualifiedSetPath(st: State, e: string, key: string)
    requires st.keyBase == ""
    requires '.' !in e
    ensures SetPath(st, e + "." + key) == [e] + Split(key)
  {
    assert st.keyBase + (e + "." + key) == e + "." + key;
    SplitConcat(e, key);
  }

  /** Setting a non-null scalar under `e.key` with no key base, then loading
      `e`, reads the scalar back through `key`. */
  lemma SetLoadRead(st: State, e: string, key: string, value: Value)
    requires st.keyBase == ""
    requires '.' !in e
    requires e in st.config && st.config[e].Node?
    requires PathOpen(st.config[e].children, Split(key))
    requires Split(key)[0] !in st.config
    requires value != Null && !value.Node?
    ensures SetAllowed(st, e + "." + key, value)
    ensures var s2 := Set(st, e + "." + key, value);
            Load(s2, e).env == Some(e) && Read(Load(s2, e), key) == value
  {
    var full := e + "." + key;
    var keys := Split(key);
    QualifiedSetPath(st, e, key);
    var path := SetPath(st, full);
    ScalarSetAllowedIff(st.config, path, value);
    assert PathOpen(st.config, path);
    var s2 := Set(st, full, value);
    SetWritesPath(st, full, value);
    AtAppend(Node(s2.config), [e], keys);
    var s3 := Load(s2, e);
    assert s3.config == s2.config;
    assert At(s3.config[e], keys) == Some(value);
    WalkFollowsPath(s3.config[e], keys, Null, value);
    ReadUnqualified(s3, key);
  }

  /** The class's usage pattern: extend environment `e` from some sources,
      set `e.key` for a one-segment key before any environment is loaded,
      load `e`, and read `key` back. */
  lemma ExtendSetLoadRead(st: State, e: string, sources: seq<string>, key: string, value: Value)
    requires st.keyBase == ""
    requires '.' !in e
    requires ExtendAllowed(st.config, e, sources)
    requires '.' !in key && key !in st.config && key != e
    requires value != Null && !value.Node?
    ensures var s1 := Extend(st, e, sources);
            SetAllowed(s1, e + "." + key, value) &&
            var s3 := Load(Set(s1, e + "." + key, value), e);
            s3.env == Some(e) && Read(s3, key) == value
  {
    var s1 := Extend(st, e, sources);
    assert Split(key) == [key];
    SetLoadRead(s1, e, key, value);
  }

  /** The documented example itself: starting with no key base,
      `extend('Development', ['Staging'])`, `set('Development.Key', 'value')`,
      `load('Development')` and `read('Key')` give 'value'. */
  lemma UsageExample(st: State)
    requires st.keyBase == ""
    requires ExtendAllowed(st.config, "Development", ["Staging"])
    requires "Key" !in st.config
    ensures var s1 := Extend(st, "Development", ["Staging"]);
            SetAllowed(s1, "Development.Key", Str("value")) &&
            var s3 := Load(Set(s1, "Development.Key", Str("value")), "Development");
            Read(s3, "Key") == Str("value")
  {
    assert "Development" + "." + "Key" == "Development.Key";
    ExtendSetLoadRead(st, "Development", ["Staging"], "Key", Str("value"));
  }

  /** Reading past a missing segment keeps looking in the same node: with
      `Dev = {key: 5}`, `Dev.missing.key` reads 5. */
  lemma ReadSkipsMissingSegment()
    ensures Read(State(map["Dev" := Node(map["key" := Int(5)])], None, ""), "Dev.missing.key") == Int(5)
  {
    var st := State(map["Dev" := Node(map["key" := Int(5)])], None, "");
    SplitJoin(["Dev", "missing", "key"]);
    assert Join(["Dev", "missing", "key"]) == "Dev.missing.key";
    ReadQualifiedIgnoresEnvironment(st, "Dev.missing.key", None);
    WalkExamples();
  }

  /** A key whose only further segment is missing reads the whole map it
      stopped at: with `Dev = {key: 5}`, `Dev.nope` reads `Dev`, not null. */
  lemma ReadNopeGivesDevMap()
    ensures Read(State(map["Dev" := Node(map["key" := Int(5)])], None, ""), "Dev.nope") ==
            Node(map["key" := Int(5)])
  {
    var st := State(map["Dev" := Node(map["key" := Int(5)])], None, "");
    SplitJoin(["Dev", "nope"]);
    assert Join(["Dev", "nope"]) == "Dev.nope";
    ReadQualifiedIgnoresEnvironment(st, "Dev.nope", None);
    WalkExamples();
  }

  /** The two walks behind the examples above, step by step. */
  lemma WalkExamples()
    ensures Walk(Node(map["Dev" := Node(map["key" := Int(5)])]), ["Dev", "missing", "key"], Null) == Int(5)
    ensures Walk(Node(map["Dev" := Node(map["key" := Int(5)])]), ["Dev", "nope"], Null) ==
            Node(map["key" := Int(5)])
  {
    var dev := Node(map["key" := Int(5)]);
    var root := Node(map["Dev" := dev]);
    assert Walk(root, ["Dev", "missing", "key"], Null) == Walk(dev, ["missing", "key"], dev);
    assert Walk(dev, ["missing", "key"], dev) == Walk(dev, ["key"], dev);
    assert Walk(dev, ["key"], dev) == Walk(Int(5), [], Int(5));
    assert Walk(root, ["Dev", "nope"], Null) == Walk(dev, ["nope"], dev);
    assert Walk(dev, ["nope"], dev) == Walk(dev, [], dev);
  }
}
