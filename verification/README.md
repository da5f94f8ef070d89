# Config registry model

A Dafny model of `Apok\Component\Config\Config`, a static configuration
registry. The registry maps environment names ("Development", "Staging", …)
to nested configuration trees. It also tracks the active environment and a
key base, the prefix that `set` puts in front of every key. The operations
are:

- `setBase`: sets the key base;
- `load`: activates an environment;
- `extend`: environment inheritance;
- `set`: writes a dotted key;
- `read`: reads a dotted key;
- the private helpers `setRecursiveKey` and `mergeArrays`;
- the accessors `getEnvironment` and `getConfig`.

The PHP class keeps its state in static fields. Here that state is an
explicit immutable `Config.State(config, env, keyBase)`, and every operation
is a pure function from a state to a state (or, for `read`, to a value).
Values are `ConfigValue.Value = Null | Bool | Int | Str | Node(map<string, Value>)`.

Files and modules:

- `value.dfy` (`ConfigValue`): values, PHP `isset`, and strict path lookup `At`.
- `keypath.dfy` (`KeyPath`): `explode('.', …)` as `Split`, with its inverse `Join`.
- `merge.dfy` (`Merge`): `mergeArrays` as `MergeMaps`, with its left-to-right fold.
- `config.dfy` (`Config`): the state and the operations themselves.
- `access.dfy` (`Access`): what `set` writes, what `read` finds, and the round trips.
- `inherit.dfy` (`Inheritance`): the precedence rules of `extend`.
- `registry.dfy` (`Registry`): the state invariant and `load`'s behaviour.

Behaviour of the code that the model keeps, as written:

- `read` does not stop at a missing segment. It skips that segment and looks
  the next one up in the same node. With `Dev = {key: 5}`, `read('Dev.missing.key')`
  is `5` and `read('Dev.nope')` is the whole `Dev` map.
- `read`'s root test uses `array_key_exists`, so an environment holding null
  still counts. The walk and the active-environment test use `isset`, so null
  entries are skipped there.
- With no active environment, PHP looks up `$config[null]`, which is the
  entry under the empty-string key. `Config.EnvKey` models that coercion.
- The doc comment's "known issue" says overwriting a boolean fails.
  `mergeArrays` has no test on falsy values, so the model has no such bug:
  any scalar, `false` included, replaces what was at its path (`Access.SetWritesPath`).
- `extend` replaces its accumulator with the first source only when that
  source is at index 0. `Config.Inherit` models that branch as written, and its
  contract shows that the result is the same as merging every source into an
  empty array.

## Model

| member | source | states |
|---|---|---|
| `KeyPath.Split` | src/Apok/Component/Config/Config.php:166 | `explode('.', key)` always gives at least one segment, and no segment contains a dot |
| `KeyPath.JoinSplit` | src/Apok/Component/Config/Config.php:166 | joining the segments of a key with '.' gives back the key |
| `KeyPath.SplitJoin` | src/Apok/Component/Config/Config.php:181 | splitting dot-free segments joined with '.' gives back exactly those segments |
| `KeyPath.SplitConcat` | src/Apok/Component/Config/Config.php:164-166 | prefixing a key with a dot-free key base and '.' adds exactly one leading segment |
| `Config.KeyBaseFor` | src/Apok/Component/Config/Config.php:62-69 | the key base is empty exactly when the name is empty; otherwise it ends with '.' and dropping that '.' gives the name back |
| `Config.SetBase` | src/Apok/Component/Config/Config.php:62-69 | `setBase` changes only the key base, which becomes the key base for the name: empty for the empty name, otherwise the name followed by '.' |
| `Registry.KeyBaseInjective` | src/Apok/Component/Config/Config.php:62-69 | two names give the same key base exactly when they are equal |
| `Config.SetRecursiveKey` | src/Apok/Component/Config/Config.php:78-91 | strict lookup along the keys reaches exactly the value; the top level has only the first key; an empty key list gives the value itself |
| `Access.SetRecursiveKeySingleBranch` | src/Apok/Component/Config/Config.php:78-91 | every node on the way down is a one-entry map keyed by the next segment |
| `Merge.MergeMaps` | src/Apok/Component/Config/Config.php:101-113 | the result's keys are the union of both key sets; keys only in the base keep their value; an overlay value that is not a map, or whose key is new, replaces |
| `Merge.Overwrite` | src/Apok/Component/Config/Config.php:103-109 | per key: a scalar overlay wins, a new key takes the overlay, a map merged onto a map keeps the keys of both, an empty map onto a scalar leaves it |
| `Merge.MergeOntoEmpty` | src/Apok/Component/Config/Config.php:101-113 | merging into an empty array yields the overlay |
| `Merge.MergeEmptyOverlay` | src/Apok/Component/Config/Config.php:101-113 | merging an empty overlay leaves the base unchanged |
| `Merge.MergeIdempotent` | src/Apok/Component/Config/Config.php:101-113 | merging a tree onto itself gives the same tree |
| `Merge.MergeOverlayLeafWins` | src/Apok/Component/Config/Config.php:103-109 | at any depth, a scalar the overlay reaches along a path is what the merge reaches there |
| `Merge.MergeKeepsBase` | src/Apok/Component/Config/Config.php:103-109 | along a path the overlay does not reach, the merge looks exactly like the base |
| `Merge.MergeKeepsCompatible` | src/Apok/Component/Config/Config.php:104-105 | a merge result stays mergeable with any later layer that both inputs were mergeable with |
| `Merge.FoldKeys` | src/Apok/Component/Config/Config.php:136-150 | the keys after merging layers left to right are those of the start and of every layer |
| `Merge.FoldUntouched` | src/Apok/Component/Config/Config.php:136-150 | a key no layer mentions keeps its starting value |
| `Merge.FoldLastWins` | src/Apok/Component/Config/Config.php:136-150 | the last layer to mention a key decides it, when its value is a scalar or no earlier layer had the key |
| `Merge.FoldMerge` | src/Apok/Component/Config/Config.php:136-150 | merging layers left to right loses no key of the start or of any layer |
| `Merge.FoldKeepsPath` | src/Apok/Component/Config/Config.php:136-150 | a path every layer avoids reads after the fold exactly as in the start |
| `Merge.FoldLeafWins` | src/Apok/Component/Config/Config.php:136-150 | at any depth, a scalar that a layer reaches along a path is what the fold reaches there when every later layer avoids that path |
| `Config.Load` | src/Apok/Component/Config/Config.php:118-124 | an unknown environment leaves the whole state unchanged; a known one (even one holding null) becomes active with key base `name.` |
| `Registry.LoadActivates` | src/Apok/Component/Config/Config.php:118-124 | after `load`, `getEnvironment` is the name exactly when the registry has it or it was already active; `getConfig` is unchanged; loading twice equals loading once |
| `Config.Inherit` | src/Apok/Component/Config/Config.php:136-145 | the loop, including its index-0 replacement branch, equals merging every set source in order onto an empty array |
| `Config.FoldAppend` | src/Apok/Component/Config/Config.php:147-150 | merging the environment's own tree after the sources is one more merge on top of the inherited result |
| `Config.Extend` | src/Apok/Component/Config/Config.php:129-153 | only the environment's entry changes; it becomes the merge of all set sources and then its own tree, in that order |
| `Inheritance.ExtendKeys` | src/Apok/Component/Config/Config.php:129-153 | the extended environment has exactly the keys of its set sources and of its own existing tree |
| `Inheritance.ExtendSourcePrecedence` | src/Apok/Component/Config/Config.php:136-145 | for a top-level key: a source's scalar wins unless a later source or the environment itself has the key; a key only one source has is inherited as is |
| `Inheritance.ExtendSourceLeafWins` | src/Apok/Component/Config/Config.php:136-150 | at any depth: a scalar a source reaches along a path is what the extended environment reaches there when every later set source and the environment's own tree avoid that path, whatever earlier sources hold there |
| `Inheritance.ExtendOwnLeavesWin` | src/Apok/Component/Config/Config.php:147-150 | every scalar in the environment's own existing tree survives, at any depth, over all sources |
| `Inheritance.ExtendSkipsUnset` | src/Apok/Component/Config/Config.php:139-144 | dropping an absent or null source from the list changes nothing |
| `Inheritance.ExtendNothingCreatesEmpty` | src/Apok/Component/Config/Config.php:131-152 | extending an unset environment from no sources creates it as an empty map and changes nothing else |
| `Config.SetPath` | src/Apok/Component/Config/Config.php:164-166 | the path `set` writes is non-empty and its segments are dot-free |
| `Config.SetOverlay` | src/Apok/Component/Config/Config.php:166-167 | the tree `set` merges has exactly one top-level entry, the path's first segment, and strict lookup along the path reaches the value |
| `Config.Set` | src/Apok/Component/Config/Config.php:162-168 | only the registry changes; it gains at most the path's first segment and loses no environment |
| `Access.MergeBranch` | src/Apok/Component/Config/Config.php:167-168 | merging the single-branch tree leaves at its path what the per-key merge rule says for the old value there |
| `Access.SetWritesPath` | src/Apok/Component/Config/Config.php:162-168 | after `set`, the path holds the value when it is a scalar or the path was new, and the merge of old and new when both are maps |
| `Access.SetOffPathUnchanged` | src/Apok/Component/Config/Config.php:162-168 | every path that leaves the written path looks exactly as before |
| `Access.BranchAvoids` | src/Apok/Component/Config/Config.php:78-91 | the single-branch tree has nothing on any path that leaves its own |
| `Access.ScalarSetAllowedIff` | src/Apok/Component/Config/Config.php:101-109 | setting a scalar stays in defined PHP behaviour exactly when its path passes through no existing scalar or null |
| `Config.EnvKey` | src/Apok/Component/Config/Config.php:187 | the key of the active environment; no environment (PHP null) and the empty name give the same key `""` |
| `Config.ReadRoot` | src/Apok/Component/Config/Config.php:184-189 | the root is never null; there is none exactly when the first segment is not a registry entry and the active environment's entry is unset; a first segment that is an entry makes the whole registry the root |
| `Config.Walk` | src/Apok/Component/Config/Config.php:192-197 | when no segment is a set entry of the node, the walk returns its starting value |
| `Config.Read` | src/Apok/Component/Config/Config.php:177-200 | the result is null exactly when there is no root (first segment not an environment and active environment unset), the root is not a map, or no segment of the key is a set entry of the root |
| `Access.ReadQualifiedIgnoresEnvironment` | src/Apok/Component/Config/Config.php:184-186 | a key whose first segment is an environment reads the same whatever environment is active |
| `Access.ReadUnqualified` | src/Apok/Component/Config/Config.php:187-198 | other keys are walked in the active environment's map if it is set, and read null otherwise |
| `Access.WalkFollowsPath` | src/Apok/Component/Config/Config.php:191-197 | when strict lookup along the segments reaches a non-null value, the walk returns it |
| `Config.WalkKeepsNonNull` | src/Apok/Component/Config/Config.php:192-197 | once a segment has resolved, the walk's result is not null |
| `Config.WalkNullIffNoneResolve` | src/Apok/Component/Config/Config.php:179-200 | the walk yields null exactly when no segment is a set entry of the root |
| `Access.WalkResolvedPositions` | src/Apok/Component/Config/Config.php:191-197 | the walk has a trace: strictly increasing positions of the segments that resolved, each a set entry of the node reached so far, with every other segment not a set entry of the node the walk stood on; it returns the node the last resolved segment led to, or its starting value when none resolved |
| `Access.TraceDeterminesWalk` | src/Apok/Component/Config/Config.php:191-197 | any trace of the walk determines its result: the node the last resolved segment led to, or the starting value when none resolved |
| `Access.ReadSkipsMissingSegment` | src/Apok/Component/Config/Config.php:192-197 | with `Dev = {key: 5}`, reading `Dev.missing.key` yields 5 |
| `Access.ReadNopeGivesDevMap` | src/Apok/Component/Config/Config.php:192-200 | with `Dev = {key: 5}`, reading `Dev.nope` yields the whole `Dev` map, not null |
| `Access.SetThenRead` | src/Apok/Component/Config/Config.php:162-200 | with environment `e` loaded, `set(k, v)` then `read(k)` returns a non-null scalar `v` when `k`'s first segment is not an environment and the path meets no scalar |
| `Access.LoadSetRead` | src/Apok/Component/Config/Config.php:118-200 | the same round trip stated from `load(e)` of an existing environment |
| `Access.QualifiedSetPath` | src/Apok/Component/Config/Config.php:164-166 | with no key base, `set('e.key')` writes the path `e` followed by `key`'s segments |
| `Access.SetLoadRead` | src/Apok/Component/Config/Config.php:162-200 | setting `e.key` before loading, then loading `e`, reads the scalar back through `key` |
| `Access.ExtendSetLoadRead` | src/Apok/Component/Config/Config.php:8-11 | the usage pattern `extend`, `set('E.Key')`, `load('E')`, `read('Key')` yields the value set, for any sources |
| `Access.UsageExample` | src/Apok/Component/Config/Config.php:8-11 | the documented example with Development, Staging and `Key` yields 'value' |
| `Registry.InitialState` | src/Apok/Component/Config/Config.php:27-41 | initially the registry is empty and no environment is active, every read is null and no `load` changes anything |
| `Registry.GettersTrackOperations` | src/Apok/Component/Config/Config.php:46-57 | `getEnvironment` changes only through `load` (to the name exactly when the registry has it) and `getConfig` only through `set` and `extend` |
| `Registry.InitialAndLoadValid` | src/Apok/Component/Config/Config.php:118-124 | the initial state is valid, and `setBase` and `load` keep the key base empty or ending in '.' and the active environment in the registry |
| `Registry.SetPreservesValid` | src/Apok/Component/Config/Config.php:162-168 | `set` keeps a state valid and removes no environment |
| `Registry.ExtendPreservesValid` | src/Apok/Component/Config/Config.php:129-153 | `extend` keeps a state valid; the registry gains exactly the extended environment and loses nothing |

## Left out

- The test bootstrap is left out. `tests/bootstrap.php` is an autoloader that looks files up and `require`s them; it is I/O plumbing.
- Process-global static storage is left out. The state is an explicit value passed to and returned by each operation.
- Merge.MergeMaps: merging a non-empty map onto an existing scalar or null is excluded by its `Compatible` precondition. There `array_key_exists` gets a non-array, which raises a TypeError in PHP 8 and a warning plus version-specific auto-vivification in PHP 7. An empty map merged onto a scalar is modelled: the `foreach` does nothing and the scalar stays.
- Config.Set: requires `SetAllowed`, the same exclusion for the single-branch tree it merges. `Access.ScalarSetAllowedIff` characterises it for scalar values.
- Config.Extend: requires every set source and the environment itself to be maps, and each of these trees to be mergeable with every later one. This is a modelling choice, not a gap in PHP's definition. PHP would take a scalar first source as the accumulator (`Config.php` line 140). A later scalar source, or a scalar environment entry (line 149), would be skipped by `mergeArrays`' `foreach` with a warning. Only merging a non-empty map onto a scalar depends on the PHP version.
- Access.SetThenRead: needs a dot-free environment name. `load('a.b')` makes the key base `a.b.`, so `set` writes under `a` → `b` rather than under the entry `a.b`, and the round trip does not hold for such names.
- Access.LoadSetRead: needs a dot-free environment name, for the same reason as `Access.SetThenRead`.
- Access.SetLoadRead: needs a dot-free environment name, since `set('a.b.key')` writes under `a` → `b`, not under the entry `a.b`.
- Access.ExtendSetLoadRead: stated for a one-segment key and a dot-free environment name (see `Access.SetLoadRead`). For deeper keys the inherited tree may hold a scalar on the way down; `Access.SetLoadRead` covers them under an explicit open-path condition.
- PHP array quirks are left out: insertion order of keys, and numeric-string keys coerced to integers (in `array_key_exists`, in `isset` and in keys written by `set`).
- String offsets are left out. When `read`'s walk is on a string leaf, PHP's `isset($string[$k])` can hit a numeric offset. The model gives leaves no children.
- Floating-point leaves are left out. Leaves are opaque scalars, and integers, booleans and strings stand for them.
