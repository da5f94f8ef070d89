/** Configuration values as the registry stores them, and strict path lookup
    through nested configuration trees. */
module ConfigValue {

  /** The conventional Some/None datatype, used for "no such entry". */
  datatype Option<+T> = None | Some(value: T)

  /** A configuration value: an opaque scalar leaf or a nested mapping.
      Floating-point leaves are not modelled; the other PHP scalars are. */
  datatype Value =
    | Null
    | Bool(b: bool)
    | Int(i: int)
    | Str(s: string)
    | Node(children: Tree)

  /** One configuration tree; the whole registry is one as well, keyed by
      environment name. */
  type Tree = map<string, Value>

  /** The entry under `key`, if there is one (PHP `array_key_exists`): strict
      lookup along the one-segment path `[key]`. */
  function Get(t: Tree, key: string): (r: Option<Value>)
    ensures r == At(Node(t), [key])
  {
    if key in t then Some(t[key]) else None
  }

  /** PHP `isset($t[$key])` on an array: the key is present and not null. */
  predicate IsSet(t: Tree, key: string) {
    key in t && t[key] != Null
  }

  /** Strict lookup: follows every segment of `path`, failing at the first
      one that is missing or that would have to descend into a leaf. */
  function At(v: Value, path: seq<string>): Option<Value>
    decreases |path|
  {
    if path == [] then Some(v)
    else if v.Node? && path[0] in v.children then At(v.children[path[0]], path[1..])
    else None
  }

  /** Looking up a concatenated path is looking up its two halves in turn. */
  lemma {:induction false} AtAppend(v: Value, p: seq<string>, q: seq<string>)
    ensures At(v, p + q) == (match At(v, p) case None => None case Some(w) => At(w, q))
    decreases |p|
  {
    if p == [] {
      assert p + q == q;
    } else {
      assert (p + q)[0] == p[0];
      assert (p + q)[1..] == p[1..] + q;
      if v.Node? && p[0] in v.children {
        AtAppend(v.children[p[0]], p[1..], q);
      }
    }
  }
}
