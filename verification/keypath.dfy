/** Dotted keys: PHP `explode('.', $key)` and its inverse. */
module KeyPath {

  /** Joins segments with '.', the inverse of `Split` on dot-free segments. */
  function Join(parts: seq<string>): string
    requires |parts| >= 1
    decreases |parts|
  {
    if |parts| == 1 then parts[0] else parts[0] + "." + Join(parts[1..])
  }

  /** True when no segment contains the separator. */
  predicate DotFree(parts: seq<string>) {
    forall i :: 0 <= i < |parts| ==> '.' !in parts[i]
  }

  /** `explode('.', s)`: always at least one segment (the empty string gives
      `[""]`), empty segments are kept, and no segment contains '.'. */
  function Split(s: string): (parts: seq<string>)
    ensures |parts| >= 1
    ensures DotFree(parts)
    ensures '.' !in s ==> parts == [s]
    decreases |s|
  {
    if s == [] then [""]
    else
      var rest := Split(s[1..]);
      assert s == [s[0]] + s[1..];
      if s[0] == '.' then [""] + rest
      else [[s[0]] + rest[0]] + rest[1..]
  }

  /** Splitting and joining again gives back the key. */
  lemma {:induction false} JoinSplit(s: string)
    ensures Join(Split(s)) == s
    decreases |s|
  {
    if s != [] {
      var rest := Split(s[1..]);
      JoinSplit(s[1..]);
      if s[0] == '.' {
        assert Split(s) == [""] + rest;
        assert Join(Split(s)) == "" + "." + Join(rest);
        assert s == [s[0]] + s[1..];
      } else {
        var parts := Split(s);
        assert parts == [[s[0]] + rest[0]] + rest[1..];
        if |rest| == 1 {
          assert Join(parts) == [s[0]] + rest[0];
        } else {
          assert parts[1..] == rest[1..];
          assert Join(parts) == ([s[0]] + rest[0]) + "." + Join(rest[1..]);
          assert Join(rest) == rest[0] + "." + Join(rest[1..]);
        }
        assert s == [s[0]] + s[1..];
      }
    }
  }

  /** A dot-free prefix followed by '.' becomes exactly one leading segment. */
  lemma {:induction false} SplitConcat(a: string, b: string)
    requires '.' !in a
    ensures Split(a + "." + b) == [a] + Split(b)
    decreases |a|
  {
    var s := a + "." + b;
    if a == [] {
      assert s[0] == '.';
      assert s[1..] == b;
    } else {
      assert s[0] == a[0];
      assert s[1..] == a[1..] + "." + b;
      SplitConcat(a[1..], b);
      assert [a[0]] + a[1..] == a;
    }
  }

  /** Joining dot-free segments and splitting again gives back the segments. */
  lemma {:induction false} SplitJoin(parts: seq<string>)
    requires |parts| >= 1
    requires DotFree(parts)
    ensures Split(Join(parts)) == parts
    decreases |parts|
  {
    assert '.' !in parts[0];
    if |parts| > 1 {
      assert DotFree(parts[1..]) by {
        forall i | 0 <= i < |parts| - 1 ensures '.' !in parts[1..][i] {
          assert parts[1..][i] == parts[i + 1];
        }
      }
      SplitJoin(parts[1..]);
      SplitConcat(parts[0], Join(parts[1..]));
      assert [parts[0]] + parts[1..] == parts;
    }
  }
}
