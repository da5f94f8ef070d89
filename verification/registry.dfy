/** Properties of the registry state as a whole: the invariant every
    operation keeps, and the activation behaviour of `load`. */
module Registry {
  import opened ConfigValue
  import opened Merge
  import opened Config

  /** The key base is empty or ends with '.', and an active environment is
      an entry of the registry. */
  predicate Valid(st: State) {
    (st.keyBase == "" || st.keyBase[|st.keyBase| - 1] == '.') &&
    (st.env.Some? ==> st.env.value in st.config)
  }

  /** Before any call the registry is empty and no environment is active:
      every read is null and no `load` can activate anything. */
  lemma InitialState(key: string, name: string)
    ensures GetConfig(Initial) == map[] && GetEnvironment(Initial) == None
    ensures Read(Initial, key) == Null
    ensures Load(Initial, name) == Initial
  {
  }

  /** What the accessors observe: only `load` changes the active environment,
      and only `set` and `extend` change the registry. */
  lemma GettersTrackOperations(st: State, name: string, key: string, value: Value, sources: seq<string>)
    ensures GetEnvironment(SetBase(st, name)) == GetEnvironment(st)
    ensures GetConfig(SetBase(st, name)) == GetConfig(st)
    ensures GetConfig(Load(st, name)) == GetConfig(st)
    ensures GetEnvironment(Load(st, name)) ==
            if name in GetConfig(st) then Some(name) else GetEnvironment(st)
    ensures SetAllowed(st, key, value) ==> GetEnvironment(Set(st, key, value)) == GetEnvironment(st)
    ensures ExtendAllowed(st.config, name, sources) ==>
              GetEnvironment(Extend(st, name, sources)) == GetEnvironment(st)
  {
  }

  /** The initial state is valid, and `setBase` and `load` keep a state
      valid. */
  lemma InitialAndLoadValid(st: State, name: string)
    ensures Valid(Initial)
    ensures Valid(st) ==> Valid(SetBase(st, name)) && Valid(Load(st, name))
  {
  }

  /** `set` keeps a state valid and removes no environment. */
  lemma SetPreservesValid(st: State, key: string, value: Value)
    requires SetAllowed(st, key, value)
    ensures st.config.Keys <= Set(st, key, value).config.Keys
    ensures Valid(st) ==> Valid(Set(st, key, value))
  {
  }

  /** `extend` keeps a state valid; the registry gains at most the extended
      environment and loses nothing. */
  lemma ExtendPreservesValid(st: State, name: string, sources: seq<string>)
    requires ExtendAllowed(st.config, name, sources)
    ensures Extend(st, name, sources).config.Keys == st.config.Keys + {name}
    ensures Valid(st) ==> Valid(Extend(st, name, sources))
  {
  }

  /** `load` activates `name` exactly when the registry has it, and loading
      twice is the same as loading once. */
  lemma LoadActivates(st: State, name: string)
    ensures GetEnvironment(Load(st, name)) == Some(name) <==> name in st.config || st.env == Some(name)
    ensures GetConfig(Load(st, name)) == GetConfig(st)
    ensures Load(Load(st, name), name) == Load(st, name)
  {
  }

  /** The key base round trip: `setBase(name)` then dropping the trailing '.'
      gives back `name`, so distinct names give distinct key bases. */
  lemma KeyBaseInjective(a: string, b: string)
    ensures KeyBaseFor(a) == KeyBaseFor(b) <==> a == b
  {
    if KeyBaseFor(a) == KeyBaseFor(b) && a != "" {
      var base := KeyBaseFor(a);
      assert a == base[..|base| - 1] == b;
    }
  }
}
