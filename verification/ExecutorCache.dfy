/** Executors by device: entries in a list for each ordinal, found by plugins and options. */
module ExecutorCache {
  import opened Base

  type Executor = nat

  datatype PluginConfig = PluginConfig(blas: nat, dnn: nat, fft: nat, rng: nat)

  /** The tags take no part in the comparison of options. */
  datatype DeviceOptions = DeviceOptions(flags: nat, nonPortableTags: map<string, string>)

  datatype Config = Config(ordinal: int, plugins: PluginConfig, options: DeviceOptions)

  /** What two configurations must share to match. */
  datatype Key = Key(ordinal: int, plugins: PluginConfig, flags: nat)

  function KeyOf(c: Config): Key {
    Key(c.ordinal, c.plugins, c.options.flags)
  }

  type Entry = (Config, Executor)

  /** The first entry that matches. */
  function FirstMatch(entries: seq<Entry>, key: Key): Option<Executor> {
    if entries == [] then None
    else if KeyOf(entries[0].0) == key then Some(entries[0].1)
    else FirstMatch(entries[1..], key)
  }

  lemma {:induction false} FirstMatchAppend(entries: seq<Entry>, e: Entry, key: Key)
    ensures FirstMatch(entries + [e], key) ==
            if FirstMatch(entries, key).Some? then FirstMatch(entries, key)
            else if KeyOf(e.0) == key then Some(e.1) else None
  {
    if entries == [] {
      assert (entries + [e])[1..] == [];
    } else {
      FirstMatchAppend(entries[1..], e, key);
      assert (entries + [e])[1..] == entries[1..] + [e];
    }
  }

  /** Entries of one list match each other in no two places. */
  ghost predicate NoDuplicates(entries: seq<Entry>) {
    forall i, j :: 0 <= i < j < |entries| ==> KeyOf(entries[i].0) != KeyOf(entries[j].0)
  }

  lemma {:induction false} MatchExists(entries: seq<Entry>, i: nat)
    requires i < |entries|
    ensures FirstMatch(entries, KeyOf(entries[i].0)).Some?
  {
    if i > 0 {
      MatchExists(entries[1..], i - 1);
    }
  }

  lemma NoMatchBefore(entries: seq<Entry>, config: Config)
    requires FirstMatch(entries, KeyOf(config)).None?
    ensures forall i :: 0 <= i < |entries| ==> KeyOf(entries[i].0) != KeyOf(config)
  {
    forall i | 0 <= i < |entries| ensures KeyOf(entries[i].0) != KeyOf(config) {
      MatchExists(entries, i);
    }
  }

  // ----- The buckets as one table -----

  function Bucket(cache: map<int, seq<Entry>>, ordinal: int): seq<Entry> {
    if ordinal in cache then cache[ordinal] else []
  }

  ghost predicate FlatAt(cache: map<int, seq<Entry>>, flat: map<Key, Executor>, key: Key) {
    FirstMatch(Bucket(cache, key.ordinal), key) == if key in flat then Some(flat[key]) else None
  }

  /** At most one entry matches a configuration, and all entries of a list have its ordinal. */
  ghost predicate BucketOk(cache: map<int, seq<Entry>>, ordinal: int) {
    && NoDuplicates(Bucket(cache, ordinal))
    && forall i :: 0 <= i < |Bucket(cache, ordinal)| ==> Bucket(cache, ordinal)[i].0.ordinal == ordinal
  }

  ghost predicate Holds(cache: map<int, seq<Entry>>, flat: map<Key, Executor>) {
    && (forall key: Key {:trigger FlatAt(cache, flat, key)} :: FlatAt(cache, flat, key))
    && (forall ordinal: int {:trigger BucketOk(cache, ordinal)} :: BucketOk(cache, ordinal))
  }

  lemma InsertKeeps(cache: map<int, seq<Entry>>, flat: map<Key, Executor>, config: Config, executor: Executor)
    requires Holds(cache, flat) && KeyOf(config) !in flat
    ensures Holds(cache[config.ordinal := Bucket(cache, config.ordinal) + [(config, executor)]], flat[KeyOf(config) := executor])
  {
    var before := Bucket(cache, config.ordinal);
    var cache', flat' := cache[config.ordinal := before + [(config, executor)]], flat[KeyOf(config) := executor];
    assert FlatAt(cache, flat, KeyOf(config));
    NoMatchBefore(before, config);
    forall key: Key ensures FlatAt(cache', flat', key) {
      assert FlatAt(cache, flat, key);
      FirstMatchAppend(before, (config, executor), key);
    }
    forall ordinal: int ensures BucketOk(cache', ordinal) {
      assert BucketOk(cache, ordinal);
    }
  }

  class ExecutorCache {
    var cache: map<int, seq<Entry>>

    /** What was put in since the last clearing, by key. */
    ghost var flat: map<Key, Executor>

    ghost predicate Valid()
      reads this
    {
      Holds(cache, flat)
    }

    constructor ()
      ensures Valid() && flat == map[]
    {
      cache, flat := map[], map[];
    }

    method Get(config: Config) returns (r: Option<Executor>)
      requires Valid()
      ensures r == if KeyOf(config) in flat then Some(flat[KeyOf(config)]) else None
    {
      assert FlatAt(cache, flat, KeyOf(config)) && BucketOk(cache, config.ordinal);
      if config.ordinal !in cache {
        return None;
      }
      var entries := cache[config.ordinal];
      for i := 0 to |entries|
        invariant FirstMatch(entries, KeyOf(config)) == FirstMatch(entries[i..], KeyOf(config))
      {
        assert entries[i..][1..] == entries[i + 1..];
        if entries[i].0.plugins == config.plugins && entries[i].0.options.flags == config.options.flags {
          return Some(entries[i].1);
        }
      }
      r := None;
    }

    /** Insert: the first executor for a key stays, and the tags of later ones change nothing. */
    method Insert(config: Config, executor: Executor) returns (ok: bool)
      requires Valid()
      modifies this
      ensures Valid()
      ensures ok <==> KeyOf(config) !in old(flat)
      ensures flat == if ok then old(flat)[KeyOf(config) := executor] else old(flat)
    {
      var found := Get(config);
      if found.Some? {
        return false;
      }
      InsertKeeps(cache, flat, config, executor);
      cache := cache[config.ordinal := Bucket(cache, config.ordinal) + [(config, executor)]];
      flat := flat[KeyOf(config) := executor];
      ok := true;
    }

    method DestroyAllExecutors()
      modifies this
      ensures Valid() && flat == map[]
    {
      cache, flat := map[], map[];
    }
  }
}
