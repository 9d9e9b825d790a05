/** Factories of plugins, for one platform or for all, and the default of each kind. */
module PluginRegistry {
  import opened Base

  datatype Kind = Invalid | Blas | Dnn | Fft | Rng

  type Platform = nat
  type PluginId = nat
  type Factory = nat
  type Own = map<(Platform, Kind, PluginId), Factory>
  type Generic = map<(Kind, PluginId), Factory>
  type DefaultTable = map<(Platform, Kind), PluginId>

  const NULL_PLUGIN: PluginId := 0

  /** The id that stands for the default; it is the address of a variable, and so not null. */
  const DEFAULT: PluginId := 1

  datatype Result = Ok(factory: Factory) | NotFound | NoDefault

  // ----- The registry as one table -----

  datatype Registry = Registry(own: Own, generic: Generic, defaults: DefaultTable)

  /** The factory for an explicit id: that of the platform, or else the generic one. */
  function Find(r: Registry, p: Platform, k: Kind, id: PluginId): Option<Factory> {
    if (p, k, id) in r.own then Some(r.own[(p, k, id)])
    else if (k, id) in r.generic then Some(r.generic[(k, id)])
    else None
  }

  /** What a request for id gives. */
  function Get(r: Registry, p: Platform, k: Kind, id: PluginId): Result {
    if id == DEFAULT && (p, k) !in r.defaults then NoDefault
    else
      var f := Find(r, p, k, if id == DEFAULT then r.defaults[(p, k)] else id);
      if f.Some? then Ok(f.value) else NotFound
  }

  datatype Op =
    | Register(p: Platform, k: Kind, id: PluginId, f: Factory)
    | RegisterForAll(k: Kind, id: PluginId, f: Factory)
    | SetDefault(p: Platform, k: Kind, id: PluginId)

  predicate Succeeds(r: Registry, op: Op) {
    match op
    case Register(p, k, id, _) => (p, k, id) !in r.own
    case RegisterForAll(k, id, _) => (k, id) !in r.generic
    case SetDefault(p, k, id) => !k.Invalid? && Find(r, p, k, id).Some?
  }

  function Apply(r: Registry, op: Op): Registry {
    if !Succeeds(r, op) then r
    else match op
         case Register(p, k, id, f) => r.(own := r.own[(p, k, id) := f])
         case RegisterForAll(k, id, f) => r.(generic := r.generic[(k, id) := f])
         case SetDefault(p, k, id) =>
           if id == NULL_PLUGIN then r.(defaults := r.defaults - {(p, k)}) else r.(defaults := r.defaults[(p, k) := id])
  }

  // ----- Over every sequence of calls -----

  function After(ops: seq<Op>): Registry {
    if ops == [] then Registry(map[], map[], map[]) else Apply(After(ops[..|ops| - 1]), ops[|ops| - 1])
  }

  /** The id of the last call that set the default. */
  function LastSet(ops: seq<Op>, p: Platform, k: Kind): Option<PluginId> {
    if ops == [] then None
    else
      var before, op := ops[..|ops| - 1], ops[|ops| - 1];
      if op.SetDefault? && op.p == p && op.k == k && Succeeds(After(before), op) then Some(op.id) else LastSet(before, p, k)
  }

  lemma FoundStaysFound(r: Registry, op: Op, p: Platform, k: Kind, id: PluginId)
    ensures Find(r, p, k, id).Some? ==> Find(Apply(r, op), p, k, id).Some?
  {
  }

  /** The table of defaults says what was last set for this kind, and that can be found. */
  predicate Resolves(r: Registry, p: Platform, k: Kind, last: Option<PluginId>) {
    if last.None? || last.value == NULL_PLUGIN then (p, k) !in r.defaults
    else (p, k) in r.defaults && r.defaults[(p, k)] == last.value && Find(r, p, k, last.value).Some?
  }

  lemma ResolvesAfter(r: Registry, op: Op, p: Platform, k: Kind, last: Option<PluginId>)
    requires Resolves(r, p, k, last)
    ensures Resolves(Apply(r, op), p, k,
                     if op.SetDefault? && op.p == p && op.k == k && Succeeds(r, op) then Some(op.id) else last)
  {
    if last.Some? {
      FoundStaysFound(r, op, p, k, last.value);
    }
  }

  lemma {:induction false} AlwaysResolves(ops: seq<Op>, p: Platform, k: Kind)
    ensures Resolves(After(ops), p, k, LastSet(ops, p, k))
  {
    if ops != [] {
      var before, op := ops[..|ops| - 1], ops[|ops| - 1];
      AlwaysResolves(before, p, k);
      ResolvesAfter(After(before), op, p, k, LastSet(before, p, k));
    }
  }

  /** The default is the last one set, and it resolves; with none, or null, the request is refused as such. */
  lemma DefaultResolves(ops: seq<Op>, p: Platform, k: Kind)
    ensures var r, last := After(ops), LastSet(ops, p, k);
            if last.None? || last.value == NULL_PLUGIN then Get(r, p, k, DEFAULT) == NoDefault
            else Find(r, p, k, last.value).Some? && Get(r, p, k, DEFAULT) == Ok(Find(r, p, k, last.value).value)
  {
    AlwaysResolves(ops, p, k);
  }

  // ----- The class -----

  datatype Factories = Factories(
    blas: map<PluginId, Factory>,
    dnn: map<PluginId, Factory>,
    fft: map<PluginId, Factory>,
    rng: map<PluginId, Factory>)
  {
    function Of(k: Kind): map<PluginId, Factory> {
      match k
      case Blas => blas
      case Dnn => dnn
      case Fft => fft
      case Rng => rng
      case Invalid => map[]
    }

    function With(k: Kind, id: PluginId, f: Factory): Factories
      requires !k.Invalid?
    {
      match k
      case Blas => this.(blas := blas[id := f])
      case Dnn => this.(dnn := dnn[id := f])
      case Fft => this.(fft := fft[id := f])
      case Rng => this.(rng := rng[id := f])
    }
  }

  datatype Defaults = Defaults(blas: PluginId, dnn: PluginId, fft: PluginId, rng: PluginId) {
    function Of(k: Kind): PluginId {
      match k
      case Blas => blas
      case Dnn => dnn
      case Fft => fft
      case Rng => rng
      case Invalid => NULL_PLUGIN
    }

    function With(k: Kind, id: PluginId): Defaults
      requires !k.Invalid?
    {
      match k
      case Blas => this.(blas := id)
      case Dnn => this.(dnn := id)
      case Fft => this.(fft := id)
      case Rng => this.(rng := id)
    }
  }

  const NO_FACTORIES := Factories(map[], map[], map[], map[])
  const NO_DEFAULTS := Defaults(NULL_PLUGIN, NULL_PLUGIN, NULL_PLUGIN, NULL_PLUGIN)

  function OrNone<T>(m: map<Platform, T>, p: Platform, none: T): T {
    if p in m then m[p] else none
  }

  function Lookup<K, V>(m: map<K, V>, key: K): Option<V> {
    if key in m then Some(m[key]) else None
  }

  // That the maps of the class hold the table, entry by entry.

  ghost predicate OwnAt(own: Own, factories: map<Platform, Factories>, p: Platform, k: Kind, id: PluginId) {
    Lookup(own, (p, k, id)) == Lookup(OrNone(factories, p, NO_FACTORIES).Of(k), id)
  }

  ghost predicate HoldsOwn(own: Own, factories: map<Platform, Factories>) {
    forall p: Platform, k: Kind, id: PluginId {:trigger OwnAt(own, factories, p, k, id)} :: OwnAt(own, factories, p, k, id)
  }

  ghost predicate GenericAt(generic: Generic, factories: Factories, k: Kind, id: PluginId) {
    Lookup(generic, (k, id)) == Lookup(factories.Of(k), id)
  }

  ghost predicate HoldsGeneric(generic: Generic, factories: Factories) {
    forall k: Kind, id: PluginId {:trigger GenericAt(generic, factories, k, id)} :: GenericAt(generic, factories, k, id)
  }

  ghost predicate DefaultAt(table: DefaultTable, defaults: map<Platform, Defaults>, p: Platform, k: Kind) {
    var id := OrNone(defaults, p, NO_DEFAULTS).Of(k);
    Lookup(table, (p, k)) == if id == NULL_PLUGIN then None else Some(id)
  }

  ghost predicate HoldsDefaults(table: DefaultTable, defaults: map<Platform, Defaults>) {
    forall p: Platform, k: Kind {:trigger DefaultAt(table, defaults, p, k)} :: DefaultAt(table, defaults, p, k)
  }

  lemma OwnKept(own: Own, factories: map<Platform, Factories>, p: Platform, k: Kind, id: PluginId, f: Factory)
    requires HoldsOwn(own, factories) && !k.Invalid?
    ensures HoldsOwn(own[(p, k, id) := f], factories[p := OrNone(factories, p, NO_FACTORIES).With(k, id, f)])
    ensures HoldsOwn(own, factories[p := OrNone(factories, p, NO_FACTORIES)])
  {
    var own', factories' := own[(p, k, id) := f], factories[p := OrNone(factories, p, NO_FACTORIES).With(k, id, f)];
    forall p', k', id' ensures OwnAt(own', factories', p', k', id') {
      assert OwnAt(own, factories, p', k', id');
    }
    var same := factories[p := OrNone(factories, p, NO_FACTORIES)];
    forall p', k', id' ensures OwnAt(own, same, p', k', id') {
      assert OwnAt(own, factories, p', k', id');
    }
  }

  lemma GenericKept(generic: Generic, factories: Factories, k: Kind, id: PluginId, f: Factory)
    requires HoldsGeneric(generic, factories) && !k.Invalid?
    ensures HoldsGeneric(generic[(k, id) := f], factories.With(k, id, f))
  {
    var generic', factories' := generic[(k, id) := f], factories.With(k, id, f);
    forall k', id' ensures GenericAt(generic', factories', k', id') {
      assert GenericAt(generic, factories, k', id');
    }
  }

  lemma DefaultsKept(table: DefaultTable, defaults: map<Platform, Defaults>, p: Platform, k: Kind, id: PluginId)
    requires HoldsDefaults(table, defaults) && !k.Invalid?
    ensures HoldsDefaults(if id == NULL_PLUGIN then table - {(p, k)} else table[(p, k) := id],
                          defaults[p := OrNone(defaults, p, NO_DEFAULTS).With(k, id)])
    ensures HoldsDefaults(table, defaults[p := OrNone(defaults, p, NO_DEFAULTS)])
  {
    var table' := if id == NULL_PLUGIN then table - {(p, k)} else table[(p, k) := id];
    var defaults' := defaults[p := OrNone(defaults, p, NO_DEFAULTS).With(k, id)];
    forall p', k' ensures DefaultAt(table', defaults', p', k') {
      assert DefaultAt(table, defaults, p', k');
    }
    var same := defaults[p := OrNone(defaults, p, NO_DEFAULTS)];
    forall p', k' ensures DefaultAt(table, same, p', k') {
      assert DefaultAt(table, defaults, p', k');
    }
  }

  class PluginRegistry {
    var factories: map<Platform, Factories>
    var genericFactories: Factories
    var defaultFactories: map<Platform, Defaults>
    ghost var table: Registry

    ghost predicate Valid()
      reads this
    {
      && HoldsOwn(table.own, factories)
      && HoldsGeneric(table.generic, genericFactories)
      && HoldsDefaults(table.defaults, defaultFactories)
    }

    constructor ()
      ensures Valid() && table == After([])
    {
      factories, genericFactories, defaultFactories := map[], NO_FACTORIES, map[];
      table := After([]);
    }

    /** RegisterFactory, of each type of factory. */
    method RegisterFactory(p: Platform, k: Kind, id: PluginId, f: Factory) returns (ok: bool)
      requires Valid() && !k.Invalid?
      modifies this
      ensures Valid() && table == Apply(old(table), Register(p, k, id, f))
      ensures ok == Succeeds(old(table), Register(p, k, id, f))
    {
      var own := OrNone(factories, p, NO_FACTORIES);
      OwnKept(table.own, factories, p, k, id, f);
      assert OwnAt(table.own, factories, p, k, id);
      ghost var was := factories;
      factories := factories[p := own];
      ok := id !in own.Of(k);
      if ok {
        factories := factories[p := own.With(k, id, f)];
        assert factories == was[p := own.With(k, id, f)];
        table := Apply(table, Register(p, k, id, f));
      }
    }

    method RegisterFactoryForAllPlatforms(k: Kind, id: PluginId, f: Factory) returns (ok: bool)
      requires Valid() && !k.Invalid?
      modifies this
      ensures Valid() && table == Apply(old(table), RegisterForAll(k, id, f))
      ensures ok == Succeeds(old(table), RegisterForAll(k, id, f))
    {
      GenericKept(table.generic, genericFactories, k, id, f);
      assert GenericAt(table.generic, genericFactories, k, id);
      ok := id !in genericFactories.Of(k);
      if ok {
        genericFactories := genericFactories.With(k, id, f);
        table := Apply(table, RegisterForAll(k, id, f));
      }
    }

    method HasFactory(p: Platform, k: Kind, id: PluginId) returns (has: bool)
      requires Valid()
      ensures has <==> !k.Invalid? && Find(table, p, k, id).Some?
      ensures !k.Invalid? && id != DEFAULT ==> (has <==> Get(table, p, k, id).Ok?)
    {
      assert OwnAt(table.own, factories, p, k, id) && GenericAt(table.generic, genericFactories, k, id);
      if p in factories && id in factories[p].Of(k) {
        return true;
      }
      has := id in genericFactories.Of(k);
    }

    method SetDefaultFactory(p: Platform, k: Kind, id: PluginId) returns (ok: bool)
      requires Valid()
      modifies this
      ensures Valid() && table == Apply(old(table), SetDefault(p, k, id))
      ensures ok == Succeeds(old(table), SetDefault(p, k, id))
    {
      ok := HasFactory(p, k, id);
      if ok {
        DefaultsKept(table.defaults, defaultFactories, p, k, id);
        defaultFactories := defaultFactories[p := OrNone(defaultFactories, p, NO_DEFAULTS).With(k, id)];
        table := Apply(table, SetDefault(p, k, id));
      }
    }

    /** GetFactory, which may add empty entries for the platform. */
    method GetFactory(p: Platform, k: Kind, id: PluginId) returns (r: Result)
      requires Valid() && !k.Invalid?
      modifies this
      ensures Valid() && table == old(table)
      ensures r == Get(table, p, k, id)
    {
      var plugin := id;
      assert DefaultAt(table.defaults, defaultFactories, p, k);
      if id == DEFAULT {
        DefaultsKept(table.defaults, defaultFactories, p, k, id);
        var d := OrNone(defaultFactories, p, NO_DEFAULTS);
        defaultFactories := defaultFactories[p := d];
        plugin := d.Of(k);
        if plugin == NULL_PLUGIN {
          return NoDefault;
        }
      }
      assert OwnAt(table.own, factories, p, k, plugin) && GenericAt(table.generic, genericFactories, k, plugin);
      OwnKept(table.own, factories, p, k, plugin, 0);
      var own := OrNone(factories, p, NO_FACTORIES);
      factories := factories[p := own];
      r := if plugin in own.Of(k) then Ok(own.Of(k)[plugin])
           else if plugin in genericFactories.Of(k) then Ok(genericFactories.Of(k)[plugin])
           else NotFound;
    }
  }
}
