/** The behaviour's per-model settings and how `setup` resolves them:
    defaults seeded on a model's first registration, then overridden key
    by key (PHP's `array_merge`) on every registration. */
module Settings {
  import opened PhpValues

  /** The `delimiter` setting: one string used both to split and to join,
      or a two-element array (split delimiter, join delimiter). */
  datatype Delimiter = Single(d: string) | Pair(split: string, join: string)

  /** `delimiter[0]`, or the delimiter itself. */
  function SplitDelimiter(d: Delimiter): string {
    match d
    case Single(x) => x
    case Pair(x, _) => x
  }

  /** `delimiter[1]`, or the delimiter itself. */
  function JoinDelimiter(d: Delimiter): string {
    match d
    case Single(x) => x
    case Pair(_, y) => y
  }

  datatype Settings = Settings(
    fields: seq<string>,
    format: string,
    delimiter: Delimiter,
    unique: bool)

  /** The configuration array passed to `setup`: a key that is absent keeps
      the value already resolved. */
  datatype Config = Config(
    fields: Option<seq<string>>,
    format: Option<string>,
    delimiter: Option<Delimiter>,
    unique: Option<bool>)

  const NoConfig := Config(None, None, None, None)

  /** `$_defaults`: no fields, PHP's own serialization, ", ", unique. */
  const Defaults := Settings([], "php", Single(", "), true)

  function Override<T>(current: T, o: Option<T>): T {
    match o
    case Some(v) => v
    case None => current
  }

  /** `array_merge($settings, $config)` over the four recognised keys. */
  function Merge(s: Settings, c: Config): Settings {
    Settings(
      Override(s.fields, c.fields),
      Override(s.format, c.format),
      Override(s.delimiter, c.delimiter),
      Override(s.unique, c.unique))
  }

  /** Two configurations applied one after the other, as one: the later
      one wins on every key it holds. */
  function Then(c1: Config, c2: Config): Config {
    Config(
      if c2.fields.Some? then c2.fields else c1.fields,
      if c2.format.Some? then c2.format else c1.format,
      if c2.delimiter.Some? then c2.delimiter else c1.delimiter,
      if c2.unique.Some? then c2.unique else c1.unique)
  }

  /** All the configurations of a sequence of `setup` calls, as one. */
  function ThenAll(cs: seq<Config>): Config {
    if cs == [] then NoConfig else Then(ThenAll(cs[..|cs| - 1]), cs[|cs| - 1])
  }

  /** The settings a model has before a `setup` call merges into them: its
      earlier settings, or the defaults on its first call. */
  function Current(registry: map<string, Settings>, alias: string): Settings {
    if alias in registry then registry[alias] else Defaults
  }

  /** The settings map after `setup(alias, config)`. */
  function Register(registry: map<string, Settings>, alias: string, c: Config): (r: map<string, Settings>)
    ensures alias in r && r.Keys == registry.Keys + {alias}
    ensures forall a :: a in registry && a != alias ==> r[a] == registry[a]
  {
    registry[alias := Merge(Current(registry, alias), c)]
  }

  /** The settings map after a sequence of `setup` calls for one model. */
  function RegisterAll(registry: map<string, Settings>, alias: string, cs: seq<Config>): map<string, Settings> {
    if cs == [] then registry
    else Register(RegisterAll(registry, alias, cs[..|cs| - 1]), alias, cs[|cs| - 1])
  }

  /** Merging is key by key and the last writer wins: two merges are one
      merge of the combined configuration. */
  lemma MergeThen(s: Settings, c1: Config, c2: Config)
    ensures Merge(Merge(s, c1), c2) == Merge(s, Then(c1, c2))
  {
  }

  /** A first `setup` with a configuration yields the defaults with that
      configuration's keys replaced. */
  lemma FirstSetup(registry: map<string, Settings>, alias: string, c: Config)
    requires alias !in registry
    ensures Register(registry, alias, c)[alias].fields == Override([], c.fields)
    ensures Register(registry, alias, c)[alias].format == Override("php", c.format)
    ensures Register(registry, alias, c)[alias].delimiter == Override(Single(", "), c.delimiter)
    ensures Register(registry, alias, c)[alias].unique == Override(true, c.unique)
  {
  }

  /** Repeated `setup` calls accumulate: the result is the model's settings
      before the first call, merged with the combination of all the
      configurations; they never reset to the defaults, and other models'
      settings are untouched. */
  lemma {:induction false} RegisterAllAccumulates(registry: map<string, Settings>, alias: string, cs: seq<Config>)
    requires |cs| >= 1
    ensures alias in RegisterAll(registry, alias, cs)
    ensures RegisterAll(registry, alias, cs)[alias] == Merge(Current(registry, alias), ThenAll(cs))
    ensures forall a :: a in registry && a != alias ==> a in RegisterAll(registry, alias, cs) && RegisterAll(registry, alias, cs)[a] == registry[a]
  {
    var init := cs[..|cs| - 1];
    var last := cs[|cs| - 1];
    if init == [] {
      assert ThenAll(cs) == Then(NoConfig, last);
    } else {
      RegisterAllAccumulates(registry, alias, init);
      MergeThen(Current(registry, alias), ThenAll(init), last);
    }
  }
}
