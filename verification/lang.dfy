/** The locale store returned by `createLang`: construction checks, the
    locale state machine (`setLocale`, `resetLocale`, `setDefaultLocale` and
    the internal `loadLocale`) and the lookup `t`, with every asynchronous
    step taken as one atomic transition over an immutable store value. */
module Lang {
  import opened Wrappers
  import opened LocaleTree
  import opened Entries
  import opened Translate

  /** A configured locale's data: already in memory, or behind a producer
      (a dynamic import) whose eventual result is known here. */
  datatype Source = Inline(data: LocaleData) | Producer(result: LocaleData)

  /** The `sources` object, as its entries in key order. */
  type Sources = entries: seq<(string, Source)> | UniqueKeys(entries) witness []

  /** The arguments of `createLang`. A missing `defaultLocale` behaves as the
      empty one and a missing `sources` as an empty one: both fail the same
      check with the same error. */
  datatype Config = Config(defaultLocale: string, defaultSource: LocaleData, sources: Sources)

  /** The errors `createLang` throws. */
  datatype ConfigError = DefaultLocaleRequired | SourcesRequired | DefaultLocaleNotFound(locale: string)

  /** The store's state: the configured sources, the current locale, the
      default locale and the cache of loaded locale data. */
  datatype Store = Store(sources: Sources, locale: string, defaultLocale: string, cache: map<string, LocaleData>)

  /** `l`'s source is inline data. */
  predicate IsInline(sources: seq<(string, Source)>, l: string) {
    Lookup(sources, l).Some? && Lookup(sources, l).value.Inline?
  }

  /** `l`'s source is a producer. */
  predicate IsProducer(sources: seq<(string, Source)>, l: string) {
    Lookup(sources, l).Some? && Lookup(sources, l).value.Producer?
  }

  /** Every entry of `m` is in `m'` with the same value. */
  ghost predicate Grows(m: map<string, LocaleData>, m': map<string, LocaleData>) {
    m.Keys <= m'.Keys && forall k :: k in m ==> m'[k] == m[k]
  }

  /** `createLang(props)`: validate the configuration, then start on the
      default locale with only its data cached. */
  function CreateLang(cfg: Config): (r: Result<Store, ConfigError>)
    ensures r == Failure(DefaultLocaleRequired) <==> cfg.defaultLocale == ""
    ensures r == Failure(SourcesRequired) <==> cfg.defaultLocale != "" && |cfg.sources| == 0
    ensures r == Failure(DefaultLocaleNotFound(cfg.defaultLocale)) <==>
      cfg.defaultLocale != "" && |cfg.sources| > 0 && !HasKey(cfg.sources, cfg.defaultLocale)
    ensures r.Success? <==> cfg.defaultLocale != "" && HasKey(cfg.sources, cfg.defaultLocale)
    ensures r.Success? ==>
      && r.value.locale == cfg.defaultLocale
      && r.value.defaultLocale == cfg.defaultLocale
      && r.value.cache == map[cfg.defaultLocale := cfg.defaultSource]
      && AvailableLocales(r.value) == Keys(cfg.sources)
  {
    if cfg.defaultLocale == "" then Failure(DefaultLocaleRequired)
    else if |cfg.sources| == 0 then Failure(SourcesRequired)
    else if !HasKey(cfg.sources, cfg.defaultLocale) then Failure(DefaultLocaleNotFound(cfg.defaultLocale))
    else Success(Store(cfg.sources, cfg.defaultLocale, cfg.defaultLocale, map[cfg.defaultLocale := cfg.defaultSource]))
  }

  /** `getLocale()`. */
  function GetLocale(st: Store): string {
    st.locale
  }

  /** `availableLocales`: the configured locales in key order. */
  function AvailableLocales(st: Store): (r: seq<string>)
    ensures |r| == |st.sources|
    ensures forall l :: l in r <==> HasKey(st.sources, l)
  {
    Keys(st.sources)
  }

  /** Whether `loadLocale(l)` reaches the producer call: `l` is not cached,
      is not the default, and its source is not an object. */
  predicate InvokesProducer(st: Store, l: string) {
    l !in st.cache && l != st.defaultLocale && !IsInline(st.sources, l)
  }

  /** `loadLocale(l)`. The code only calls it with a configured locale or
      the default one; for any other locale that is not cached the producer
      call would throw. */
  function LoadLocale(st: Store, l: string): (r: Store)
    requires l in st.cache || l == st.defaultLocale || HasKey(st.sources, l)
    ensures r.sources == st.sources && r.locale == st.locale && r.defaultLocale == st.defaultLocale
    ensures Grows(st.cache, r.cache)
    ensures r.cache.Keys == st.cache.Keys + (if InvokesProducer(st, l) then {l} else {})
    ensures InvokesProducer(st, l) ==> IsProducer(st.sources, l) && r.cache[l] == Lookup(st.sources, l).value.result
    ensures l in r.cache || l == r.defaultLocale || IsInline(r.sources, l)
  {
    if l in st.cache then st
    else if l == st.defaultLocale then st
    else if IsInline(st.sources, l) then st
    else st.(cache := st.cache[l := Lookup(st.sources, l).value.result])
  }

  /** `setLocale(l)`: ignore an absent or unknown locale, otherwise load it
      and make it current. */
  function SetLocale(st: Store, l: Option<string>): (r: Store)
    ensures l.None? || !HasKey(st.sources, l.value) ==> r == st
    ensures l.Some? && HasKey(st.sources, l.value) ==>
      && r.locale == l.value
      && r.defaultLocale == st.defaultLocale
      && r.sources == st.sources
      && Grows(st.cache, r.cache)
  {
    if l.None? then st
    else if !HasKey(st.sources, l.value) then st
    else LoadLocale(st, l.value).(locale := l.value)
  }

  /** `resetLocale()`: return to the default locale. */
  function ResetLocale(st: Store): (r: Store)
    ensures r.locale == st.defaultLocale
    ensures r.defaultLocale == st.defaultLocale && r.sources == st.sources && r.cache == st.cache
  {
    LoadLocale(st, st.defaultLocale).(locale := st.defaultLocale)
  }

  /** `setDefaultLocale(l)`: like `setLocale`, and `l` also becomes the
      default. */
  function SetDefaultLocale(st: Store, l: Option<string>): (r: Store)
    ensures l.None? || !HasKey(st.sources, l.value) ==> r == st
    ensures l.Some? && HasKey(st.sources, l.value) ==>
      && r.locale == l.value
      && r.defaultLocale == l.value
      && r.sources == st.sources
      && Grows(st.cache, r.cache)
  {
    if l.None? then st
    else if !HasKey(st.sources, l.value) then st
    else LoadLocale(st, l.value).(locale := l.value, defaultLocale := l.value)
  }

  /** `t(key, params)`: the raw key when the current locale has no cached
      data, otherwise the lookup in that data. */
  function T(st: Store, key: string, ps: Params): (r: Translation)
    ensures st.locale !in st.cache ==> r == Text(key)
    ensures (st.locale in st.cache
             && !Truthy(GetNested(st.cache[st.locale], key))
             && !Truthy(GetNested(st.cache[st.locale], key + PluralSuffix))) ==> r == Text(key)
  {
    if st.locale !in st.cache then Text(key)
    else Resolve(st.cache[st.locale], key, ps)
  }
}
