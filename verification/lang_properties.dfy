/** What the locale store keeps true across its operations, and what a
    whole sequence of operations does to the cache. */
module LangProperties {
  import opened Wrappers
  import opened LocaleTree
  import opened Translate
  import opened Entries
  import opened Lang

  /** `l`'s data can be looked up, or `l` has an inline source that
      `loadLocale` skips. */
  predicate Ready(st: Store, l: string) {
    l in st.cache || IsInline(st.sources, l)
  }

  /** The invariant of a store created from `cfg`: the sources never change,
      the seed entry stays, every other cache entry is the result of that
      locale's producer, current and default locales are configured, and
      each of them is cached unless its source is inline. */
  ghost predicate Valid(cfg: Config, st: Store) {
    && st.sources == cfg.sources
    && HasKey(cfg.sources, cfg.defaultLocale)
    && cfg.defaultLocale in st.cache
    && st.cache[cfg.defaultLocale] == cfg.defaultSource
    && (forall l :: l in st.cache && l != cfg.defaultLocale ==>
          Lookup(st.sources, l) == Some(Producer(st.cache[l])))
    && HasKey(st.sources, st.locale)
    && HasKey(st.sources, st.defaultLocale)
    && Ready(st, st.locale)
    && Ready(st, st.defaultLocale)
  }

  /** A successfully created store satisfies the invariant. */
  lemma CreateLangValid(cfg: Config)
    requires CreateLang(cfg).Success?
    ensures Valid(cfg, CreateLang(cfg).value)
  {
  }

  /** Loading a configured locale keeps the invariant and leaves it ready. */
  lemma LoadLocaleValid(cfg: Config, st: Store, l: string)
    requires Valid(cfg, st)
    requires HasKey(st.sources, l)
    ensures Valid(cfg, LoadLocale(st, l))
    ensures Ready(LoadLocale(st, l), l)
  {
    var r := LoadLocale(st, l);
    if InvokesProducer(st, l) {
      assert l != cfg.defaultLocale;
      forall k | k in r.cache && k != cfg.defaultLocale
        ensures Lookup(r.sources, k) == Some(Producer(r.cache[k]))
      {
        if k != l {
          assert k in st.cache;
        }
      }
    }
  }

  lemma SetLocaleValid(cfg: Config, st: Store, l: Option<string>)
    requires Valid(cfg, st)
    ensures Valid(cfg, SetLocale(st, l))
  {
    if l.Some? && HasKey(st.sources, l.value) {
      LoadLocaleValid(cfg, st, l.value);
    }
  }

  lemma ResetLocaleValid(cfg: Config, st: Store)
    requires Valid(cfg, st)
    ensures Valid(cfg, ResetLocale(st))
  {
  }

  lemma SetDefaultLocaleValid(cfg: Config, st: Store, l: Option<string>)
    requires Valid(cfg, st)
    ensures Valid(cfg, SetDefaultLocale(st, l))
  {
    if l.Some? && HasKey(st.sources, l.value) {
      LoadLocaleValid(cfg, st, l.value);
    }
  }

  /** The inline edge case: a non-seed locale whose source is inline is never
      cached, so once it is current every lookup falls back to the raw key. */
  lemma InlineLocaleFallsBack(cfg: Config, st: Store, key: string, ps: Params)
    requires Valid(cfg, st)
    requires IsInline(st.sources, st.locale)
    requires st.locale != cfg.defaultLocale
    ensures T(st, key, ps) == Text(key)
  {
  }

  /** Switching to a locale with a producer, other than the default seeded
      at construction, makes it current with the producer's data cached, and `t` then answers from that data. */
  lemma SetLocaleToProducer(cfg: Config, st: Store, l: string, d: LocaleData, key: string, ps: Params)
    requires Valid(cfg, st)
    requires Lookup(st.sources, l) == Some(Producer(d))
    requires l != cfg.defaultLocale
    ensures GetLocale(SetLocale(st, Some(l))) == l
    ensures l in SetLocale(st, Some(l)).cache && SetLocale(st, Some(l)).cache[l] == d
    ensures T(SetLocale(st, Some(l)), key, ps) == Resolve(d, key, ps)
  {
    SetLocaleValid(cfg, st, Some(l));
    LoadLocaleValid(cfg, st, l);
  }

  /** After construction, `t` answers keys of the default data with no
      `setLocale` call. */
  lemma CreatedStoreTranslates(cfg: Config, key: string, text: string)
    requires CreateLang(cfg).Success?
    requires GetNested(cfg.defaultSource, key) == Some(Leaf(text))
    requires text != ""
    ensures T(CreateLang(cfg).value, key, []) == Text(text)
  {
    ResolveVerbatim(cfg.defaultSource, key, text);
  }

  /** Setting the same locale twice is the same as setting it once, and the
      second call runs no producer. */
  lemma SetLocaleIdempotent(st: Store, l: Option<string>)
    ensures SetLocale(SetLocale(st, l), l) == SetLocale(st, l)
    ensures l.Some? && HasKey(st.sources, l.value) ==> !InvokesProducer(SetLocale(st, l), l.value)
  {
  }

  /** Setting the same default locale twice is the same as setting it once. */
  lemma SetDefaultLocaleIdempotent(st: Store, l: Option<string>)
    ensures SetDefaultLocale(SetDefaultLocale(st, l), l) == SetDefaultLocale(st, l)
  {
  }

  /** One call on the store. */
  datatype Op = SetLocaleOp(target: Option<string>) | ResetLocaleOp | SetDefaultLocaleOp(target: Option<string>)

  /** The locale an operation passes to `loadLocale`, if it gets that far. */
  function LoadTarget(st: Store, op: Op): (r: Option<string>)
    ensures r.Some? ==> r.value in st.cache || r.value == st.defaultLocale || HasKey(st.sources, r.value)
  {
    match op
    case SetLocaleOp(l) => if l.Some? && HasKey(st.sources, l.value) then l else None
    case ResetLocaleOp => Some(st.defaultLocale)
    case SetDefaultLocaleOp(l) => if l.Some? && HasKey(st.sources, l.value) then l else None
  }

  function Apply(st: Store, op: Op): Store {
    match op
    case SetLocaleOp(l) => SetLocale(st, l)
    case ResetLocaleOp => ResetLocale(st)
    case SetDefaultLocaleOp(l) => SetDefaultLocale(st, l)
  }

  /** The locales whose producer an operation runs: its load target, when
      `loadLocale` reaches the producer call. */
  function Invoked(st: Store, op: Op): (r: seq<string>)
    ensures |r| <= 1
    ensures forall k :: 0 <= k < |r| ==> r[k] !in st.cache && r[k] in Apply(st, op).cache
  {
    var t := LoadTarget(st, op);
    if t.Some? && InvokesProducer(st, t.value) then [t.value] else []
  }

  /** The store after a sequence of operations. */
  function Run(st: Store, ops: seq<Op>): Store
    decreases |ops|
  {
    if |ops| == 0 then st else Run(Apply(st, ops[0]), ops[1..])
  }

  /** Every producer call made by a sequence of operations, in order. */
  function Loads(st: Store, ops: seq<Op>): seq<string>
    decreases |ops|
  {
    if |ops| == 0 then [] else Invoked(st, ops[0]) + Loads(Apply(st, ops[0]), ops[1..])
  }

  /** One operation never removes or changes a cache entry. */
  lemma ApplyGrows(st: Store, op: Op)
    ensures Grows(st.cache, Apply(st, op).cache)
    ensures Apply(st, op).sources == st.sources
  {
  }

  /** The cache only grows over any sequence of operations, and the
      configured locales never change. */
  lemma {:induction false} RunGrows(st: Store, ops: seq<Op>)
    ensures Grows(st.cache, Run(st, ops).cache)
    ensures AvailableLocales(Run(st, ops)) == AvailableLocales(st)
    decreases |ops|
  {
    if |ops| > 0 {
      ApplyGrows(st, ops[0]);
      RunGrows(Apply(st, ops[0]), ops[1..]);
    }
  }

  /** The invariant holds after any sequence of operations. */
  lemma {:induction false} RunValid(cfg: Config, st: Store, ops: seq<Op>)
    requires Valid(cfg, st)
    ensures Valid(cfg, Run(st, ops))
    decreases |ops|
  {
    if |ops| > 0 {
      match ops[0] {
        case SetLocaleOp(l) => SetLocaleValid(cfg, st, l);
        case ResetLocaleOp => ResetLocaleValid(cfg, st);
        case SetDefaultLocaleOp(l) => SetDefaultLocaleValid(cfg, st, l);
      }
      RunValid(cfg, Apply(st, ops[0]), ops[1..]);
    }
  }

  /** No producer runs twice: the producer calls of any sequence of
      operations are for distinct locales, none of them cached beforehand,
      and every one of them is cached afterwards. */
  lemma {:induction false} ProducersRunAtMostOnce(st: Store, ops: seq<Op>)
    ensures forall i, j :: 0 <= i < j < |Loads(st, ops)| ==> Loads(st, ops)[i] != Loads(st, ops)[j]
    ensures forall i :: 0 <= i < |Loads(st, ops)| ==> Loads(st, ops)[i] !in st.cache
    ensures forall i :: 0 <= i < |Loads(st, ops)| ==> Loads(st, ops)[i] in Run(st, ops).cache
    decreases |ops|
  {
    if |ops| > 0 {
      var next := Apply(st, ops[0]);
      var here := Invoked(st, ops[0]);
      var rest := Loads(next, ops[1..]);
      ProducersRunAtMostOnce(next, ops[1..]);
      ApplyGrows(st, ops[0]);
      RunGrows(next, ops[1..]);
      assert Loads(st, ops) == here + rest;
      forall i | 0 <= i < |here| ensures here[i] in Run(st, ops).cache {
        assert here[i] in next.cache;
      }
      forall i | 0 <= i < |rest| ensures rest[i] !in st.cache && (forall k :: 0 <= k < |here| ==> rest[i] != here[k]) {
        assert rest[i] !in next.cache;
      }
    }
  }
}
