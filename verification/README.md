# svelte-simple-lang: a Dafny model of the locale store

This project models the locale store built by `createLang` in
`src/lib/lang.svelte.ts` and proves properties of it. The model covers:

- the configuration checks and the initial state;
- the locale state machine: `setLocale`, `resetLocale`, `setDefaultLocale` and the internal `loadLocale`;
- the lookup function `t`: dotted key paths (`getNested`), the `_plural` sibling key, `{param}` substitution, and the fallback to the raw key.

Each asynchronous operation is one atomic transition over an immutable `Store` value.
A source is `Inline(data)` (an object) or `Producer(result)`, a dynamic import whose eventual result is known in advance.
A translation table is the recursive datatype `LocaleData = Leaf(text) | Node(entries)`.

Modules, one per concern:

- `Wrappers`: `Option` and `Result`.
- `Strings`: `split`, `join` and global literal `replace`.
- `Numerals`: `String(n)` and `Number(s)` on integers.
- `LocaleTree`: translation tables and `getNested`.
- `Translate`: plural selection, substitution, and the lookup once the table is known.
- `Lang`: the store and its operations.
- `LangProperties`: the store invariant, and sequences of operations.
- `LangExamples`: concrete scenarios, including the demo application's configuration.

Two behaviours of the code are easy to miss:

- The current locale's data is not always cached. An inline, non-default source is never put into the cache. So after `setLocale` to such a locale, `t` returns raw keys. The invariant that does hold is that the current and default locales are each cached or have an inline source (`LangProperties.Valid`).
- `t` can throw. If the key names an inner node and parameters are given, `.replace` is called on an object and throws a `TypeError`. With no parameters, `t` returns the object itself. A parameter named like `0`, `1,` or `1,2` turns the pattern into a braced quantifier with nothing to repeat (`{0}`), and `new RegExp` throws a `SyntaxError`. The model's `Translation` result has a case for each.

## Model

| member | source | states |
|---|---|---|
| Entries.Keys | src/lib/lang.svelte.ts:124 | `Object.keys`: one key per entry, in entry order |
| Entries.Lookup | src/lib/lang.svelte.ts:60 | `obj[key]`: a value exactly when the key is present, and then a value stored under that key |
| Lang.CreateLang | src/lib/lang.svelte.ts:25-42 | each configuration error occurs exactly when its check fails, in the source's order; on success current = default = the given locale, the cache is exactly {default ↦ defaultSource}, and the available locales are the source keys in order |
| Lang.LoadLocale | src/lib/lang.svelte.ts:44-53 | locale, default and sources unchanged; no cache entry is removed or changed; a key is added only when the locale is uncached, not the default and not inline, and then it holds the producer's result; afterwards the locale is cached, the default, or inline |
| Lang.SetLocale | src/lib/lang.svelte.ts:58-66 | an absent or unknown locale leaves the store unchanged; a known one becomes current, the default is kept and the cache only grows |
| Lang.ResetLocale | src/lib/lang.svelte.ts:68-71 | the current locale becomes the default; the default, the sources and the cache are unchanged |
| Lang.SetDefaultLocale | src/lib/lang.svelte.ts:73-82 | an absent or unknown locale leaves the store unchanged; a known one becomes both current and default, and the cache only grows |
| Lang.GetLocale | src/lib/lang.svelte.ts:56 | the current locale; its value after each operation is stated by the operations' contracts and by `LangProperties.SetLocaleToProducer`, and `LangProperties.Valid` keeps it a configured locale |
| Lang.AvailableLocales | src/lib/lang.svelte.ts:124 | one entry per configured source, and a locale is listed exactly when it has a source |
| Lang.T | src/lib/lang.svelte.ts:90-94 | the raw key when the current locale has no cached data; also the raw key when neither the key nor its plural sibling resolves |
| Translate.SelectKey | src/lib/lang.svelte.ts:99-104 | the `_plural` key is chosen if and only if `count` is present, `Number(count) > 1`, and the plural key resolves to a true value; otherwise the key itself |
| Translate.SmallCountIsSingular | src/lib/lang.svelte.ts:99-104 | a missing `count`, or a `count` of at most 1, selects the singular key |
| Translate.UnresolvedPluralIsSingular | src/lib/lang.svelte.ts:100-103 | a plural key that does not resolve is never selected |
| Translate.Resolve | src/lib/lang.svelte.ts:96-121 | the raw key when the selected key does not resolve; an exception only with parameters, and a SyntaxError only when some parameter name is quantifier-shaped; a sub-table only without parameters |
| Translate.ResolveMissing | src/lib/lang.svelte.ts:106-111 | a key that does not resolve (a missing segment, or an empty-string leaf), and whose `_plural` sibling does not either, returns the raw key for any parameters |
| Translate.ResolveLeaf | src/lib/lang.svelte.ts:106-121 | a found non-empty leaf yields that leaf with the parameters substituted, or a SyntaxError exactly when some parameter name is quantifier-shaped; with plain names always the substituted leaf |
| Translate.ResolveInnerNode | src/lib/lang.svelte.ts:113-121 | a found inner node comes back as is without parameters; with parameters a SyntaxError when the first name is quantifier-shaped, otherwise a TypeError, and always a TypeError when the first name is plain |
| Translate.PlainNameIsNoQuantifier | src/lib/lang.svelte.ts:117 | a plain identifier never makes the pattern a quantifier, so it never makes `new RegExp` throw |
| Translate.ResolveVerbatim | src/lib/lang.svelte.ts:113-121 | with no parameters, a found leaf is returned verbatim |
| Translate.SubstituteAppend | src/lib/lang.svelte.ts:115-119 | substitution is a left fold: the params are applied one after another, in order |
| Translate.SubstituteUnusedParam | src/lib/lang.svelte.ts:116-117 | a parameter whose placeholder is absent from the text it meets can be dropped without changing the result |
| Translate.Substitute | src/lib/lang.svelte.ts:115-119 | a text holding none of the parameters' placeholders is returned unchanged; `SubstituteAppend`, `SubstituteOne` and `SubstituteKeepsUnmatched` state the rest of its meaning |
| Translate.SubstituteOne | src/lib/lang.svelte.ts:117 | one parameter replaces exactly the occurrences of `{name}`: the text is split at them and rejoined with the value |
| Translate.ReplaceKeepsPlaceholder | src/lib/lang.svelte.ts:117 | replacing `{a}` never destroys an occurrence of `{x}` for a different plain name `x` |
| Translate.ReplaceAroundPlaceholder | src/lib/lang.svelte.ts:117 | replacing `{a}` works on the two sides of a `{x}` independently, for plain names `a` ≠ `x` |
| Translate.SubstituteJoin | src/lib/lang.svelte.ts:115-119 | substituting into pieces joined at `{x}`, with no parameter named `x`, substitutes into each piece and keeps every `{x}` |
| Translate.SubstituteKeepsUnmatched | src/lib/lang.svelte.ts:115-119 | with plain names and no parameter named `x`, the result is the text split at `{x}`, each piece substituted on its own, joined back with `{x}`: every `{x}` stays literal and nothing around it is affected by its presence |
| Translate.SubstituteKeepsOccurrence | src/lib/lang.svelte.ts:115-119 | an occurrence of a placeholder with no parameter of that name is still present in the result |
| Strings.ReplaceAll | src/lib/lang.svelte.ts:117 | replacing a pattern by itself is the identity; `ReplaceAllIsSplitJoin` and `ReplaceAllAbsent` state the rest of its meaning |
| Strings.Split | src/lib/lang.svelte.ts:130 | splitting always yields at least one segment |
| Strings.ReplaceAllIsSplitJoin | src/lib/lang.svelte.ts:117 | global literal replacement equals splitting at the pattern and joining with the replacement |
| Strings.JoinSplit | src/lib/lang.svelte.ts:130 | joining the segments of a key with `.` gives the key back |
| Strings.SplitJoin | src/lib/lang.svelte.ts:130 | splitting segments joined with `.` gives the segments back, when no segment contains a dot |
| Strings.ReplaceAllAbsent | src/lib/lang.svelte.ts:117 | replacing a pattern absent from the text changes nothing |
| Numerals.NatToString | src/lib/lang.svelte.ts:117 | the decimal text of a number is non-empty, all digits, and has no leading zero |
| Numerals.IntToString | src/lib/lang.svelte.ts:117 | the text is non-empty and starts with `-` exactly when the number is negative; `NumberOfIntToString` states that `Number` reads it back |
| Numerals.NumberOf | src/lib/lang.svelte.ts:99 | only signed or unsigned digit strings are read as numbers, and only a leading `-` gives a negative one |
| Numerals.NumberOfIntToString | src/lib/lang.svelte.ts:99 | `Number(String(n))` is `n` for every integer |
| LocaleTree.GetNested | src/lib/lang.svelte.ts:129-131 | whatever is found lies below the root, so a leaf root answers nothing; `GetNestedSingle`, `GetNestedDot` and `GetNestedJoin` state the walk |
| LocaleTree.WalkAppend | src/lib/lang.svelte.ts:130 | walking a concatenated path is walking its two halves in turn |
| LocaleTree.WalkStopsAtMissing | src/lib/lang.svelte.ts:130 | a segment missing at any depth makes the whole lookup fail |
| LocaleTree.GetNestedJoin | src/lib/lang.svelte.ts:129-131 | looking up a dotted key walks exactly its dot-free segments |
| LocaleTree.GetNestedSingle | src/lib/lang.svelte.ts:129-131 | a key without a dot addresses a direct child of the root, and nothing inside a leaf |
| LocaleTree.GetNestedDot | src/lib/lang.svelte.ts:129-131 | `head.rest` looks `rest` up inside the child `head`, and fails when that child is missing |
| LocaleTree.GetNestedNest | src/lib/lang.svelte.ts:129-131 | a table built along a dotted key answers that key with the value placed there |
| LangProperties.CreateLangValid | src/lib/lang.svelte.ts:38-42 | a created store satisfies the store invariant |
| LangProperties.LoadLocaleValid | src/lib/lang.svelte.ts:44-53 | loading a configured locale keeps the invariant and leaves that locale cached or inline |
| LangProperties.SetLocaleValid | src/lib/lang.svelte.ts:58-66 | `setLocale` keeps the invariant |
| LangProperties.ResetLocaleValid | src/lib/lang.svelte.ts:68-71 | `resetLocale` keeps the invariant |
| LangProperties.SetDefaultLocaleValid | src/lib/lang.svelte.ts:73-82 | `setDefaultLocale` keeps the invariant, even when the new default is inline and uncached |
| LangProperties.InlineLocaleFallsBack | src/lib/lang.svelte.ts:44-53 | when the current locale is inline and not the seeded default, every lookup returns the raw key |
| LangProperties.SetLocaleToProducer | src/lib/lang.svelte.ts:44-66 | switching to a producer locale other than the one seeded at construction makes it current, caches the producer's data, and `t` then answers from that data |
| LangProperties.CreatedStoreTranslates | src/lib/lang.svelte.ts:38-42 | right after construction, a key of the default data naming a non-empty leaf, asked for with no parameters, comes back as that leaf without any `setLocale` call |
| LangProperties.SetLocaleIdempotent | src/lib/lang.svelte.ts:44-66 | setting a locale twice equals setting it once, and the second call runs no producer |
| LangProperties.SetDefaultLocaleIdempotent | src/lib/lang.svelte.ts:73-82 | setting the default twice equals setting it once |
| LangProperties.RunGrows | src/lib/lang.svelte.ts:44-53 | over any sequence of operations the cache only grows and the available locales do not change |
| LangProperties.RunValid | src/lib/lang.svelte.ts:38-82 | the invariant holds after any sequence of operations |
| LangProperties.ProducersRunAtMostOnce | src/lib/lang.svelte.ts:44-53 | over any sequence of operations, producers run for distinct locales, none cached beforehand, all cached afterwards |
| LangExamples.PluralExample | src/lib/lang.svelte.ts:99-121 | `{item: "one item", item_plural: "{count} items"}`: count 1 gives "one item", count 5 gives "5 items" |
| LangExamples.GreetingExample | src/lib/lang.svelte.ts:113-121 | "Hello {name}" with name "Ana" gives "Hello Ana"; with no parameters the placeholder stays |
| LangExamples.QuantifierNameExample | src/lib/lang.svelte.ts:117 | a parameter named `0` makes `t` throw a SyntaxError |
| LangExamples.InnerNodeExample | src/lib/lang.svelte.ts:113-117 | a key naming an inner node, asked for with a parameter, makes `t` throw a TypeError |
| LangExamples.MissingKeyExample | src/lib/lang.svelte.ts:106-111 | `no.such.key` comes back unchanged |
| LangExamples.DemoSwitch | src/lib/lang/i18n.ts:4-11 | on the demo configuration, `setLocale('en')` loads English and `t('greeting')` gives "Hi"; an unknown locale changes nothing |
| LangExamples.InlineSwitch | src/lib/lang.svelte.ts:47 | switching to an inline non-default locale caches nothing, so `t` returns the raw key even though the inline table has it |

## Left out

- The type-level `ExtractKeys` and `ExtractParams` (src/lib/lang.svelte.ts:1-12) are left out. They are compile-time checks with no runtime behaviour.
- Svelte `$state` reactivity is modelled as a plain `locale` field. Change notification is not modelled.
- `console.warn` diagnostics are left out. The model takes the same branch without the log.
- `async`/`await` is left out. Each operation is one atomic step. Overlapping in-flight loads of the same locale, which could run a producer twice, are not modelled.
- A rejected dynamic import is left out. Every producer succeeds with its known result. In the code, a rejection makes `setLocale` or `setDefaultLocale` reject, and the locale and the cache stay unchanged (src/lib/lang.svelte.ts:50, 64-65).
- The `'default' in module` unwrapping is left out. A producer's result is its table directly.
- A missing `defaultLocale` and a missing `sources` (`undefined` or `null`) are folded into the empty string and the empty source list. They fail the same checks with the same errors.
- `Number(count)` is modelled only for the empty string, for optionally signed decimal digit strings, and for integers. Other strings (`" 5"`, `"5.5"`, `"1e3"`, `"0x10"`) are treated as not greater than 1, although some of them are in JavaScript. Non-integer numbers are not modelled.
- Substitution is modelled as literal global replacement, plus the `SyntaxError` for quantifier-shaped names (`0`, `1,`, `1,2`). Two source behaviours are not modelled. First, other parameter names containing regular-expression metacharacters, such as `.`, `*`, `(` or a brace inside the name (`new RegExp` at src/lib/lang.svelte.ts:117). Second, `$` patterns such as `$&` or `$$` in a replacement value, which `String.prototype.replace` interprets.
- Numerals.NatToString: `String(n)` is modelled as plain decimal digits. A `Num` parameter is therefore limited to magnitudes below 10^21, where JavaScript switches to exponent notation (`1e+21`). Integers above 2^53 are kept exact, although a JavaScript number would round them.
- Parameter objects have distinct names (`Translate.Params`), as JavaScript object keys do.
- The order of parameters is their list order. JavaScript lists integer-like keys first. That only matters for names that are not plain identifiers, and for locale keys that look like integers.
- In `getNested`, a further segment after a non-empty string leaf is treated as not found. JavaScript would index the string and return a character or its `length`. Property names inherited from `Object.prototype` (`toString`, `constructor`) are not modelled either, neither as keys nor as locale names.
- `src/lib/lang/i18n.ts` is only a configuration instance. `LangExamples.DemoConfig` mirrors its configuration: an inline Indonesian default and an English producer. The contents of the two tables (`IdTable`, `EnTable`) are illustrative, since `id.json` and `en.json` are not part of this model.
- `src/routes/(ssr)/ssr/+layout.server.ts` is left out. It picks the initial locale at random from a URL parameter, which is routing glue outside the store.
