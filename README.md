# solr-node `Query` builder in Dafny

This project models the Solr query-parameter builder of solr-node, the `Query` class. The builder holds one piece of state: `params`, an ordered list of `key=value` fragments.

- Its configuration methods push fragments onto the end of the list.
- `dismax` and `edismax` are the exceptions: they put a fragment in front.
- `toString` joins the fragments with `&`. It then appends `&wt=json` unless the text `wt=` already occurs in the result.

The model is one Dafny class, `SolrQuery.Query`, with a `params: seq<string>` field. Every method states the whole new list in terms of the old one. The values pushed are defined by functions. The lemmas prove what those values mean:

- what Solr reads once it decodes them;
- that each fragment stays one parameter with the right name;
- which options are escaped and which are inserted raw;
- in what order the fragments come.

Modules:

- `Wrappers`: `Option` and `Outcome`. A `Fail` outcome models the error `spatial` throws for an argument that is not a non-empty object.
- `Strings`: `Join` (`Array.prototype.join`), `Split`, the substring search behind `indexOf`, and the key of a fragment.
- `Uri`: ECMAScript `encodeURIComponent` over UTF-8. It comes with its partner, `decodeURIComponent`, and the proof that decoding inverts encoding.
- `QueryString`: Node's `querystring.stringify(obj, sep, eq)` for objects with string values. Keys and values are escaped; `sep` and `eq` are inserted as given.
- `JsValues`: the JavaScript values the methods receive, `obj[key]`, `isUndefined`, and string coercion.
- `Features`: the feature methods. Each feature's if-chain of option tests is written as a table of `Param(key, name, kind)` entries, in source order. `Emitted` is one pass down that table.
- `Clauses`: the values of the `q`, `sort`, `fq` and `addParams` fragments, together with the plain text each one percent-encodes.
- `Serialization`: `toString`.
- `SolrQuery`: the class.

Behaviour worth noting:

- **Fresh builder.** `toString()` on a builder nothing was pushed to gives `&wt=json`, leading `&` included: joining an empty array gives the empty string, and `&wt=json` is appended to it (`EmptySerializes`).
- **The colon in `q` pairs.** `querystring.stringify` does not escape its `eq` argument. So `q({category: "shoes", str: "featured:true"})` writes `category:shoes%20AND%20featured%3Atrue`: the colon between a field and its value is raw, and only the colon inside the `str` clause is escaped (`QueryPairOnly`, `EscapeColonPair`).
- **`hl.q`.** It is inserted raw, like every other highlighting option (`HlTableNames`).
- **Suppressing the default writer.** `toString` searches the joined text for the substring `wt=`. Any occurrence suppresses `&wt=json`, not only a fragment keyed `wt`. `WtSubstringSuppressesDefault` shows it with a parameter named `newt`.

Library behaviour the model fixes:

- `fq` tests `isArray` before `isObject` (lib/query.js:181-186). The order matters because underscore's `isObject` holds for arrays too. `fl` (lib/query.js:106), facet's `field` (637) and the `fl` options of `mlt` (396) and `hl` (808) test `isArray` directly. All five array branches are modelled. `addParams` takes its argument as a list without testing it.
- A value concatenated with `+` is printed the way JavaScript prints it. This covers the values of `qop`, `start`, `rows`, `df`, `wt` and every raw option. An array value (`List`) prints as its items joined with commas.
- Arrays passed as the whole argument of `q`, `spatial` or a feature method are not modelled (see "Left out").
- `isEmpty` on an object means it has no own keys.

## Model

| member | source | states |
|---|---|---|
| SolrQuery.Query.constructor | lib/query.js:25-27 | a new builder holds no fragments |
| SolrQuery.Query.Dismax | lib/query.js:33-37 | `defType=dismax` is put in front; the old list follows unchanged |
| SolrQuery.Query.Edismax | lib/query.js:43-47 | `defType=edismax` is put in front; the old list follows unchanged |
| SolrQuery.ParserOrderExample | lib/query.js:33-80 | `dismax`, `q(word)`, `edismax`, then `toString`, give `defType=edismax&defType=dismax&q=<word>&wt=json`; the last parser call comes first |
| SolrQuery.ParserOrderSerializes | lib/query.js:889-900 | the serialized text of the three fragments that example leaves, for a word escaping leaves alone and that holds no `w` |
| SolrQuery.Query.Q | lib/query.js:56-80 | exactly one fragment `q=<value>` is pushed after the old list |
| Clauses.QueryValueMeaning | lib/query.js:62-76 | the `q` value percent-encodes the Lucene query: the `key:value` clauses other than `str` joined with ` AND `, then the `str` clause; a string stands for itself; anything else, an empty object included, stands for `*:*`; decoding the value gives back exactly that query |
| Clauses.StrClauseLast | lib/query.js:64-71 | when the object has other keys, the `str` clause comes last, after ` AND `, and `str` is not among the field pairs |
| Clauses.QueryStrOnly | lib/query.js:64-68 | `q({str: s})` writes the escaped `s` with no ` AND ` |
| Clauses.QueryPairOnly | lib/query.js:71 | `q({k: v})` writes the escaped key, a raw `:`, then the escaped value |
| Clauses.EscapeColonPair | lib/query.js:73 | escaping `a:b`, where `a` and `b` need no escaping, only turns the colon into `%3A` |
| Clauses.QueryValueIsOneParameter | lib/query.js:56-77 | the `q` value holds no `&` or `=`, so the fragment is one parameter named `q` |
| Clauses.Delete | lib/query.js:69 | `delete obj.str` keeps every other entry and nothing else; it removes one entry when the key is present and none otherwise |
| Clauses.DeleteAt | lib/query.js:69-71 | the deleted entry is cut out where it stands; the others keep their order, which is the order `stringify` writes them in |
| Clauses.QueryValue | lib/query.js:62-76 | the `q` value for each argument shape; its meaning is proved by `QueryValueMeaning` and `QueryValueIsOneParameter` |
| Clauses.StrClause | lib/query.js:63-68 | the `str` clause: escaped, and after an escaped ` AND ` when other keys are present; proved by `StrClauseLast` and `QueryStrOnly` |
| Clauses.Lookup | lib/query.js:64 | a key is absent exactly when no entry has it; a found value belongs to an entry with that key |
| SolrQuery.Query.Qop | lib/query.js:89-93 | exactly one fragment `q.op=<value>` is pushed after the old list |
| SolrQuery.Query.Fl | lib/query.js:101-112 | `fl=<s>` for a string and `fl=` plus the comma-joined items for an array; anything else changes nothing |
| SolrQuery.Query.Start | lib/query.js:120-124 | exactly one fragment `start=<value>` is pushed after the old list |
| SolrQuery.Query.Rows | lib/query.js:132-136 | exactly one fragment `rows=<value>` is pushed after the old list |
| SolrQuery.Query.Sort | lib/query.js:144-148 | exactly one fragment `sort=<value>` is pushed after the old list |
| Clauses.SortValue | lib/query.js:146 | `stringify(params, ",", "%20")` for an object and the empty text otherwise; proved by `SortValueMeaning` |
| Clauses.SortValueMeaning | lib/query.js:146 | the `sort` value encodes the `field direction` pairs joined with commas, in key order; splitting it on `,` gives one escaped `field%20direction` pair per key |
| Clauses.FilterClause | lib/query.js:160-164 | `field:value`, or the bare value when `field` is undefined; the text `_getFqStr` escapes |
| Clauses.FqFragment | lib/query.js:159-167 | `_getFqStr`: `fq=` and the escaped filter clause; proved by `FqFragmentDecodes` and `FqFragmentIsOneParameter` |
| Clauses.FqFragmentDecodes | lib/query.js:159-167 | the `fq` value decodes to `field:value` when `field` is defined and to the bare value otherwise |
| Clauses.FqFieldAndValue | lib/query.js:159-167 | `fq` fragments of `{field: f, value: v}` and of `{value: v}` |
| Clauses.FqFragmentIsOneParameter | lib/query.js:166 | each filter becomes one `&`-free parameter named `fq` |
| Clauses.FqFragments | lib/query.js:181-185 | one fragment per filter, each the filter's own fragment, in list order |
| Clauses.FqFragmentsSnoc | lib/query.js:183-185 | one more filter adds its fragment at the end |
| SolrQuery.Query.Fq | lib/query.js:177-193 | an array pushes each filter's fragment in order; an object pushes one fragment; anything else changes nothing |
| SolrQuery.Query.Df | lib/query.js:201-205 | exactly one fragment `df=<value>` is pushed after the old list |
| SolrQuery.Query.Wt | lib/query.js:213-217 | exactly one fragment `wt=<value>` is pushed; afterwards `toString` adds no default writer |
| SolrQuery.Query.AddParams | lib/query.js:227-236 | one `field=<escaped value>` fragment per entry is pushed, in list order |
| Clauses.ParamFragments | lib/query.js:230-234 | one fragment per entry, each the entry's own fragment, in list order |
| Clauses.ParamFragmentsSnoc | lib/query.js:230-234 | one more entry adds its fragment at the end |
| Clauses.ParamFragment | lib/query.js:232 | the field as given, `=`, then the escaped value; proved by `ParamFragmentMeaning` |
| Clauses.ParamFragmentMeaning | lib/query.js:232 | for a field without `=` or `&`, the fragment is one parameter named by the field, whose value decodes to the entry's value |
| SolrQuery.Query.Spatial | lib/query.js:247-272 | fails with `spatial params must be an object` exactly when the argument is not a non-empty object, and then pushes nothing; otherwise pushes the toggle and the defined `pt`, `sfield` and `d` options |
| Features.SpatialExample | lib/query.js:250-267 | `spatial({pt, sfield, d})` pushes `spatial=true`, `pt=…`, `sfield=…`, `d=…`, all raw |
| SolrQuery.Query.ApplyFeature | lib/query.js:297-350 | the shared dispatch: an argument that is neither string nor object changes nothing; a string is pushed as it is, as one fragment; an object pushes the toggle, then one fragment per defined option in table order |
| SolrQuery.Query.TermsQuery | lib/query.js:294-354 | the dispatch applied to the terms table |
| SolrQuery.Query.MltQuery | lib/query.js:377-443 | the dispatch applied to the mlt table |
| SolrQuery.Query.SpellcheckQuery | lib/query.js:468-549 | the dispatch applied to the spellcheck table |
| SolrQuery.Query.SuggestQuery | lib/query.js:562-595 | the dispatch applied to the suggest table |
| SolrQuery.Query.FacetQuery | lib/query.js:615-675 | the dispatch applied to the facet table |
| SolrQuery.Query.GroupQuery | lib/query.js:695-749 | the dispatch applied to the group table |
| SolrQuery.Query.HlQuery | lib/query.js:781-883 | the dispatch applied to the hl table |
| Features.FeatureFragments | lib/query.js:306-350 | the toggle, then one fragment per defined option; proved by `FeatureKeys` and `ToggleDoesNotShortCircuit` |
| Features.Emitted | lib/query.js:312-350 | one pass down a feature's option tests, pushing a fragment for each defined option; proved by `EmittedKeys`, `EmittedFor` and `EmittedOnly` |
| Features.Fragment | lib/query.js:312-350 | `<solr name>=<rendered value>` for one defined option |
| Features.Render | lib/query.js:312-350 | the value as text, escaped for an encoded option, and for facet's `field` array the items joined with `&facet.field=`; the encoded options are fixed by the `Names` lemmas |
| Features.Toggle | lib/query.js:306-310 | the toggle is `<feature>=false` exactly when `on` is the value `false`, and `<feature>=true` otherwise |
| Features.ToggleDoesNotShortCircuit | dist/query.js:318-361 | whatever the toggle says, the options that follow it are the same |
| Features.FeatureKeys | lib/query.js:306-350 | the keys pushed by a feature are its name, then the Solr names of exactly the defined options, in table order |
| Features.EmittedKeys | lib/query.js:312-350 | one fragment per defined option, none for an undefined one, keyed by the Solr name, in table order |
| Features.EmittedFor | lib/query.js:312-350 | in a table with distinct names, a fragment with an option's Solr name is pushed exactly when that option is defined, and it is that option's fragment |
| Features.EmittedOnly | lib/query.js:312-350 | with exactly one option defined, its fragment is all that is pushed |
| Features.EmittedIgnores | lib/query.js:312-350 | an option the table does not test has no influence on what is pushed |
| Features.TablesLeaveOnAlone | lib/query.js:306 | no table tests `on`, which only the toggle reads |
| Features.TermsTableNames | lib/query.js:327-329 | among the terms options, only `terms.prefix` is escaped |
| Features.TermsDottedNames | dist/query.js:318-361 | `lowerIncl` becomes `terms.lower.incl` and `upperIncl` becomes `terms.upper.incl` |
| Features.TermsTableWellFormed | lib/query.js:312-350 | the terms names are distinct |
| Features.MltTableNames | lib/query.js:395-440 | no mlt option is escaped |
| Features.MltDottedNames | dist/query.js:440-443 | `matchInclude` and `matchOffset` become `mlt.match.include` and `mlt.match.offset` |
| Features.MltTableWellFormed | lib/query.js:395-440 | the mlt names are distinct |
| Features.SpellcheckTableNames | lib/query.js:486-488 | among the spellcheck options, only `spellcheck.q` is escaped |
| Features.SpellcheckTableWellFormed | lib/query.js:486-546 | the spellcheck names are distinct |
| Features.SuggestTableNames | lib/query.js:580-582 | among the suggest options, only `suggest.q` is escaped |
| Features.SuggestTableWellFormed | lib/query.js:580-591 | the suggest names are distinct |
| Features.FacetTableNames | lib/query.js:642-653 | `facet.contains` and `facet.contains.ignoreCase` are escaped; `facet.prefix` and every other facet option is not |
| Features.FacetTableWellFormed | lib/query.js:633-671 | the facet names are distinct |
| Features.FacetFieldRepeats | lib/query.js:636-641 | a `field` array becomes one fragment; splitting it on `&` gives `facet.field=<name>` once per element, in order |
| Features.FacetExample | lib/query.js:636-641 | `facetQuery({field: [a, b]})` pushes `facet=true` and `facet.field=a&facet.field=b` |
| Features.CommaListRecovered | lib/query.js:395-400 | an array given to a raw option (the `fl` of mlt and hl) is sent comma-joined, and splitting on `,` recovers its items |
| Features.GroupTableNames | lib/query.js:713-745 | no group option is escaped |
| Features.GroupDottedNames | dist/query.js:724-726 | `cachePercent` becomes `group.cache.percent` |
| Features.GroupTableWellFormed | lib/query.js:713-745 | the group names are distinct |
| Features.HlTableNames | lib/query.js:801-803 | no hl option is escaped, `hl.q` included |
| Features.HlDottedNames | dist/query.js:822-845 | `simplePre`, `simplePost`, `regexSlop`, `regexPattern` and `regexMaxAnalyzedChars` become `hl.simple.*` and `hl.regex.*` |
| Features.HlTableWellFormed | lib/query.js:798-879 | the hl names are distinct |
| Features.SpatialTableNames | lib/query.js:257-267 | no spatial option is escaped |
| Features.SpatialTableWellFormed | lib/query.js:257-267 | the spatial names are distinct |
| SolrQuery.Query.ToString | lib/query.js:889-900 | reads `params` and changes nothing; it is `Serialize` of the fragments |
| Serialization.Serialize | lib/query.js:889-900 | the result always holds `wt=`; it is the `&`-join when `wt=` occurs in the join, and the join followed by `&wt=json` when it does not |
| Serialization.ExplicitWtSuppressesDefault | dist/query.js:858-870 | once a `wt=<v>` fragment is present, no default writer is added |
| Serialization.WtSubstringSuppressesDefault | lib/query.js:895 | a fragment whose key is `newt` suppresses the default too: the test is for a substring |
| Serialization.EmptySerializes | lib/query.js:889-900 | a fresh builder serializes to `&wt=json` |
| Serialization.NoWtWithoutW | lib/query.js:895 | a text without `w` never contains `wt=` |
| Serialization.SerializeSplits | lib/query.js:894-898 | when no fragment holds `&`, splitting the result on `&` gives back the fragments, followed by `wt=json` exactly when the default was added |
| Uri.EncodeURIComponent | lib/query.js:67 | the result holds only unreserved characters and `%`, and is no shorter than the input |
| Uri.EncodeIdentity | lib/query.js:67 | escaping leaves a text unchanged exactly when all of its characters are unreserved |
| Uri.DecodeEncode | lib/query.js:67 | `decodeURIComponent` inverts `encodeURIComponent` |
| Uri.EncodeInjective | lib/query.js:67 | different texts escape differently |
| Uri.EncodedHasNoDelimiters | lib/query.js:67 | an escaped text holds no `&`, `=`, `,` or `:` |
| Uri.EncodeURIComponentAppend | lib/query.js:67 | escaping a concatenation concatenates the escapes |
| Uri.Utf8RoundTrip | lib/query.js:67 | UTF-8 decoding inverts UTF-8 encoding |
| QueryString.Stringify | lib/query.js:71 | Node's `querystring.stringify`: the escaped `key eq value` pairs in key order, joined by `sep`; proved by `StringifyEncodes` and `StringifySplits` |
| Strings.Join | lib/query.js:894 | `Array.prototype.join`; proved by `SplitJoin` and used by `Serialize` |
| Strings.IndexOf | lib/query.js:895 | `-1` exactly when the text does not occur; otherwise the first index where it occurs |
| QueryString.StringifyEncodes | lib/query.js:71 | `stringify` with escaped separators encodes the plain pairs joined by the plain separator |
| QueryString.StringifySplits | lib/query.js:146 | splitting `stringify`'s output on a one-character separator that no escape produces gives one pair per key |

## Left out

- Logging. The `logger.debug` calls only write logs.
- Returning `this` for chaining. Each method is a plain method on the object; chaining is a sequence of calls.
- Mutation of the caller's objects. `delete params.str` in `q`, and the array joins written back into `params.fl` and `params.field`, change the caller's argument. The model takes arguments by value and computes with the joined text.
- Key order and inherited keys. Objects given to `q` and `sort` are sequences of distinct keys in enumeration order. JavaScript's rule that integer-like keys come first is not modelled; neither is underscore's `allKeys` counting inherited properties.
- Values inside `q` and `sort` objects are strings. `querystring.stringify` writes an array value as one `key eq item` pair per element, joined with `sep`; it prints numbers and booleans its own way and writes other objects as the empty string. None of this is modelled.
- The elements of `fq` and `addParams` lists are objects. In the source, a `null` element makes `fq` and `addParams` throw a `TypeError` when they read its fields, and a string element makes `fq` push `fq=undefined`. Neither case is modelled.
- Number formatting. A number is the text JavaScript prints for it (`Num`); how floats are printed is not modelled.
- Lone surrogates. Dafny's `char` is a Unicode scalar value, so the `URIError` that `encodeURIComponent` throws for a lone surrogate cannot arise.
- Arrays passed to `q`, `spatial` or a feature method. underscore treats them as objects whose keys are indices; such arguments are not modelled.
- `addParams` with an argument that is not an array. The model takes a list of entries.
- Omitted arguments. `Missing` and `Other` behave the same everywhere. `sort` with no object is modelled as an empty value; in the source, `stringify` of `undefined` gives the empty string too.
- SolrQuery.ParserOrderExample: stated for any word that escaping leaves alone and that holds no `w`. The text `test` is one such word. The source needs no such restriction on `w`: an unreserved word holds no `=`, and every other `=` in the joined text follows an `e` or a `q`, so `wt=` cannot occur. Requiring no `w` only makes the absence of `wt=` quick to prove.
- Features.FacetExample: stated for any two names `a` and `b`.
- Features.SpatialExample: stated for any three defined values.
- Clauses.QueryPairOnly: stated for a single pair. The case of one pair plus `str` follows from `QueryValueMeaning` and `StrClauseLast` and is not stated separately.
- The client (`src/client.js`, `dist/client.js`) is not part of this model: it does network I/O. `index.d.ts` and `gulpfile.js` hold no behaviour.
