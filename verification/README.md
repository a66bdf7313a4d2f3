# Super Alias — alias injection, modelled in Dafny

The plugin keeps a note's `aliases` frontmatter list in step with the values
of a configurable set of frontmatter fields. Its one piece of logic is the
`injectAliases` closure. The closure takes a note's frontmatter and reads the
aliases already stored, or `[]` when there are none. It splits the `keys`
setting at commas into field names. For each name, in order, it pushes the
field's value when that value is truthy. Then it writes the list back to
`aliases`, keeping each value once at its first occurrence (`[...new Set(aliases)]`).

The model has five modules:

- `Wrappers` (wrappers.dfy): `Option`, standing for `null`/`undefined`, and `GetOr` for `??`.
- `Keys` (keys.dfy): `Split`, JavaScript's `String.prototype.split` with a
  one-character separator, and `Join` as its inverse; the default setting `"title"`.
- `Unique` (unique.dfy): `Dedup`, first-occurrence de-duplication, with an
  independent characterisation (`IsDedupOf`) and `DedupWithSet`, the
  insertion-ordered set the source spreads.
- `Aliases` (aliases.dfy): frontmatter values and maps, the functional
  `Inject`, and `InjectAliases`, a statement-by-statement mirror of the closure.
- `Scenarios` (scenarios.dfy): the behaviour with one or two configured keys.

A frontmatter is a `map<string, Value>`, where a `Value` is a string, a YAML
null, or a list of strings. A configured field contributes an alias when it
is present, truthy and a string, that is, a non-empty string. The stored
aliases are read back as stored: the list under `aliases`, or none.

## Model

| member | source | states |
|---|---|---|
| Keys.Split | main.ts:35 | the setting splits into one more name than it has commas; no name contains a comma; joining the names with commas gives the setting back, so nothing is trimmed or dropped |
| Keys.SplitWithoutSeparator | main.ts:35 | a setting without a comma, including the empty setting, is its own single field name |
| Keys.SplitJoin | main.ts:35 | splitting undoes joining for any non-empty list of comma-free names |
| Keys.SplitAppend | main.ts:35 | appending a comma and a comma-free name to the setting appends exactly that name to the field names |
| Unique.Dedup | main.ts:45 | the result has no two equal values and holds exactly the values of the input |
| Unique.DedupOrder | main.ts:45 | the result lists its values in the order of their first occurrences in the input |
| Unique.DedupUnique | main.ts:45 | any distinct sequence holding exactly the input's values in first-occurrence order is the result of `Dedup` |
| Unique.DedupCharacterised | main.ts:45 | a sequence is the de-duplication exactly when it is distinct, complete and in first-occurrence order |
| Unique.DedupOfDistinct | main.ts:45 | a sequence without repeats is left unchanged |
| Unique.DedupIdempotent | main.ts:45 | de-duplicating twice equals de-duplicating once |
| Unique.DedupPrefix | main.ts:34-45 | values pushed later never reorder the de-duplication of what came before: it is a prefix of the new result |
| Unique.DedupAbsorbs | main.ts:37-45 | pushing values that are already present leaves the result unchanged |
| Unique.DedupWithSet | main.ts:45 | the insertion-ordered set walk (skip a value already seen, else append it) computes `Dedup` |
| Aliases.ParseAliases | main.ts:34 | returns the list stored under `aliases` unchanged, and `None` when `aliases` is missing or holds anything but a list |
| Aliases.ParseAliasesReadsBack | main.ts:34-45 | a list written under `aliases` is read back unchanged, so the next injection starts from the list the last one wrote |
| Aliases.Truthy | main.ts:39 | a non-empty string is truthy, null is falsy, and any list is truthy: only the empty string and null are falsy |
| Aliases.FieldAlias | main.ts:38-39 | a field contributes `s` exactly when it is present and holds the non-empty string `s` |
| Aliases.FieldAliases | main.ts:37-42 | every collected value is a non-empty string contributed by a configured key, and every configured key with a truthy string value contributes its value |
| Aliases.Inject | main.ts:31-46 | absent frontmatter gives absent output; otherwise only `aliases` is written and every other field keeps its value; the new aliases are a list without repeats containing exactly the prior aliases and the configured non-empty values |
| Aliases.InjectOrder | main.ts:34-45 | the new aliases are the prior aliases followed by the configured values in key order, in first-occurrence order without repeats |
| Aliases.InjectKeepsExistingFirst | main.ts:34-45 | prior aliases without repeats stay a prefix of the new list, in their original order |
| Aliases.InjectSkipsEmptyField | main.ts:35-41 | configuring one more key whose field is missing, null or the empty string changes nothing |
| Aliases.InjectIdempotent | main.ts:31-46 | injecting into the output of an injection with the same setting gives the same frontmatter |
| Aliases.PushFieldValues | main.ts:37-42 | the loop over the configured keys leaves the prior list followed by exactly the truthy string values of the keys, in key order |
| Aliases.InjectAliases | main.ts:31-46 | the closure's loop of pushes followed by the set spread computes `Inject` |
| Scenarios.DefaultKeysIsTitle | main.ts:20-22 | the default setting configures the single field `title` |
| Scenarios.NewValueAppended | main.ts:34-45 | when the prior aliases are a list without repeats, one configured field with a new value: it is appended behind the prior aliases |
| Scenarios.PresentValueKept | main.ts:34-45 | when `aliases` is stored as a list without repeats, one configured field whose value already is an alias: the frontmatter is unchanged |
| Scenarios.MissingFieldKeepsAliases | main.ts:38-41 | when the prior aliases are a list without repeats, one configured field that is missing: the prior aliases are kept as they were |
| Scenarios.TwoKeysInOrder | main.ts:35-42 | two configured fields with different values and no prior aliases give the two values in key order |
| Scenarios.TitleAfterOldAlias | main.ts:20-45 | with the default setting, a note titled "My Note" with alias "Old Alias" gets the aliases `["Old Alias", "My Note"]` |

## Left out

- Plugin lifecycle and the `'changed'` and `'resolve'` handlers (main.ts:28-74): host event plumbing. Their only logic is the frontmatter-presence guard, which `Inject` covers through its `None` case.
- Settings load and save (main.ts:80-86) and the settings tab (main.ts:90-114): host I/O and UI. Only the default value `"title"` is modelled.
- `parseFrontMatterAliases` is the host's alias reader, and its code is not part of this model. `ParseAliases` assumes it hands back the list stored under `aliases` as it is. It does not model the host's normalisation, such as a single-string alias or an `alias` key. So a single string stored under `aliases` counts as no aliases in the model, and the injection overwrites it, whereas the host would read it as a one-element list and the source would keep it.
- Aliases.FieldAlias: a list-valued field named in the setting is truthy, and the source pushes the array object itself into the alias list. The model's alias list holds only strings, so such a field contributes nothing.
- Number and boolean frontmatter values, whose JavaScript truthiness differs from strings (`0`, `false`), are not modelled. Nested objects are not modelled either.
- JavaScript property lookup reaches inherited object properties for names like `constructor`. The model's map lookup sees only the note's own fields.
- In the source, the closure mutates the host's frontmatter object in place. `Inject` returns the updated frontmatter as a new value.
