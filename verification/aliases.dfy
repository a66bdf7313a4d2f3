/**
 The alias injection of the plugin: every time the host hands over a note's
 frontmatter, the values of the configured fields are folded into the note's
 `aliases` list, which is then written back without repeats. Existing
 aliases come first, then new values in the order of the configured keys.
 */
module Aliases {
  import opened Wrappers
  import opened Unique
  import Keys

  /** A frontmatter value in the shapes this model follows: a string, a
      YAML null, or a list of strings. */
  datatype Value = Text(text: string) | Null | List(items: seq<string>)

  /** A note's frontmatter: field name to value. */
  type Frontmatter = map<string, Value>

  /** The field that holds a note's aliases. */
  const AliasesKey: string := "aliases"

  /** The alias list stored in the frontmatter, read back as it is stored;
      `None` when there is none, or when `aliases` holds anything but a list. */
  function ParseAliases(fm: Frontmatter): (r: Option<seq<string>>)
    ensures r.Some? ==> AliasesKey in fm && fm[AliasesKey] == List(r.value)
    ensures r.None? ==> AliasesKey !in fm || !fm[AliasesKey].List?
  {
    if AliasesKey in fm && fm[AliasesKey].List? then Some(fm[AliasesKey].items)
    else None
  }

  /** A list written under `aliases` is read back unchanged. */
  lemma ParseAliasesReadsBack(fm: Frontmatter, xs: seq<string>)
    ensures ParseAliases(fm[AliasesKey := List(xs)]) == Some(xs)
    ensures ExistingAliases(fm[AliasesKey := List(xs)]) == xs
  {
  }

  /** The aliases the note has before injection (`?? []`). */
  function ExistingAliases(fm: Frontmatter): seq<string> {
    ParseAliases(fm).GetOr([])
  }

  /** JavaScript truthiness of a value: of the shapes modelled, only the
      empty string and null are falsy. */
  predicate Truthy(v: Value): (b: bool)
    ensures !b <==> v == Text("") || v == Null
  {
    match v
    case Text(s) => s != ""
    case Null => false
    case List(_) => true
  }

  /** The alias the field `key` contributes: its value when that value is
      present, truthy and a string. */
  function FieldAlias(fm: Frontmatter, key: string): (r: Option<string>)
    ensures r.Some? <==> key in fm && fm[key].Text? && fm[key].text != ""
    ensures r.Some? ==> fm[key] == Text(r.value)
  {
    if key in fm && Truthy(fm[key]) then
      match fm[key]
      case Text(s) => Some(s)
      case _ => None
    else None
  }

  /** `v` is the alias contributed by one of `keys`. */
  ghost predicate ConfiguredValue(fm: Frontmatter, keys: seq<string>, v: string) {
    exists i | 0 <= i < |keys| :: FieldAlias(fm, keys[i]) == Some(v)
  }

  /** The aliases contributed by `keys`, in the order of the keys. */
  function FieldAliases(fm: Frontmatter, keys: seq<string>): (vs: seq<string>)
    ensures forall v | v in vs :: v != "" && ConfiguredValue(fm, keys, v)
    ensures forall i | 0 <= i < |keys| && FieldAlias(fm, keys[i]).Some? ::
      FieldAlias(fm, keys[i]).value in vs
  {
    if |keys| == 0 then []
    else
      var front := FieldAliases(fm, keys[..|keys| - 1]);
      var last := keys[|keys| - 1];
      assert forall i | 0 <= i < |keys| - 1 :: keys[..|keys| - 1][i] == keys[i];
      match FieldAlias(fm, last)
      case Some(v) => front + [v]
      case None => front
  }

  /** Taking one more key appends that key's contribution. */
  lemma FieldAliasesStep(fm: Frontmatter, keys: seq<string>, i: nat)
    requires i < |keys|
    ensures FieldAliases(fm, keys[..i + 1]) == FieldAliases(fm, keys[..i]) +
      (if FieldAlias(fm, keys[i]).Some? then [FieldAlias(fm, keys[i]).value] else [])
  {
    assert keys[..i + 1][..i] == keys[..i];
  }

  /** The field names configured by the `keys` setting. */
  function ConfiguredKeys(keys: string): seq<string> {
    Keys.Split(keys, Keys.Comma)
  }

  /** The working list before de-duplication: the existing aliases followed
      by the values of the configured fields. */
  function Collected(fm: Frontmatter, keys: string): seq<string> {
    ExistingAliases(fm) + FieldAliases(fm, ConfiguredKeys(keys))
  }

  /** The injection: absent frontmatter is left alone; otherwise `aliases`
      becomes the existing aliases and the configured values, without
      repeats, and no other field changes. */
  function Inject(fm: Option<Frontmatter>, keys: string): (r: Option<Frontmatter>)
    ensures fm.None? <==> r.None?
    ensures fm.Some? ==> r.value.Keys == fm.value.Keys + {AliasesKey}
    ensures fm.Some? ==> forall k | k in fm.value && k != AliasesKey :: r.value[k] == fm.value[k]
    ensures fm.Some? ==> ParseAliases(r.value).Some?
    ensures fm.Some? ==> Distinct(ExistingAliases(r.value))
    ensures fm.Some? ==> forall a :: a in ExistingAliases(r.value) <==>
      a in ExistingAliases(fm.value) || ConfiguredValue(fm.value, ConfiguredKeys(keys), a)
  {
    match fm
    case None => None
    case Some(m) => Some(m[AliasesKey := List(Dedup(Collected(m, keys)))])
  }

  /** The aliases an injection writes. */
  lemma InjectWrites(m: Frontmatter, keys: string)
    ensures ExistingAliases(Inject(Some(m), keys).value) == Dedup(Collected(m, keys))
  {
  }

  /** The new aliases list is the first-occurrence de-duplication of the
      existing aliases followed by the configured values in key order. */
  lemma InjectOrder(m: Frontmatter, keys: string)
    ensures IsDedupOf(ExistingAliases(Inject(Some(m), keys).value), Collected(m, keys))
  {
    DedupCharacterised(Collected(m, keys), Dedup(Collected(m, keys)));
  }

  /** Existing aliases without repeats stay in front, in their order. */
  lemma InjectKeepsExistingFirst(m: Frontmatter, keys: string)
    requires Distinct(ExistingAliases(m))
    ensures var after := ExistingAliases(Inject(Some(m), keys).value);
      |ExistingAliases(m)| <= |after| && after[..|ExistingAliases(m)|] == ExistingAliases(m)
  {
    var before := ExistingAliases(m);
    DedupPrefix(before, FieldAliases(m, ConfiguredKeys(keys)));
    DedupOfDistinct(before);
  }

  /** A configured key that is missing, null or the empty string contributes
      nothing: configuring it in addition changes nothing. */
  lemma InjectSkipsEmptyField(m: Frontmatter, keys: string, k: string)
    requires Keys.Comma !in k
    requires k !in m || m[k] == Text("") || m[k] == Null
    ensures Inject(Some(m), keys + [Keys.Comma] + k) == Inject(Some(m), keys)
  {
    Keys.SplitAppend(keys, Keys.Comma, k);
    var ks := ConfiguredKeys(keys);
    assert (ks + [k])[..|ks + [k]| - 1] == ks;
  }

  /** A field that contributes an alias after an injection contributed the
      same alias before it: the injection writes only `aliases`, which holds
      a list and so contributes nothing. */
  lemma FieldAliasBeforeInject(m: Frontmatter, keys: string, k: string, v: string)
    requires FieldAlias(Inject(Some(m), keys).value, k) == Some(v)
    ensures FieldAlias(m, k) == Some(v)
  {
    var m' := Inject(Some(m), keys).value;
    assert m'[AliasesKey].List? && m'[k].Text?;
    assert k != AliasesKey;
    assert k in m && m'[k] == m[k];
  }

  /** After an injection, the configured fields contribute only aliases
      that are already in the list. */
  lemma ReinjectAddsNothing(m: Frontmatter, keys: string)
    ensures var m' := Inject(Some(m), keys).value;
      forall v | v in FieldAliases(m', ConfiguredKeys(keys)) :: v in ExistingAliases(m')
  {
    var ks := ConfiguredKeys(keys);
    var m' := Inject(Some(m), keys).value;
    forall v | v in FieldAliases(m', ks) ensures v in ExistingAliases(m') {
      var i :| 0 <= i < |ks| && FieldAlias(m', ks[i]) == Some(v);
      FieldAliasBeforeInject(m, keys, ks[i], v);
      assert v in FieldAliases(m, ks);
      assert v in Collected(m, keys);
    }
  }

  /** Running the injection on its own output gives that output again. */
  lemma InjectIdempotent(fm: Option<Frontmatter>, keys: string)
    ensures Inject(Inject(fm, keys), keys) == Inject(fm, keys)
  {
    if fm.Some? {
      var m' := Inject(fm, keys).value;
      var after := ExistingAliases(m');
      var again := FieldAliases(m', ConfiguredKeys(keys));
      ReinjectAddsNothing(fm.value, keys);
      DedupAbsorbs(after, again);
      DedupOfDistinct(after);
      assert Dedup(Collected(m', keys)) == after;
      assert m'[AliasesKey := List(after)] == m';
    }
  }

  /** The `forEach` over the configured keys: push each truthy field value
      onto `aliases`, in the order of the keys. */
  method PushFieldValues(fm: Frontmatter, aliases: seq<string>, keys: seq<string>)
    returns (pushed: seq<string>)
    ensures pushed == aliases + FieldAliases(fm, keys)
  {
    pushed := aliases;
    for i := 0 to |keys|
      invariant pushed == aliases + FieldAliases(fm, keys[..i])
    {
      var key := keys[i];
      FieldAliasesStep(fm, keys, i);
      if key in fm && Truthy(fm[key]) {
        match fm[key]
        case Text(s) => pushed := pushed + [s];
        case _ =>
      }
    }
    assert keys[..|keys|] == keys;
  }

  /** The injection as the plugin performs it: push the truthy values of the
      configured fields onto the existing aliases, then keep each alias once. */
  method InjectAliases(fm: Option<Frontmatter>, keys: string) returns (r: Option<Frontmatter>)
    ensures r == Inject(fm, keys)
  {
    if fm.None? {
      return None;
    }
    var m := fm.value;
    var aliases := ParseAliases(m).GetOr([]);
    var extendKeys := Keys.Split(keys, Keys.Comma);
    aliases := PushFieldValues(m, aliases, extendKeys);
    var unique := DedupWithSet(aliases);
    r := Some(m[AliasesKey := List(unique)]);
  }
}
