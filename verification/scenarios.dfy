/** The behaviour on small notes: one or two configured keys. */
module Scenarios {
  import opened Wrappers
  import opened Unique
  import opened Aliases
  import Keys

  /** With the default setting the only configured field is `title`. */
  lemma DefaultKeysIsTitle()
    ensures ConfiguredKeys(Keys.DefaultKeys) == ["title"]
  {
    Keys.SplitWithoutSeparator(Keys.DefaultKeys, Keys.Comma);
  }

  /** A setting naming one field collects that field's alias, if any. */
  lemma OneKeyCollects(m: Frontmatter, k: string)
    requires Keys.Comma !in k
    ensures Collected(m, k) == ExistingAliases(m) +
      (if FieldAlias(m, k).Some? then [FieldAlias(m, k).value] else [])
  {
    Keys.SplitWithoutSeparator(k, Keys.Comma);
    assert [k][..0] == [];
    assert FieldAliases(m, []) == [];
    assert FieldAliases(m, [k]) == if FieldAlias(m, k).Some? then [FieldAlias(m, k).value] else [];
  }

  /** One configured field with a new value: the value is appended behind
      the existing aliases. */
  lemma NewValueAppended(m: Frontmatter, k: string, v: string)
    requires Keys.Comma !in k
    requires FieldAlias(m, k) == Some(v)
    requires Distinct(ExistingAliases(m)) && v !in ExistingAliases(m)
    ensures ExistingAliases(Inject(Some(m), k).value) == ExistingAliases(m) + [v]
  {
    OneKeyCollects(m, k);
    var r := ExistingAliases(m) + [v];
    assert Distinct(r) by {
      forall i, j | 0 <= i < j < |r| ensures r[i] != r[j] {
        if j < |r| - 1 {
          assert r[i] == ExistingAliases(m)[i] && r[j] == ExistingAliases(m)[j];
        } else {
          assert r[i] in ExistingAliases(m);
        }
      }
    }
    DedupOfDistinct(r);
  }

  /** One configured field whose value already is an alias: the note is left
      exactly as it was when its aliases are a list without repeats. */
  lemma PresentValueKept(m: Frontmatter, k: string, v: string)
    requires Keys.Comma !in k
    requires FieldAlias(m, k) == Some(v)
    requires AliasesKey in m && m[AliasesKey].List?
    requires Distinct(ExistingAliases(m)) && v in ExistingAliases(m)
    ensures Inject(Some(m), k) == Some(m)
  {
    OneKeyCollects(m, k);
    DedupAbsorbs(ExistingAliases(m), [v]);
    DedupOfDistinct(ExistingAliases(m));
    assert m[AliasesKey := List(ExistingAliases(m))] == m;
  }

  /** One configured field that is missing: the aliases stay as they were. */
  lemma MissingFieldKeepsAliases(m: Frontmatter, k: string)
    requires Keys.Comma !in k && k !in m
    requires Distinct(ExistingAliases(m))
    ensures ExistingAliases(Inject(Some(m), k).value) == ExistingAliases(m)
  {
    OneKeyCollects(m, k);
    assert Collected(m, k) == ExistingAliases(m) + [];
    assert ExistingAliases(m) + [] == ExistingAliases(m);
    DedupOfDistinct(ExistingAliases(m));
  }

  /** A setting naming two comma-free fields configures exactly those two. */
  lemma TwoKeysConfigured(a: string, b: string)
    requires Keys.Comma !in a && Keys.Comma !in b
    ensures ConfiguredKeys(a + [Keys.Comma] + b) == [a, b]
  {
    Keys.SplitWithoutSeparator(a, Keys.Comma);
    Keys.SplitAppend(a, Keys.Comma, b);
  }

  /** Two fields with truthy string values contribute their values in order. */
  lemma TwoFieldsCollect(m: Frontmatter, a: string, b: string, x: string, y: string)
    requires FieldAlias(m, a) == Some(x) && FieldAlias(m, b) == Some(y)
    ensures FieldAliases(m, [a, b]) == [x, y]
  {
    assert [a, b][..1] == [a];
    assert [a][..0] == [];
    assert FieldAliases(m, []) == [];
    assert FieldAliases(m, [a]) == [x];
  }

  /** Two configured fields with different values and no existing aliases:
      the values appear in the order of the keys. */
  lemma TwoKeysInOrder(m: Frontmatter, a: string, b: string, x: string, y: string)
    requires Keys.Comma !in a && Keys.Comma !in b
    requires FieldAlias(m, a) == Some(x) && FieldAlias(m, b) == Some(y) && x != y
    requires ExistingAliases(m) == []
    ensures ExistingAliases(Inject(Some(m), a + [Keys.Comma] + b).value) == [x, y]
  {
    TwoKeysConfigured(a, b);
    TwoFieldsCollect(m, a, b, x, y);
    assert Collected(m, a + [Keys.Comma] + b) == [] + [x, y];
    DedupOfDistinct([x, y]);
    InjectWrites(m, a + [Keys.Comma] + b);
  }

  /** The note titled "My Note" with the alias "Old Alias". */
  function OldAliasNote(): Frontmatter {
    map["title" := Text("My Note"), AliasesKey := List(["Old Alias"])]
  }

  /** What the default setting finds in `OldAliasNote`. */
  lemma OldAliasNoteFields()
    ensures FieldAlias(OldAliasNote(), Keys.DefaultKeys) == Some("My Note")
    ensures ExistingAliases(OldAliasNote()) == ["Old Alias"]
    ensures Distinct(ExistingAliases(OldAliasNote()))
    ensures "My Note" !in ExistingAliases(OldAliasNote())
    ensures Keys.Comma !in Keys.DefaultKeys
  {
    var fm := OldAliasNote();
    assert Keys.DefaultKeys != AliasesKey;
    assert fm[Keys.DefaultKeys] == Text("My Note");
    assert fm[AliasesKey] == List(["Old Alias"]);
    assert "My Note"[0] != "Old Alias"[0];
  }

  /** The default setting on a note titled "My Note" with the alias
      "Old Alias": the title is appended. */
  lemma TitleAfterOldAlias()
    ensures ExistingAliases(Inject(Some(OldAliasNote()), Keys.DefaultKeys).value)
      == ["Old Alias", "My Note"]
  {
    OldAliasNoteFields();
    NewValueAppended(OldAliasNote(), Keys.DefaultKeys, "My Note");
  }
}
