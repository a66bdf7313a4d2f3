/**
 The `keys` setting is one string of field names separated by commas. It is
 turned into field names with JavaScript's `String.prototype.split` using a
 one-character separator. Nothing is trimmed and empty pieces are kept: the
 empty string gives one empty name, and a trailing comma gives a trailing
 empty name.
 */
module Keys {

  /** The separator of the `keys` setting. */
  const Comma: char := ','

  /** The setting's value before the user edits it. */
  const DefaultKeys: string := "title"

  /** The inverse of `Split`: the parts joined with `sep` between each pair,
      like JavaScript's `Array.prototype.join`. */
  function Join(parts: seq<string>, sep: char): string {
    if |parts| == 0 then ""
    else if |parts| == 1 then parts[0]
    else parts[0] + [sep] + Join(parts[1..], sep)
  }

  /** `s` cut at every occurrence of `sep`, as `s.split(sep)` does. */
  function Split(s: string, sep: char): (parts: seq<string>)
    ensures |parts| == multiset(s)[sep] + 1
    ensures forall p | p in parts :: sep !in p
    ensures Join(parts, sep) == s
  {
    if |s| == 0 then [""]
    else
      var rest := Split(s[1..], sep);
      assert s == [s[0]] + s[1..];
      if s[0] == sep then
        [""] + rest
      else
        JoinExtendFirst(s[0], rest, sep);
        assert rest[0] in rest;
        [[s[0]] + rest[0]] + rest[1..]
  }

  /** Prefixing the first part with a character prefixes the joined string. */
  lemma JoinExtendFirst(c: char, parts: seq<string>, sep: char)
    requires |parts| > 0
    ensures Join([[c] + parts[0]] + parts[1..], sep) == [c] + Join(parts, sep)
  {
    var q := [[c] + parts[0]] + parts[1..];
    assert q[1..] == parts[1..];
  }

  /** Splitting a string that starts with an ordinary character puts that
      character in front of the first part of the rest. */
  lemma SplitCons(c: char, u: string, sep: char)
    requires c != sep
    ensures Split([c] + u, sep) == [[c] + Split(u, sep)[0]] + Split(u, sep)[1..]
  {
    assert ([c] + u)[1..] == u;
  }

  /** A leading separator splits off an empty first part. */
  lemma SplitAtSeparator(sep: char, t: string)
    ensures Split([sep] + t, sep) == [""] + Split(t, sep)
  {
    assert ([sep] + t)[1..] == t;
  }

  /** A string without the separator is its own only part; in particular the
      empty string gives the single empty part. */
  lemma SplitWithoutSeparator(s: string, sep: char)
    requires sep !in s
    ensures Split(s, sep) == [s]
  {
  }

  /** A separator-free prefix followed by the separator is split off as the
      first part. */
  lemma {:induction false} SplitAfterFirst(p: string, sep: char, t: string)
    requires sep !in p
    ensures Split(p + [sep] + t, sep) == [p] + Split(t, sep)
  {
    if |p| > 0 {
      var u := p[1..] + [sep] + t;
      assert p + [sep] + t == [p[0]] + u;
      assert sep !in p[1..] by {
        assert p == [p[0]] + p[1..];
      }
      SplitAfterFirst(p[1..], sep, t);
      SplitCons(p[0], u, sep);
      calc {
        Split(p + [sep] + t, sep);
        Split([p[0]] + u, sep);
        [[p[0]] + Split(u, sep)[0]] + Split(u, sep)[1..];
        { assert Split(u, sep) == [p[1..]] + Split(t, sep); }
        [[p[0]] + p[1..]] + Split(t, sep);
        { assert [p[0]] + p[1..] == p; }
        [p] + Split(t, sep);
      }
    } else {
      assert p + [sep] + t == [sep] + t;
      SplitAtSeparator(sep, t);
    }
  }

  /** Splitting undoes joining, for a non-empty list of separator-free parts. */
  lemma {:induction false} SplitJoin(parts: seq<string>, sep: char)
    requires |parts| > 0
    requires forall p | p in parts :: sep !in p
    ensures Split(Join(parts, sep), sep) == parts
  {
    if |parts| == 1 {
      SplitWithoutSeparator(parts[0], sep);
    } else {
      assert parts[0] in parts;
      assert forall p | p in parts[1..] :: p in parts;
      SplitJoin(parts[1..], sep);
      SplitAfterFirst(parts[0], sep, Join(parts[1..], sep));
      assert parts == [parts[0]] + parts[1..];
    }
  }

  /** Joining one more part adds it behind one more separator. */
  lemma {:induction false} JoinAppend(parts: seq<string>, sep: char, k: string)
    requires |parts| > 0
    ensures Join(parts + [k], sep) == Join(parts, sep) + [sep] + k
  {
    if |parts| > 1 {
      JoinAppend(parts[1..], sep, k);
      assert (parts + [k])[1..] == parts[1..] + [k];
    }
  }

  /** Appending a separator and a separator-free name to the setting appends
      exactly that name to the field names. */
  lemma SplitAppend(s: string, sep: char, k: string)
    requires sep !in k
    ensures Split(s + [sep] + k, sep) == Split(s, sep) + [k]
  {
    var parts := Split(s, sep);
    JoinAppend(parts, sep, k);
    SplitJoin(parts + [k], sep);
  }
}
