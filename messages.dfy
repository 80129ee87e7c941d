/**
 * The message resolver of src/Abstract/ValidationRule.php: the default template, the custom
 * message override, stringification of parameter values by runtime type, and the sequential
 * placeholder substitution.
 */
module Messages {
  import opened Wrappers
  import opened Php
  import opened Text

  /** The template of a rule class that does not declare its own. */
  const DefaultTemplate := "field " + FieldNameKey + " is invalid"

  /** The two built-in placeholders. */
  const FieldNameKey := ":fieldName"
  const FieldValueKey := ":fieldValue"

  /** A rule's custom placeholders, key => raw value, in declaration order. */
  type Params = seq<(string, Value)>

  /** Placeholders with their stringified replacements, in substitution order. */
  type Replacements = seq<(string, string)>

  /** The constructor: a non-null custom message replaces the class's default template. */
  function Template(default: string, custom: Option<string>): (t: string)
    ensures custom.Some? ==> t == custom.value
    ensures custom.None? ==> t == default
  {
    match custom
    case Some(m) => m
    case None => default
  }

  /** stringifyParam: the textual form of a value, chosen by its runtime type. */
  function Stringify(v: Value): string {
    match v
    case Str(s) => "'" + s + "'"
    case Bool(b) => if b then "true" else "false"
    case Int(i) => IntToString(i)
    case Arr(_) => "[array]"
    case Obj => "{object}"
    case FileV(_) => "{object}"
    case Null => "null"
  }

  /**
   * Stringification is faithful where the source promises it: a string comes back between
   * single quotes, an int reads back as itself, and the other kinds give fixed words.
   */
  lemma StringifyForms(v: Value)
    ensures v.Str? ==> |Stringify(v)| == |v.s| + 2 && Stringify(v)[0] == '\'' &&
                       Stringify(v)[|Stringify(v)| - 1] == '\'' &&
                       Stringify(v)[1..|Stringify(v)| - 1] == v.s
    ensures v.Int? ==> ParseInt(Stringify(v)) == v.i
    ensures v.Bool? ==> Stringify(v) == (if v.b then "true" else "false")
    ensures v.Arr? ==> Stringify(v) == "[array]"
    ensures v.Obj? || v.FileV? ==> Stringify(v) == "{object}"
    ensures v.Null? ==> Stringify(v) == "null"
  {
    if v.Int? {
      IntToStringRoundTrip(v.i);
    }
  }

  /** Sets `key` to `val`: an existing key keeps its position, a new key goes last. */
  function Put(rs: Replacements, key: string, val: string): (r: Replacements)
    ensures |r| == |rs| || |r| == |rs| + 1
  {
    if rs == [] then [(key, val)]
    else if rs[0].0 == key then [(key, val)] + rs[1..]
    else [rs[0]] + Put(rs[1..], key, val)
  }

  /** Looks a placeholder up in a replacement list. */
  function Find(rs: Replacements, key: string): Option<string> {
    if rs == [] then None
    else if rs[0].0 == key then Some(rs[0].1)
    else Find(rs[1..], key)
  }

  /**
   * After `Put`, the key maps to the new value, every other key keeps its value, and the
   * keys that were there keep their order.
   */
  lemma {:induction false} PutFind(rs: Replacements, key: string, val: string, other: string)
    ensures Find(Put(rs, key, val), key) == Some(val)
    ensures other != key ==> Find(Put(rs, key, val), other) == Find(rs, other)
    ensures Find(rs, key).Some? ==> |Put(rs, key, val)| == |rs|
  {
    if rs != [] && rs[0].0 != key {
      PutFind(rs[1..], key, val, other);
    }
  }

  /** The custom params with their values stringified, in declaration order. */
  function StringifyParams(params: Params): (rs: Replacements)
    ensures |rs| == |params|
    ensures forall i :: 0 <= i < |params| ==> rs[i] == (params[i].0, Stringify(params[i].1))
  {
    if params == [] then [] else [(params[0].0, Stringify(params[0].1))] + StringifyParams(params[1..])
  }

  /**
   * The array built in resolveMessage: the stringified custom params, then `:fieldName`
   * and `:fieldValue` (a custom param of the same name is overwritten in place).
   */
  function ParamsFor(params: Params, name: string, value: Value): Replacements {
    Put(Put(StringifyParams(params), FieldNameKey, Stringify(Str(name))), FieldValueKey, Stringify(value))
  }

  /** replaceParams: one `str_replace` per placeholder, each applied to the previous result. */
  function ReplaceAll(message: string, rs: Replacements): string
    decreases |rs|
  {
    if rs == [] then message else ReplaceAll(StrReplace(rs[0].0, rs[0].1, message), rs[1..])
  }

  /** The resolved message of a template for an attribute. */
  function Resolved(template: string, params: Params, attribute: Attribute): string {
    ReplaceAll(template, ParamsFor(params, attribute.name, attribute.value))
  }

  /** Without custom params, `:fieldName` is replaced first and `:fieldValue` second. */
  lemma ResolvedWithoutParams(template: string, attribute: Attribute)
    ensures Resolved(template, [], attribute) ==
      StrReplace(FieldValueKey, Stringify(attribute.value),
        StrReplace(FieldNameKey, Stringify(Str(attribute.name)), template))
  {
    var n, w := Stringify(Str(attribute.name)), Stringify(attribute.value);
    var base := StringifyParams([]);
    assert base == [];
    var one := Put(base, FieldNameKey, n);
    assert one == [(FieldNameKey, n)];
    assert FieldNameKey != FieldValueKey by { assert |FieldNameKey| != |FieldValueKey|; }
    var rs := Put(one, FieldValueKey, w);
    assert rs == [(FieldNameKey, n)] + Put([], FieldValueKey, w);
    assert rs == [(FieldNameKey, n), (FieldValueKey, w)];
    var t1 := StrReplace(FieldNameKey, n, template);
    assert ReplaceAll(template, rs) == ReplaceAll(t1, rs[1..]);
    assert rs[1..][1..] == [];
    assert ReplaceAll(t1, rs[1..]) == ReplaceAll(StrReplace(FieldValueKey, w, t1), []);
  }

  /** With one custom param, it is replaced before `:fieldName` and `:fieldValue`. */
  lemma ResolvedWithOneParam(template: string, key: string, v: Value, attribute: Attribute)
    requires key != FieldNameKey && key != FieldValueKey
    ensures Resolved(template, [(key, v)], attribute) ==
      StrReplace(FieldValueKey, Stringify(attribute.value),
        StrReplace(FieldNameKey, Stringify(Str(attribute.name)),
          StrReplace(key, Stringify(v), template)))
  {
    var n, w := Stringify(Str(attribute.name)), Stringify(attribute.value);
    var base := StringifyParams([(key, v)]);
    assert base == [(key, Stringify(v))];
    var one := Put(base, FieldNameKey, n);
    assert one == [(key, Stringify(v))] + Put([], FieldNameKey, n);
    assert one == [(key, Stringify(v)), (FieldNameKey, n)];
    assert FieldNameKey != FieldValueKey by { assert |FieldNameKey| != |FieldValueKey|; }
    var rs := Put(one, FieldValueKey, w);
    assert rs == [(key, Stringify(v))] + Put(one[1..], FieldValueKey, w);
    assert one[1..] == [(FieldNameKey, n)];
    assert Put(one[1..], FieldValueKey, w) == [(FieldNameKey, n)] + Put([], FieldValueKey, w);
    assert rs == [(key, Stringify(v)), (FieldNameKey, n), (FieldValueKey, w)];
    var t1 := StrReplace(key, Stringify(v), template);
    var t2 := StrReplace(FieldNameKey, n, t1);
    assert ReplaceAll(template, rs) == ReplaceAll(t1, rs[1..]);
    assert ReplaceAll(t1, rs[1..]) == ReplaceAll(t2, rs[2..]);
    assert rs[2..][1..] == [];
    assert ReplaceAll(t2, rs[2..]) == ReplaceAll(StrReplace(FieldValueKey, w, t2), []);
  }

  /**
   * A `:`-word that neither built-in placeholder can match (both start with `:f`), with no
   * further `:` in it, such as `:name` or `:attributeName`.
   */
  predicate PlainWord(word: string) {
    |word| >= 2 && word[0] == ':' && word[1] != 'f' && ':' !in word[1..]
  }

  /**
   * A template whose only placeholder is one `:fieldName` (no other `:` anywhere) resolves to
   * the template with the quoted attribute name in its place, whatever the value.
   */
  lemma ResolvedNameOnly(t: string, p: string, q: string, attribute: Attribute)
    requires t == p + FieldNameKey + q
    requires ':' !in p && ':' !in q && ':' !in attribute.name
    ensures Resolved(t, [], attribute) == p + "'" + attribute.name + "'" + q
  {
    ResolvedWithoutParams(t, attribute);
    NameOnlySteps(p, q, attribute.name, Stringify(attribute.value));
  }

  /** The two substitutions behind `ResolvedNameOnly`. */
  lemma NameOnlySteps(p: string, q: string, name: string, w: string)
    requires ':' !in p && ':' !in q && ':' !in name
    ensures StrReplace(FieldValueKey, w, StrReplace(FieldNameKey, Stringify(Str(name)), p + FieldNameKey + q))
      == p + "'" + name + "'" + q
  {
    var n := Stringify(Str(name));
    StrReplaceOnce(FieldNameKey, n, p, q);
    assert p + n + q == p + "'" + name + "'" + q;
    StrReplaceWithoutFirstChar(FieldValueKey, w, p + n + q);
  }

  /** A template whose only `:` starts a plain word resolves to itself: the word stays literal. */
  lemma ResolvedWordOnly(t: string, a: string, word: string, c: string, attribute: Attribute)
    requires t == a + word + c
    requires ':' !in a && PlainWord(word) && ':' !in c
    ensures Resolved(t, [], attribute) == t
  {
    var b := word + c;
    assert t == a + b && b[1..] == word[1..] + c;
    ResolvedWithoutParams(t, attribute);
    StrReplaceSkipsWord(FieldNameKey, Stringify(Str(attribute.name)), a, b);
    StrReplaceSkipsWord(FieldValueKey, Stringify(attribute.value), a, b);
  }

  /**
   * A template `a + :fieldName + q + key` with one custom param `key` at its end: the param is
   * replaced first, then the quoted attribute name.
   */
  lemma ResolvedNameThenParam(t: string, a: string, q: string, key: string, v: Value, attribute: Attribute)
    requires t == a + FieldNameKey + q + key
    requires ':' !in a && ':' !in q && ':' !in attribute.name && ':' !in Stringify(v)
    requires |key| >= 2 && key[0] == ':' && key[1] != 'f'
    ensures Resolved(t, [(key, v)], attribute) == a + "'" + attribute.name + "'" + q + Stringify(v)
  {
    NotBuiltIn(key);
    ResolvedWithOneParam(t, key, v, attribute);
    NameThenParamSteps(a, q, key, Stringify(v), attribute.name, Stringify(attribute.value));
  }

  /** The three substitutions behind `ResolvedNameThenParam`, one after another. */
  lemma NameThenParamSteps(a: string, q: string, key: string, sv: string, name: string, w: string)
    requires ':' !in a && ':' !in q && ':' !in name && ':' !in sv
    requires |key| >= 2 && key[0] == ':' && key[1] != 'f'
    ensures StrReplace(FieldValueKey, w, StrReplace(FieldNameKey, Stringify(Str(name)),
              StrReplace(key, sv, a + FieldNameKey + q + key))) == a + "'" + name + "'" + q + sv
  {
    var n := Stringify(Str(name));
    assert StrReplace(key, sv, a + FieldNameKey + q + key) == a + FieldNameKey + (q + sv) by {
      assert a + FieldNameKey + q + key == a + (FieldNameKey + q) + key;
      StrReplaceAfterWord(key, sv, a, FieldNameKey + q);
    }
    StrReplaceOnce(FieldNameKey, n, a, q + sv);
    assert a + n + (q + sv) == a + "'" + name + "'" + q + sv;
    StrReplaceWithoutFirstChar(FieldValueKey, w, a + n + (q + sv));
  }

  /**
   * A template `a + word + c + key` whose only other `:` starts the plain word: the param is
   * replaced and the word stays as it is.
   */
  lemma ResolvedWordThenParam(t: string, a: string, word: string, c: string, key: string, v: Value,
                              attribute: Attribute)
    requires t == a + word + c + key
    requires ':' !in a && PlainWord(word) && ':' !in c
    requires |key| >= 2 && key[0] == ':' && key[1] != 'f' && key[1] != word[1]
    requires ':' !in Stringify(v)
    ensures Resolved(t, [(key, v)], attribute) == a + word + c + Stringify(v)
  {
    NotBuiltIn(key);
    ResolvedWithOneParam(t, key, v, attribute);
    WordThenParamSteps(a, word, c, key, Stringify(v), Stringify(Str(attribute.name)), Stringify(attribute.value));
  }

  /** A key whose second character is not `f` is neither built-in placeholder. */
  lemma NotBuiltIn(key: string)
    requires |key| >= 2 && key[1] != 'f'
    ensures key != FieldNameKey && key != FieldValueKey
  {
    assert FieldNameKey[1] == 'f' && FieldValueKey[1] == 'f';
  }

  /** The three substitutions behind `ResolvedWordThenParam`, one after another. */
  lemma WordThenParamSteps(a: string, word: string, c: string, key: string, sv: string, n: string, w: string)
    requires ':' !in a && PlainWord(word) && ':' !in c
    requires |key| >= 2 && key[0] == ':' && key[1] != word[1]
    requires ':' !in sv
    ensures StrReplace(FieldValueKey, w, StrReplace(FieldNameKey, n, StrReplace(key, sv, a + word + c + key)))
      == a + word + c + sv
  {
    var b := word + c;
    var b2 := b + sv;
    assert StrReplace(key, sv, a + word + c + key) == a + b2 by {
      assert a + word + c + key == a + b + key && b[1..] == word[1..] + c;
      StrReplaceAfterWord(key, sv, a, b);
      assert a + b + sv == a + b2;
    }
    assert b2[1..] == word[1..] + c + sv;
    assert StrReplace(FieldNameKey, n, a + b2) == a + b2 by {
      StrReplaceSkipsWord(FieldNameKey, n, a, b2);
    }
    assert StrReplace(FieldValueKey, w, a + b2) == a + b2 by {
      StrReplaceSkipsWord(FieldValueKey, w, a, b2);
    }
    assert a + b2 == a + word + c + sv;
  }

  /** No placeholder in the template: nothing is replaced. */
  lemma {:induction false} ReplaceAllAbsent(message: string, rs: Replacements)
    requires forall i :: 0 <= i < |rs| ==> !Contains(message, rs[i].0)
    ensures ReplaceAll(message, rs) == message
    decreases |rs|
  {
    if rs != [] {
      StrReplaceAbsent(rs[0].0, rs[0].1, message);
      ReplaceAllAbsent(message, rs[1..]);
    }
  }

  /** A template that contains none of the placeholder keys resolves to itself. */
  lemma ResolvedWithoutPlaceholders(template: string, params: Params, attribute: Attribute)
    requires !Contains(template, FieldNameKey) && !Contains(template, FieldValueKey)
    requires forall i :: 0 <= i < |params| ==> !Contains(template, params[i].0)
    ensures Resolved(template, params, attribute) == template
  {
    var rs := ParamsFor(params, attribute.name, attribute.value);
    var base := StringifyParams(params);
    var withName := Put(base, FieldNameKey, Stringify(Str(attribute.name)));
    PutKeys(base, FieldNameKey, Stringify(Str(attribute.name)));
    PutKeys(withName, FieldValueKey, Stringify(attribute.value));
    forall i | 0 <= i < |rs| ensures !Contains(template, rs[i].0) {
      var k := rs[i].0;
      if k != FieldNameKey && k != FieldValueKey {
        assert exists j :: 0 <= j < |base| && base[j].0 == k;
      }
    }
    ReplaceAllAbsent(template, rs);
  }

  /** The keys after `Put` are the old keys and the new one. */
  lemma {:induction false} PutKeys(rs: Replacements, key: string, val: string)
    ensures forall i :: 0 <= i < |Put(rs, key, val)| ==>
      Put(rs, key, val)[i].0 == key || exists j :: 0 <= j < |rs| && rs[j].0 == Put(rs, key, val)[i].0
  {
    if rs != [] && rs[0].0 != key {
      PutKeys(rs[1..], key, val);
      var r := Put(rs, key, val);
      forall i | 0 <= i < |r|
        ensures r[i].0 == key || exists j :: 0 <= j < |rs| && rs[j].0 == r[i].0
      {
        if i > 0 {
          var t := Put(rs[1..], key, val);
          assert r[i] == t[i - 1];
          if t[i - 1].0 != key {
            var j :| 0 <= j < |rs[1..]| && rs[1..][j].0 == t[i - 1].0;
            assert rs[j + 1].0 == r[i].0;
          }
        }
      }
    }
  }

  /** replaceParams as the source runs it: a loop that reassigns the message once per placeholder. */
  method ReplaceParams(template: string, rs: Replacements) returns (message: string)
    ensures message == ReplaceAll(template, rs)
  {
    message := template;
    var i := 0;
    while i < |rs|
      invariant 0 <= i <= |rs|
      invariant ReplaceAll(template, rs) == ReplaceAll(message, rs[i..])
    {
      assert rs[i..][1..] == rs[i + 1..];
      message := StrReplace(rs[i].0, rs[i].1, message);
      i := i + 1;
    }
  }

  /** resolveMessage: builds the replacement list and runs replaceParams over the template. */
  method ResolveMessage(template: string, params: Params, attribute: Attribute) returns (message: string)
    ensures message == Resolved(template, params, attribute)
  {
    var rs := ParamsFor(params, attribute.name, attribute.value);
    message := ReplaceParams(template, rs);
  }

  /**
   * resolveArrayMessage, which src/ArrayValidator.php calls but src/Abstract/ValidationRule.php
   * does not define: inferred as resolveMessage with `:fieldValue` bound to `value[index]`.
   */
  function ResolvedForElement(template: string, params: Params, attribute: Attribute, index: Key): string {
    var element := if attribute.value.Arr? then Lookup(attribute.value.entries, index) else None;
    Resolved(template, params, Attribute(attribute.name, element.GetOr(Null)))
  }
}
