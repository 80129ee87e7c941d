/**
 * How the default templates of src/Rules/ resolve. Only `:fieldName`, `:fieldValue` and a
 * rule's own params are placeholders; the words `:name` and `:attributeName` that several
 * templates use are left in the message as written.
 */
module DefaultMessages {
  import opened Wrappers
  import opened Php
  import opened Text
  import opened Messages
  import opened Rules

  /** The base class's default template names the attribute in quotes. */
  lemma DefaultMessage(name: string, v: Value)
    requires ':' !in name
    ensures Resolved(DefaultTemplate, [], Attribute(name, v)) == "field " + "'" + name + "'" + " is invalid"
  {
    ResolvedNameOnly(DefaultTemplate, "field ", " is invalid", Attribute(name, v));
  }

  /** A custom message without placeholders is reported as given. */
  lemma CustomMessageVerbatim(r: Rule, attribute: Attribute)
    requires r.params == []
    requires !Contains(r.message, FieldNameKey) && !Contains(r.message, FieldValueKey)
    ensures MessageFor(r, attribute) == r.message
  {
    ResolvedWithoutPlaceholders(r.message, [], attribute);
  }

  /** IsRequiredRule's default message: `field 'name' is required`. */
  lemma RequiredMessage(name: string, v: Value, c: Condition)
    requires ':' !in name
    ensures MessageFor(NewRequired(None, c), Attribute(name, v)) == "field " + "'" + name + "'" + " is required"
  {
    ResolvedNameOnly(RequiredTemplate, "field ", " is required", Attribute(name, v));
  }

  /** IsProhibitedRule's default message: `field 'name' is prohibited`. */
  lemma ProhibitedMessage(name: string, v: Value, c: Condition)
    requires ':' !in name
    ensures MessageFor(NewProhibited(c), Attribute(name, v)) == "field " + "'" + name + "'" + " is prohibited"
  {
    ResolvedNameOnly(ProhibitedTemplate, "field ", " is prohibited", Attribute(name, v));
  }

  /** NotEmptyRule's `:name` is not a placeholder: the message is the template itself. */
  lemma NotEmptyMessage(attribute: Attribute)
    ensures MessageFor(NewNotEmpty(), attribute) == "field " + ":name" + " cannot be empty"
  {
    ResolvedWordOnly(NotEmptyTemplate, "field ", ":name", " cannot be empty", attribute);
  }

  /** IsArrayRule's message is its template, `:name` included. */
  lemma IsArrayMessage(attribute: Attribute)
    ensures MessageFor(NewIsArray(), attribute) == "field " + ":name" + " is not an array"
  {
    ResolvedWordOnly(IsArrayTemplate, "field ", ":name", " is not an array", attribute);
  }

  /** MinRule's message: `:min` becomes the bound and `:attributeName` stays literal. */
  lemma MinMessage(min: int, attribute: Attribute)
    ensures MessageFor(NewMin(min), attribute) ==
      "field " + ":attributeName" + " length is lower than " + IntToString(min)
  {
    IntToStringNoColon(min);
    ResolvedWordThenParam(MinTemplate, "field ", ":attributeName", " length is lower than ", MinKey,
      Int(min), attribute);
  }

  /** MaxRule's message: the quoted attribute name, then the bound. */
  lemma MaxMessage(max: int, name: string, v: Value)
    requires ':' !in name
    ensures MessageFor(NewMax(max), Attribute(name, v)) ==
      "field " + "'" + name + "'" + " length is bigger than " + IntToString(max)
  {
    IntToStringNoColon(max);
    ResolvedNameThenParam(MaxTemplate, "field ", " length is bigger than ", MaxKey, Int(max), Attribute(name, v));
  }

  /** With a bound of 10: `field 'name' length is bigger than 10`. */
  lemma MaxMessageTen(name: string, v: Value)
    requires ':' !in name
    ensures MessageFor(NewMax(10), Attribute(name, v)) == "field " + "'" + name + "'" + " length is bigger than " + "10"
  {
    MaxMessage(10, name, v);
    assert IntToString(10) == "10";
  }

  /** MinLengthRule's message: `:min` becomes the bound and `:name` stays literal. */
  lemma MinLengthMessage(min: int, attribute: Attribute)
    ensures MessageFor(NewMinLength(min), attribute) ==
      "array " + ":name" + " length is lower than " + IntToString(min)
  {
    IntToStringNoColon(min);
    ResolvedWordThenParam(MinLengthTemplate, "array ", ":name", " length is lower than ", MinKey,
      Int(min), attribute);
  }

  /** MaxLengthRule's message: `:max` becomes the bound and `:name` stays literal. */
  lemma MaxLengthMessage(max: int, attribute: Attribute)
    ensures MessageFor(NewMaxLength(max), attribute) ==
      "array " + ":name" + " length is bigger than " + IntToString(max)
  {
    IntToStringNoColon(max);
    ResolvedWordThenParam(MaxLengthTemplate, "array ", ":name", " length is bigger than ", MaxKey,
      Int(max), attribute);
  }

  /** FileTypeRule's message is its template, `:attributeName` included. */
  lemma FileTypeMessage(types: AllowedTypes, attribute: Attribute)
    ensures MessageFor(NewFileType(types), attribute) == "file " + ":attributeName" + " has an invalid type."
  {
    ResolvedWordOnly(FileTypeTemplate, "file ", ":attributeName", " has an invalid type.", attribute);
  }

  /** MaxFileSizeRule's message is its template, `:attributeName` included. */
  lemma MaxFileSizeMessage(size: int, attribute: Attribute)
    ensures MessageFor(NewMaxFileSize(size), attribute) ==
      "file " + ":attributeName" + " size is bigger than maximum."
  {
    ResolvedWordOnly(MaxFileSizeTemplate, "file ", ":attributeName", " size is bigger than maximum.", attribute);
  }

  /** IsFileRule's message is its template, `:attributeName` included. */
  lemma IsFileMessage(attribute: Attribute)
    ensures MessageFor(NewIsFile(), attribute) == "field " + ":attributeName" + " is not a valid file"
  {
    ResolvedWordOnly(IsFileTemplate, "field ", ":attributeName", " is not a valid file", attribute);
  }
}
