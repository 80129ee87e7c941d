/**
 * src/Field.php: the (name, value) pair a validator reads from a request array. The value is
 * the array's value when the key is set and the value is not the empty string; otherwise null.
 */
module Fields {
  import opened Php

  /** `new Field($data, $name)`, as the attribute it stands for. */
  function FieldOf(data: map<string, Value>, name: string): (a: Attribute)
    ensures a.name == name
  {
    if name in data && data[name] != Null && data[name] != Str("") then Attribute(name, data[name])
    else Attribute(name, Null)
  }

  /** A missing key, a null value and the empty string all give a null value. */
  lemma FieldBlank(data: map<string, Value>, name: string)
    ensures name !in data ==> FieldOf(data, name).value == Null
    ensures name in data && data[name] in {Null, Str("")} ==> FieldOf(data, name).value == Null
  {
  }

  /** Every other value is kept as it is, `false`, `0` and other strings included. */
  lemma FieldKeeps(data: map<string, Value>, name: string, v: Value)
    requires v != Null && v != Str("")
    ensures FieldOf(data[name := v], name).value == v
    ensures FieldOf(data[name := Bool(false)], name).value == Bool(false)
    ensures FieldOf(data[name := Int(0)], name).value == Int(0)
    ensures FieldOf(data[name := Str("0")], name).value == Str("0")
  {
  }

  /**
   * The value is null exactly for a blank input, and writing the field's value back into the
   * request data (as `checkEmpty` does with null) leaves the field unchanged.
   */
  lemma FieldIdempotent(data: map<string, Value>, name: string)
    ensures FieldOf(data, name).value == Null <==> name !in data || data[name] == Null || data[name] == Str("")
    ensures FieldOf(data[name := FieldOf(data, name).value], name) == FieldOf(data, name)
  {
  }
}
