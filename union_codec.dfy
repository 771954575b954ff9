/** The discriminated-union codec: a union member is written either in flat form (one
    mapping holding the discriminator key beside the member's fields) or in selector form
    (a single-key mapping from the discriminator value to the remaining fields). */
module UnionCodec {
  import opened Wrappers
  import opened ConfigModel

  /** Why a flat mapping cannot be put in selector form. `MissingDiscriminator` is the
      `KeyError` of `dict.pop`; `NonStringDiscriminator` is this model's restriction that a
      raw config key is a string. */
  datatype SelectorError = MissingDiscriminator | NonStringDiscriminator

  /** Why a union payload cannot be brought back to flat form in `Config.__init__`. */
  datatype FlatError =
    | NotADict              // check.is_dict fails
    | NotExactlyOneKey      // "Discriminated union must have exactly one key"
    | BodyNotAMapping       // `{**nested_values, ...}` on a non-mapping raises TypeError

  /** `_discriminated_union_config_dict_to_selector_config_dict`: pop the discriminator key
      and wrap the rest under its value. */
  function ToSelector(discriminatorKey: string, configDict: map<string, Value>): (r: Result<map<string, Value>, SelectorError>)
    ensures discriminatorKey !in configDict <==> r == Failure(MissingDiscriminator)
    ensures r.Success? <==> discriminatorKey in configDict && configDict[discriminatorKey].Str?
    ensures r.Success? ==>
      var tag := configDict[discriminatorKey].s;
      && r.value.Keys == {tag}
      && r.value[tag] == Dict(configDict - {discriminatorKey})
  {
    if discriminatorKey !in configDict then Failure(MissingDiscriminator)
    else if !configDict[discriminatorKey].Str? then Failure(NonStringDiscriminator)
    else
      var tag := configDict[discriminatorKey].s;
      Success(map[tag := Dict(configDict - {discriminatorKey})])
  }

  /** The only key of a single-key mapping. */
  function OnlyKey<V>(m: map<string, V>): (k: string)
    requires |m| == 1
    ensures m.Keys == {k}
  {
    var k :| k in m;
    assert m.Keys == {k} by {
      assert |m.Keys| == |m|;
      assert |m.Keys - {k}| == |m.Keys| - 1 == 0;
      assert m.Keys - {k} == {};
    }
    k
  }

  /** The selector-to-flat step inlined in `Config.__init__`: the payload must be a mapping
      with exactly one key (the discriminator value) whose value is a mapping; the result is
      that mapping with the discriminator key set to the discriminator value. */
  function FromSelector(discriminatorKey: string, nested: Value): (r: Result<Value, FlatError>)
    ensures nested.Dict? && |nested.entries| != 1 ==> r == Failure(NotExactlyOneKey)
    ensures r.Success? ==>
      && nested.Dict? && |nested.entries| == 1
      && var tag := OnlyKey(nested.entries);
         nested.entries[tag].Dict? && r.value == Dict(nested.entries[tag].entries[discriminatorKey := Str(tag)])
  {
    if !nested.Dict? then Failure(NotADict)
    else if |nested.entries| != 1 then Failure(NotExactlyOneKey)
    else
      var tag := OnlyKey(nested.entries);
      var body := nested.entries[tag];
      if !body.Dict? then Failure(BodyNotAMapping)
      else Success(Dict(body.entries[discriminatorKey := Str(tag)]))
  }

  /** Flat to selector and back reproduces the flat mapping exactly, for every mapping that
      holds a (string) discriminator value. */
  lemma FlatRoundTrip(discriminatorKey: string, flat: map<string, Value>)
    requires discriminatorKey in flat && flat[discriminatorKey].Str?
    ensures ToSelector(discriminatorKey, flat).Success?
    ensures FromSelector(discriminatorKey, Dict(ToSelector(discriminatorKey, flat).value)) == Success(Dict(flat))
  {
    var sel := ToSelector(discriminatorKey, flat).value;
    var tag := flat[discriminatorKey].s;
    assert OnlyKey(sel) == tag;
    assert (flat - {discriminatorKey})[discriminatorKey := Str(tag)] == flat;
  }

  /** Selector to flat and back reproduces the selector mapping exactly when the body does
      not itself hold the discriminator key; a body that does hold it loses that entry. */
  lemma SelectorRoundTrip(discriminatorKey: string, tag: string, body: map<string, Value>)
    ensures FromSelector(discriminatorKey, Dict(map[tag := Dict(body)])) == Success(Dict(body[discriminatorKey := Str(tag)]))
    ensures ToSelector(discriminatorKey, body[discriminatorKey := Str(tag)]) == Success(map[tag := Dict(body - {discriminatorKey})])
    ensures ToSelector(discriminatorKey, body[discriminatorKey := Str(tag)]) == Success(map[tag := Dict(body)])
        <==> discriminatorKey !in body
  {
    var sel := map[tag := Dict(body)];
    assert OnlyKey(sel) == tag;
    assert body[discriminatorKey := Str(tag)] - {discriminatorKey} == body - {discriminatorKey};
    if discriminatorKey !in body {
      assert body - {discriminatorKey} == body;
    } else {
      assert discriminatorKey !in body - {discriminatorKey};
      assert Dict(body - {discriminatorKey}) != Dict(body);
      assert map[tag := Dict(body - {discriminatorKey})][tag] != map[tag := Dict(body)][tag];
    }
  }

  /** A payload with two or more keys, or none, is rejected whatever it holds. */
  lemma MultiKeyPayloadRejected(discriminatorKey: string, payload: map<string, Value>)
    requires |payload| != 1
    ensures FromSelector(discriminatorKey, Dict(payload)) == Failure(NotExactlyOneKey)
  {
  }
}
