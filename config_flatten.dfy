/** Flattening a config instance to raw config (`_convert_to_config_dictionary` and
    `_config_value_to_dict_representation`): containers recurse, markers become
    `{"env": name}`, enum members their name, nested instances recurse and are put in
    selector form under a discriminated field. */
module ConfigFlatten {
  import opened Wrappers
  import opened ConfigModel
  import opened UnionCodec
  import ConfigInit

  /** A nested instance under a discriminated field could not be put in selector form. */
  datatype FlattenError = UnionEncodingFailed

  /** How the field of a published entry is found. `ByPublishedName` is what the source does:
      it asks `model_fields` for the published (alias) name, which finds nothing for an
      aliased field. `ByAttributeName` asks for the attribute's own name. */
  datatype FieldLookup = ByPublishedName | ByAttributeName

  function FieldForAttribute(lookup: FieldLookup, cls: ConfigClass, key: string): Option<FieldDesc> {
    match lookup
    case ByPublishedName => FieldNamed(cls.fields, PublicName(cls, key))
    case ByAttributeName => FieldNamed(cls.fields, key)
  }

  /** The raw form of a marker. */
  function EnvRef(name: string): Value {
    Dict(map["env" := Str(name)])
  }

  /** `_config_value_to_dict_representation(field, value)`. */
  function ToDictRepr(lookup: FieldLookup, field: Option<FieldDesc>, v: Value): (r: Result<Value, FlattenError>)
    requires WellFormed(v)
    decreases v
  {
    match v
    case Dict(m) =>
      if forall k | k in m :: ToDictRepr(lookup, None, m[k]).Success? then
        Success(Dict(map k | k in m :: ToDictRepr(lookup, None, m[k]).value))
      else Failure(UnionEncodingFailed)
    case List(items) =>
      if forall i | 0 <= i < |items| :: ToDictRepr(lookup, None, items[i]).Success? then
        Success(List(seq(|items|, i requires 0 <= i < |items| => ToDictRepr(lookup, None, items[i]).value)))
      else Failure(UnionEncodingFailed)
    case EnvVar(name) => Success(EnvRef(name))
    case IntEnvVar(name) => Success(EnvRef(name))
    case Obj(inst) =>
      (match ConvertToConfigDictionary(lookup, inst)
       case Failure(e) => Failure(e)
       case Success(d) =>
         if field.Some? && HasDiscriminator(field.value) then
           (match ToSelector(field.value.discriminator.value, d)
            case Success(sel) => Success(Dict(sel))
            case Failure(_) => Failure(UnionEncodingFailed))
         else Success(Dict(d)))
    case EnumMember(name, _) => Success(Str(name))
    case _ => Success(v)
  }

  /** `Config._convert_to_config_dictionary`: every public attribute, under its published
      name, in raw form. */
  function ConvertToConfigDictionary(lookup: FieldLookup, inst: Instance): (r: Result<map<string, Value>, FlattenError>)
    requires WellFormedInstance(inst)
    decreases inst
  {
    var attrs := inst.attrs;
    if forall k | k in attrs && !IsFieldInternal(k) :: ToDictRepr(lookup, FieldForAttribute(lookup, inst.cls, k), attrs[k]).Success? then
      Success(map k | k in attrs && !IsFieldInternal(k) ::
        PublicName(inst.cls, k) := ToDictRepr(lookup, FieldForAttribute(lookup, inst.cls, k), attrs[k]).value)
    else Failure(UnionEncodingFailed)
  }

  /** A raw configuration value: scalars, mappings and sequences only — no marker, enum
      member or config instance at any depth. */
  predicate IsRaw(v: Value) {
    match v
    case EnvVar(_) => false
    case IntEnvVar(_) => false
    case EnumMember(_, _) => false
    case Obj(_) => false
    case Dict(m) => forall k | k in m :: IsRaw(m[k])
    case List(items) => forall i | 0 <= i < |items| :: IsRaw(items[i])
    case _ => true
  }

  /** Flattening produces raw configuration only. */
  lemma {:induction false} ToDictReprIsRaw(lookup: FieldLookup, field: Option<FieldDesc>, v: Value)
    requires WellFormed(v)
    requires ToDictRepr(lookup, field, v).Success?
    ensures IsRaw(ToDictRepr(lookup, field, v).value)
    decreases v
  {
    match v
    case Dict(m) =>
      forall k | k in m ensures IsRaw(ToDictRepr(lookup, None, m[k]).value) {
        ToDictReprIsRaw(lookup, None, m[k]);
      }
    case List(items) =>
      forall i | 0 <= i < |items| ensures IsRaw(ToDictRepr(lookup, None, items[i]).value) {
        ToDictReprIsRaw(lookup, None, items[i]);
      }
    case Obj(inst) =>
      ConvertIsRaw(lookup, inst);
      var d := ConvertToConfigDictionary(lookup, inst).value;
      if field.Some? && HasDiscriminator(field.value) {
        var sel := ToSelector(field.value.discriminator.value, d).value;
        var tag :| tag in sel;
        assert sel[tag] == Dict(d - {field.value.discriminator.value});
      }
    case _ =>
  }

  lemma {:induction false} ConvertIsRaw(lookup: FieldLookup, inst: Instance)
    requires WellFormedInstance(inst)
    requires ConvertToConfigDictionary(lookup, inst).Success?
    ensures forall o | o in ConvertToConfigDictionary(lookup, inst).value :: IsRaw(ConvertToConfigDictionary(lookup, inst).value[o])
    decreases inst
  {
    var attrs := inst.attrs;
    var d := ConvertToConfigDictionary(lookup, inst).value;
    forall k | k in attrs && !IsFieldInternal(k)
      ensures IsRaw(d[PublicName(inst.cls, k)])
    {
      ToDictReprIsRaw(lookup, FieldForAttribute(lookup, inst.cls, k), attrs[k]);
    }
  }

  /** Raw configuration passes through flattening unchanged, so flattening twice is
      flattening once. */
  lemma {:induction false} RawIsFixedPoint(lookup: FieldLookup, field: Option<FieldDesc>, v: Value)
    requires IsRaw(v)
    ensures WellFormed(v) && ToDictRepr(lookup, field, v) == Success(v)
    decreases v
  {
    match v
    case Dict(m) =>
      forall k | k in m ensures WellFormed(m[k]) && ToDictRepr(lookup, None, m[k]) == Success(m[k]) {
        RawIsFixedPoint(lookup, None, m[k]);
      }
      var r := ToDictRepr(lookup, field, v).value;
      assert r.entries == m;
    case List(items) =>
      forall i | 0 <= i < |items| ensures WellFormed(items[i]) && ToDictRepr(lookup, None, items[i]) == Success(items[i]) {
        RawIsFixedPoint(lookup, None, items[i]);
      }
      var r := ToDictRepr(lookup, field, v).value;
      assert r.items == items;
    case _ =>
  }

  /** The flattened instance publishes exactly the public attributes, each under its
      published name, each flattened. */
  lemma ConvertKeys(lookup: FieldLookup, inst: Instance)
    requires WellFormedInstance(inst)
    requires ConvertToConfigDictionary(lookup, inst).Success?
    ensures ConvertToConfigDictionary(lookup, inst).value.Keys == PublicFieldValues(inst.cls, inst.attrs).Keys
    ensures forall k | k in inst.attrs && !IsFieldInternal(k) ::
      ConvertToConfigDictionary(lookup, inst).value[PublicName(inst.cls, k)]
        == ToDictRepr(lookup, FieldForAttribute(lookup, inst.cls, k), inst.attrs[k]).value
  {
  }

  /** A marker attribute is published as `{"env": name}`; an enum member as its name. */
  lemma MarkerAndEnumFlattening(lookup: FieldLookup, inst: Instance, k: string)
    requires WellFormedInstance(inst)
    requires k in inst.attrs && !IsFieldInternal(k)
    requires ConvertToConfigDictionary(lookup, inst).Success?
    ensures var d := ConvertToConfigDictionary(lookup, inst).value;
      && (inst.attrs[k].EnvVar? ==> d[PublicName(inst.cls, k)] == Dict(map["env" := Str(inst.attrs[k].envVarName)]))
      && (inst.attrs[k].IntEnvVar? ==> d[PublicName(inst.cls, k)] == Dict(map["env" := Str(inst.attrs[k].name)]))
      && (inst.attrs[k].EnumMember? ==> d[PublicName(inst.cls, k)] == Str(inst.attrs[k].memberName))
  {
    ConvertKeys(lookup, inst);
  }

  /** A raw attribute is published as it is. */
  lemma RawAttributesPublishedAsIs(lookup: FieldLookup, inst: Instance, k: string)
    requires WellFormedInstance(inst)
    requires k in inst.attrs && !IsFieldInternal(k) && IsRaw(inst.attrs[k])
    requires ConvertToConfigDictionary(lookup, inst).Success?
    ensures ConvertToConfigDictionary(lookup, inst).value[PublicName(inst.cls, k)] == inst.attrs[k]
  {
    ConvertKeys(lookup, inst);
    RawIsFixedPoint(lookup, FieldForAttribute(lookup, inst.cls, k), inst.attrs[k]);
  }

  /** The run-config form of a discriminated union member: a mapping with a single key, the
      discriminator value, whose value is a mapping of the member's other fields. */
  predicate SelectorForm(discriminatorKey: string, v: Value) {
    && v.Dict? && |v.entries| == 1
    && forall tag | tag in v.entries :: v.entries[tag].Dict? && discriminatorKey !in v.entries[tag].entries
  }

  /** A config instance held by a discriminated union field is published in selector form,
      from which the selector codec recovers the member's own config dictionary. This holds
      for the lookup as written when the field has no alias, and for the lookup by attribute
      name in every case. */
  lemma UnionFieldInSelectorForm(lookup: FieldLookup, inst: Instance, k: string)
    requires WellFormedInstance(inst)
    requires k in inst.attrs && !IsFieldInternal(k) && inst.attrs[k].Obj?
    requires FieldNamed(inst.cls.fields, k).Some? && HasDiscriminator(FieldNamed(inst.cls.fields, k).value)
    requires lookup == ByAttributeName || !Truthy(FieldNamed(inst.cls.fields, k).value.alias)
    requires ConvertToConfigDictionary(lookup, inst).Success?
    ensures WellFormedInstance(inst.attrs[k].inst)
    ensures var dk := FieldNamed(inst.cls.fields, k).value.discriminator.value;
      var member := ConvertToConfigDictionary(lookup, inst.attrs[k].inst);
      var published := ConvertToConfigDictionary(lookup, inst).value[PublicName(inst.cls, k)];
      && member.Success?
      && SelectorForm(dk, published)
      && FromSelector(dk, published) == Success(Dict(member.value))
  {
    assert WellFormed(inst.attrs[k]);
    ConvertKeys(lookup, inst);
    var f := FieldNamed(inst.cls.fields, k).value;
    assert FieldForAttribute(lookup, inst.cls, k) == Some(f);
    var dk := f.discriminator.value;
    var member := ConvertToConfigDictionary(lookup, inst.attrs[k].inst).value;
    var tag := member[dk].s;
    assert ToSelector(dk, member).value == map[tag := Dict(member - {dk})];
    FlatRoundTrip(dk, member);
  }

  /** As written, for a discriminated field without an alias, `Config.__init__` given the
      flattened dictionary brings the union entry back to the member's flat config
      dictionary. */
  lemma UnaliasedUnionFieldReconstructs(inst: Instance, k: string)
    requires WellFormedInstance(inst)
    requires k in inst.attrs && !IsFieldInternal(k) && inst.attrs[k].Obj?
    requires FieldNamed(inst.cls.fields, k).Some? && HasDiscriminator(FieldNamed(inst.cls.fields, k).value)
    requires !Truthy(FieldNamed(inst.cls.fields, k).value.alias)
    requires ConvertToConfigDictionary(ByPublishedName, inst).Success?
    ensures WellFormedInstance(inst.attrs[k].inst)
    ensures PublicName(inst.cls, k) == k
    ensures var published := ConvertToConfigDictionary(ByPublishedName, inst).value[k];
      var member := ConvertToConfigDictionary(ByPublishedName, inst.attrs[k].inst);
      && WellFormed(published) && member.Success?
      && ConfigInit.RemapEntry(inst.cls, k, published) == Success(Some(Dict(member.value)))
  {
    UnionFieldInSelectorForm(ByPublishedName, inst, k);
    ConvertIsRaw(ByPublishedName, inst);
    var published := ConvertToConfigDictionary(ByPublishedName, inst).value[k];
    RawIsFixedPoint(ByPublishedName, None, published);
  }

  /** As written: a union field published under an alias is looked up by that alias, not
      found (when no field bears the alias as its name), and its member is published in flat
      form, which is not the selector form of run config. `Config.__init__`, which also looks
      fields up by the key it is given, passes that entry through unchanged. */
  lemma AliasedUnionFieldPublishedFlat(inst: Instance, k: string)
    requires WellFormedInstance(inst)
    requires k in inst.attrs && !IsFieldInternal(k) && inst.attrs[k].Obj?
    requires FieldNamed(inst.cls.fields, k).Some?
    requires var f := FieldNamed(inst.cls.fields, k).value;
      HasDiscriminator(f) && Truthy(f.alias) && FieldNamed(inst.cls.fields, f.alias.value).None?
    requires ConvertToConfigDictionary(ByPublishedName, inst).Success?
    ensures WellFormedInstance(inst.attrs[k].inst)
    ensures var f := FieldNamed(inst.cls.fields, k).value;
      var dk := f.discriminator.value;
      var member := ConvertToConfigDictionary(ByPublishedName, inst.attrs[k].inst);
      var published := ConvertToConfigDictionary(ByPublishedName, inst).value[f.alias.value];
      && PublicName(inst.cls, k) == f.alias.value
      && member.Success?
      && published == Dict(member.value)
      && (dk in member.value && member.value[dk].Str? ==> !SelectorForm(dk, published))
      && WellFormed(published)
      && ConfigInit.RemapEntry(inst.cls, f.alias.value, published) == Success(Some(published))
  {
    assert WellFormed(inst.attrs[k]);
    ConvertKeys(ByPublishedName, inst);
    ConvertIsRaw(ByPublishedName, inst);
    var f := FieldNamed(inst.cls.fields, k).value;
    assert PublicName(inst.cls, k) == f.alias.value;
    assert FieldForAttribute(ByPublishedName, inst.cls, k).None?;
    var published := ConvertToConfigDictionary(ByPublishedName, inst).value[f.alias.value];
    RawIsFixedPoint(ByPublishedName, None, published);
  }

  /** Looked up by attribute name, the same aliased field is published under its alias in
      selector form, from which the selector codec recovers the member's config dictionary. */
  lemma AliasedUnionFieldCorrected(inst: Instance, k: string)
    requires WellFormedInstance(inst)
    requires k in inst.attrs && !IsFieldInternal(k) && inst.attrs[k].Obj?
    requires FieldNamed(inst.cls.fields, k).Some?
    requires var f := FieldNamed(inst.cls.fields, k).value; HasDiscriminator(f) && Truthy(f.alias)
    requires ConvertToConfigDictionary(ByAttributeName, inst).Success?
    ensures WellFormedInstance(inst.attrs[k].inst)
    ensures var f := FieldNamed(inst.cls.fields, k).value;
      var member := ConvertToConfigDictionary(ByAttributeName, inst.attrs[k].inst);
      && PublicName(inst.cls, k) == f.alias.value
      && f.alias.value in ConvertToConfigDictionary(ByAttributeName, inst).value
      && var published := ConvertToConfigDictionary(ByAttributeName, inst).value[f.alias.value];
      && member.Success?
      && SelectorForm(f.discriminator.value, published)
      && FromSelector(f.discriminator.value, published) == Success(Dict(member.value))
  {
    UnionFieldInSelectorForm(ByAttributeName, inst, k);
  }
}
