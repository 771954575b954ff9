/** The data of the Pythonic config layer: configuration values (raw config and the
    attribute values of config instances), field descriptors as the validation library
    reports them, config classes and config instances. */
module ConfigModel {
  import opened Wrappers
  import opened Text

  /** Attribute names with this suffix are internal: they hold cached derived values,
      stay writable, and never appear in schemas or raw config. */
  const INTERNAL_MARKER: string := "__internal__"

  /** A configuration value. `EnvVar`/`IntEnvVar` are the indirection markers (resolved
      later, never here); `Obj` is a nested config instance; `EnumMember` is a Python enum
      member with its symbolic name. */
  datatype Value =
    | Null
    | Str(s: string)
    | Int(i: int)
    | Bool(b: bool)
    | EnvVar(envVarName: string)
    | IntEnvVar(name: string)
    | EnumMember(memberName: string, underlying: string)
    | Dict(entries: map<string, Value>)
    | List(items: seq<Value>)
    | Obj(inst: Instance)
  {
    predicate IsMarker() {
      EnvVar? || IntEnvVar?
    }

    predicate IsContainer() {
      Dict? || List?
    }
  }

  /** What the validation library's field conversion collaborator returns for a field: the
      dagster field it built, or the offending type it could not translate. */
  datatype Conversion = Converted(field: FieldSchema) | InvalidType(currentValue: string)

  /** A dagster config field produced by the conversion collaborator; passed through untouched. */
  datatype FieldSchema = FieldSchema(configType: string, isRequired: bool, defaultValue: Option<Value>)

  /** The declared default of a field: none, a plain value, or a legacy `dagster.Field`. */
  datatype Default = NoDefault | DefaultValue(v: Value) | LegacyDagsterField

  /** Per-field metadata of a config class (`model_fields(cls)[name]`). `isResourceAnnotated`
      is the collaborator predicate `_is_annotated_as_resource_type` on the field's
      annotation and metadata. */
  datatype FieldDesc = FieldDesc(
    name: string,
    alias: Option<string>,
    required: bool,
    discriminator: Option<string>,
    default: Default,
    isResourceAnnotated: bool,
    conversion: Conversion)

  /** A config class: its name, its fields in declaration order, its `extra` model setting,
      its docstring and whether it is a resource class (`ConfigurableResourceFactory`). */
  datatype ConfigClass = ConfigClass(
    name: string,
    fields: seq<FieldDesc>,
    extra: Option<string>,
    doc: Option<string>,
    isResource: bool)

  /** A config instance: its class and its attribute dictionary (`__dict__`). */
  datatype Instance = Instance(cls: ConfigClass, attrs: map<string, Value>)

  /** `_is_field_internal`: the name ends with the internal marker. */
  predicate IsFieldInternal(name: string) {
    EndsWith(name, INTERNAL_MARKER)
  }

  /** Python truthiness of an optional string: `None` and `""` are false. */
  predicate Truthy(o: Option<string>) {
    o.Some? && o.value != ""
  }

  /** `field.discriminator` is set (truthy). */
  predicate HasDiscriminator(f: FieldDesc) {
    Truthy(f.discriminator)
  }

  /** `field.alias or key`: the external name of a declared field. */
  function ResolvedName(f: FieldDesc, key: string): (r: string)
    ensures Truthy(f.alias) ==> r == f.alias.value
    ensures !Truthy(f.alias) ==> r == key
  {
    if Truthy(f.alias) then f.alias.value else key
  }

  /** `model_fields(cls).get(key)`: the declared field with that attribute name. */
  function FieldNamed(fields: seq<FieldDesc>, key: string): (r: Option<FieldDesc>)
    ensures r.Some? ==> r.value in fields && r.value.name == key
    ensures r.None? ==> forall f | f in fields :: f.name != key
  {
    if fields == [] then None
    else if fields[0].name == key then Some(fields[0])
    else FieldNamed(fields[1..], key)
  }

  /** The name under which attribute `key` is published: its field's alias or name when it
      is a declared field, the key itself otherwise (a permissive extra). */
  function PublicName(cls: ConfigClass, key: string): (r: string)
    ensures FieldNamed(cls.fields, key).None? ==> r == key
  {
    match FieldNamed(cls.fields, key)
    case Some(f) => ResolvedName(f, key)
    case None => key
  }

  /** Field names are unique within a class (they are Python attribute names). */
  predicate DistinctFieldNames(cls: ConfigClass) {
    forall i, j | 0 <= i < j < |cls.fields| :: cls.fields[i].name != cls.fields[j].name
  }

  /** Public attributes correspond one-to-one to their published names: no two public
      attributes publish under the same name. The validation library guarantees this. */
  predicate PublicNamesDistinct(cls: ConfigClass, attrs: map<string, Value>) {
    forall a, b | a in attrs && b in attrs && a != b && !IsFieldInternal(a) && !IsFieldInternal(b) ::
      PublicName(cls, a) != PublicName(cls, b)
  }

  /** Every config instance inside the value, at any depth, satisfies `PublicNamesDistinct`. */
  predicate WellFormed(v: Value) {
    match v
    case Dict(m) => forall k | k in m :: WellFormed(m[k])
    case List(items) => forall i | 0 <= i < |items| :: WellFormed(items[i])
    case Obj(inst) => WellFormedInstance(inst)
    case _ => true
  }

  predicate WellFormedInstance(inst: Instance)
    decreases inst
  {
    PublicNamesDistinct(inst.cls, inst.attrs) && forall k | k in inst.attrs :: WellFormed(inst.attrs[k])
  }

  /** `_get_non_none_public_field_values`: the public attributes under their published names.
      Internal attributes are skipped; `None` values are NOT filtered, whatever the method's
      docstring says. */
  function PublicFieldValues(cls: ConfigClass, attrs: map<string, Value>): (out: map<string, Value>)
    requires PublicNamesDistinct(cls, attrs)
  {
    PublicFieldValuesOf(cls, attrs, attrs.Keys)
  }

  /** The public field values contributed by the attribute names in `ks`. */
  function PublicFieldValuesOf(cls: ConfigClass, attrs: map<string, Value>, ks: set<string>): map<string, Value>
    requires PublicNamesDistinct(cls, attrs)
    requires ks <= attrs.Keys
  {
    map k | k in ks && !IsFieldInternal(k) :: PublicName(cls, k) := attrs[k]
  }

  /** The published names are exactly the published names of the public attributes; each
      carries the value of the attribute it came from, and no published value comes from an
      internal attribute. */
  lemma PublicFieldValuesSpec(cls: ConfigClass, attrs: map<string, Value>)
    requires PublicNamesDistinct(cls, attrs)
    ensures var out := PublicFieldValues(cls, attrs);
      && (forall k | k in attrs && !IsFieldInternal(k) :: PublicName(cls, k) in out && out[PublicName(cls, k)] == attrs[k])
      && (forall o | o in out :: exists k :: k in attrs && !IsFieldInternal(k) && PublicName(cls, k) == o)
  {
  }

  /** A declared field is published under its alias when it has one, under its own name
      otherwise; an undeclared (permissive) attribute under its own name; a `None` value is
      published as `None`, not dropped. */
  lemma PublicFieldNaming(cls: ConfigClass, attrs: map<string, Value>, k: string)
    requires PublicNamesDistinct(cls, attrs)
    requires k in attrs && !IsFieldInternal(k)
    ensures var out := PublicFieldValues(cls, attrs);
      && (FieldNamed(cls.fields, k).Some? && Truthy(FieldNamed(cls.fields, k).value.alias) ==>
            FieldNamed(cls.fields, k).value.alias.value in out && out[FieldNamed(cls.fields, k).value.alias.value] == attrs[k])
      && (FieldNamed(cls.fields, k).Some? && !Truthy(FieldNamed(cls.fields, k).value.alias) ==> k in out && out[k] == attrs[k])
      && (FieldNamed(cls.fields, k).None? ==> k in out && out[k] == attrs[k])
      && (attrs[k] == Null ==> out[PublicName(cls, k)] == Null)
  {
    PublicFieldValuesSpec(cls, attrs);
  }

  /** Writing an internal attribute never changes what is published. */
  lemma InternalWriteKeepsPublicValues(cls: ConfigClass, attrs: map<string, Value>, name: string, v: Value)
    requires PublicNamesDistinct(cls, attrs)
    requires IsFieldInternal(name)
    ensures PublicNamesDistinct(cls, attrs[name := v])
    ensures PublicFieldValues(cls, attrs[name := v]) == PublicFieldValues(cls, attrs)
  {
    var a2 := attrs[name := v];
    assert forall k | k in a2 && !IsFieldInternal(k) :: k in attrs && a2[k] == attrs[k];
  }
}
