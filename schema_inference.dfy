/** Schema inference for config classes (`infer_schema_from_config_class`): one schema
    entry per declared field that is neither resource-annotated nor omitted, under its
    published name; a closed or permissive shape after the class's `extra` setting; the
    explicit description, else the stripped docstring. */
module SchemaInference {
  import opened Wrappers
  import opened Text
  import opened ConfigModel

  datatype SchemaError =
    | LegacyFieldMisuse  // a `dagster.Field` used as a pydantic default
    | PythonicDefinitionError(className: string, fieldName: string, invalidType: string, isResource: bool)

  /** `Shape` (closed) or `Permissive` (accepts undeclared keys) over the field schemas. */
  datatype Shape = Shape(permissive: bool, fields: map<string, FieldSchema>)

  /** The `DagsterField` returned: the shape and its description. */
  datatype DagsterField = DagsterField(config: Shape, description: Option<string>)

  /** A field takes part in the schema when it is not annotated as a resource and is not
      among the names to omit (omission is by attribute name, not by alias). */
  predicate Included(f: FieldDesc, omit: set<string>) {
    !f.isResourceAnnotated && f.name !in omit
  }

  /** An included field that the schema cannot be built from. */
  predicate Rejected(f: FieldDesc) {
    f.default.LegacyDagsterField? || f.conversion.InvalidType?
  }

  /** The error an included, rejected field raises: the legacy-field check comes first. */
  function ErrorFor(cls: ConfigClass, f: FieldDesc): SchemaError
    requires Rejected(f)
  {
    if f.default.LegacyDagsterField? then LegacyFieldMisuse
    else PythonicDefinitionError(cls.name, f.name, f.conversion.currentValue, cls.isResource)
  }

  /** The loop over `model_fields(model_cls)`, in declaration order, stopping at the first
      included field that is rejected. */
  function FieldEntries(cls: ConfigClass, fields: seq<FieldDesc>, omit: set<string>): (r: Result<map<string, FieldSchema>, SchemaError>)
    decreases |fields|
  {
    if fields == [] then Success(map[])
    else
      match FieldEntries(cls, fields[..|fields| - 1], omit)
      case Failure(e) => Failure(e)
      case Success(m) =>
        var f := fields[|fields| - 1];
        if !Included(f, omit) then Success(m)
        else if Rejected(f) then Failure(ErrorFor(cls, f))
        else Success(m[ResolvedName(f, f.name) := f.conversion.field])
  }

  /** `infer_schema_from_config_class(model_cls, description, fields_to_omit)`. */
  function InferSchema(cls: ConfigClass, description: Option<string>, omit: set<string>): (r: Result<DagsterField, SchemaError>) {
    match FieldEntries(cls, cls.fields, omit)
    case Failure(e) => Failure(e)
    case Success(m) =>
      var docstring := if Truthy(cls.doc) then Some(Strip(cls.doc.value)) else None;
      Success(DagsterField(Shape(cls.extra == Some("allow"), m), if Truthy(description) then description else docstring))
  }

  /** Inference succeeds exactly when no included field is rejected. */
  lemma {:induction false} FieldEntriesSucceedIff(cls: ConfigClass, fields: seq<FieldDesc>, omit: set<string>)
    ensures FieldEntries(cls, fields, omit).Success? <==>
      forall i | 0 <= i < |fields| && Included(fields[i], omit) :: !Rejected(fields[i])
    decreases |fields|
  {
    if fields != [] {
      var init := fields[..|fields| - 1];
      FieldEntriesSucceedIff(cls, init, omit);
      assert forall i | 0 <= i < |init| :: init[i] == fields[i];
    }
  }

  /** On failure the error is the one the first included, rejected field raises. */
  lemma {:induction false} FieldEntriesFirstError(cls: ConfigClass, fields: seq<FieldDesc>, omit: set<string>)
    requires FieldEntries(cls, fields, omit).Failure?
    ensures exists i | 0 <= i < |fields| ::
      && Included(fields[i], omit) && Rejected(fields[i])
      && FieldEntries(cls, fields, omit).error == ErrorFor(cls, fields[i])
      && forall j | 0 <= j < i && Included(fields[j], omit) :: !Rejected(fields[j])
    decreases |fields|
  {
    var init := fields[..|fields| - 1];
    assert forall i | 0 <= i < |init| :: init[i] == fields[i];
    if FieldEntries(cls, init, omit).Failure? {
      FieldEntriesFirstError(cls, init, omit);
      var i :| 0 <= i < |init| && Included(init[i], omit) && Rejected(init[i])
        && FieldEntries(cls, init, omit).error == ErrorFor(cls, init[i])
        && forall j | 0 <= j < i && Included(init[j], omit) :: !Rejected(init[j]);
      assert fields[i] == init[i];
    } else {
      FieldEntriesSucceedIff(cls, init, omit);
      var i := |fields| - 1;
      assert forall j | 0 <= j < i && Included(fields[j], omit) :: !Rejected(fields[j]) by {
        forall j | 0 <= j < i && Included(fields[j], omit) ensures !Rejected(fields[j]) {
          assert init[j] == fields[j];
        }
      }
    }
  }

  /** The schema's names are exactly the published names of the included fields: resource
      fields and omitted fields contribute nothing. */
  lemma {:induction false} FieldEntriesKeys(cls: ConfigClass, fields: seq<FieldDesc>, omit: set<string>)
    requires FieldEntries(cls, fields, omit).Success?
    ensures FieldEntries(cls, fields, omit).value.Keys ==
      set i | 0 <= i < |fields| && Included(fields[i], omit) :: ResolvedName(fields[i], fields[i].name)
    decreases |fields|
  {
    if fields != [] {
      var init := fields[..|fields| - 1];
      FieldEntriesKeys(cls, init, omit);
      assert forall i | 0 <= i < |init| :: init[i] == fields[i];
      var n := |fields| - 1;
      var lhs := FieldEntries(cls, fields, omit).value.Keys;
      var rhs := set i | 0 <= i < |fields| && Included(fields[i], omit) :: ResolvedName(fields[i], fields[i].name);
      forall o | o in rhs ensures o in lhs {
        var i :| 0 <= i < |fields| && Included(fields[i], omit) && ResolvedName(fields[i], fields[i].name) == o;
        if i < n {
          assert init[i] == fields[i];
        }
      }
      forall o | o in lhs ensures o in rhs {
        if o != ResolvedName(fields[n], fields[n].name) || !Included(fields[n], omit) {
          var i :| 0 <= i < |init| && Included(init[i], omit) && ResolvedName(init[i], init[i].name) == o;
          assert fields[i] == init[i];
        }
      }
    }
  }

  /** Published names are distinct among the included fields. */
  predicate IncludedNamesDistinct(fields: seq<FieldDesc>, omit: set<string>) {
    forall i, j | 0 <= i < j < |fields| && Included(fields[i], omit) && Included(fields[j], omit) ::
      ResolvedName(fields[i], fields[i].name) != ResolvedName(fields[j], fields[j].name)
  }

  /** Each included field's entry is the schema the conversion collaborator built for it. */
  lemma {:induction false} FieldEntriesValues(cls: ConfigClass, fields: seq<FieldDesc>, omit: set<string>, i: nat)
    requires FieldEntries(cls, fields, omit).Success?
    requires IncludedNamesDistinct(fields, omit)
    requires i < |fields| && Included(fields[i], omit)
    ensures !Rejected(fields[i])
    ensures ResolvedName(fields[i], fields[i].name) in FieldEntries(cls, fields, omit).value
    ensures FieldEntries(cls, fields, omit).value[ResolvedName(fields[i], fields[i].name)] == fields[i].conversion.field
    decreases |fields|
  {
    FieldEntriesSucceedIff(cls, fields, omit);
    var n := |fields| - 1;
    var init := fields[..n];
    if i < n {
      assert init[i] == fields[i];
      assert IncludedNamesDistinct(init, omit) by {
        forall a, b | 0 <= a < b < |init| && Included(init[a], omit) && Included(init[b], omit)
          ensures ResolvedName(init[a], init[a].name) != ResolvedName(init[b], init[b].name)
        {
          assert init[a] == fields[a] && init[b] == fields[b];
        }
      }
      FieldEntriesValues(cls, init, omit, i);
    }
  }

  /** The shape is permissive exactly when the class allows extra keys; its fields are the
      inferred entries; the description is the explicit one when non-empty, else the stripped
      docstring when the class has a non-empty one, else none. */
  lemma InferSchemaShape(cls: ConfigClass, description: Option<string>, omit: set<string>)
    requires InferSchema(cls, description, omit).Success?
    ensures var r := InferSchema(cls, description, omit).value;
      && (r.config.permissive <==> cls.extra == Some("allow"))
      && FieldEntries(cls, cls.fields, omit) == Success(r.config.fields)
      && (Truthy(description) ==> r.description == description)
      && (!Truthy(description) && Truthy(cls.doc) ==> r.description == Some(Strip(cls.doc.value)))
      && (!Truthy(description) && !Truthy(cls.doc) ==> r.description.None?)
  {
  }

  /** A docstring made of whitespace only still yields a description, the empty one. */
  lemma BlankDocstringDescription(cls: ConfigClass, omit: set<string>)
    requires InferSchema(cls, None, omit).Success?
    requires Truthy(cls.doc) && AllSpace(cls.doc.value)
    ensures InferSchema(cls, None, omit).value.description == Some("")
  {
  }
}
