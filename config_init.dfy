/** Construction of a config instance (`Config.__init__`): keyword arguments are remapped
    into `modified_data` (optional `None`s dropped, union payloads brought to flat form,
    missing required fields set to `None`), handed to the validation library, and the
    indirection markers the library may have coerced are put back afterwards. */
module ConfigInit {
  import opened Wrappers
  import opened ConfigModel
  import opened UnionCodec

  datatype InitError =
    | UnionSelector(selectorError: SelectorError)  // a config-valued union payload lacks its tag
    | UnionFlat(flatError: FlatError)              // a raw union payload is malformed
    | ValidationFailed                             // the validation library rejected modified_data
    | PostInitLookup                               // KeyError/IndexError while restoring markers

  /** Keyword arguments in call order. */
  type KwArgs = seq<(string, Value)>

  predicate WellFormedArgs(kwargs: KwArgs) {
    forall i | 0 <= i < |kwargs| :: WellFormed(kwargs[i].1)
  }

  /** Python keyword arguments never repeat a name. */
  predicate DistinctKeys(kwargs: KwArgs) {
    forall i, j | 0 <= i < j < |kwargs| :: kwargs[i].0 != kwargs[j].0
  }

  /** What one keyword argument contributes to `modified_data`: nothing (`None`), or the
      value to store under its key. */
  function RemapEntry(cls: ConfigClass, key: string, value: Value): (r: Result<Option<Value>, InitError>)
    requires WellFormed(value)
    ensures r == Success(None) <==> FieldNamed(cls.fields, key).Some? && !FieldNamed(cls.fields, key).value.required && value == Null
    ensures FieldNamed(cls.fields, key).None? ==> r == Success(Some(value))
  {
    var field := FieldNamed(cls.fields, key);
    if field.Some? && !field.value.required && value == Null then Success(None)
    else if field.Some? && HasDiscriminator(field.value) then
      var discriminatorKey := field.value.discriminator.value;
      var nested: Result<Value, InitError> :=
        if value.Obj? then
          assert WellFormedInstance(value.inst);
          match ToSelector(discriminatorKey, PublicFieldValues(value.inst.cls, value.inst.attrs))
          case Success(sel) => Success(Dict(sel))
          case Failure(e) => Failure(UnionSelector(e))
        else Success(value);
      match nested
      case Failure(e) => Failure(e)
      case Success(payload) =>
        match FromSelector(discriminatorKey, payload)
        case Success(flat) => Success(Some(flat))
        case Failure(e) => Failure(UnionFlat(e))
    else Success(Some(value))
  }

  /** The first loop of `Config.__init__` over the keyword arguments, as a fold: the first
      failing argument decides the error, and a later write to a key overrides an earlier one. */
  function Remapped(cls: ConfigClass, kwargs: KwArgs): (r: Result<map<string, Value>, InitError>)
    requires WellFormedArgs(kwargs)
  {
    if kwargs == [] then Success(map[])
    else
      var last := kwargs[|kwargs| - 1];
      match Remapped(cls, kwargs[..|kwargs| - 1])
      case Failure(e) => Failure(e)
      case Success(m) =>
        match RemapEntry(cls, last.0, last.1)
        case Failure(e) => Failure(e)
        case Success(o) => Success(if o.Some? then m[last.0 := o.value] else m)
  }

  function RequiredNames(fields: seq<FieldDesc>): set<string> {
    set f | f in fields && f.required :: f.name
  }

  /** The second loop of `Config.__init__`: every required field missing from `m` gets an
      explicit `None`. */
  function FillRequired(fields: seq<FieldDesc>, m: map<string, Value>): (r: map<string, Value>)
    ensures r.Keys == m.Keys + RequiredNames(fields)
    ensures forall k | k in m :: r[k] == m[k]
    ensures forall k | k in r && k !in m :: r[k] == Null
  {
    m + map n | n in RequiredNames(fields) && n !in m :: Null
  }

  /** `modified_data` as `Config.__init__` hands it to the validation library. */
  function ModifiedData(cls: ConfigClass, kwargs: KwArgs): (r: Result<map<string, Value>, InitError>)
    requires WellFormedArgs(kwargs)
  {
    match Remapped(cls, kwargs)
    case Failure(e) => Failure(e)
    case Success(m) => Success(FillRequired(cls.fields, m))
  }

  /** A failure while remapping a prefix of the arguments is the failure of the whole call. */
  lemma {:induction false} RemappedPrefixFailure(cls: ConfigClass, kwargs: KwArgs, n: nat)
    requires WellFormedArgs(kwargs)
    requires n <= |kwargs|
    requires Remapped(cls, kwargs[..n]).Failure?
    ensures Remapped(cls, kwargs) == Remapped(cls, kwargs[..n])
  {
    if n < |kwargs| {
      assert kwargs[..n] == kwargs[..|kwargs| - 1][..n];
      RemappedPrefixFailure(cls, kwargs[..|kwargs| - 1], n);
    } else {
      assert kwargs[..n] == kwargs;
    }
  }

  /** One more argument extends the fold by that argument's own remapping. */
  lemma RemappedSnoc(cls: ConfigClass, kwargs: KwArgs, i: nat)
    requires WellFormedArgs(kwargs) && i < |kwargs|
    requires Remapped(cls, kwargs[..i]).Success?
    ensures var m := Remapped(cls, kwargs[..i]).value;
      Remapped(cls, kwargs[..i + 1]) ==
        match RemapEntry(cls, kwargs[i].0, kwargs[i].1)
        case Failure(e) => Failure(e)
        case Success(o) => Success(if o.Some? then m[kwargs[i].0 := o.value] else m)
  {
    assert kwargs[..i + 1][..i] == kwargs[..i];
  }

  lemma FillRequiredSnoc(fields: seq<FieldDesc>, j: nat, base: map<string, Value>)
    requires j < |fields|
    ensures var m := FillRequired(fields[..j], base);
      FillRequired(fields[..j + 1], base) ==
        if fields[j].required && fields[j].name !in m then m[fields[j].name := Null] else m
  {
    RequiredNamesSnoc(fields, j);
    var m := FillRequired(fields[..j], base);
    var a := FillRequired(fields[..j + 1], base);
    var b := if fields[j].required && fields[j].name !in m then m[fields[j].name := Null] else m;
    assert a.Keys == b.Keys;
    forall k | k in a ensures a[k] == b[k] {
      if k !in base {
        assert a[k] == Null;
      }
    }
  }

  lemma RequiredNamesSnoc(fields: seq<FieldDesc>, j: nat)
    requires j < |fields|
    ensures RequiredNames(fields[..j + 1]) == RequiredNames(fields[..j]) + (if fields[j].required then {fields[j].name} else {})
  {
    assert fields[..j + 1] == fields[..j] + [fields[j]];
  }

  /** Builds `modified_data` with the two loops of `Config.__init__`. */
  method BuildModifiedData(cls: ConfigClass, kwargs: KwArgs) returns (r: Result<map<string, Value>, InitError>)
    requires WellFormedArgs(kwargs)
    ensures r == ModifiedData(cls, kwargs)
  {
    var modified: map<string, Value> := map[];
    var i := 0;
    while i < |kwargs|
      invariant 0 <= i <= |kwargs|
      invariant Remapped(cls, kwargs[..i]) == Success(modified)
    {
      var (key, value) := kwargs[i];
      RemappedSnoc(cls, kwargs, i);
      var step := RemapEntry(cls, key, value);
      if step.Failure? {
        RemappedPrefixFailure(cls, kwargs, i + 1);
        return Failure(step.error);
      }
      if step.value.Some? {
        modified := modified[key := step.value.value];
      }
      i := i + 1;
    }
    assert kwargs[..i] == kwargs;
    var remapped := modified;
    var j := 0;
    while j < |cls.fields|
      invariant 0 <= j <= |cls.fields|
      invariant modified == FillRequired(cls.fields[..j], remapped)
    {
      FillRequiredSnoc(cls.fields, j, remapped);
      var field := cls.fields[j];
      if field.required && field.name !in modified {
        modified := modified[field.name := Null];
      }
      j := j + 1;
    }
    assert cls.fields[..j] == cls.fields;
    r := Success(modified);
  }

  /** With distinct argument names, each argument's own remapping decides its key in the
      result, and nothing else enters it. */
  lemma RemappedAt(cls: ConfigClass, kwargs: KwArgs)
    requires WellFormedArgs(kwargs) && DistinctKeys(kwargs)
    requires Remapped(cls, kwargs).Success?
    ensures var m := Remapped(cls, kwargs).value;
      && (forall k | k in m :: exists i :: 0 <= i < |kwargs| && kwargs[i].0 == k)
      && (forall i | 0 <= i < |kwargs| ::
            RemapEntry(cls, kwargs[i].0, kwargs[i].1).Success?
            && match RemapEntry(cls, kwargs[i].0, kwargs[i].1).value
               case None => kwargs[i].0 !in m
               case Some(v) => kwargs[i].0 in m && m[kwargs[i].0] == v)
  {
    RemappedKeysFromArgs(cls, kwargs);
    RemappedValues(cls, kwargs);
  }

  /** Every key of the remapped mapping is the name of some argument. */
  lemma {:induction false} RemappedKeysFromArgs(cls: ConfigClass, kwargs: KwArgs)
    requires WellFormedArgs(kwargs)
    requires Remapped(cls, kwargs).Success?
    ensures forall k | k in Remapped(cls, kwargs).value :: exists i :: 0 <= i < |kwargs| && kwargs[i].0 == k
  {
    if kwargs != [] {
      var n := |kwargs| - 1;
      var prefix := kwargs[..n];
      RemappedKeysFromArgs(cls, prefix);
      var m := Remapped(cls, kwargs).value;
      var m0 := Remapped(cls, prefix).value;
      forall k | k in m
        ensures exists i :: 0 <= i < |kwargs| && kwargs[i].0 == k
      {
        if k != kwargs[n].0 {
          assert k in m0;
          var i :| 0 <= i < n && prefix[i].0 == k;
          assert kwargs[i].0 == k;
        }
      }
    }
  }

  /** With distinct argument names, each argument's own remapping decides its key. */
  lemma {:induction false} RemappedValues(cls: ConfigClass, kwargs: KwArgs)
    requires WellFormedArgs(kwargs) && DistinctKeys(kwargs)
    requires Remapped(cls, kwargs).Success?
    ensures var m := Remapped(cls, kwargs).value;
      forall i | 0 <= i < |kwargs| ::
        RemapEntry(cls, kwargs[i].0, kwargs[i].1).Success?
        && match RemapEntry(cls, kwargs[i].0, kwargs[i].1).value
           case None => kwargs[i].0 !in m
           case Some(v) => kwargs[i].0 in m && m[kwargs[i].0] == v
  {
    if kwargs != [] {
      var n := |kwargs| - 1;
      var prefix := kwargs[..n];
      assert forall i | 0 <= i < n :: prefix[i] == kwargs[i];
      RemappedValues(cls, prefix);
      var m0 := Remapped(cls, prefix).value;
      var m := Remapped(cls, kwargs).value;
      forall i | 0 <= i < n
        ensures kwargs[i].0 in m <==> kwargs[i].0 in m0
        ensures kwargs[i].0 in m ==> m[kwargs[i].0] == m0[kwargs[i].0]
      {
        assert kwargs[i].0 != kwargs[n].0;
      }
      RemappedKeysFromArgs(cls, prefix);
      assert forall i | 0 <= i < n :: prefix[i].0 != kwargs[n].0;
    }
  }

  /** An argument whose field is optional and whose value is `None` is absent from
      `modified_data`. */
  lemma OptionalNoneDropped(cls: ConfigClass, kwargs: KwArgs, i: nat)
    requires WellFormedArgs(kwargs) && DistinctKeys(kwargs) && DistinctFieldNames(cls)
    requires i < |kwargs| && kwargs[i].1 == Null
    requires FieldNamed(cls.fields, kwargs[i].0).Some? && !FieldNamed(cls.fields, kwargs[i].0).value.required
    requires ModifiedData(cls, kwargs).Success?
    ensures kwargs[i].0 !in ModifiedData(cls, kwargs).value
  {
    RemappedAt(cls, kwargs);
    var key := kwargs[i].0;
    forall f | f in cls.fields && f.name == key ensures !f.required {
      var g := FieldNamed(cls.fields, key).value;
      var a :| 0 <= a < |cls.fields| && cls.fields[a] == f;
      var b :| 0 <= b < |cls.fields| && cls.fields[b] == g;
      assert a == b;
    }
  }

  /** Every required field is present in `modified_data`, as an explicit `None` when no
      argument supplied it. */
  lemma RequiredFieldsPresent(cls: ConfigClass, kwargs: KwArgs, f: FieldDesc)
    requires WellFormedArgs(kwargs) && DistinctKeys(kwargs)
    requires f in cls.fields && f.required
    requires ModifiedData(cls, kwargs).Success?
    ensures f.name in ModifiedData(cls, kwargs).value
    ensures (forall i | 0 <= i < |kwargs| :: kwargs[i].0 != f.name) ==> ModifiedData(cls, kwargs).value[f.name] == Null
  {
    RemappedAt(cls, kwargs);
  }

  /** An argument for an undeclared name, or for a declared field without a discriminator
      that is required or not `None`, is stored unchanged. */
  lemma PlainArgumentKept(cls: ConfigClass, kwargs: KwArgs, i: nat)
    requires WellFormedArgs(kwargs) && DistinctKeys(kwargs)
    requires i < |kwargs|
    requires var f := FieldNamed(cls.fields, kwargs[i].0);
      f.None? || (!HasDiscriminator(f.value) && (f.value.required || kwargs[i].1 != Null))
    requires ModifiedData(cls, kwargs).Success?
    ensures kwargs[i].0 in ModifiedData(cls, kwargs).value
    ensures ModifiedData(cls, kwargs).value[kwargs[i].0] == kwargs[i].1
  {
    RemappedAt(cls, kwargs);
  }

  /** A raw union payload that does not have exactly one key makes construction fail with
      "Discriminated union must have exactly one key", unless an earlier argument failed first. */
  lemma UnionPayloadNeedsOneKey(cls: ConfigClass, kwargs: KwArgs, i: nat)
    requires WellFormedArgs(kwargs)
    requires i < |kwargs|
    requires var f := FieldNamed(cls.fields, kwargs[i].0);
      f.Some? && HasDiscriminator(f.value) && kwargs[i].1.Dict? && |kwargs[i].1.entries| != 1
    requires Remapped(cls, kwargs[..i]).Success?
    ensures ModifiedData(cls, kwargs) == Failure(UnionFlat(NotExactlyOneKey))
  {
    assert kwargs[..i + 1][..i] == kwargs[..i];
    RemappedPrefixFailure(cls, kwargs, i + 1);
  }

  /** A config instance given for a discriminated union field is stored in flat form: its
      published field values, discriminator included. */
  lemma UnionInstanceFlattened(cls: ConfigClass, kwargs: KwArgs, i: nat)
    requires WellFormedArgs(kwargs) && DistinctKeys(kwargs)
    requires i < |kwargs|
    requires var f := FieldNamed(cls.fields, kwargs[i].0);
      f.Some? && HasDiscriminator(f.value) && kwargs[i].1.Obj?
    requires ModifiedData(cls, kwargs).Success?
    ensures var inst := kwargs[i].1.inst;
      WellFormedInstance(inst) &&
      kwargs[i].0 in ModifiedData(cls, kwargs).value
      && ModifiedData(cls, kwargs).value[kwargs[i].0] == Dict(PublicFieldValues(inst.cls, inst.attrs))
  {
    RemappedAt(cls, kwargs);
    var inst := kwargs[i].1.inst;
    assert WellFormed(kwargs[i].1);
    assert WellFormedInstance(inst);
    var dk := FieldNamed(cls.fields, kwargs[i].0).value.discriminator.value;
    var pub := PublicFieldValues(inst.cls, inst.attrs);
    assert RemapEntry(cls, kwargs[i].0, kwargs[i].1).Success?;
    FlatRoundTrip(dk, pub);
  }

  predicate HasMarker(v: Value) {
    match v
    case EnvVar(_) => true
    case IntEnvVar(_) => true
    case Dict(m) => exists k | k in m :: HasMarker(m[k])
    case List(items) => exists i | 0 <= i < |items| :: HasMarker(items[i])
    case _ => false
  }

  function MarkerKeys(m: map<string, Value>): set<string> {
    set k | k in m && m[k].IsMarker()
  }

  /** `ensure_env_vars_set_post_init(set_value, input_value)`: wherever `input_value` holds
      an `EnvVar`/`IntEnvVar`, the result holds that marker; dicts and lists are walked
      together; any other position keeps the validated value. A key or index of the input
      that the validated value lacks raises a lookup error. */
  function EnsureEnvVars(setValue: Value, input: Value): (r: Result<Value, InitError>)
    decreases input
    ensures r.Success? || r == Failure(PostInitLookup)
    ensures setValue.Dict? && input.Dict? && r.Success? ==>
      && r.value.Dict?
      && r.value.entries.Keys == setValue.entries.Keys + MarkerKeys(input.entries)
      && (forall k | k in input.entries && input.entries[k].IsMarker() :: r.value.entries[k] == input.entries[k])
      && (forall k | k in setValue.entries && (k !in input.entries || !(input.entries[k].IsMarker() || input.entries[k].IsContainer())) ::
            r.value.entries[k] == setValue.entries[k])
    ensures setValue.List? && input.List? && r.Success? ==>
      && r.value.List? && |r.value.items| == |setValue.items| <= |input.items|
      && (forall i | 0 <= i < |setValue.items| && input.items[i].IsMarker() :: r.value.items[i] == input.items[i])
      && (forall i | 0 <= i < |setValue.items| && !input.items[i].IsMarker() && !input.items[i].IsContainer() ::
            r.value.items[i] == setValue.items[i])
    ensures !(setValue.Dict? && input.Dict?) && !(setValue.List? && input.List?) ==> r == Success(setValue)
  {
    match (setValue, input)
    case (Dict(s), Dict(inp)) =>
      if forall k | k in inp && inp[k].IsContainer() :: k in s && EnsureEnvVars(s[k], inp[k]).Success? then
        Success(Dict(map k | k in s.Keys + MarkerKeys(inp) ::
          if k in inp && inp[k].IsMarker() then inp[k]
          else if k in inp && inp[k].IsContainer() then EnsureEnvVars(s[k], inp[k]).value
          else s[k]))
      else Failure(PostInitLookup)
    case (List(s), List(inp)) =>
      if |inp| < |s| then Failure(PostInitLookup)
      else if forall i | 0 <= i < |s| && inp[i].IsContainer() :: EnsureEnvVars(s[i], inp[i]).Success? then
        Success(List(seq(|s|, i requires 0 <= i < |s| =>
          if inp[i].IsMarker() then inp[i]
          else if inp[i].IsContainer() then EnsureEnvVars(s[i], inp[i]).value
          else s[i])))
      else Failure(PostInitLookup)
    case _ => Success(setValue)
  }

  /** The validated mapping `s` after the keys in `done` of the input mapping `inp` have
      been visited: a marker is written over, a container recursed into. */
  ghost function RestoredSoFar(s: map<string, Value>, inp: map<string, Value>, done: set<string>): map<string, Value> {
    map k | k in s.Keys + (MarkerKeys(inp) * done) ::
      if k in done && k in inp && inp[k].IsMarker() then inp[k]
      else if k in done && k in inp && inp[k].IsContainer() && EnsureEnvVars(s[k], inp[k]).Success? then
        EnsureEnvVars(s[k], inp[k]).value
      else s[k]
  }

  lemma RestoredSoFarStep(validated: map<string, Value>, inp: map<string, Value>, done: set<string>, key: string)
    requires done <= inp.Keys && key in inp && key !in done
    requires forall k | k in done + {key} && inp[k].IsContainer() :: k in validated && EnsureEnvVars(validated[k], inp[k]).Success?
    ensures key !in MarkerKeys(inp) * done
    ensures inp[key].IsContainer() ==> RestoredSoFar(validated, inp, done)[key] == validated[key]
    ensures RestoredSoFar(validated, inp, done + {key}) ==
      if inp[key].IsMarker() then RestoredSoFar(validated, inp, done)[key := inp[key]]
      else if inp[key].IsContainer() then RestoredSoFar(validated, inp, done)[key := EnsureEnvVars(validated[key], inp[key]).value]
      else RestoredSoFar(validated, inp, done)
  {
    var a := RestoredSoFar(validated, inp, done);
    var b := RestoredSoFar(validated, inp, done + {key});
    if !inp[key].IsMarker() && !inp[key].IsContainer() {
      assert MarkerKeys(inp) * (done + {key}) == MarkerKeys(inp) * done;
      assert b.Keys == a.Keys;
    }
  }

  lemma RestoreFailsAt(validated: map<string, Value>, inp: map<string, Value>, key: string)
    requires key in inp && inp[key].IsContainer()
    requires key !in validated || EnsureEnvVars(validated[key], inp[key]).Failure?
    ensures EnsureEnvVars(Dict(validated), Dict(inp)) == Failure(PostInitLookup)
  {
  }

  /** Before any key is visited the validated mapping is unchanged. */
  lemma RestoredSoFarNone(validated: map<string, Value>, inp: map<string, Value>)
    ensures RestoredSoFar(validated, inp, {}) == validated
  {
    assert MarkerKeys(inp) * {} == {};
  }

  lemma RestoredSoFarComplete(validated: map<string, Value>, inp: map<string, Value>, done: set<string>, s: map<string, Value>)
    requires done == inp.Keys && s == RestoredSoFar(validated, inp, done)
    requires forall k | k in done && inp[k].IsContainer() :: k in validated && EnsureEnvVars(validated[k], inp[k]).Success?
    ensures EnsureEnvVars(Dict(validated), Dict(inp)) == Success(Dict(s))
  {
    assert MarkerKeys(inp) * inp.Keys == MarkerKeys(inp);
    var m := map k | k in validated.Keys + MarkerKeys(inp) ::
      if k in inp && inp[k].IsMarker() then inp[k]
      else if k in inp && inp[k].IsContainer() then EnsureEnvVars(validated[k], inp[k]).value
      else validated[k];
    assert EnsureEnvVars(Dict(validated), Dict(inp)) == Success(Dict(m));
    var b := RestoredSoFar(validated, inp, inp.Keys);
    assert m.Keys == b.Keys;
    forall k | k in m ensures m[k] == b[k] {
      if k in inp {
        assert k in inp.Keys;
      }
    }
    assert m == b;
  }

  /** Visiting one more key keeps the loop's invariant of `RestoreInDict`: `v` is what the
      method writes at `key` (the marker itself, or the restored container). */
  lemma RestoreDictStep(validated: map<string, Value>, inp: map<string, Value>, done: set<string>, key: string,
                        s: map<string, Value>, v: Value)
    requires done <= inp.Keys && key in inp && key !in done
    requires forall k | k in done && inp[k].IsContainer() :: k in validated && EnsureEnvVars(validated[k], inp[k]).Success?
    requires inp[key].IsMarker() ==> v == inp[key]
    requires inp[key].IsContainer() ==> key in validated && EnsureEnvVars(validated[key], inp[key]) == Success(v)
    requires s == RestoredSoFar(validated, inp, done)
    ensures forall k | k in done + {key} && inp[k].IsContainer() :: k in validated && EnsureEnvVars(validated[k], inp[k]).Success?
    ensures (if inp[key].IsMarker() || inp[key].IsContainer() then s[key := v] else s) == RestoredSoFar(validated, inp, done + {key})
  {
    RestoredSoFarStep(validated, inp, done, key);
  }

  /** One visited position: the input's marker, the recursively restored container, or the
      validated value. */
  ghost function RestoredItem(validated: Value, input: Value): Value
    requires input.IsContainer() ==> EnsureEnvVars(validated, input).Success?
  {
    if input.IsMarker() then input
    else if input.IsContainer() then EnsureEnvVars(validated, input).value
    else validated
  }

  /** `ensure_env_vars_set_post_init` as the source runs it: one pass over the input's keys
      (or the validated list's indices), overwriting entries as it goes, and stopping at the
      first missing key or index. */
  method RestoreEnvVars(setValue: Value, input: Value) returns (r: Result<Value, InitError>)
    ensures r == EnsureEnvVars(setValue, input)
    decreases input, 2
  {
    if setValue.Dict? && input.Dict? {
      r := RestoreInDict(setValue.entries, input);
    } else if setValue.List? && input.List? {
      r := RestoreInList(setValue.items, input);
    } else {
      r := Success(setValue);
    }
  }

  /** The mapping branch: one pass over the input's keys. */
  method RestoreInDict(validated: map<string, Value>, input: Value) returns (r: Result<Value, InitError>)
    requires input.Dict?
    ensures r == EnsureEnvVars(Dict(validated), input)
    decreases input, 1
  {
    var inp := input.entries;
    var s := validated;
    var todo := inp.Keys;
    ghost var done: set<string> := {};
    RestoredSoFarNone(validated, inp);
    while todo != {}
      invariant done <= inp.Keys && todo == inp.Keys - done
      invariant forall k | k in done && inp[k].IsContainer() ::
        k in validated && EnsureEnvVars(validated[k], inp[k]).Success?
      invariant s == RestoredSoFar(validated, inp, done)
      decreases |todo|
    {
      var key :| key in todo;
      todo := todo - {key};
      var v := RestoreEntry(validated, input, key);
      if v.None? {
        RestoreFailsAt(validated, inp, key);
        return Failure(PostInitLookup);
      }
      RestoreDictStep(validated, inp, done, key, s, v.value);
      if inp[key].IsMarker() || inp[key].IsContainer() {
        s := s[key := v.value];
      }
      done := done + {key};
    }
    RestoredSoFarComplete(validated, inp, done, s);
    return Success(Dict(s));
  }

  /** The value one key of the input mapping leaves in the result: the marker itself, the
      restored container, or (for any other value) the input's value, which is not written;
      `None` when a container has no validated counterpart to restore. */
  method RestoreEntry(validated: map<string, Value>, input: Value, key: string) returns (v: Option<Value>)
    requires input.Dict? && key in input.entries
    ensures input.entries[key].IsContainer() ==>
      (v.Some? <==> key in validated && EnsureEnvVars(validated[key], input.entries[key]).Success?)
    ensures input.entries[key].IsContainer() && v.Some? ==> Success(v.value) == EnsureEnvVars(validated[key], input.entries[key])
    ensures !input.entries[key].IsContainer() ==> v == Some(input.entries[key])
    decreases input, 0
  {
    var value := input.entries[key];
    if !value.IsContainer() {
      return Some(value);
    }
    if key !in validated {
      return None;
    }
    var sub := RestoreEnvVars(validated[key], value);
    if sub.Failure? {
      return None;
    }
    return Some(sub.value);
  }

  /** The list branch: one pass over the validated list's indices. */
  method RestoreInList(validated: seq<Value>, input: Value) returns (r: Result<Value, InitError>)
    requires input.List?
    ensures r == EnsureEnvVars(List(validated), input)
    decreases input, 0
  {
    var inp := input.items;
    var s := validated;
    var i := 0;
    while i < |s|
      invariant 0 <= i <= |s| == |validated|
      invariant i <= |inp|
      invariant forall j | 0 <= j < i && inp[j].IsContainer() :: EnsureEnvVars(validated[j], inp[j]).Success?
      invariant forall j | 0 <= j < i :: s[j] == RestoredItem(validated[j], inp[j])
      invariant s[i..] == validated[i..]
    {
      if i >= |inp| {
        return Failure(PostInitLookup);
      }
      var value := inp[i];
      assert s[i] == validated[i];
      if value.IsMarker() {
        s := s[i := value];
      } else if value.IsContainer() {
        var sub := RestoreEnvVars(s[i], value);
        if sub.Failure? {
          return Failure(PostInitLookup);
        }
        s := s[i := sub.value];
      }
      i := i + 1;
    }
    var expected := EnsureEnvVars(List(validated), input);
    assert expected.Success?;
    assert expected.value.items == s;
    return Success(List(s));
  }

  /** Restoring markers twice changes nothing: the result already holds every marker. */
  lemma {:induction false} EnsureEnvVarsIdempotent(setValue: Value, input: Value)
    requires EnsureEnvVars(setValue, input).Success?
    ensures EnsureEnvVars(EnsureEnvVars(setValue, input).value, input) == EnsureEnvVars(setValue, input)
    decreases input
  {
    var r := EnsureEnvVars(setValue, input).value;
    match (setValue, input)
    case (Dict(s), Dict(inp)) =>
      forall k | k in inp && inp[k].IsContainer()
        ensures k in r.entries && EnsureEnvVars(r.entries[k], inp[k]) == Success(r.entries[k])
      {
        EnsureEnvVarsIdempotent(s[k], inp[k]);
      }
      assert r.entries.Keys + MarkerKeys(inp) == r.entries.Keys;
      var r2 := EnsureEnvVars(r, input).value;
      assert forall k | k in r.entries :: r2.entries[k] == r.entries[k];
      assert r2.entries == r.entries;
    case (List(s), List(inp)) =>
      forall i | 0 <= i < |s| && inp[i].IsContainer()
        ensures EnsureEnvVars(r.items[i], inp[i]) == Success(r.items[i])
      {
        EnsureEnvVarsIdempotent(s[i], inp[i]);
      }
      var r2 := EnsureEnvVars(r, input).value;
      assert |r2.items| == |r.items|;
      assert forall i | 0 <= i < |s| :: r2.items[i] == r.items[i];
      assert r2.items == r.items;
    case _ =>
  }

  /** Where the input holds a container, the result holds the validated value there
      restored against it, recursively: this is what carries markers at any depth over. */
  lemma EnsureEnvVarsContainers(setValue: Value, input: Value)
    requires EnsureEnvVars(setValue, input).Success?
    ensures setValue.Dict? && input.Dict? ==>
      forall k | k in input.entries && input.entries[k].IsContainer() ::
        && k in setValue.entries
        && EnsureEnvVars(setValue.entries[k], input.entries[k]).Success?
        && k in EnsureEnvVars(setValue, input).value.entries
        && EnsureEnvVars(setValue, input).value.entries[k] == EnsureEnvVars(setValue.entries[k], input.entries[k]).value
    ensures setValue.List? && input.List? ==>
      forall i | 0 <= i < |setValue.items| && input.items[i].IsContainer() ::
        && EnsureEnvVars(setValue.items[i], input.items[i]).Success?
        && EnsureEnvVars(setValue, input).value.items[i] == EnsureEnvVars(setValue.items[i], input.items[i]).value
  {
  }

  /** An input without any marker leaves the validated value as it is. */
  lemma {:induction false} EnsureEnvVarsWithoutMarkers(setValue: Value, input: Value)
    requires !HasMarker(input)
    requires EnsureEnvVars(setValue, input).Success?
    ensures EnsureEnvVars(setValue, input) == Success(setValue)
    decreases input
  {
    match (setValue, input)
    case (Dict(s), Dict(inp)) =>
      forall k | k in inp && inp[k].IsContainer()
        ensures EnsureEnvVars(s[k], inp[k]) == Success(s[k])
      {
        assert !HasMarker(inp[k]);
        EnsureEnvVarsWithoutMarkers(s[k], inp[k]);
      }
      assert MarkerKeys(inp) == {} by {
        forall k | k in inp ensures !inp[k].IsMarker() {
          assert !HasMarker(inp[k]);
        }
      }
      var r := EnsureEnvVars(setValue, input).value;
      assert r.entries == s;
    case (List(s), List(inp)) =>
      forall i | 0 <= i < |s| && inp[i].IsContainer()
        ensures EnsureEnvVars(s[i], inp[i]) == Success(s[i])
      {
        assert !HasMarker(inp[i]);
        EnsureEnvVarsWithoutMarkers(s[i], inp[i]);
      }
      var r := EnsureEnvVars(setValue, input).value;
      assert forall i | 0 <= i < |s| :: !inp[i].IsMarker() by {
        forall i | 0 <= i < |s| ensures !inp[i].IsMarker() {
          assert !HasMarker(inp[i]);
        }
      }
      assert r.items == s;
    case _ =>
  }

  /** `Config.__init__` end to end. `validate` is the validation library's construction
      primitive (the validated attribute dictionary, or `None` when it rejects the data);
      `pydantic2` says whether it is the major version that coerces markers away. */
  function Construct(cls: ConfigClass, kwargs: KwArgs, validate: map<string, Value> -> Option<map<string, Value>>, pydantic2: bool)
    : (r: Result<Instance, InitError>)
    requires WellFormedArgs(kwargs)
    ensures r.Success? ==> r.value.cls == cls && ModifiedData(cls, kwargs).Success?
  {
    match ModifiedData(cls, kwargs)
    case Failure(e) => Failure(e)
    case Success(modified) =>
      match validate(modified)
      case None => Failure(ValidationFailed)
      case Some(validated) =>
        if !pydantic2 then Success(Instance(cls, validated))
        else
          match EnsureEnvVars(Dict(validated), Dict(modified))
          case Failure(e) => Failure(e)
          case Success(restored) => Success(Instance(cls, restored.entries))
  }

  /** An indirection marker passed for a field that is not a discriminated union survives
      construction as the very same marker, whatever the validation library made of it. */
  lemma MarkerSurvivesConstruction(cls: ConfigClass, kwargs: KwArgs, validate: map<string, Value> -> Option<map<string, Value>>, i: nat)
    requires WellFormedArgs(kwargs) && DistinctKeys(kwargs)
    requires i < |kwargs| && kwargs[i].1.IsMarker()
    requires var f := FieldNamed(cls.fields, kwargs[i].0); f.None? || !HasDiscriminator(f.value)
    requires Construct(cls, kwargs, validate, true).Success?
    ensures var inst := Construct(cls, kwargs, validate, true).value;
      kwargs[i].0 in inst.attrs && inst.attrs[kwargs[i].0] == kwargs[i].1
  {
    PlainArgumentKept(cls, kwargs, i);
  }
}
