/** The immutability guard of config instances (`MakeConfigCacheable.__setattr__`) and
    the walk over the attribute dictionary that collects the public field values. */
module ConfigGuard {
  import opened Wrappers
  import opened Text
  import opened ConfigModel

  /** How the validation library's own attribute write rejected a write: the instance is
      frozen, the name is not a field (carrying the name its message reports), or any other
      error, which the guard re-raises unchanged. */
  datatype Rejection = FrozenInstance | NoSuchField(fieldName: string) | OtherRejection(description: string)

  /** What the guard raises. */
  datatype GuardError =
    | ImmutableWrite(className: string, isResource: bool)
    | UndeclaredAttribute(className: string, fieldName: string, isResource: bool)
    | Reraised(description: string)

  /** The translation of the library's rejection, split on whether the class is a resource. */
  function GuardErrorFor(cls: ConfigClass, rejection: Rejection): (e: GuardError)
    ensures rejection.FrozenInstance? <==> e.ImmutableWrite?
    ensures rejection.NoSuchField? <==> e.UndeclaredAttribute?
    ensures e.ImmutableWrite? ==> e == ImmutableWrite(cls.name, cls.isResource)
    ensures e.UndeclaredAttribute? ==> e == UndeclaredAttribute(cls.name, rejection.fieldName, cls.isResource)
    ensures e.Reraised? ==> e == Reraised(rejection.description)
  {
    match rejection
    case FrozenInstance => ImmutableWrite(cls.name, cls.isResource)
    case NoSuchField(f) => UndeclaredAttribute(cls.name, f, cls.isResource)
    case OtherRejection(d) => Reraised(d)
  }

  /** The advice appended to a resource's message. */
  const STATEFUL_CLIENT_HINT: string :=
    " If trying to maintain state on this resource, consider building a separate, stateful client class,"
    + " and provide a method on the resource to construct and return the stateful client."

  const FROZEN_REASON: string := " and does not support item assignment, as it inherits from 'pydantic.BaseModel' with frozen=True."
  const UNDECLARED_LEAD: string := " and does not support manipulating undeclared attribute '"
  const UNDECLARED_REASON: string := "' as it inherits from 'pydantic.BaseModel' without extra=\"allow\"."

  function Quoted(className: string): string {
    "'" + className + "'"
  }

  function Kind(isResource: bool): string {
    if isResource then " is a Pythonic resource" else " is a Pythonic config class"
  }

  function Advice(isResource: bool): string {
    if isResource then STATEFUL_CLIENT_HINT else ""
  }

  /** What follows the subject of a guard message, up to the advice. */
  function Reason(e: GuardError): string
    requires !e.Reraised?
  {
    if e.ImmutableWrite? then FROZEN_REASON else UNDECLARED_LEAD + e.fieldName + UNDECLARED_REASON
  }

  /** A guard message up to the advice. */
  function Statement(e: GuardError): string
    requires !e.Reraised?
  {
    Quoted(e.className) + Kind(e.isResource) + Reason(e)
  }

  /** The message of a guard error. */
  function Message(e: GuardError): string {
    if e.Reraised? then e.description else Statement(e) + Advice(e.isResource)
  }

  lemma ConcatEnds(a: string, b: string)
    ensures StartsWith(a + b, a) && EndsWith(a + b, b)
    ensures |b| >= 2 ==> (a + b)[|a + b| - 2] == b[|b| - 2]
  {
    assert (a + b)[..|a|] == a;
    assert (a + b)[|a + b| - |b|..] == b;
  }

  lemma ConcatSuffix(a: string, b: string)
    ensures EndsWith(a + b, b)
  {
    assert (a + b)[|a + b| - |b|..] == b;
  }

  lemma PrefixExtends(a: string, b: string, p: string)
    requires StartsWith(a, p)
    ensures StartsWith(a + b, p)
  {
    assert (a + b)[..|p|] == a[..|p|];
  }

  /** A guard message names the class first. */
  lemma MessageNamesClass(e: GuardError)
    requires !e.Reraised?
    ensures StartsWith(Message(e), Quoted(e.className))
  {
    var q := Quoted(e.className);
    ConcatEnds(q, Kind(e.isResource));
    PrefixExtends(q + Kind(e.isResource), Reason(e), q);
    PrefixExtends(Statement(e), Advice(e.isResource), q);
  }

  lemma EndsDiffer(front: string, tail: string, suffix: string)
    requires 2 <= |tail| && 2 <= |suffix| && tail[|tail| - 2] != suffix[|suffix| - 2]
    ensures !EndsWith(front + tail, suffix)
  {
    ConcatEnds(front, tail);
  }

  /** A resource's guard message ends with the advice to build a stateful client. */
  lemma ResourceMessageAdvises(e: GuardError)
    requires !e.Reraised? && e.isResource
    ensures EndsWith(Message(e), STATEFUL_CLIENT_HINT)
  {
    ConcatSuffix(Statement(e), STATEFUL_CLIENT_HINT);
  }

  /** A plain config class's guard message does not. */
  lemma ConfigMessageDoesNotAdvise(e: GuardError)
    requires !e.Reraised? && !e.isResource
    ensures !EndsWith(Message(e), STATEFUL_CLIENT_HINT)
  {
    var front := Quoted(e.className) + Kind(false);
    assert Message(e) == front + Reason(e);
    if e.ImmutableWrite? {
      EndsDiffer(front, FROZEN_REASON, STATEFUL_CLIENT_HINT);
    } else {
      assert front + Reason(e) == (front + (UNDECLARED_LEAD + e.fieldName)) + UNDECLARED_REASON;
      EndsDiffer(front + (UNDECLARED_LEAD + e.fieldName), UNDECLARED_REASON, STATEFUL_CLIENT_HINT);
    }
  }

  /** The public attributes of `attrs` whose names are in `ks` are published once `k` is
      added, plus `k` itself under its published name. */
  lemma PublicFieldValuesOfStep(cls: ConfigClass, attrs: map<string, Value>, ks: set<string>, k: string)
    requires PublicNamesDistinct(cls, attrs)
    requires ks <= attrs.Keys && k in attrs && k !in ks && !IsFieldInternal(k)
    ensures PublicFieldValuesOf(cls, attrs, ks + {k}) == PublicFieldValuesOf(cls, attrs, ks)[PublicName(cls, k) := attrs[k]]
  {
    var a := PublicFieldValuesOf(cls, attrs, ks + {k});
    var b := PublicFieldValuesOf(cls, attrs, ks)[PublicName(cls, k) := attrs[k]];
    forall o | o in a ensures o in b && a[o] == b[o] {
      var j :| j in ks + {k} && !IsFieldInternal(j) && PublicName(cls, j) == o;
    }
    forall o | o in b ensures o in a {
      if o != PublicName(cls, k) {
        var j :| j in ks && !IsFieldInternal(j) && PublicName(cls, j) == o;
      }
    }
  }

  /** A public attribute written by the validation library is published with the new
      value under its published name; every other published value stays. */
  lemma PublicWriteUpdatesPublicValues(cls: ConfigClass, attrs: map<string, Value>, name: string, value: Value)
    requires PublicNamesDistinct(cls, attrs) && PublicNamesDistinct(cls, attrs[name := value])
    requires !IsFieldInternal(name)
    ensures PublicFieldValues(cls, attrs[name := value]) == PublicFieldValues(cls, attrs)[PublicName(cls, name) := value]
  {
    var after := attrs[name := value];
    var a := PublicFieldValues(cls, after);
    var b := PublicFieldValues(cls, attrs)[PublicName(cls, name) := value];
    forall o | o in a ensures o in b && a[o] == b[o] {
      var j :| j in after && !IsFieldInternal(j) && PublicName(cls, j) == o;
      if j != name {
        assert PublicName(cls, j) != PublicName(cls, name);
      }
    }
    forall o | o in b ensures o in a {
      if o != PublicName(cls, name) {
        var j :| j in attrs && !IsFieldInternal(j) && PublicName(cls, j) == o;
        assert j in after;
      }
    }
  }

  /** A config instance as a mutable object: its class and its attribute dictionary. */
  class ConfigObject {
    const cls: ConfigClass
    var attrs: map<string, Value>

    ghost predicate Valid()
      reads this
    {
      WellFormedInstance(Instance(cls, attrs))
    }

    constructor (c: ConfigClass, a: map<string, Value>)
      requires WellFormedInstance(Instance(c, a))
      ensures Valid() && cls == c && attrs == a
    {
      cls := c;
      attrs := a;
    }

    /** `__setattr__`: an internal attribute is written directly; any other write goes to
        the validation library, given here by its verdict: `None` when it accepts and writes
        the value, otherwise its rejection, which is translated while nothing is written. An
        accepted write keeps the published names distinct (the library's own rules for
        accepting a write are not part of this model). */
    method SetAttr(name: string, value: Value, rejection: Option<Rejection>) returns (r: Option<GuardError>)
      requires Valid() && WellFormed(value)
      requires !IsFieldInternal(name) && rejection.None? ==> PublicNamesDistinct(cls, attrs[name := value])
      modifies this
      ensures Valid()
      ensures IsFieldInternal(name) ==> r.None? && attrs == old(attrs)[name := value]
      ensures !IsFieldInternal(name) && rejection.Some? ==>
        r == Some(GuardErrorFor(cls, rejection.value)) && attrs == old(attrs)
      ensures !IsFieldInternal(name) && rejection.None? ==> r.None? && attrs == old(attrs)[name := value]
      ensures IsFieldInternal(name) || rejection.Some? ==> PublicFieldValues(cls, attrs) == old(PublicFieldValues(cls, attrs))
      ensures !IsFieldInternal(name) && rejection.None? ==>
        PublicFieldValues(cls, attrs) == old(PublicFieldValues(cls, attrs))[PublicName(cls, name) := value]
    {
      if IsFieldInternal(name) {
        InternalWriteKeepsPublicValues(cls, attrs, name, value);
        attrs := attrs[name := value];
        return None;
      }
      match rejection
      case Some(rej) =>
        return Some(GuardErrorFor(cls, rej));
      case None =>
        PublicWriteUpdatesPublicValues(cls, attrs, name, value);
        attrs := attrs[name := value];
        return None;
    }

    /** `_get_non_none_public_field_values`: one pass over the attribute dictionary. */
    method GetPublicFieldValues() returns (output: map<string, Value>)
      requires Valid()
      ensures output == PublicFieldValues(cls, attrs)
    {
      output := map[];
      var todo := attrs.Keys;
      while todo != {}
        invariant todo <= attrs.Keys
        invariant output == PublicFieldValuesOf(cls, attrs, attrs.Keys - todo)
        decreases |todo|
      {
        var key :| key in todo;
        var done := attrs.Keys - todo;
        todo := todo - {key};
        assert attrs.Keys - todo == done + {key};
        if IsFieldInternal(key) {
          assert PublicFieldValuesOf(cls, attrs, done + {key}) == PublicFieldValuesOf(cls, attrs, done);
          continue;
        }
        PublicFieldValuesOfStep(cls, attrs, done, key);
        var field := FieldNamed(cls.fields, key);
        if field.Some? {
          output := output[ResolvedName(field.value, key) := attrs[key]];
        } else {
          output := output[key := attrs[key]];
        }
      }
    }
  }

  /** Writing a public attribute of a frozen config object always fails and changes nothing;
      writing an internal one always succeeds and is visible afterwards. */
  method GuardScenario(c: ConfigClass, a: map<string, Value>, field: string, cache: string, v: Value)
    returns (first: Option<GuardError>, second: Option<GuardError>, seen: Value)
    requires WellFormedInstance(Instance(c, a)) && WellFormed(v)
    requires !IsFieldInternal(field) && IsFieldInternal(cache)
    ensures first == Some(ImmutableWrite(c.name, c.isResource))
    ensures second.None? && seen == v
  {
    var obj := new ConfigObject(c, a);
    first := obj.SetAttr(field, v, Some(FrozenInstance));
    second := obj.SetAttr(cache, v, Some(OtherRejection("")));
    seen := obj.attrs[cache];
  }
}
