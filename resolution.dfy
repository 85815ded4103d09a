/**
  How the injector resolves the value of one `@Autowired` field: a direct registry hit for
  the field's declared type, otherwise the unique registered class assignable to it.
  Both are pure in effect: they read the registry and return a value or throw.
 */
module Resolution {
  import opened Wrappers
  import opened Runtime
  import opened Core

  /** The exceptions resolution can throw. */
  datatype InjectError =
    /** `RuntimeException(fieldClass.getName())`: several registered classes are assignable to the field type. */
    | ImplementationConflict(typeName: TypeName)
    /** `NullPointerException`: the `@Autowired` value was null when the name-matching loop dereferenced it. */
    | NullPointer

  /** The only element of a one-element set (`classSet.iterator().next()`). */
  function Sole(s: set<TypeName>): (x: TypeName)
    requires |s| == 1
    ensures s == {x}
  {
    SingletonUnique(s);
    var x :| x in s; x
  }

  lemma SingletonUnique(s: set<TypeName>)
    requires |s| == 1
    ensures forall a, b :: a in s && b in s ==> a == b
  {
    forall a, b | a in s && b in s ensures a == b {
      if a != b {
        assert {a, b} <= s;
        SubsetNoLarger({a, b}, s);
      }
    }
  }

  /**
    `getImplementClass`: null (`Ok(None)`) when no registered class is assignable to
    `fieldClass`; with a non-null `autowiredValue`, the one assignable class whatever the
    value says, or a conflict when there are several; with a null value, the name-matching
    loop dereferences it on its first iteration.
   */
  function GetImplementClass(m: map<TypeName, Instance>, refl: Reflection, fieldClass: TypeName,
                             autowiredValue: Option<string>): (r: Result<Option<TypeName>, InjectError>)
    ensures AssignableTo(m, refl, fieldClass) == {} ==> r == Ok(None)
    ensures autowiredValue.Some? && |AssignableTo(m, refl, fieldClass)| == 1 ==>
              r.Ok? && r.value.Some? && AssignableTo(m, refl, fieldClass) == {r.value.value}
    ensures autowiredValue.Some? && |AssignableTo(m, refl, fieldClass)| > 1 ==> r == Err(ImplementationConflict(fieldClass))
    ensures autowiredValue.None? && AssignableTo(m, refl, fieldClass) != {} ==> r == Err(NullPointer)
  {
    var classSet := ClassesBySuper(m, refl, fieldClass);
    if classSet.None? || classSet.value == {} then
      Ok(None)
    else if autowiredValue.Some? then
      if |classSet.value| == 1 then Ok(Some(Sole(classSet.value)))
      else Err(ImplementationConflict(fieldClass))
    else
      Err(NullPointer)
  }

  /**
    `getFieldInstance`: the bean registered for the field type itself if there is one (the
    implementer lookup, and so its conflict, is then never consulted); otherwise the bean of
    the class `GetImplementClass` picks, or null if it picks none.
   */
  function GetFieldInstance(m: map<TypeName, Instance>, refl: Reflection, fieldClass: TypeName,
                            autowiredValue: Option<string>): (r: Result<Option<Instance>, InjectError>)
    ensures fieldClass in m ==> r == Ok(Some(m[fieldClass]))
    ensures fieldClass !in m && (forall k :: k in m ==> !IsAssignableFrom(refl, fieldClass, k)) ==> r == Ok(None)
    ensures forall c :: fieldClass !in m && autowiredValue.Some? && AssignableTo(m, refl, fieldClass) == {c} ==>
              r == Ok(Some(m[c]))
    ensures fieldClass !in m && autowiredValue.Some? && |AssignableTo(m, refl, fieldClass)| > 1 ==>
              r == Err(ImplementationConflict(fieldClass))
    ensures fieldClass !in m && autowiredValue.None? && AssignableTo(m, refl, fieldClass) != {} ==> r == Err(NullPointer)
    ensures r.Ok? && r.value.Some? ==> r.value.value in m.Values
  {
    var fieldValue := if fieldClass in m then Some(m[fieldClass]) else None;
    if fieldValue.Some? then
      Ok(fieldValue)
    else
      match GetImplementClass(m, refl, fieldClass, autowiredValue)
      case Err(e) => Err(e)
      case Ok(None) => Ok(None)
      case Ok(Some(implementClass)) =>
        if implementClass in m then Ok(Some(m[implementClass])) else Ok(None)
  }
}
