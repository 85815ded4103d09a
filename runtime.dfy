/**
  The parts of the Java runtime that the container relies on, abstracted into values:
  what reflection reports about a class (its annotations, its supertypes and its declared
  fields) and the objects that `ClassUtil.newInstance` allocates and `ClassUtil.setField` writes.
 */
module Runtime {
  import opened Wrappers

  /** A class, identified by its fully qualified name (what `Class.getName` returns). */
  type TypeName = string

  /** Class-level annotations: the four bean markers, and any other annotation type by name. */
  datatype Annotation = Component | Controller | Reponsitory | Service | Other(name: string)

  /**
    Whether a field carries `@Autowired`, and if so the value of its `value` element.
    `None` stands for a null element, which Java never produces for an annotation.
   */
  datatype Injection = NotAutowired | Autowired(value: Option<string>)

  /** A declared field: its name, its declared type (`Field.getType`) and its `@Autowired` marker. */
  datatype FieldDesc = FieldDesc(name: string, declared: TypeName, injection: Injection)

  /** A field of an object, named by the class that declares it and its name in that class. */
  datatype FieldRef = FieldRef(owner: TypeName, name: string)

  /**
    What reflection reports about every class: `annotations(t)` are the annotations present on
    `t`, `supertypes(t)` are all classes and interfaces `t` extends or implements (directly or
    not), and `declaredFields(t)` is `t.getDeclaredFields()` in its iteration order.
   */
  datatype Reflection = Reflection(
    annotations: TypeName -> set<Annotation>,
    supertypes: TypeName -> set<TypeName>,
    declaredFields: TypeName -> seq<FieldDesc>)

  /** `t.isAnnotationPresent(a)` */
  predicate IsAnnotationPresent(refl: Reflection, t: TypeName, a: Annotation)
  {
    a in refl.annotations(t)
  }

  /** `sup.isAssignableFrom(sub)`: reflexive, since every class is assignable to itself. */
  predicate IsAssignableFrom(refl: Reflection, sup: TypeName, sub: TypeName)
  {
    sup == sub || sup in refl.supertypes(sub)
  }

  /**
    An object on the Java heap. `ty` is its class; `slots` holds the fields that have been
    written since it was allocated (an absent field still has its default value).
   */
  class Instance {
    const ty: TypeName
    var slots: map<FieldRef, Option<Instance>>

    /** `ClassUtil.newInstance(ty, true)`: a fresh, default-constructed object of class `ty`. */
    constructor (ty: TypeName)
      ensures this.ty == ty && slots == map[]
    {
      this.ty := ty;
      slots := map[];
    }
  }
}
