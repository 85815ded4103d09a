/**
  The injector: one pass over the registered classes that resolves every `@Autowired`
  field and writes the result into the registered bean of the declaring class.
 */
module Inject {
  import opened Wrappers
  import opened Runtime
  import opened Core
  import opened Resolution
  import opened IocSpec

  class DependencyInjector {
    const beanContainer: BeanContainer

    /** The container is the process-wide `BeanContainer.getInstance()`, passed in. */
    constructor (beanContainer: BeanContainer)
      ensures this.beanContainer == beanContainer
    {
      this.beanContainer := beanContainer;
    }

    /**
      `doIoc`, with `order` the iteration order of `getClasses()`. The registry is left as
      it is; each bean's fields end up as the writes of `IocRun` leave them, and the call
      throws exactly when `IocRun` does.
     */
    method DoIoc(refl: Reflection, order: seq<TypeName>) returns (c: Completion)
      requires IsIterationOrder(order, beanContainer.beanMap)
      modifies beanContainer.beanMap.Values
      ensures unchanged(beanContainer)
      ensures c == CompletionOf(IocRun(beanContainer.beanMap, refl, order))
      ensures forall o :: o in beanContainer.beanMap.Values ==>
                o.slots == Applied(old(o.slots), o, IocRun(beanContainer.beanMap, refl, order).writes)
      ensures old(beanContainer.beanMap) == map[] ==> c == Normal
    {
      var bm := beanContainer.beanMap;
      if |beanContainer.Classes()| == 0 {
        return Normal;
      }
      ghost var writes: seq<Write> := [];
      var i := 0;
      while i < |order|
        invariant 0 <= i <= |order|
        invariant IocRun(bm, refl, order[..i]) == Run(writes, Running)
        invariant forall o :: o in bm.Values ==> o.slots == Applied(old(o.slots), o, writes)
      {
        var clazz := order[i];
        var fields := refl.declaredFields(clazz);
        if |fields| == 0 {
          FieldlessClassEndsRun(bm, refl, order, i);
          return Normal;
        }
        var thrown := InjectFields(refl, clazz, fields);
        ghost var r := FieldRun(bm, refl, clazz, fields);
        IocRunNext(bm, refl, order, i);
        forall o | o in bm.Values
          ensures o.slots == Applied(old(o.slots), o, writes + r.writes)
        {
          AppliedConcat(old(o.slots), o, writes, r.writes);
        }
        if thrown.Some? {
          IocRunStaysStopped(bm, refl, order, i + 1);
          return Abrupt(thrown.value);
        }
        writes := writes + r.writes;
        i := i + 1;
      }
      assert order[..|order|] == order;
      return Normal;
    }

    /**
      The inner loop of `doIoc` over the declared fields `fields` of the registered class
      `clazz`: each `@Autowired` field gets the resolved value written into `clazz`'s bean,
      until a resolution throws.
     */
    method InjectFields(refl: Reflection, clazz: TypeName, fields: seq<FieldDesc>) returns (thrown: Option<InjectError>)
      requires clazz in beanContainer.beanMap
      modifies beanContainer.beanMap.Values
      ensures unchanged(beanContainer)
      ensures thrown.None? <==> FieldRun(beanContainer.beanMap, refl, clazz, fields).status == Running
      ensures thrown.Some? ==> FieldRun(beanContainer.beanMap, refl, clazz, fields).status == Threw(thrown.value)
      ensures forall o :: o in beanContainer.beanMap.Values ==>
                o.slots == Applied(old(o.slots), o, FieldRun(beanContainer.beanMap, refl, clazz, fields).writes)
    {
      var bm := beanContainer.beanMap;
      ghost var fieldWrites: seq<Write> := [];
      var j := 0;
      while j < |fields|
        invariant 0 <= j <= |fields|
        invariant FieldRun(bm, refl, clazz, fields[..j]) == Run(fieldWrites, Running)
        invariant forall o :: o in bm.Values ==> o.slots == Applied(old(o.slots), o, fieldWrites)
      {
        var field := fields[j];
        FieldRunNext(bm, refl, clazz, fields, j);
        if field.injection.Autowired? {
          var autowiredValue := field.injection.value;
          var fieldClass := field.declared;
          var fieldValue := GetFieldInstance(bm, refl, fieldClass, autowiredValue);
          if fieldValue.Err? {
            FieldRunStaysStopped(bm, refl, clazz, fields, j + 1);
            return Some(fieldValue.error);
          }
          var targetBean := beanContainer.GetBean(clazz).value;
          var w := Write(targetBean, FieldRef(clazz, field.name), fieldValue.value);
          forall o | o in bm.Values
            ensures Applied(old(o.slots), o, fieldWrites + [w]) ==
                    if o == targetBean then Applied(old(o.slots), o, fieldWrites)[w.field := w.value]
                    else Applied(old(o.slots), o, fieldWrites)
          {
            AppliedNext(old(o.slots), o, fieldWrites, w);
          }
          targetBean.slots := targetBean.slots[w.field := w.value];
          fieldWrites := fieldWrites + [w];
        }
        j := j + 1;
      }
      assert fields[..|fields|] == fields;
      return None;
    }
  }

  /**
    Two `doIoc` passes in a row over the same iteration order leave every bean's fields as
    one pass does: the registry is unchanged in between, so the second pass repeats the
    writes of the first.
   */
  method DoIocTwice(injector: DependencyInjector, refl: Reflection, order: seq<TypeName>) returns (c: Completion)
    requires IsIterationOrder(order, injector.beanContainer.beanMap)
    modifies injector.beanContainer.beanMap.Values
    ensures c == CompletionOf(IocRun(injector.beanContainer.beanMap, refl, order))
    ensures forall o :: o in injector.beanContainer.beanMap.Values ==>
              o.slots == Applied(old(o.slots), o, IocRun(injector.beanContainer.beanMap, refl, order).writes)
  {
    var bm := injector.beanContainer.beanMap;
    ghost var writes := IocRun(bm, refl, order).writes;
    c := injector.DoIoc(refl, order);
    c := injector.DoIoc(refl, order);
    forall o | o in bm.Values
      ensures o.slots == Applied(old(o.slots), o, writes)
    {
      AppliedTwice(old(o.slots), o, writes);
    }
  }
}
