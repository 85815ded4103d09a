/**
  The bean registry: a map from a class to its single instance, populated once from a
  package scan and queried by class, by annotation and by supertype.
 */
module Core {
  import opened Wrappers
  import opened Runtime

  /** The annotations that make a scanned class a bean, in the order `loadBeans` tries them. */
  const BeanAnnotations: seq<Annotation> := [Component, Controller, Reponsitory, Service]

  /** Some bean annotation among the first `n` of `BeanAnnotations` is present on `t`. */
  predicate HasBeanAnnotationAmong(refl: Reflection, t: TypeName, n: nat)
    requires n <= |BeanAnnotations|
  {
    exists i :: 0 <= i < n && IsAnnotationPresent(refl, t, BeanAnnotations[i])
  }

  /** `t` carries at least one of the four bean annotations. */
  predicate IsBeanClass(refl: Reflection, t: TypeName)
  {
    HasBeanAnnotationAmong(refl, t, |BeanAnnotations|)
  }

  /** `loadBeans` registers `t` when `scanned` is the (non-empty) scan result. */
  predicate Registers(refl: Reflection, scanned: set<TypeName>, t: TypeName)
  {
    t in scanned && IsBeanClass(refl, t)
  }

  /** The registered classes carrying annotation `a`. */
  function Carrying(m: map<TypeName, Instance>, refl: Reflection, a: Annotation): set<TypeName>
  {
    set k | k in m && IsAnnotationPresent(refl, k, a)
  }

  /** The registered classes assignable to `x`. */
  function AssignableTo(m: map<TypeName, Instance>, refl: Reflection, x: TypeName): set<TypeName>
  {
    set k | k in m && IsAssignableFrom(refl, x, k)
  }

  /** What `getClassByAnnotation(a)` returns when the registry is `m`; `None` is null. */
  function ClassesByAnnotation(m: map<TypeName, Instance>, refl: Reflection, a: Annotation): (r: Option<set<TypeName>>)
    ensures r == None <==> forall k :: k in m ==> !IsAnnotationPresent(refl, k, a)
    ensures r.Some? ==> r.value != {} && forall k :: k in r.value <==> k in m && IsAnnotationPresent(refl, k, a)
  {
    var found := Carrying(m, refl, a);
    if found != {} then Some(found)
    else assert forall k :: k in m && IsAnnotationPresent(refl, k, a) ==> k in found; None
  }

  /** What `getClassBySuper(x)` returns when the registry is `m`; `None` is null. */
  function ClassesBySuper(m: map<TypeName, Instance>, refl: Reflection, x: TypeName): (r: Option<set<TypeName>>)
    ensures r == None <==> forall k :: k in m ==> !IsAssignableFrom(refl, x, k)
    ensures r.Some? ==> r.value != {} && forall k :: k in r.value <==> k in m && IsAssignableFrom(refl, x, k)
    ensures x in m ==> r.Some? && x in r.value
  {
    var found := AssignableTo(m, refl, x);
    if found != {} then Some(found)
    else assert forall k :: k in m && IsAssignableFrom(refl, x, k) ==> k in found; None
  }

  /** Distinct keys may share an instance, so a map has at most as many values as keys. */
  lemma {:induction false} ValuesNoMoreThanKeys<K, V>(m: map<K, V>)
    ensures |m.Values| <= |m.Keys|
    decreases |m.Keys|
  {
    if m.Keys != {} {
      var k :| k in m.Keys;
      var rest := m - {k};
      assert m.Keys == rest.Keys + {k};
      assert |rest.Keys| == |m.Keys| - 1;
      ValuesNoMoreThanKeys(rest);
      assert m.Values <= rest.Values + {m[k]} by {
        forall v | v in m.Values ensures v in rest.Values + {m[k]} {
          var j :| j in m && m[j] == v;
          if j != k {
            assert j in rest;
          }
        }
      }
      SubsetNoLarger(m.Values, rest.Values + {m[k]});
    }
  }

  lemma SubsetNoLarger<T>(a: set<T>, b: set<T>)
    requires a <= b
    ensures |a| <= |b|
  {
    assert b == a + (b - a);
  }

  class BeanContainer {
    /** The registry: each registered class and its instance. */
    var beanMap: map<TypeName, Instance>
    /** Set once a non-empty scan has been registered. */
    var loaded: bool

    constructor ()
      ensures beanMap == map[] && !loaded
    {
      beanMap := map[];
      loaded := false;
    }

    /** Every entry holds an instance of its own key class. */
    ghost predicate WellTyped()
      reads this
    {
      forall k :: k in beanMap ==> beanMap[k].ty == k
    }

    /**
      `loadBeans`: `scan` is what `ClassUtil.extractPackageClass` returned (`None` is null).
      A second call after a successful one changes nothing; a null or empty scan leaves the
      container unloaded so that a later call can retry; otherwise every scanned class with a
      bean annotation gets a fresh instance of itself, and every other entry stays as it was.
     */
    method LoadBeans(refl: Reflection, scan: Option<set<TypeName>>)
      modifies this
      ensures old(loaded) ==> loaded && beanMap == old(beanMap)
      ensures !old(loaded) && (scan.None? || scan.value == {}) ==> !loaded && beanMap == old(beanMap)
      ensures !old(loaded) && scan.Some? && scan.value != {} ==>
        && loaded
        && (forall t :: t in beanMap <==> t in old(beanMap) || Registers(refl, scan.value, t))
        && (forall t :: Registers(refl, scan.value, t) ==>
              fresh(beanMap[t]) && beanMap[t].ty == t && beanMap[t].slots == map[])
        && (forall t :: t in old(beanMap) && !Registers(refl, scan.value, t) ==> beanMap[t] == old(beanMap)[t])
      ensures old(WellTyped()) ==> WellTyped()
    {
      if IsLoaded() {
        return;
      }
      if scan.None? || scan.value == {} {
        return;
      }
      var classSet := scan.value;
      var rest := classSet;
      while rest != {}
        invariant rest <= classSet
        invariant !loaded
        invariant forall t :: t in beanMap <==> t in old(beanMap) || Registers(refl, classSet - rest, t)
        invariant forall t :: Registers(refl, classSet - rest, t) ==>
                    fresh(beanMap[t]) && beanMap[t].ty == t && beanMap[t].slots == map[]
        invariant forall t :: t in old(beanMap) && !Registers(refl, classSet - rest, t) ==> beanMap[t] == old(beanMap)[t]
        decreases rest
      {
        var clazz :| clazz in rest;
        ghost var before := beanMap;
        var i := 0;
        while i < |BeanAnnotations|
          invariant 0 <= i <= |BeanAnnotations|
          invariant !loaded
          invariant forall t :: t != clazz ==> (t in beanMap <==> t in before) && (t in before ==> beanMap[t] == before[t])
          invariant forall t :: Registers(refl, classSet - rest, t) ==> beanMap[t].slots == map[]
          invariant HasBeanAnnotationAmong(refl, clazz, i) ==>
                      clazz in beanMap && fresh(beanMap[clazz]) && beanMap[clazz].ty == clazz && beanMap[clazz].slots == map[]
          invariant !HasBeanAnnotationAmong(refl, clazz, i) ==>
                      (clazz in beanMap <==> clazz in before) && (clazz in before ==> beanMap[clazz] == before[clazz])
        {
          if IsAnnotationPresent(refl, clazz, BeanAnnotations[i]) {
            var bean := new Instance(clazz);
            beanMap := beanMap[clazz := bean];
          }
          i := i + 1;
        }
        rest := rest - {clazz};
      }
      loaded := true;
    }

    /** `isLoaded`: whether `loadBeans` has registered a scan. */
    function IsLoaded(): bool
      reads this
    {
      loaded
    }

    /** `size`: the number of registered classes. */
    function Size(): (n: nat)
      reads this
      ensures n == |Classes()|
    {
      |beanMap|
    }

    /** `addBean`: registers `bean` for `clazz` and returns the instance it replaces, if any. */
    method AddBean(clazz: TypeName, bean: Instance) returns (previous: Option<Instance>)
      modifies this
      ensures previous == old(GetBean(clazz))
      ensures GetBean(clazz) == Some(bean)
      ensures forall k :: k != clazz ==> GetBean(k) == old(GetBean(k))
      ensures beanMap == old(beanMap)[clazz := bean] && loaded == old(loaded)
      ensures old(WellTyped()) && bean.ty == clazz ==> WellTyped()
    {
      previous := GetBean(clazz);
      beanMap := beanMap[clazz := bean];
    }

    /** `removeBean`: unregisters `clazz` and returns the instance it held, if any. */
    method RemoveBean(clazz: TypeName) returns (previous: Option<Instance>)
      modifies this
      ensures previous == old(GetBean(clazz))
      ensures GetBean(clazz) == None
      ensures forall k :: k != clazz ==> GetBean(k) == old(GetBean(k))
      ensures beanMap == old(beanMap) - {clazz} && loaded == old(loaded)
      ensures old(WellTyped()) ==> WellTyped()
    {
      previous := GetBean(clazz);
      beanMap := beanMap - {clazz};
    }

    /** `getBean`: the instance registered for `clazz`, or null. */
    function GetBean(clazz: TypeName): (r: Option<Instance>)
      reads this
      ensures r.Some? <==> clazz in Classes()
      ensures r.Some? ==> r.value in Beans()
    {
      if clazz in beanMap then Some(beanMap[clazz]) else None
    }

    /** `getClasses`: the registered classes. */
    function Classes(): set<TypeName>
      reads this
    {
      beanMap.Keys
    }

    /** `getBeans`: the registered instances, each once however many classes share it. */
    function Beans(): (r: set<Instance>)
      reads this
      ensures r == set k | k in beanMap :: beanMap[k]
      ensures |r| <= |Classes()|
    {
      ValuesNoMoreThanKeys(beanMap);
      beanMap.Values
    }

    /** `getClassByAnnotation`: the registered classes carrying `annotation`, or null if there are none. */
    method GetClassByAnnotation(refl: Reflection, annotation: Annotation) returns (r: Option<set<TypeName>>)
      ensures r == ClassesByAnnotation(beanMap, refl, annotation)
    {
      var keySet := Classes();
      var classSet: set<TypeName> := {};
      if keySet != {} {
        var rest := keySet;
        while rest != {}
          invariant rest <= keySet
          invariant forall k :: k in classSet <==> k in keySet - rest && IsAnnotationPresent(refl, k, annotation)
          decreases rest
        {
          var clazz :| clazz in rest;
          if IsAnnotationPresent(refl, clazz, annotation) {
            classSet := classSet + {clazz};
          }
          rest := rest - {clazz};
        }
        assert classSet == Carrying(beanMap, refl, annotation);
        return if |classSet| > 0 then Some(classSet) else None;
      }
      return None;
    }

    /**
      `getClassBySuper`: the registered classes assignable to `interfaceOrClass`, or null if
      there are none. Since assignability is reflexive, `interfaceOrClass` itself is included
      when it is registered.
     */
    method GetClassBySuper(refl: Reflection, interfaceOrClass: TypeName) returns (r: Option<set<TypeName>>)
      ensures r == ClassesBySuper(beanMap, refl, interfaceOrClass)
    {
      var keySet := Classes();
      var classSet: set<TypeName> := {};
      if keySet != {} {
        var rest := keySet;
        while rest != {}
          invariant rest <= keySet
          invariant forall k :: k in classSet <==> k in keySet - rest && IsAssignableFrom(refl, interfaceOrClass, k)
          decreases rest
        {
          var clazz :| clazz in rest;
          if IsAssignableFrom(refl, interfaceOrClass, clazz) {
            classSet := classSet + {clazz};
          }
          rest := rest - {clazz};
        }
        assert classSet == AssignableTo(beanMap, refl, interfaceOrClass);
        return if |classSet| > 0 then Some(classSet) else None;
      }
      return None;
    }
  }
}
