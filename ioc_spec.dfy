/**
  What one `doIoc` pass does, as a value: the field writes it performs in order and how it
  ends (it runs off the end, returns early at a class with no declared fields, or throws).
  `Applied` gives an object's fields after a sequence of writes.
 */
module IocSpec {
  import opened Wrappers
  import opened Runtime
  import opened Core
  import opened Resolution

  /** `setField(field, target, value)`: the field `field` of object `target` becomes `value`. */
  datatype Write = Write(target: Instance, field: FieldRef, value: Option<Instance>)

  datatype Status = Running | Returned | Threw(error: InjectError)

  /** The writes performed so far, and whether the pass is still going. */
  datatype Run = Run(writes: seq<Write>, status: Status)

  /** How a `doIoc` call ends for its caller: normally, or with an exception. */
  datatype Completion = Normal | Abrupt(error: InjectError)

  function CompletionOf(r: Run): Completion
  {
    if r.status.Threw? then Abrupt(r.status.error) else Normal
  }

  /** The order in which `getClasses()` yields the registered classes: each exactly once. */
  predicate IsIterationOrder(order: seq<TypeName>, m: map<TypeName, Instance>)
  {
    && |order| == |m|
    && (forall i :: 0 <= i < |order| ==> order[i] in m)
    && (forall k :: k in m ==> k in order)
    && (forall i, j :: 0 <= i < j < |order| ==> order[i] != order[j])
  }

  /** Processing one declared field of class `t`, after the writes `done`. */
  function FieldStep(m: map<TypeName, Instance>, refl: Reflection, t: TypeName, done: seq<Write>, field: FieldDesc): (r: Run)
    requires t in m
    ensures !r.status.Returned?
    ensures |done| <= |r.writes| <= |done| + 1 && r.writes[..|done|] == done
    ensures !field.injection.Autowired? ==> r == Run(done, Running)
  {
    match field.injection
    case NotAutowired => Run(done, Running)
    case Autowired(autowiredValue) =>
      match GetFieldInstance(m, refl, field.declared, autowiredValue)
      case Err(e) => Run(done, Threw(e))
      case Ok(fieldValue) => Run(done + [Write(m[t], FieldRef(t, field.name), fieldValue)], Running)
  }

  /** The inner loop of `doIoc` over the fields `fs` of class `t`, stopping at the first exception. */
  function FieldRun(m: map<TypeName, Instance>, refl: Reflection, t: TypeName, fs: seq<FieldDesc>): (r: Run)
    requires t in m
    ensures !r.status.Returned?
    ensures |r.writes| <= |fs|
    decreases |fs|
  {
    if fs == [] then Run([], Running)
    else
      var prev := FieldRun(m, refl, t, fs[..|fs| - 1]);
      if !prev.status.Running? then prev
      else FieldStep(m, refl, t, prev.writes, fs[|fs| - 1])
  }

  /**
    The outer loop of `doIoc` over the classes in `order`: a class without declared fields
    ends the whole pass (`return`), an exception ends it too.
   */
  function IocRun(m: map<TypeName, Instance>, refl: Reflection, order: seq<TypeName>): (r: Run)
    requires forall i :: 0 <= i < |order| ==> order[i] in m
    ensures r.status.Returned? ==> exists i :: 0 <= i < |order| && refl.declaredFields(order[i]) == []
    ensures r.status.Running? ==> forall i :: 0 <= i < |order| ==> refl.declaredFields(order[i]) != []
    decreases |order|
  {
    if order == [] then Run([], Running)
    else
      var prev := IocRun(m, refl, order[..|order| - 1]);
      if !prev.status.Running? then prev
      else
        var t := order[|order| - 1];
        var fs := refl.declaredFields(t);
        if |fs| == 0 then Run(prev.writes, Returned)
        else
          var r := FieldRun(m, refl, t, fs);
          Run(prev.writes + r.writes, r.status)
  }

  /** The fields of object `o`, starting from `s`, after the writes `writes`. */
  function Applied(s: map<FieldRef, Option<Instance>>, o: Instance, writes: seq<Write>): map<FieldRef, Option<Instance>>
    decreases |writes|
  {
    if writes == [] then s
    else
      var prev := Applied(s, o, writes[..|writes| - 1]);
      var w := writes[|writes| - 1];
      if w.target == o then prev[w.field := w.value] else prev
  }

  /** `f` names a field that its declaring class declares with `@Autowired`. */
  ghost predicate IsAutowiredField(refl: Reflection, f: FieldRef)
  {
    exists d :: d in refl.declaredFields(f.owner) && d.name == f.name && d.injection.Autowired?
  }

  /**
    The pass gets as far as class `t`: `t` comes at some position of `order` before
    which the pass has neither returned nor thrown.
   */
  ghost predicate Reached(m: map<TypeName, Instance>, refl: Reflection, order: seq<TypeName>, t: TypeName)
    requires forall k :: 0 <= k < |order| ==> order[k] in m
  {
    exists i :: 0 <= i < |order| && order[i] == t && IocRun(m, refl, order[..i]).status == Running
  }

  /** `s` and `s'` hold the same value (or none) for field `f`. */
  ghost predicate SameAt(s: map<FieldRef, Option<Instance>>, s': map<FieldRef, Option<Instance>>, f: FieldRef)
  {
    (f in s <==> f in s') && (f in s ==> s[f] == s'[f])
  }

  // ---------------------------------------------------------------------------------
  // Unfolding steps, used by the imperative `doIoc`

  lemma FieldRunNext(m: map<TypeName, Instance>, refl: Reflection, t: TypeName, fs: seq<FieldDesc>, j: nat)
    requires t in m && j < |fs|
    requires FieldRun(m, refl, t, fs[..j]).status == Running
    ensures FieldRun(m, refl, t, fs[..j + 1]) == FieldStep(m, refl, t, FieldRun(m, refl, t, fs[..j]).writes, fs[j])
  {
    assert fs[..j + 1][..j] == fs[..j];
  }

  lemma IocRunNext(m: map<TypeName, Instance>, refl: Reflection, order: seq<TypeName>, i: nat)
    requires forall k :: 0 <= k < |order| ==> order[k] in m
    requires i < |order| && IocRun(m, refl, order[..i]).status == Running
    requires |refl.declaredFields(order[i])| > 0
    ensures IocRun(m, refl, order[..i + 1]) ==
      var r := FieldRun(m, refl, order[i], refl.declaredFields(order[i]));
      Run(IocRun(m, refl, order[..i]).writes + r.writes, r.status)
  {
    assert order[..i + 1][..i] == order[..i];
  }

  lemma AppliedNext(s: map<FieldRef, Option<Instance>>, o: Instance, writes: seq<Write>, w: Write)
    ensures Applied(s, o, writes + [w]) ==
      if w.target == o then Applied(s, o, writes)[w.field := w.value] else Applied(s, o, writes)
  {
    assert (writes + [w])[..|writes|] == writes;
  }

  /**
    An `@Autowired` field whose type has neither a bean of its own nor a registered
    implementer is overwritten with null, and the pass goes on.
   */
  lemma UnresolvableFieldGetsNull(m: map<TypeName, Instance>, refl: Reflection, t: TypeName, done: seq<Write>, field: FieldDesc)
    requires t in m && field.injection.Autowired?
    requires field.declared !in m && forall k :: k in m ==> !IsAssignableFrom(refl, field.declared, k)
    ensures FieldStep(m, refl, t, done, field) == Run(done + [Write(m[t], FieldRef(t, field.name), None)], Running)
  {
  }

  // ---------------------------------------------------------------------------------
  // Early termination

  /** Once the fields of a class stop the pass, the later fields change nothing. */
  lemma {:induction false} FieldRunStaysStopped(m: map<TypeName, Instance>, refl: Reflection, t: TypeName,
                                                fs: seq<FieldDesc>, j: nat)
    requires t in m && j <= |fs|
    requires !FieldRun(m, refl, t, fs[..j]).status.Running?
    ensures FieldRun(m, refl, t, fs) == FieldRun(m, refl, t, fs[..j])
    decreases |fs|
  {
    if j == |fs| {
      assert fs[..j] == fs;
    } else {
      var init := fs[..|fs| - 1];
      assert init[..j] == fs[..j];
      FieldRunStaysStopped(m, refl, t, init, j);
    }
  }

  /** Once the pass has returned or thrown, the later classes are not processed. */
  lemma {:induction false} IocRunStaysStopped(m: map<TypeName, Instance>, refl: Reflection, order: seq<TypeName>, i: nat)
    requires forall k :: 0 <= k < |order| ==> order[k] in m
    requires i <= |order|
    requires !IocRun(m, refl, order[..i]).status.Running?
    ensures IocRun(m, refl, order) == IocRun(m, refl, order[..i])
    decreases |order|
  {
    if i == |order| {
      assert order[..i] == order;
    } else {
      var init := order[..|order| - 1];
      assert init[..i] == order[..i];
      IocRunStaysStopped(m, refl, init, i);
    }
  }

  /**
    Reaching a class with no declared fields ends the whole pass: the classes after it in
    the iteration order are not processed, and the pass completes normally.
   */
  lemma FieldlessClassEndsRun(m: map<TypeName, Instance>, refl: Reflection, order: seq<TypeName>, i: nat)
    requires forall k :: 0 <= k < |order| ==> order[k] in m
    requires i < |order| && IocRun(m, refl, order[..i]).status == Running
    requires refl.declaredFields(order[i]) == []
    ensures IocRun(m, refl, order) == Run(IocRun(m, refl, order[..i]).writes, Returned)
    ensures CompletionOf(IocRun(m, refl, order)) == Normal
  {
    assert order[..i + 1][..i] == order[..i];
    IocRunStaysStopped(m, refl, order, i + 1);
  }

  /**
    A resolution that throws at field `j` of the `i`-th class ends the pass with that
    exception: the writes before it stay, nothing after it is written.
   */
  lemma ThrowEndsRun(m: map<TypeName, Instance>, refl: Reflection, order: seq<TypeName>, i: nat, j: nat)
    requires forall k :: 0 <= k < |order| ==> order[k] in m
    requires i < |order| && IocRun(m, refl, order[..i]).status == Running
    requires j < |refl.declaredFields(order[i])|
    requires FieldRun(m, refl, order[i], refl.declaredFields(order[i])[..j]).status == Running
    requires refl.declaredFields(order[i])[j].injection.Autowired?
    requires GetFieldInstance(m, refl, refl.declaredFields(order[i])[j].declared,
                              refl.declaredFields(order[i])[j].injection.value).Err?
    ensures IocRun(m, refl, order) ==
      Run(IocRun(m, refl, order[..i]).writes + FieldRun(m, refl, order[i], refl.declaredFields(order[i])[..j]).writes,
          Threw(GetFieldInstance(m, refl, refl.declaredFields(order[i])[j].declared,
                                 refl.declaredFields(order[i])[j].injection.value).error))
  {
    var t := order[i];
    var fs := refl.declaredFields(t);
    FieldRunNext(m, refl, t, fs, j);
    FieldRunStaysStopped(m, refl, t, fs, j + 1);
    IocRunNext(m, refl, order, i);
    IocRunStaysStopped(m, refl, order, i + 1);
  }

  // ---------------------------------------------------------------------------------
  // What a pass writes

  /** The inner loop writes only `@Autowired` fields of class `t`, into `t`'s bean. */
  lemma {:induction false} FieldRunWritesAutowired(m: map<TypeName, Instance>, refl: Reflection, t: TypeName,
                                                   fs: seq<FieldDesc>)
    requires t in m
    ensures forall w :: w in FieldRun(m, refl, t, fs).writes ==>
              w.target == m[t] && w.field.owner == t &&
              exists d :: d in fs && d.name == w.field.name && d.injection.Autowired?
    decreases |fs|
  {
    if fs != [] {
      var init := fs[..|fs| - 1];
      FieldRunWritesAutowired(m, refl, t, init);
      forall d | d in init ensures d in fs {
        var k :| 0 <= k < |init| && init[k] == d;
        assert fs[k] == d;
      }
    }
  }

  /**
    A pass writes only `@Autowired` fields, each into the bean registered for the class that
    declares the field, and only for classes it has reached.
   */
  lemma {:induction false} IocRunWritesAutowired(m: map<TypeName, Instance>, refl: Reflection, order: seq<TypeName>)
    requires forall k :: 0 <= k < |order| ==> order[k] in m
    ensures forall w :: w in IocRun(m, refl, order).writes ==>
              Reached(m, refl, order, w.field.owner) && w.field.owner in m && w.target == m[w.field.owner] &&
              IsAutowiredField(refl, w.field)
    decreases |order|
  {
    if order != [] {
      var n := |order| - 1;
      var init := order[..n];
      IocRunWritesAutowired(m, refl, init);
      forall t | Reached(m, refl, init, t) ensures Reached(m, refl, order, t) {
        var i :| 0 <= i < |init| && init[i] == t && IocRun(m, refl, init[..i]).status == Running;
        assert init[..i] == order[..i];
      }
      var t := order[n];
      FieldRunWritesAutowired(m, refl, t, refl.declaredFields(t));
      if IocRun(m, refl, init).status == Running {
        assert order[..n] == init;
        assert Reached(m, refl, order, t);
      }
    }
  }

  /**
    When every entry holds an instance of its own key class, each write goes to an object
    of the class that declares the field, as `Field.set` demands.
   */
  lemma WritesMatchTargetClass(m: map<TypeName, Instance>, refl: Reflection, order: seq<TypeName>)
    requires forall k :: 0 <= k < |order| ==> order[k] in m
    requires forall k :: k in m ==> m[k].ty == k
    ensures forall w :: w in IocRun(m, refl, order).writes ==> w.target.ty == w.field.owner
  {
    IocRunWritesAutowired(m, refl, order);
  }

  /** A field no write in `writes` targets keeps its value. */
  lemma {:induction false} AppliedKeepsUnwritten(s: map<FieldRef, Option<Instance>>, o: Instance, writes: seq<Write>, f: FieldRef)
    requires forall w :: w in writes ==> !(w.target == o && w.field == f)
    ensures SameAt(Applied(s, o, writes), s, f)
    decreases |writes|
  {
    if writes != [] {
      var init := writes[..|writes| - 1];
      assert forall w :: w in init ==> w in writes;
      AppliedKeepsUnwritten(s, o, init, f);
    }
  }

  /**
    A pass changes no field of `o` other than an `@Autowired` field declared by a class it
    reached whose registered bean is `o`.
   */
  lemma OnlyAutowiredFieldsChange(m: map<TypeName, Instance>, refl: Reflection, order: seq<TypeName>,
                                  s: map<FieldRef, Option<Instance>>, o: Instance, f: FieldRef)
    requires forall k :: 0 <= k < |order| ==> order[k] in m
    requires !(Reached(m, refl, order, f.owner) && f.owner in m && m[f.owner] == o && IsAutowiredField(refl, f))
    ensures SameAt(Applied(s, o, IocRun(m, refl, order).writes), s, f)
  {
    IocRunWritesAutowired(m, refl, order);
    AppliedKeepsUnwritten(s, o, IocRun(m, refl, order).writes, f);
  }

  // ---------------------------------------------------------------------------------
  // Running the same writes twice

  /** Applying `a` and then `b` is applying `a + b`. */
  lemma {:induction false} AppliedConcat(s: map<FieldRef, Option<Instance>>, o: Instance, a: seq<Write>, b: seq<Write>)
    ensures Applied(Applied(s, o, a), o, b) == Applied(s, o, a + b)
    decreases |b|
  {
    if b == [] {
      assert a + b == a;
    } else {
      var init := b[..|b| - 1];
      AppliedConcat(s, o, a, init);
      assert (a + b)[..|a + b| - 1] == a + init;
    }
  }

  /** Applying writes overrides the starting fields with the fields the writes leave behind. */
  lemma {:induction false} AppliedIsOverride(s: map<FieldRef, Option<Instance>>, o: Instance, writes: seq<Write>)
    ensures Applied(s, o, writes) == s + Applied(map[], o, writes)
    decreases |writes|
  {
    if writes != [] {
      AppliedIsOverride(s, o, writes[..|writes| - 1]);
    }
  }

  /** Performing the same writes a second time leaves every field as the first time did. */
  lemma AppliedTwice(s: map<FieldRef, Option<Instance>>, o: Instance, writes: seq<Write>)
    ensures Applied(Applied(s, o, writes), o, writes) == Applied(s, o, writes)
  {
    var d := Applied(map[], o, writes);
    AppliedIsOverride(s, o, writes);
    AppliedIsOverride(s + d, o, writes);
    assert (s + d) + d == s + d;
  }
}
