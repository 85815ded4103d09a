/**
  Small registries on which the resolution rules and the `doIoc` pass are worked out in full.
  `Alpha` is a service with one `@Autowired` field `gamma` of interface type `Gamma`; the
  `Beta` classes implement `Gamma` and declare no fields. The `@Autowired` on `gamma` carries
  some non-null value, taken here to be `""`; no result below depends on which value it is.
 */
module Scenarios {
  import opened Wrappers
  import opened Runtime
  import opened Core
  import opened Resolution
  import opened IocSpec

  const GammaField := FieldDesc("gamma", "Gamma", Autowired(Some("")))

  /** Reflection for `Alpha`, and for `Beta`, `Beta1`, `Beta2` implementing `Gamma`. */
  function World(): Reflection
  {
    Reflection(
      t => if t == "Alpha" then {Service} else if t in {"Beta", "Beta1", "Beta2"} then {Reponsitory} else {},
      t => if t in {"Beta", "Beta1", "Beta2"} then {"Gamma"} else {},
      t => if t == "Alpha" then [GammaField] else [])
  }

  /** One implementation: `Alpha.gamma` resolves to the `Beta` bean without any disambiguation. */
  lemma SingleImplementationIsInjected(alpha: Instance, beta: Instance)
    ensures var m := map["Alpha" := alpha, "Beta" := beta];
            IocRun(m, World(), ["Alpha", "Beta"]) ==
              Run([Write(alpha, FieldRef("Alpha", "gamma"), Some(beta))], Returned)
  {
    var m := map["Alpha" := alpha, "Beta" := beta];
    assert AssignableTo(m, World(), "Gamma") == {"Beta"} by {
      assert IsAssignableFrom(World(), "Gamma", "Beta");
      assert !IsAssignableFrom(World(), "Gamma", "Alpha");
    }
    assert GetFieldInstance(m, World(), "Gamma", Some("")) == Ok(Some(beta));
    assert World().declaredFields("Alpha") == [GammaField];
    assert World().declaredFields("Beta") == [];
    assert [GammaField][..0] == [];
    assert FieldRun(m, World(), "Alpha", [GammaField]) == Run([Write(alpha, FieldRef("Alpha", "gamma"), Some(beta))], Running);
    assert ["Alpha"][..0] == [];
    assert IocRun(m, World(), ["Alpha"]) == Run([Write(alpha, FieldRef("Alpha", "gamma"), Some(beta))], Running);
    assert ["Alpha", "Beta"][..1] == ["Alpha"];
  }

  /**
    The same registry iterated the other way round: the pass returns at `Beta`, which has no
    declared fields, before it reaches `Alpha`, so `Alpha.gamma` is never written.
   */
  lemma FieldlessClassFirstSkipsInjection(alpha: Instance, beta: Instance)
    ensures var m := map["Alpha" := alpha, "Beta" := beta];
            && IocRun(m, World(), ["Beta", "Alpha"]) == Run([], Returned)
            && !Reached(m, World(), ["Beta", "Alpha"], "Alpha")
  {
    var m := map["Alpha" := alpha, "Beta" := beta];
    assert ["Beta", "Alpha"][..1] == ["Beta"];
    assert ["Beta"][..0] == [];
    IocRunStaysStopped(m, World(), ["Beta", "Alpha"], 1);
  }

  /**
    Two implementations: resolution throws with the interface's name, and the explicit value
    `"Beta1"` does not help, because a non-null value never reaches the name-matching loop.
   */
  lemma TwoImplementationsConflict(beta1: Instance, beta2: Instance)
    ensures var m := map["Beta1" := beta1, "Beta2" := beta2];
            && GetFieldInstance(m, World(), "Gamma", Some("")) == Err(ImplementationConflict("Gamma"))
            && GetFieldInstance(m, World(), "Gamma", Some("Beta1")) == Err(ImplementationConflict("Gamma"))
  {
    var m := map["Beta1" := beta1, "Beta2" := beta2];
    assert AssignableTo(m, World(), "Gamma") == {"Beta1", "Beta2"} by {
      assert IsAssignableFrom(World(), "Gamma", "Beta1");
      assert IsAssignableFrom(World(), "Gamma", "Beta2");
    }
  }

  /** No implementation registered: the field resolves to null and no exception is thrown. */
  lemma NoImplementationGivesNull(alpha: Instance)
    ensures var m := map["Alpha" := alpha];
            IocRun(m, World(), ["Alpha"]) == Run([Write(alpha, FieldRef("Alpha", "gamma"), None)], Running)
  {
    var m := map["Alpha" := alpha];
    assert World().declaredFields("Alpha") == [GammaField];
    assert forall k :: k in m ==> !IsAssignableFrom(World(), "Gamma", k);
    assert GetFieldInstance(m, World(), "Gamma", Some("")) == Ok(None);
    assert [GammaField][..0] == [];
    assert FieldRun(m, World(), "Alpha", [GammaField]) == Run([Write(alpha, FieldRef("Alpha", "gamma"), None)], Running);
    assert ["Alpha"][..0] == [];
  }
}
