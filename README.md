# Bean container and dependency injector, modelled in Dafny

This project models the core of a small Java dependency-injection framework.

- `org.simpleframework.core.BeanContainer` is a registry from a class to its single instance (a *bean*). `loadBeans` fills it once from a package scan with the classes annotated `@Component`, `@Controller`, `@Reponsitory` or `@Service`. Other methods add, remove and look up beans, and filter the registered classes by annotation or by supertype.
- `org.simpleframework.inject.anotation.DependencyInjector.doIoc` makes one pass over the registered classes. For every `@Autowired` field it resolves a bean and writes it into the registered bean of the declaring class. Resolution first tries a direct registry hit, then the unique registered implementer.

## Layout

- `wrappers.dfy` (`Wrappers`): `Option` (a Java reference that may be null) and `Result` (a value or a thrown exception).
- `runtime.dfy` (`Runtime`): what reflection reports, as the value `Reflection`. It gives each class's annotations, its supertypes and its declared fields in `getDeclaredFields` order. `IsAssignableFrom` is reflexive by construction. `Instance` is a heap object: its class, plus a map of the fields written so far.
- `bean_container.dfy` (`Core`): the class `BeanContainer`, with the fields `beanMap` and `loaded` and one member per Java method. The filter queries are `while` loops over the key set, proved against the functions `ClassesByAnnotation` and `ClassesBySuper`.
- `resolution.dfy` (`Resolution`): `getImplementClass` and `getFieldInstance` as functions returning `Result`.
- `ioc_spec.dfy` (`IocSpec`): what a `doIoc` pass does, as a value.
  - `IocRun` and `FieldRun` give the writes in order and how the pass ends: it runs off the end, returns early, or throws.
  - `Applied` gives an object's fields after those writes.
  - The lemmas cover early termination, which fields can change, and repeating a pass.
- `dependency_injector.dfy` (`Inject`): the class `DependencyInjector`. `DoIoc` has the source's nested loops. The inner loop is the helper method `InjectFields`. Both are proved against `IocRun`.
- `scenarios.dfy` (`Scenarios`): small registries worked out in full.

## Behaviour of the code that the model keeps

- **`getClassBySuper` includes the queried class.** The comment at `BeanContainer.java:162` says the class itself is excluded. But `isAssignableFrom` is reflexive, so a registered `X` is in `getClassBySuper(X)`. `Core.ClassesBySuper` states this. The injector never sees the difference: it calls the implementer lookup only when the field type has no entry of its own.
- **A non-null `@Autowired` value is never used for disambiguation.** With one candidate, the value is ignored. With several candidates, resolution throws `RuntimeException(fieldClass.getName())` whatever the value names (`Scenarios.TwoImplementationsConflict`). The name-matching loop is reached only with a null value, and its first iteration dereferences that null. Java never gives a null annotation element, so under real inputs this branch is dead. The model keeps the value as `Option<string>` and maps `None` to `NullPointer`.
- **A class with no declared fields ends the whole pass.** `doIoc` does `return` there, not `continue`. Whether a field is injected therefore depends on the iteration order of the key set. In `Scenarios.FieldlessClassFirstSkipsInjection`, a field-less `Beta` reached first leaves `Alpha.gamma` unwritten. The same registry in the other order injects it (`Scenarios.SingleImplementationIsInjected`).
- **An unresolvable field is overwritten with null.** `doIoc` writes null when there is neither a direct entry nor an implementer. It does not leave the field alone.

## Inputs the model takes as parameters

- The scan result of `ClassUtil.extractPackageClass` is the parameter `scan: Option<set<TypeName>>`, where `None` is null.
- All reflection (`isAnnotationPresent`, `isAssignableFrom`, `getDeclaredFields`, `Field.getType`, `Autowired.value`) is the parameter `refl: Reflection`.
- The iteration order of `getClasses()` in `doIoc` is the parameter `order`, which holds each key exactly once. The iteration order of the scan set in `loadBeans` is not observable, so that loop picks its next element with `:|`. `Resolution.Sole` uses `:|` for `classSet.iterator().next()` on a one-element candidate set. The name-matching loop over the candidate set is not a loop in the model, because its first iteration throws.

## Model

| member | source | states |
|---|---|---|
| `Core.BeanContainer.constructor` | src/main/java/org/simpleframework/core/BeanContainer.java:18-28 | a new container is empty and not loaded |
| `Core.BeanContainer.LoadBeans` | src/main/java/org/simpleframework/core/BeanContainer.java:52-71 | if already loaded, nothing changes. A null or empty scan changes nothing and leaves `loaded` false, so a later call can retry. Otherwise `loaded` becomes true, and the keys become the old keys plus the scanned classes that carry a bean annotation. Each of those holds a fresh, default-constructed instance of itself, and every other entry keeps its instance. Entries that hold their own key class stay that way |
| `Core.BeanContainer.IsLoaded` | src/main/java/org/simpleframework/core/BeanContainer.java:78-80 | no contract: a plain read of `loaded`. `LoadBeans` states how `loaded` changes, and `AddBean` and `RemoveBean` state that it stays the same |
| `Core.BeanContainer.Size` | src/main/java/org/simpleframework/core/BeanContainer.java:87-89 | the number of registered classes, the same as the size of `getClasses()` |
| `Core.BeanContainer.AddBean` | src/main/java/org/simpleframework/core/BeanContainer.java:98-100 | returns the instance previously registered for the class, or null. Afterwards `getBean(clazz)` is the new bean, every other class's lookup is unchanged, and `loaded` is unchanged |
| `Core.BeanContainer.RemoveBean` | src/main/java/org/simpleframework/core/BeanContainer.java:108-110 | returns the removed instance, or null. Afterwards `getBean(clazz)` is null, every other lookup is unchanged, and `loaded` is unchanged |
| `Core.BeanContainer.GetBean` | src/main/java/org/simpleframework/core/BeanContainer.java:118-120 | non-null exactly for the classes in `getClasses()`, and always one of `getBeans()` |
| `Core.BeanContainer.Classes` | src/main/java/org/simpleframework/core/BeanContainer.java:127-129 | no contract: the key set of `beanMap`. `Size`, `GetBean` and `Beans` state their results in terms of it |
| `Core.BeanContainer.Beans` | src/main/java/org/simpleframework/core/BeanContainer.java:136-138 | the set of registered instances, with no more elements than there are registered classes |
| `Core.ValuesNoMoreThanKeys` | src/main/java/org/simpleframework/core/BeanContainer.java:136-138 | a map has at most as many distinct values as keys, because classes sharing an instance collapse into one element |
| `Core.ClassesByAnnotation` | src/main/java/org/simpleframework/core/BeanContainer.java:146-159 | null exactly when no registered class carries the annotation (an empty registry included). Otherwise exactly the registered classes carrying it, so never an empty set |
| `Core.BeanContainer.GetClassByAnnotation` | src/main/java/org/simpleframework/core/BeanContainer.java:146-159 | the loop over the key set returns exactly `ClassesByAnnotation` of the registry |
| `Core.ClassesBySuper` | src/main/java/org/simpleframework/core/BeanContainer.java:161-180 | null exactly when no registered class is assignable to the queried type. Otherwise exactly the registered classes assignable to it, never an empty set, and the queried type itself when it is registered |
| `Core.BeanContainer.GetClassBySuper` | src/main/java/org/simpleframework/core/BeanContainer.java:167-180 | the loop over the key set returns exactly `ClassesBySuper` of the registry |
| `Runtime.Instance.constructor` | src/main/java/org/simpleframework/core/BeanContainer.java:66 | `ClassUtil.newInstance(clazz, true)` gives a fresh object of class `clazz` with no field written yet |
| `Resolution.Sole` | src/main/java/org/simpleframework/inject/anotation/DependencyInjector.java:80-81 | the element that `iterator().next()` returns from a one-element candidate set is that set's only element |
| `Resolution.GetImplementClass` | src/main/java/org/simpleframework/inject/anotation/DependencyInjector.java:74-94 | null when no registered class is assignable to the field type. With a non-null value: the single assignable class whatever the value says, or an exception carrying the field type's name when there are several. With a null value and some candidate: a null dereference |
| `Resolution.GetFieldInstance` | src/main/java/org/simpleframework/inject/anotation/DependencyInjector.java:54-66 | a direct entry for the field type wins, and then no conflict can arise. Failing that, no assignable class gives null, a single one gives its bean, and several throw the conflict. A resolved value is always a registered bean |
| `Inject.DependencyInjector.constructor` | src/main/java/org/simpleframework/inject/anotation/DependencyInjector.java:19-21 | the injector works on the given container |
| `Inject.DependencyInjector.DoIoc` | src/main/java/org/simpleframework/inject/anotation/DependencyInjector.java:23-46 | the container (registry and `loaded`) is unchanged. Every bean's fields end up as the writes of `IocRun` leave them. The call throws exactly when `IocRun` throws, and with that exception. With an empty registry it completes normally and writes nothing |
| `Inject.DependencyInjector.InjectFields` | src/main/java/org/simpleframework/inject/anotation/DependencyInjector.java:33-43 | the inner loop leaves every bean's fields as the writes of `FieldRun` do, and throws exactly when `FieldRun` throws |
| `Inject.DoIocTwice` | src/main/java/org/simpleframework/inject/anotation/DependencyInjector.java:23-46 | two passes in a row over the same order leave every bean's fields exactly as one pass does |
| `IocSpec.FieldStep` | src/main/java/org/simpleframework/inject/anotation/DependencyInjector.java:35-42 | one field of the inner loop. A field that is not `@Autowired` adds no write. Otherwise the step adds at most one write after the earlier ones and keeps those. A field step never returns from the pass |
| `IocSpec.FieldRun` | src/main/java/org/simpleframework/inject/anotation/DependencyInjector.java:33-43 | the inner loop over a class's declared fields writes at most one value per field, and it never ends the pass with a return, only by running to the end or throwing |
| `IocSpec.IocRun` | src/main/java/org/simpleframework/inject/anotation/DependencyInjector.java:27-44 | the outer loop over the iteration order. The pass returns early only if some class in the order has no declared fields. If it runs to the end, every class in the order has declared fields |
| `IocSpec.UnresolvableFieldGetsNull` | src/main/java/org/simpleframework/inject/anotation/DependencyInjector.java:35-42 | an `@Autowired` field with no direct entry and no assignable registered class is overwritten with null, and the pass goes on |
| `IocSpec.FieldRunStaysStopped` | src/main/java/org/simpleframework/inject/anotation/DependencyInjector.java:33-43 | once a field's resolution has thrown, the later fields of the class are neither resolved nor written |
| `IocSpec.IocRunStaysStopped` | src/main/java/org/simpleframework/inject/anotation/DependencyInjector.java:27-44 | once the pass has returned or thrown, the classes later in the iteration order are not processed |
| `IocSpec.FieldlessClassEndsRun` | src/main/java/org/simpleframework/inject/anotation/DependencyInjector.java:29-32 | reaching a class with no declared fields ends the whole pass normally, with only the writes made before it |
| `IocSpec.ThrowEndsRun` | src/main/java/org/simpleframework/inject/anotation/DependencyInjector.java:82-84 | a resolution that throws at some field ends the pass with that exception. The writes before it stay, and nothing later is written |
| `IocSpec.FieldRunWritesAutowired` | src/main/java/org/simpleframework/inject/anotation/DependencyInjector.java:35-41 | the inner loop writes only `@Autowired` fields of the class, into that class's bean |
| `IocSpec.IocRunWritesAutowired` | src/main/java/org/simpleframework/inject/anotation/DependencyInjector.java:27-44 | every write of a pass targets an `@Autowired` field in the bean registered for the field's declaring class. That class is *reached*: it sits at a position of the order before which the pass had neither returned nor thrown |
| `IocSpec.WritesMatchTargetClass` | src/main/java/org/simpleframework/inject/anotation/DependencyInjector.java:40-41 | when every entry holds an instance of its own key class, each write goes to an object of the field's declaring class |
| `IocSpec.AppliedKeepsUnwritten` | src/main/java/org/simpleframework/inject/anotation/DependencyInjector.java:41 | a field that no write targets keeps its value |
| `IocSpec.OnlyAutowiredFieldsChange` | src/main/java/org/simpleframework/inject/anotation/DependencyInjector.java:35-42 | a pass changes no field of an object unless the object is the registered bean of a reached class (in the sense above) that declares that field `@Autowired` |
| `IocSpec.AppliedConcat` | src/main/java/org/simpleframework/inject/anotation/DependencyInjector.java:33-43 | writing one batch of fields and then another is the same as writing both in sequence |
| `IocSpec.AppliedIsOverride` | src/main/java/org/simpleframework/inject/anotation/DependencyInjector.java:41 | applying writes overrides the old fields with the last value written to each field |
| `IocSpec.AppliedTwice` | src/main/java/org/simpleframework/inject/anotation/DependencyInjector.java:23-46 | repeating the same writes leaves every field as the first time did |
| `Scenarios.SingleImplementationIsInjected` | src/main/java/org/simpleframework/inject/anotation/DependencyInjector.java:79-81 | with `Alpha` iterated before the field-less `Beta`, `Alpha.gamma` (type `Gamma`) is set to the only implementer `Beta`, and the pass then returns at `Beta` |
| `Scenarios.FieldlessClassFirstSkipsInjection` | src/main/java/org/simpleframework/inject/anotation/DependencyInjector.java:29-32 | with the field-less `Beta` iterated first, the pass writes nothing at all, and `Alpha` is not reached |
| `Scenarios.TwoImplementationsConflict` | src/main/java/org/simpleframework/inject/anotation/DependencyInjector.java:82-84 | two implementers of `Gamma` make resolution throw with `Gamma`'s name, with some non-null value (assumed `""`, since `@Autowired` is not part of this model) and with the value `"Beta1"` alike |
| `Scenarios.NoImplementationGivesNull` | src/main/java/org/simpleframework/inject/anotation/DependencyInjector.java:75-78 | with no implementer of `Gamma` registered, `Alpha.gamma` is written null and the pass goes on |

## Left out

- Package scanning (`ClassUtil.extractPackageClass`, `extractClassFile`, `loadClass`) is file-system walking and class loading. The model takes its result as an input.
- Scan failure is not modelled. When `loadClass` throws `RuntimeException` (`ClassUtil.java:87`), `loadBeans` throws with `loaded` still false, and `scan: Option<set<TypeName>>` cannot express that. The path slicing in `addToClassSet`, which discards the result of `replace`, is not modelled either.
- `ClassUtil.newInstance` and `ClassUtil.setField` are modelled abstractly. Allocation is modelled as always succeeding with a default-constructed object (`Runtime.Instance.constructor`). A write is modelled as always succeeding. So a class without a usable no-argument constructor, and a write the JVM would refuse, are not modelled. `IocSpec.WritesMatchTargetClass` gives the condition under which no write has a mismatched target.
- `synchronized` on `loadBeans`, the lock-free behaviour of `ConcurrentHashMap`, and the `ContainerHolder` enum singleton behind `getInstance()` are about concurrency and process-wide initialisation. The model is one container object used sequentially, and the injector receives it in its constructor.
- `ConcurrentHashMap` refuses null keys and values with a `NullPointerException`. In the model classes and beans are never null, so `addBean`, `removeBean` and `getBean` with null arguments are not modelled.
- `Core.BeanContainer.Size`: the result is an unbounded `nat`. `ConcurrentHashMap.size()` caps at `Integer.MAX_VALUE`.
- `Core.BeanContainer.Classes`: `getClasses()` is modelled as a set value. It does not model that Java's key-set view tracks later changes to the map.
- In the name-matching loop of `getImplementClass`, the `getSimpleName` comparison is never reached: the first iteration dereferences the null value. The model stops at that dereference.
- Reflection details are abstracted into the `Reflection` value: `setAccessible`, annotation objects, inherited annotations, and primitive-typed fields. Only reference values are written into fields.
- `demo.pattern.singleton.DoubleCheckLockSingleton` and `StarvingSingleton` are textbook singleton idioms outside the container.
