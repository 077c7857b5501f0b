# TimeManagement scheduler core, in Dafny

This project models the core of the Unity package `CerealDevelopment.TimeManagement`. That core is a singleton `TimeManager` that forwards Unity's `Update`, `FixedUpdate` and `LateUpdate` phases to registered components, and composes `Time.timeScale` from a list of modifiers. The model has two parts.

- **`UnityComponentsList<T>`** (`components_list.dfy`) is the identity-keyed registry behind each phase.
  - It keeps two parallel lists, `instances` and `ids`, plus a `count` field.
  - The indexer's setter, `Clear`, `Add`, `AddRange`, `AddUnique`, `AddUniqueRange`, `RemoveAtWithReorder`, `RemoveSwapBack` and `Remove` update them in place.
  - The indexer's getter, `GetByID`, `Contains` and `IndexOf` are lookups that write nothing.
  - The model is a class with those three fields and a representation invariant `Valid()`. Each mutating method states the new `instances` in terms of the old ones. `AddUnique`, `AddUniqueRange`, `RemoveSwapBack`, `Remove` and `RemoveAtWithReorder` use the functions `WithUnique`, `WithAllUnique`, `WithoutSwapBack`, `WithoutInOrder` and `SwapBack`. The setter, `Clear`, `Add` and `AddRange` use plain expressions: the old list with slot `i` replaced, the empty list, the old list plus the value, and the old list plus the given list.
  - Lemmas then state what the source promises about those functions:
    - exactly one entry per id after `AddUnique`;
    - idempotence;
    - removal of the id;
    - survivor order;
    - add/remove round trips.
  - `GetInstanceID` is the abstract function `idOf: T -> int`.
- **`TimeManager`** (`time_manager.dfy`, `phase_loop.dfy`, `time_scale.dfy`) covers the dispatcher logic.
  - **Phase loops.** A callback is modelled by how it ends (`Returned` or `Threw(e)`), as a function of the slot and the entry in it. A phase produces a trace of `Invoked(slot)` and `Logged(e)` events. `RunPhase` mirrors the nested `while`/`try`/`for`/`catch` loops and is proved to produce `PhaseTrace`. Lemmas about `PhaseTrace` show four things:
    - every slot is invoked once, in order, even when callbacks throw;
    - no slot at or past the count is ever invoked;
    - each fault is logged exactly once, right after its invocation;
    - nothing else is logged.
  - **Statics.** The C# statics `IsRunning` and `_instance`, with Unity's global `Time.timeScale`, are the fields of a `Statics` object. Every static entry point is a method of it:
    - the `Instance` getter;
    - the six registration gates;
    - `AddTimeScaleModifier` and `RemoveTimeScaleModifier`.

    `FindObjectOfType<TimeManager>()` is a parameter `found`: the manager present in the scene, or null.
  - **Time scale.** `UpdateTimeScale` is an accumulator loop proved to compute `ComposedScale`, the product of the modifiers' factors starting from 1. Lemmas show three things:
    - the product does not depend on the modifiers' order;
    - removing a modifier divides exactly one copy of its factor out;
    - an add followed by a remove of the same modifier restores the scale.

Files: `wrappers.dfy` (`Option`, `Result`, `Outcome`), `lists.dfy` (the effect of `List<T>.RemoveAt` and `List<T>.Remove`), `components_list.dfy`, `phase_loop.dfy`, `time_scale.dfy`, `time_manager.dfy`.

Three behaviours of the code worth noting:

- `AddTimeScaleModifier` appends a modifier even when it is already in the list (`Runtime/TimeManager.cs:168`). A factor added twice therefore counts twice, and `RemoveTimeScaleModifier` takes out only the first copy.
- `AddTimeScaleModifier` and `RemoveTimeScaleModifier` have no `IsRunning` gate. After shutdown `Instance` is null and the call throws `NullReferenceException` before changing anything. The model returns `Fail(NullReference)`.
- `RemoveAtWithReorder` checks only `index > last`. A negative index still throws `ArgumentOutOfRangeException`, raised by `List<T>` itself before anything is written. The model fails on both.

## Model

| member | source | states |
|---|---|---|
| ComponentsList.UnityComponentsList.constructor | Runtime/UnityComponentsList.cs:26-29 | a new registry is empty and satisfies the representation invariant |
| ComponentsList.UnityComponentsList.FromList | Runtime/UnityComponentsList.cs:31-34 | the list constructor holds exactly the given list, in order, with the invariant established |
| ComponentsList.UnityComponentsList.Get | Runtime/UnityComponentsList.cs:16-18 | the indexer getter returns slot `i` exactly when `0 <= i < count`, and fails with ArgumentOutOfRange otherwise |
| ComponentsList.UnityComponentsList.Set | Runtime/UnityComponentsList.cs:19-23 | the setter replaces only slot `i` and refreshes its id, keeping the invariant; out of range it throws and changes nothing |
| ComponentsList.UnityComponentsList.GetByID | Runtime/UnityComponentsList.cs:36-46 | returns the entry in the least slot carrying the id; returns `default` (None) exactly when no entry carries it |
| ComponentsList.UnityComponentsList.Clear | Runtime/UnityComponentsList.cs:48-53 | afterwards both lists are empty and `count == 0` |
| ComponentsList.UnityComponentsList.Add | Runtime/UnityComponentsList.cs:55-61 | appends the value (duplicates too), raises `count` by one and keeps the invariant |
| ComponentsList.UnityComponentsList.AddRange | Runtime/UnityComponentsList.cs:63-72 | appends the list's elements in order and raises `count` by the list's length |
| ComponentsList.UnityComponentsList.AddUnique | Runtime/UnityComponentsList.cs:75-83 | returns true exactly when the id was absent; then it appends and raises `count`, otherwise it changes nothing |
| ComponentsList.UnityComponentsList.AddUniqueRange | Runtime/UnityComponentsList.cs:85-91 | the contents become `AddUnique` of each list element in turn |
| ComponentsList.UnityComponentsList.Contains | Runtime/UnityComponentsList.cs:93-104 | true exactly when some entry has the value's instance id |
| ComponentsList.UnityComponentsList.RemoveAtWithReorder | Runtime/UnityComponentsList.cs:107-127 | out of range it throws before any change; otherwise the last entry moves into the slot, every other slot keeps its entry and `count` drops by one |
| ComponentsList.UnityComponentsList.MoveLastInto | Runtime/UnityComponentsList.cs:136-149 | the shared swap-back step keeps the invariant, leaves `SwapBack` of the old contents and drops `count` by one |
| ComponentsList.UnityComponentsList.RemoveSwapBack | Runtime/UnityComponentsList.cs:129-154 | returns true exactly when the id is present; then the first matching slot gets the last entry (or is dropped if it was last) and `count` drops by one; otherwise nothing changes |
| ComponentsList.UnityComponentsList.Remove | Runtime/UnityComponentsList.cs:156-170 | returns true exactly when the id is present; then the first matching entry is removed with the rest shifted down, otherwise nothing changes |
| ComponentsList.UnityComponentsList.IndexOf | Runtime/UnityComponentsList.cs:172-183 | the least slot whose id matches, or -1 |
| ComponentsList.FirstWithId | Runtime/UnityComponentsList.cs:172-183 | the result is -1 exactly when no entry has the id; otherwise its entry has the id and no earlier entry does |
| ComponentsList.SwapBack | Runtime/UnityComponentsList.cs:114-125 | one entry fewer; the hole holds the former last entry; every other slot is unchanged |
| ComponentsList.SwapBackMultiset | Runtime/UnityComponentsList.cs:114-125 | swap-back removal takes out exactly one copy of the removed entry and keeps every other entry |
| ComponentsList.SwapBackParallel | Runtime/UnityComponentsList.cs:114-125 | doing the swap-back on `instances` and `ids` at the same slot keeps `ids[j]` the id of `instances[j]` |
| ComponentsList.WithUnique | Runtime/UnityComponentsList.cs:75-83 | what `AddUnique` leaves: the old entries untouched as a prefix, at most one entry more, and the value's id present afterwards |
| ComponentsList.WithAllUnique | Runtime/UnityComponentsList.cs:85-91 | what `AddUniqueRange` leaves: the old entries untouched as a prefix, and at most one new entry per list element |
| ComponentsList.WithoutSwapBack | Runtime/UnityComponentsList.cs:129-154 | what `RemoveSwapBack` leaves: the contents unchanged when no entry has the id, and otherwise one entry fewer |
| ComponentsList.WithoutInOrder | Runtime/UnityComponentsList.cs:156-170 | what `Remove` leaves: the contents unchanged when no entry has the id, and otherwise one entry fewer |
| ComponentsList.CountIdZero | Runtime/UnityComponentsList.cs:93-104 | an id occurs zero times exactly when `Contains` would be false |
| ComponentsList.UniqueIdsCountAtMostOne | Runtime/UnityComponentsList.cs:75-83 | in a registry built without duplicate ids, each id occurs at most once |
| ComponentsList.AddUniqueExactlyOnce | Runtime/UnityComponentsList.cs:75-83 | after `AddUnique`, exactly one entry has the added id, and a duplicate-free registry stays duplicate-free |
| ComponentsList.AddUniqueIdempotent | Runtime/UnityComponentsList.cs:75-83 | a second `AddUnique` with an id already added leaves the contents unchanged |
| ComponentsList.AddAllUniqueExactlyOnce | Runtime/UnityComponentsList.cs:85-91 | after any sequence of `AddUnique` calls, an id added at least once has exactly one entry, and no duplicates appear |
| ComponentsList.AddUniqueCountStep | Runtime/UnityComponentsList.cs:75-83 | one `AddUnique` keeps an id at most once, makes it exactly once when the added entry carries it, and keeps an id already present exactly once |
| ComponentsList.CountPresentStaysOne | Runtime/UnityComponentsList.cs:85-91 | once an id occurs exactly once, further `AddUnique` calls keep it at exactly once |
| ComponentsList.RemoveSwapBackRemovesId | Runtime/UnityComponentsList.cs:129-154 | in a duplicate-free registry, swap-back removal of a present id leaves one entry fewer, no entry with that id, and ids still unique |
| ComponentsList.RemoveKeepsOrder | Runtime/UnityComponentsList.cs:156-170 | order-preserving removal keeps the survivors before and after the removed slot in their relative order, and removes the id from a duplicate-free registry |
| ComponentsList.AddUniqueThenRemoveSwapBack | Runtime/UnityComponentsList.cs:75-83 | `AddUnique` of a new id followed by `RemoveSwapBack` of it restores the contents |
| ComponentsList.AddUniqueThenRemove | Runtime/UnityComponentsList.cs:156-170 | `AddUnique` of a new id followed by `Remove` of it restores the contents |
| Lists.RemoveAt | Runtime/UnityComponentsList.cs:163-164 | `List<T>.RemoveAt`: slot `i` is dropped, earlier slots are kept, later ones shift down |
| Lists.RemoveAtMultiset | Runtime/UnityComponentsList.cs:163-164 | `List<T>.RemoveAt` takes out exactly one copy of the element in the slot |
| Lists.RemoveFirst | Runtime/TimeManager.cs:178 | `List<T>.Remove`: nothing changes when the element is absent; otherwise the length drops by one and exactly one copy is gone |
| Lists.RemoveFirstShape | Runtime/TimeManager.cs:178 | `List<T>.Remove` removes precisely the first occurrence, keeping everything before it |
| PhaseLoop.PhaseTraceStep | Runtime/TimeManager.cs:95-101 | one slot of a phase: a returning callback lets the phase go on at the next slot; a throwing one is followed by its log entry |
| PhaseLoop.InvokeUntilThrow | Runtime/TimeManager.cs:93-102 | the `try` block invokes slots in order, re-reading the count, until one throws (the trace so far then ends with its invocation, to be followed by its log entry) or the count is reached |
| PhaseLoop.RunPhase | Runtime/TimeManager.cs:87-110 | the `while` loop with catch-and-increment produces exactly the phase trace of the registry's entries |
| PhaseLoop.EverySlotInvokedOnce | Runtime/TimeManager.cs:91-101 | slots 0 .. Count-1 are invoked exactly once each, in ascending order, and none at or past Count, however many callbacks throw |
| PhaseLoop.InvokedSlots | Runtime/TimeManager.cs:91-101 | the slots a phase invokes are exactly the slots from the start to the count, in order |
| PhaseLoop.EachFaultLoggedOnce | Runtime/TimeManager.cs:103-108 | the logged exceptions are exactly the thrown ones, one per throwing slot, in slot order |
| PhaseLoop.PhaseLogsFaultsAtOnce | Runtime/TimeManager.cs:103-108 | a throwing callback's exception is logged straight after its invocation, before the next slot runs |
| PhaseLoop.PhaseLogsFollowFaults | Runtime/TimeManager.cs:103-108 | every log entry directly follows the invocation that threw it |
| TimeManagement.TimeManager.constructor | Runtime/TimeManager.cs:51-61 | a new manager has three distinct empty registries and no modifiers |
| TimeManagement.TimeManager.Awake | Runtime/TimeManager.cs:63-77 | keep-first: when another manager is already `_instance`, the newcomer destroys itself and `_instance` is unchanged; otherwise `_instance` becomes this |
| TimeManagement.TimeManager.OnApplicationQuit | Runtime/TimeManager.cs:42-48 | `IsRunning` becomes false exactly when this is the current `_instance`, and is never set back to true |
| TimeManagement.TimeManager.Update | Runtime/TimeManager.cs:87-110 | the update phase's trace is the phase trace of the update registry |
| TimeManagement.TimeManager.FixedUpdate | Runtime/TimeManager.cs:112-132 | the fixed-update phase's trace is the phase trace of the fixed-update registry |
| TimeManagement.TimeManager.LateUpdate | Runtime/TimeManager.cs:134-159 | the late-update phase's trace is the phase trace of the late-update registry |
| TimeManagement.TimeManager.UpdateTimeScale | Runtime/TimeManager.cs:182-190 | `Time.timeScale` becomes the product of all modifiers' factors, 1 when there are none |
| TimeManagement.Statics.constructor | Runtime/TimeManager.cs:19-20 | the process starts with `IsRunning` true and no `_instance` |
| TimeManagement.Statics.Instance | Runtime/TimeManager.cs:21-40 | null exactly after shutdown; otherwise the existing instance, else the one found in the scene, else a new one that its `Awake` installs |
| TimeManagement.Statics.AddUpdatable | Runtime/TimeManager.cs:208-214 | no-op after shutdown (nothing is written at all); otherwise `_instance` is kept when set, and otherwise becomes the manager found in the scene or a new one whose registries are all new objects; `AddUnique` on that manager's update registry, which is the only object written, so the other registries and the modifiers are unchanged |
| TimeManagement.Statics.RemoveUpdatable | Runtime/TimeManager.cs:220-226 | no-op after shutdown (nothing is written at all); otherwise `_instance` is kept when set, and otherwise becomes the manager found in the scene or a new one whose registries are all new objects; `RemoveSwapBack` on that manager's update registry, which is the only object written, so the other registries and the modifiers are unchanged |
| TimeManagement.Statics.AddFixedUpdatable | Runtime/TimeManager.cs:231-237 | no-op after shutdown (nothing is written at all); otherwise `_instance` is kept when set, and otherwise becomes the manager found in the scene or a new one whose registries are all new objects; `AddUnique` on that manager's fixed-update registry, which is the only object written, so the other registries and the modifiers are unchanged |
| TimeManagement.Statics.RemoveFixedUpdatable | Runtime/TimeManager.cs:243-249 | no-op after shutdown (nothing is written at all); otherwise `_instance` is kept when set, and otherwise becomes the manager found in the scene or a new one whose registries are all new objects; `RemoveSwapBack` on that manager's fixed-update registry, which is the only object written, so the other registries and the modifiers are unchanged |
| TimeManagement.Statics.AddLateUpdatable | Runtime/TimeManager.cs:255-261 | no-op after shutdown (nothing is written at all); otherwise `_instance` is kept when set, and otherwise becomes the manager found in the scene or a new one whose registries are all new objects; `AddUnique` on that manager's late-update registry, which is the only object written, so the other registries and the modifiers are unchanged |
| TimeManagement.Statics.RemoveLateUpdatable | Runtime/TimeManager.cs:267-273 | no-op after shutdown (nothing is written at all); otherwise `_instance` is kept when set, and otherwise becomes the manager found in the scene or a new one whose registries are all new objects; `RemoveSwapBack` on that manager's late-update registry, which is the only object written, so the other registries and the modifiers are unchanged |
| TimeManagement.Statics.RecomputeTimeScale | Runtime/TimeManager.cs:169 | `Instance.UpdateTimeScale()` with an instance installed: the same instance is handed out and the time scale becomes the product of its modifiers' factors |
| TimeManagement.Statics.AddTimeScaleModifier | Runtime/TimeManager.cs:166-170 | after shutdown it throws NullReference and writes nothing; otherwise `_instance` is kept when set, and otherwise becomes the manager found in the scene or a new one whose registries are all new objects; the modifier is appended to that manager's list (duplicates too), the registries are untouched, and the time scale becomes the product over the new list |
| TimeManagement.Statics.RemoveTimeScaleModifier | Runtime/TimeManager.cs:176-180 | after shutdown it throws NullReference and writes nothing; otherwise `_instance` is kept when set, and otherwise becomes the manager found in the scene or a new one whose registries are all new objects; the first occurrence of the modifier is removed from that manager's list, the registries are untouched, and the time scale is recomputed over the new list |
| TimeScale.ComposedScaleAppend | Runtime/TimeManager.cs:184-188 | the product over two lists in sequence is the product of their products |
| TimeScale.ComposedScaleNonNegative | Runtime/TimeManager.cs:184-188 | the product that `UpdateTimeScale` writes to `Time.timeScale` is never negative when no modifier's factor is |
| TimeScale.ComposedScaleRemoveAt | Runtime/TimeManager.cs:184-188 | taking one modifier out of any slot divides exactly its factor out of the scale |
| TimeScale.ComposedScaleSplit | Runtime/TimeManager.cs:184-188 | a factor in the middle of the list can be pulled to the front of the product |
| TimeScale.ComposedScalePermutation | Runtime/TimeManager.cs:184-188 | the composed scale does not depend on the order of the modifiers |
| TimeScale.ComposedScaleSnoc | Runtime/TimeManager.cs:184-188 | appending a modifier multiplies its factor into the scale |
| TimeScale.ComposedScaleMoveLast | Runtime/TimeManager.cs:184-188 | moving one modifier to the end of the list keeps the scale |
| TimeScale.RemoveModifierScale | Runtime/TimeManager.cs:176-190 | removing a registered modifier divides one copy of its factor out of the scale; removing an unregistered one leaves the scale unchanged |
| TimeScale.AddThenRemoveModifierScale | Runtime/TimeManager.cs:166-190 | adding and then removing the same modifier restores the scale, even when it was already registered |

## Left out

- Runtime/Timer.cs is not part of this model. It reads the Unity clock with float arithmetic and raises C# events, and it only uses the registration API.
- Runtime/UpdatableExtensions.cs is not part of this model. It holds one-line forwarders to the static `TimeManager` methods.
- The `deltaTime` argument is not modelled. `Update` clamps `Time.deltaTime` to 1/30 and passes it to `OnUpdate`, but `IUpdatable.OnUpdate` declares no parameter (Runtime/IUpdatable.cs). The callbacks are therefore modelled without a time argument.
- `ProfilerMarker` and the `as Component` cast around each update call are not modelled separately. An exception they raise is one of the callback's outcomes.
- `Start`, `UpdatePhysics`, `Physics.Simulate`, the `updatePhysics` switch and the `Time.fixedDeltaTime` write are left out. They are engine plumbing outside the scheduling logic.
- `Debug.LogException` is modelled as a `Logged` event in the phase trace. The text of a log entry is not modelled.
- `FindObjectOfType`, `new GameObject`, `DontDestroyOnLoad` and `Destroy` are not modelled as engine calls.
  - The scene lookup is the `found` parameter.
  - A created manager is a fresh `TimeManager` whose `Awake` runs straight away.
  - `Awake` reports destruction through its result and does not remove the object.
- Unity's overloaded `==` on destroyed objects is not modelled. A destroyed manager is not treated as null.
- Modifier factors are reals and come from a function `scaleOf: M -> real`, read when the scale is recomputed. The float rounding of the product is not modelled.
- `List<T>.Remove` on the modifier list compares with the modifier type's `Equals`. It is modelled as Dafny equality on `M`.
- Callbacks that add to or remove from the registry being iterated are not modelled. The phase loops take the registry as unchanged during a phase. The source only gives a best-effort guarantee there.
- `Count` is modelled as the `count` field itself, since the property simply returns it.
- `GetInstanceID` (`idOf`) and a modifier's `TimeScale` (`scaleOf`) are total functions here, so null participants and getters that throw are not modelled. In the source such a throw can leave a partial change behind, as the next four lines describe.
- Add: when `GetInstanceID` throws, `instances` has already grown (Runtime/UnityComponentsList.cs:57-58) and `count` has not; the model's `Add` always completes.
- AddRange: a null element in the middle leaves both lists longer than `count`, which is raised only at the end (Runtime/UnityComponentsList.cs:65-71); the model's `AddRange` always completes.
- Set: when `GetInstanceID` throws, the slot is written but its id is stale (Runtime/UnityComponentsList.cs:21-22); the model's `Set` always refreshes the id.
- AddTimeScaleModifier: a null modifier is appended and then makes `UpdateTimeScale` throw, leaving the time scale stale, and every later recomputation throws until a `RemoveTimeScaleModifier(null)` takes the null entry out again (Runtime/TimeManager.cs:168-169, 178, 187); the model's factors always exist.
- The static entry points do not exclude a manager found in the scene that shares a registry object with the installed instance. The source never builds one, because each manager creates its own registries (Runtime/TimeManager.cs:57-61).
