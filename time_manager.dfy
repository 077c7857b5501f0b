/** `TimeManager`: one registry per frame phase, the time-scale modifier list, the phase
    loops, and the process-wide lifecycle (the `IsRunning` flag and the `_instance`
    singleton). The C# statics, together with Unity's global `Time.timeScale` that the
    manager writes, live in the `Statics` object; every static entry point is a method of
    it.

    Participants are of the abstract types `U` (`IUpdatable`), `F` (`IFixedUpdatable`),
    `L` (`ILateUpdatable`) and `M` (`ITimeScaleModifier`); each registry carries its own
    `GetInstanceID`. */
module TimeManagement {
  import opened Wrappers
  import opened Lists
  import opened ComponentsList
  import opened PhaseLoop
  import opened TimeScale

  /** What a static entry point throws when `Instance` is null after shutdown. */
  datatype ManagerError = NullReference

  /** The contents of one manager: the three registries and the modifier list. */
  datatype Snapshot<U, F, L, M> = Snapshot(
    updatables: seq<U>, fixedUpdatables: seq<F>, lateUpdatables: seq<L>, modifiers: seq<M>)

  class TimeManager<U, F, L, M(==)> {
    const updatables: UnityComponentsList<U>
    const fixedUpdatables: UnityComponentsList<F>
    const lateUpdatables: UnityComponentsList<L>
    var modifiers: seq<M>

    /** The objects that make up this manager. */
    ghost function Repr(): set<object> {
      {this, updatables, fixedUpdatables, lateUpdatables}
    }

    /** The three registries are distinct and each keeps its representation invariant. */
    ghost predicate Valid()
      reads updatables, fixedUpdatables, lateUpdatables
    {
      updatables as object != fixedUpdatables as object &&
      updatables as object != lateUpdatables as object &&
      fixedUpdatables as object != lateUpdatables as object &&
      updatables.Valid() && fixedUpdatables.Valid() && lateUpdatables.Valid()
    }

    ghost function Contents(): Snapshot<U, F, L, M>
      reads Repr()
    {
      Snapshot(updatables.instances, fixedUpdatables.instances, lateUpdatables.instances, modifiers)
    }

    /** A new manager (the component `AddComponent<TimeManager>` creates): empty registries
        and no modifiers. */
    constructor (idU: U -> int, idF: F -> int, idL: L -> int)
      ensures Valid() && fresh(Repr())
      ensures updatables.idOf == idU && fixedUpdatables.idOf == idF && lateUpdatables.idOf == idL
      ensures Contents() == Snapshot([], [], [], [])
    {
      updatables := new UnityComponentsList(idU);
      fixedUpdatables := new UnityComponentsList(idF);
      lateUpdatables := new UnityComponentsList(idL);
      modifiers := [];
    }

    /** `Awake`: the first manager to wake becomes `_instance`; a later one, finding
        another manager there, destroys itself and leaves `_instance` alone. */
    method Awake(g: Statics<U, F, L, M>) returns (destroyed: bool)
      requires g.Valid() && g.Owns(this)
      modifies g`instance
      ensures g.Valid()
      ensures destroyed <==> old(g.instance) != null && old(g.instance) != this
      ensures destroyed ==> g.instance == old(g.instance)
      ensures !destroyed ==> g.instance == this
    {
      if g.instance != null {
        if g.instance != this {
          return true;
        }
      }
      g.instance := this;
      return false;
    }

    /** `OnApplicationQuit`: shuts the scheduler down, for good, but only when called on
        the current `_instance`. */
    method OnApplicationQuit(g: Statics<U, F, L, M>)
      modifies g`isRunning
      ensures g.isRunning <==> old(g.isRunning) && g.instance != this
    {
      if g.instance == this {
        g.isRunning := false;
      }
    }

    /** `Update`: the fault-isolated loop over the update registry. */
    method Update<X>(onUpdate: (nat, U) -> CallResult<X>) returns (trace: seq<Event<X>>)
      requires Valid()
      ensures trace == PhaseTrace(updatables.instances, onUpdate, 0)
    {
      trace := RunPhase(updatables, onUpdate);
    }

    /** `FixedUpdate`: the fault-isolated loop over the fixed-update registry. */
    method FixedUpdate<X>(onFixedUpdate: (nat, F) -> CallResult<X>) returns (trace: seq<Event<X>>)
      requires Valid()
      ensures trace == PhaseTrace(fixedUpdatables.instances, onFixedUpdate, 0)
    {
      trace := RunPhase(fixedUpdatables, onFixedUpdate);
    }

    /** `LateUpdate`: the fault-isolated loop over the late-update registry. */
    method LateUpdate<X>(onLateUpdate: (nat, L) -> CallResult<X>) returns (trace: seq<Event<X>>)
      requires Valid()
      ensures trace == PhaseTrace(lateUpdatables.instances, onLateUpdate, 0)
    {
      trace := RunPhase(lateUpdatables, onLateUpdate);
    }

    /** `UpdateTimeScale`: folds the modifiers' current factors into `Time.timeScale`. */
    method UpdateTimeScale(g: Statics<U, F, L, M>, scaleOf: M -> real)
      modifies g`timeScale
      ensures g.timeScale == ComposedScale(modifiers, scaleOf)
    {
      var timeScale := 1.0;
      for i := 0 to |modifiers|
        invariant timeScale == ComposedScale(modifiers[..i], scaleOf)
      {
        assert modifiers[..i + 1][..i] == modifiers[..i];
        timeScale := timeScale * scaleOf(modifiers[i]);
      }
      assert modifiers[..|modifiers|] == modifiers;
      g.timeScale := timeScale;
    }
  }

  /** The static state of `TimeManager` (`IsRunning`, `_instance`) and Unity's global
      `Time.timeScale`, with the static entry points. `found` stands for what
      `FindObjectOfType<TimeManager>()` would return from the scene. */
  class Statics<U, F, L, M(==)> {
    var isRunning: bool
    var instance: TimeManager?<U, F, L, M>
    var timeScale: real
    const idU: U -> int
    const idF: F -> int
    const idL: L -> int

    /** A manager that can serve as the instance: valid, with this process's ids. */
    ghost predicate Owns(tm: TimeManager<U, F, L, M>)
      reads tm.updatables, tm.fixedUpdatables, tm.lateUpdatables
    {
      tm.Valid() &&
      tm.updatables.idOf == idU && tm.fixedUpdatables.idOf == idF && tm.lateUpdatables.idOf == idL
    }

    ghost predicate Valid()
      reads this, if instance != null then instance.Repr() else {}
    {
      instance != null ==> Owns(instance)
    }

    /** The objects that `Instance` may hand out: the current instance, or else `found`. */
    ghost function Candidates(found: TimeManager?<U, F, L, M>): set<object>
      reads this
    {
      (if instance != null then instance.Repr() else {}) + (if found != null then found.Repr() else {})
    }

    /** The manager that `Instance` hands out while running, unless it has to create one:
        the current instance, or else the one found in the scene. */
    ghost function Handed(found: TimeManager?<U, F, L, M>): TimeManager?<U, F, L, M>
      reads this
    {
      if instance != null then instance else found
    }

    /** What the manager that `Instance` hands out holds: the current instance's contents,
        or else those of the manager found in the scene, or else nothing (a new one). */
    ghost function Target(found: TimeManager?<U, F, L, M>): Snapshot<U, F, L, M>
      reads this, Candidates(found)
    {
      if instance != null then instance.Contents()
      else if found != null then found.Contents()
      else Snapshot([], [], [], [])
    }

    /** The process starts running, with no instance and Unity's default time scale. */
    constructor (idU: U -> int, idF: F -> int, idL: L -> int)
      ensures Valid() && isRunning && instance == null && timeScale == 1.0
      ensures this.idU == idU && this.idF == idF && this.idL == idL
    {
      isRunning := true;
      instance := null;
      timeScale := 1.0;
      this.idU, this.idF, this.idL := idU, idF, idL;
    }

    /** The `Instance` getter: null once shut down; otherwise the current instance, or the
        one found in the scene, or a newly created one (whose `Awake` installs it). */
    method Instance(found: TimeManager?<U, F, L, M>) returns (tm: TimeManager?<U, F, L, M>)
      requires Valid() && (found != null ==> Owns(found))
      modifies this`instance
      ensures Valid()
      ensures tm == null <==> !isRunning
      ensures !isRunning ==> instance == old(instance)
      ensures isRunning ==> tm == instance && Owns(tm)
      ensures isRunning && old(instance) != null ==> tm == old(instance)
      ensures isRunning && old(instance) == null && found != null ==> tm == found
      ensures isRunning && old(instance) == null && found == null ==> fresh(tm.Repr())
      ensures isRunning ==> tm.Contents() == old(Target(found))
    {
      if isRunning {
        if instance == null {
          instance := found;
        }
        if instance == null {
          var created := new TimeManager(idU, idF, idL);
          var _ := created.Awake(this);
        }
        return instance;
      }
      return null;
    }

    /** `AddUpdatable`: nothing after shutdown; otherwise `AddUnique` on the update
        registry of the instance, touching nothing else. */
    method AddUpdatable(updatable: U, found: TimeManager?<U, F, L, M>)
      requires Valid() && (found != null ==> Owns(found))
      modifies this`instance, if isRunning && Handed(found) != null then {Handed(found).updatables} else {}
      ensures Valid() && isRunning == old(isRunning)
      ensures old(instance) != null ==> instance == old(instance)
      ensures isRunning && old(instance) == null && found != null ==> instance == found
      ensures isRunning && old(instance) == null && found == null ==> instance != null && fresh(instance.Repr())
      ensures !isRunning ==> instance == old(instance) && Target(found) == old(Target(found))
      ensures isRunning ==> (instance != null &&
        instance.Contents() == old(Target(found)).(updatables :=
          WithUnique(idU, old(Target(found)).updatables, updatable)))
    {
      if isRunning {
        var tm := Instance(found);
        var _ := tm.updatables.AddUnique(updatable);
      }
    }

    /** `RemoveUpdatable`: nothing after shutdown; otherwise `RemoveSwapBack` on the update
        registry of the instance, touching nothing else. */
    method RemoveUpdatable(updatable: U, found: TimeManager?<U, F, L, M>)
      requires Valid() && (found != null ==> Owns(found))
      modifies this`instance, if isRunning && Handed(found) != null then {Handed(found).updatables} else {}
      ensures Valid() && isRunning == old(isRunning)
      ensures old(instance) != null ==> instance == old(instance)
      ensures isRunning && old(instance) == null && found != null ==> instance == found
      ensures isRunning && old(instance) == null && found == null ==> instance != null && fresh(instance.Repr())
      ensures !isRunning ==> instance == old(instance) && Target(found) == old(Target(found))
      ensures isRunning ==> (instance != null &&
        instance.Contents() == old(Target(found)).(updatables :=
          WithoutSwapBack(idU, old(Target(found)).updatables, idU(updatable))))
    {
      if isRunning {
        var tm := Instance(found);
        var _ := tm.updatables.RemoveSwapBack(updatable);
      }
    }

    /** `AddFixedUpdatable`: as `AddUpdatable`, on the fixed-update registry. */
    method AddFixedUpdatable(updatable: F, found: TimeManager?<U, F, L, M>)
      requires Valid() && (found != null ==> Owns(found))
      modifies this`instance, if isRunning && Handed(found) != null then {Handed(found).fixedUpdatables} else {}
      ensures Valid() && isRunning == old(isRunning)
      ensures old(instance) != null ==> instance == old(instance)
      ensures isRunning && old(instance) == null && found != null ==> instance == found
      ensures isRunning && old(instance) == null && found == null ==> instance != null && fresh(instance.Repr())
      ensures !isRunning ==> instance == old(instance) && Target(found) == old(Target(found))
      ensures isRunning ==> (instance != null &&
        instance.Contents() == old(Target(found)).(fixedUpdatables :=
          WithUnique(idF, old(Target(found)).fixedUpdatables, updatable)))
    {
      if isRunning {
        var tm := Instance(found);
        var _ := tm.fixedUpdatables.AddUnique(updatable);
      }
    }

    /** `RemoveFixedUpdatable`: as `RemoveUpdatable`, on the fixed-update registry. */
    method RemoveFixedUpdatable(updatable: F, found: TimeManager?<U, F, L, M>)
      requires Valid() && (found != null ==> Owns(found))
      modifies this`instance, if isRunning && Handed(found) != null then {Handed(found).fixedUpdatables} else {}
      ensures Valid() && isRunning == old(isRunning)
      ensures old(instance) != null ==> instance == old(instance)
      ensures isRunning && old(instance) == null && found != null ==> instance == found
      ensures isRunning && old(instance) == null && found == null ==> instance != null && fresh(instance.Repr())
      ensures !isRunning ==> instance == old(instance) && Target(found) == old(Target(found))
      ensures isRunning ==> (instance != null &&
        instance.Contents() == old(Target(found)).(fixedUpdatables :=
          WithoutSwapBack(idF, old(Target(found)).fixedUpdatables, idF(updatable))))
    {
      if isRunning {
        var tm := Instance(found);
        var _ := tm.fixedUpdatables.RemoveSwapBack(updatable);
      }
    }

    /** `AddLateUpdatable`: as `AddUpdatable`, on the late-update registry. */
    method AddLateUpdatable(updatable: L, found: TimeManager?<U, F, L, M>)
      requires Valid() && (found != null ==> Owns(found))
      modifies this`instance, if isRunning && Handed(found) != null then {Handed(found).lateUpdatables} else {}
      ensures Valid() && isRunning == old(isRunning)
      ensures old(instance) != null ==> instance == old(instance)
      ensures isRunning && old(instance) == null && found != null ==> instance == found
      ensures isRunning && old(instance) == null && found == null ==> instance != null && fresh(instance.Repr())
      ensures !isRunning ==> instance == old(instance) && Target(found) == old(Target(found))
      ensures isRunning ==> (instance != null &&
        instance.Contents() == old(Target(found)).(lateUpdatables :=
          WithUnique(idL, old(Target(found)).lateUpdatables, updatable)))
    {
      if isRunning {
        var tm := Instance(found);
        var _ := tm.lateUpdatables.AddUnique(updatable);
      }
    }

    /** `RemoveLateUpdatable`: as `RemoveUpdatable`, on the late-update registry. */
    method RemoveLateUpdatable(updatable: L, found: TimeManager?<U, F, L, M>)
      requires Valid() && (found != null ==> Owns(found))
      modifies this`instance, if isRunning && Handed(found) != null then {Handed(found).lateUpdatables} else {}
      ensures Valid() && isRunning == old(isRunning)
      ensures old(instance) != null ==> instance == old(instance)
      ensures isRunning && old(instance) == null && found != null ==> instance == found
      ensures isRunning && old(instance) == null && found == null ==> instance != null && fresh(instance.Repr())
      ensures !isRunning ==> instance == old(instance) && Target(found) == old(Target(found))
      ensures isRunning ==> (instance != null &&
        instance.Contents() == old(Target(found)).(lateUpdatables :=
          WithoutSwapBack(idL, old(Target(found)).lateUpdatables, idL(updatable))))
    {
      if isRunning {
        var tm := Instance(found);
        var _ := tm.lateUpdatables.RemoveSwapBack(updatable);
      }
    }

    /** `Instance.UpdateTimeScale()` once an instance is installed: the getter hands out that
        same instance, whose modifiers then set the time scale. */
    method RecomputeTimeScale(scaleOf: M -> real, found: TimeManager?<U, F, L, M>)
      requires Valid() && (found != null ==> Owns(found)) && isRunning && instance != null
      modifies this`instance, this`timeScale
      ensures instance == old(instance)
      ensures timeScale == ComposedScale(instance.modifiers, scaleOf)
    {
      var tm := Instance(found);
      tm.UpdateTimeScale(this, scaleOf);
    }

    /** `AddTimeScaleModifier`: appends the modifier (a duplicate too) and recomputes the
        time scale. There is no `IsRunning` gate: after shutdown `Instance` is null and the
        call throws before changing anything. */
    method AddTimeScaleModifier(modifier: M, scaleOf: M -> real, found: TimeManager?<U, F, L, M>)
      returns (r: Outcome<ManagerError>)
      requires Valid() && (found != null ==> Owns(found))
      modifies this`instance, this`timeScale, if isRunning && Handed(found) != null then {Handed(found)} else {}
      ensures Valid() && isRunning == old(isRunning)
      ensures old(instance) != null ==> instance == old(instance)
      ensures isRunning && old(instance) == null && found != null ==> instance == found
      ensures isRunning && old(instance) == null && found == null ==> instance != null && fresh(instance.Repr())
      ensures r.Fail? <==> !isRunning
      ensures r.Fail? ==> (r.error == NullReference && instance == old(instance) &&
        timeScale == old(timeScale) && Target(found) == old(Target(found)))
      ensures r.Pass? ==> (instance != null &&
        instance.Contents() == old(Target(found)).(modifiers := old(Target(found)).modifiers + [modifier]) &&
        timeScale == ComposedScale(instance.modifiers, scaleOf))
    {
      var tm := Instance(found);
      if tm == null {
        return Fail(NullReference);
      }
      tm.modifiers := tm.modifiers + [modifier];
      RecomputeTimeScale(scaleOf, found);
      return Pass;
    }

    /** `RemoveTimeScaleModifier`: removes the first occurrence of the modifier, if any,
        and recomputes the time scale; throws after shutdown, as `AddTimeScaleModifier`. */
    method RemoveTimeScaleModifier(modifier: M, scaleOf: M -> real, found: TimeManager?<U, F, L, M>)
      returns (r: Outcome<ManagerError>)
      requires Valid() && (found != null ==> Owns(found))
      modifies this`instance, this`timeScale, if isRunning && Handed(found) != null then {Handed(found)} else {}
      ensures Valid() && isRunning == old(isRunning)
      ensures old(instance) != null ==> instance == old(instance)
      ensures isRunning && old(instance) == null && found != null ==> instance == found
      ensures isRunning && old(instance) == null && found == null ==> instance != null && fresh(instance.Repr())
      ensures r.Fail? <==> !isRunning
      ensures r.Fail? ==> (r.error == NullReference && instance == old(instance) &&
        timeScale == old(timeScale) && Target(found) == old(Target(found)))
      ensures r.Pass? ==> (instance != null &&
        instance.Contents() == old(Target(found)).(modifiers := RemoveFirst(old(Target(found)).modifiers, modifier)) &&
        timeScale == ComposedScale(instance.modifiers, scaleOf))
    {
      var tm := Instance(found);
      if tm == null {
        return Fail(NullReference);
      }
      tm.modifiers := RemoveFirst(tm.modifiers, modifier);
      RecomputeTimeScale(scaleOf, found);
      return Pass;
    }
  }
}
