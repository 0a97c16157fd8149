/** `Workflow::State` and `Workflow::Specification` as objects. A `Specification` keeps, as
    ghost state, the value model of `Declarations` and every `State` it has created, and
    `Valid()` ties its real fields and those of its States to that model; each declaration
    method changes them exactly as the corresponding step of the model does. */
module Workflow {
  import opened Values
  import opened Events
  import opened Declarations
  import Order

  /** What `<=>` accepts: another State, or a name given as a symbol or a string. */
  datatype Comparand = AState(state: State) | AName(name: Ident)
  {
    /** `other_state.to_sym`. */
    function ToSym(): (r: Name)
      ensures r == if AState? then state.name.text else name.text
    {
      match this
      case AState(st) => st.ToSym()
      case AName(n) => n.ToSym()
    }
  }

  class State {
    const name: Ident
    const spec: Specification
    /** The position of this State among those its specification created. */
    ghost const index: nat
    var events: Collection
    var meta: Value
    var onEntry: Hook
    var onExit: Hook
    var handler: Option<Handler>

    /** `State.new(name, spec, meta)`: an empty event collection; no hooks, no handler. */
    constructor(name: Ident, spec: Specification, meta: Value, ghost index: nat)
      ensures this.name == name && this.spec == spec && this.meta == meta && this.index == index
      ensures events == Empty && onEntry == Unset && onExit == Unset && handler == None
    {
      this.name := name;
      this.spec := spec;
      this.index := index;
      this.meta := meta;
      events := Empty;
      onEntry := Unset;
      onExit := Unset;
      handler := None;
    }

    /** The State's fields as a value of the model. */
    ghost function Snapshot(): StateVal
      reads this
    {
      StateVal(name, meta, events, onEntry, onExit, handler)
    }

    /** `to_s`: the name as a string, whichever form it was given in. */
    function ToS(): (r: string)
      ensures r == name.text
    {
      name.ToS()
    }

    /** `to_sym`: the name as a symbol; the same for `state :a` and `state 'a'`. */
    function ToSym(): (r: Name)
      ensures r == name.text && r == ToS()
    {
      name.ToSym()
    }

    /** `events_list`: one entry per event name, in first-pushed order, with the first event
        declared under that name. */
    function EventsList(): (r: seq<ListEntry>)
      reads this
      ensures |r| == |Names(events)| && forall i | 0 <= i < |r| :: r[i].event == Names(events)[i]
      ensures forall i | 0 <= i < |r| :: r[i].first == Lookup(events, Names(events)[i])[0]
    {
      Events.EventsList(events)
    }

    /** `self <=> other`, against the keys of the owning specification's `states`. */
    function CompareTo(other: Comparand): (r: Order.Ordering)
      reads spec
      ensures r.UnknownState? <==> other.ToSym() !in spec.keys
      ensures r.NilOrder? <==> other.ToSym() in spec.keys && ToSym() !in spec.keys
      ensures r.Order? ==> r.sign == Order.Spaceship(Order.IndexOf(spec.keys, ToSym()), Order.IndexOf(spec.keys, other.ToSym()))
    {
      Order.Compare(spec.keys, ToSym(), other.ToSym())
    }

    /** `<=>` looks only at the argument's name: a State, its name as a symbol and its name
        as a string give the same answer. */
    lemma CompareByName(other: State)
      ensures CompareTo(AState(other)) == CompareTo(AName(Sym(other.name.text)))
      ensures CompareTo(AState(other)) == CompareTo(AName(Str(other.name.text)))
    {
    }
  }

  class Specification {
    var keys: seq<Name>              // `states.keys`, in Hash order
    var states: map<Name, State>     // `states`
    var initialState: State?
    var scoped: State?
    var meta: Value
    var beforeTransition: Option<Proc>
    var afterTransition: Option<Proc>
    var onTransition: Option<Proc>
    var onError: Option<Proc>
    /** Every State this specification has created, in creation order. */
    ghost var heap: seq<State>
    /** The same States as a set, for frames. */
    ghost var created: set<State>
    /** The value this specification and its States represent. */
    ghost var model: SpecVal

    /** The model is exactly these fields and the fields of the created States; `states` maps
        each key to the State at its model index; the initial state is the first State created
        and the scope the last. */
    ghost predicate Valid()
      reads this, heap
    {
      Wf(model) && Owned(heap, this, created)
      && model == SpecVal(keys, model.states, Snapshots(heap), model.initial, model.scoped, meta,
                          beforeTransition, afterTransition, onTransition, onError)
      && (states, initialState, scoped) == (StateMap(heap, model.states), First(heap), Last(heap))
    }

    /** States belonging to `owner`, each at its own index (so no State occurs twice). */
    static ghost predicate Owned(objs: seq<State>, owner: Specification, within: set<State>)
    {
      forall i | 0 <= i < |objs| :: objs[i].spec == owner && objs[i].index == i && objs[i] in within
    }

    static ghost function Snapshots(objs: seq<State>): (r: seq<StateVal>)
      reads objs
      ensures |r| == |objs|
    {
      seq(|objs|, i reads objs requires 0 <= i < |objs| => objs[i].Snapshot())
    }

    /** The map from keys to State objects that the model's map of heap indices denotes. */
    static ghost function StateMap(objs: seq<State>, ids: map<Name, nat>): map<Name, State>
    {
      map k | k in ids && ids[k] < |objs| :: objs[ids[k]]
    }

    static ghost function First(objs: seq<State>): State?
    {
      if |objs| == 0 then null else objs[0]
    }

    static ghost function Last(objs: seq<State>): State?
    {
      if |objs| == 0 then null else objs[|objs| - 1]
    }

    /** `Specification.new(meta)` before its block is evaluated. */
    constructor(meta: Value)
      ensures Valid() && model == Init(meta) && heap == [] && created == {}
    {
      keys := [];
      states := map[];
      initialState := null;
      scoped := null;
      this.meta := meta;
      beforeTransition := None;
      afterTransition := None;
      onTransition := None;
      onError := None;
      heap := [];
      created := {};
      model := Init(meta);
    }

    /** `Specification.new(meta) { ... }`: the block evaluated against a new specification;
        the `WorkflowDefinitionError` it may raise becomes `Err`. */
    static method Build(meta: Value, block: seq<Decl>) returns (r: Result<Specification>)
      requires Declarable(false, block)
      ensures r.Ok? <==> Run(Init(meta), block).Ok?
      ensures r.Ok? ==> r.value.Valid() && r.value.model == Run(Init(meta), block).value
      ensures r.Err? ==> r.error == Run(Init(meta), block).error
    {
      var spec := new Specification(meta);
      var err := spec.Evaluate(block);
      r := if err.Some? then Err(err.value) else Ok(spec);
    }

    /** `state_names`: every key of `states` once, in Hash order. */
    function StateNames(): (r: seq<Name>)
      reads this, heap
      requires Valid()
      ensures r == keys
      ensures Order.Distinct(r) && forall k :: k in r <==> k in states
    {
      StatesAgree(); KeysIds(model.heap); keys
    }

    /** `instance_eval` of a block: its declarations one after another, stopping at the first
        definition error. */
    method Evaluate(block: seq<Decl>) returns (err: Option<DefinitionError>)
      requires Valid() && Declarable(model.scoped.Some?, block)
      modifies this, created
      ensures Valid() && fresh(created - old(created))
      ensures err == ErrorOf(Run(old(model), block))
      ensures err.None? ==> model == Run(old(model), block).value
      decreases SizeAll(block), 1
    {
      if block == [] {
        return None;
      }
      RunCons(model, block);
      err := Declare(block[0]);
      if err.None? {
        err := Evaluate(block[1..]);
      }
    }

    /** One declaration of a block. */
    method Declare(d: Decl) returns (err: Option<DefinitionError>)
      requires Valid() && (NeedsScope(d) ==> model.scoped.Some?)
      modifies this, created
      ensures Valid() && fresh(created - old(created))
      ensures err == ErrorOf(Exec(old(model), d))
      ensures err.None? ==> model == Exec(old(model), d).value
      decreases Size(d), 0
    {
      if d.StateDecl? {
        err := DeclareState(d.name, d.meta, d.body);
        return;
      }
      ExecOther(model, d);
      match d
      case HandlerDecl(klass) =>
        DeclareHandler(klass);
        err := None;
      case EventDecl(name, args, action) =>
        err := DeclareEvent(name, args, action);
      case OnEntryDecl(p) =>
        DeclareOnEntry(p);
        err := None;
      case OnExitDecl(p) =>
        DeclareOnExit(p);
        err := None;
      case TransitionHookDecl(kind, p) =>
        match kind {
          case BeforeTransition => DeclareBeforeTransition(p);
          case AfterTransition => DeclareAfterTransition(p);
          case OnTransition => DeclareOnTransition(p);
          case OnError => DeclareOnError(p);
        }
        err := None;
    }

    /** `state(name, meta) { block }`. */
    method DeclareState(name: Ident, meta: map<Name, Value>, block: seq<Decl>) returns (err: Option<DefinitionError>)
      requires Valid()
      modifies this, created
      ensures Valid() && fresh(created - old(created))
      ensures err == ErrorOf(Exec(old(model), StateDecl(name, meta, block)))
      ensures err.None? ==> model == Exec(old(model), StateDecl(name, meta, block)).value
      decreases SizeAll(block), 2
    {
      var _ := AddState(name, meta);
      err := Evaluate(block);
    }

    /** `state(name, meta)` up to its block: a new State with meta `meta[:meta]` is stored
        under `name.to_sym` (a known key keeps its position), becomes the initial state if
        `states` was empty, and becomes the scope; `meta` becomes the whole argument. */
    method AddState(name: Ident, meta: map<Name, Value>) returns (nu: State)
      requires Valid()
      modifies this
      ensures Valid() && model == StateStep(old(model), name, meta)
      ensures fresh(nu) && (heap, created) == (old(heap) + [nu], old(created) + {nu})
      ensures nu.Snapshot() == NewState(name, Fetch(meta, "meta")) && nu.spec == this
      ensures (keys, states, initialState, scoped, this.meta)
           == (if name.ToSym() in old(states) then old(keys) else old(keys) + [name.ToSym()],
               old(states)[name.ToSym() := nu],
               if old(states) == map[] then nu else old(initialState),
               nu, Hash(meta))
      ensures (beforeTransition, afterTransition, onTransition, onError)
           == old((beforeTransition, afterTransition, onTransition, onError))
    {
      nu := Store(name, meta);
      Record(name, nu, meta);
      StateAppended(name, nu, meta);
    }

    /** The assignments of `state` to real fields: a new State, stored as `@initial_state` if
        `@states` was empty, under `name.to_sym` in `@states`, and as `@scoped_state`; `@meta`. */
    method Store(name: Ident, meta: map<Name, Value>) returns (nu: State)
      modifies this
      ensures fresh(nu) && nu.Snapshot() == NewState(name, Fetch(meta, "meta"))
      ensures nu.spec == this && nu.index == |heap|
      ensures (heap, created, model) == old((heap, created, model))
      ensures (keys, states, initialState, scoped, this.meta)
           == (if name.ToSym() in old(states) then old(keys) else old(keys) + [name.ToSym()],
               old(states)[name.ToSym() := nu],
               if old(states) == map[] then nu else old(initialState), nu, Hash(meta))
      ensures (beforeTransition, afterTransition, onTransition, onError)
           == old((beforeTransition, afterTransition, onTransition, onError))
    {
      nu := new State(name, this, Fetch(meta, "meta"), |heap|);
      var key := name.ToSym();
      if states == map[] {
        initialState := nu;
      }
      keys, states := if key in states then keys else keys + [key], states[key := nu];
      scoped := nu;
      this.meta := Hash(meta);
    }

    /** The ghost part of `state`: the new State is recorded, and the model takes the step. */
    ghost method Record(name: Ident, nu: State, meta: map<Name, Value>)
      requires Wf(model)
      modifies this
      ensures (heap, created, model)
           == (old(heap) + [nu], old(created) + {nu}, StateStep(old(model), name, meta))
      ensures (keys, states, initialState, scoped, this.meta, beforeTransition, afterTransition, onTransition, onError)
           == old((keys, states, initialState, scoped, this.meta, beforeTransition, afterTransition, onTransition, onError))
    {
      heap, created, model := heap + [nu], created + {nu}, StateStep(model, name, meta);
    }

    /** With the invariant, `states` is empty exactly when no State was created, its keys are
        those of `keys`, and every heap index of the model is in range. */
    lemma StatesAgree()
      requires Valid()
      ensures states == map[] <==> heap == []
      ensures forall k :: k in states <==> k in keys
      ensures forall k | k in model.states :: model.states[k] < |heap|
    {
      KeysIds(model.heap);
      if heap != [] {
        assert Key(model.heap[0]) in states;
      }
    }

    /** `<=>` between two States this specification created never raises and never answers
        `nil`: both names are keys. It is zero exactly for States of the same name (a State
        and itself, or a replaced State and the one that replaced it) and negative exactly when
        the receiver's name was declared first. */
    lemma CompareCreated(i: nat, j: nat)
      requires Valid() && i < |heap| && j < |heap|
      ensures heap[i].CompareTo(AState(heap[j])).Order?
      ensures heap[i].CompareTo(AState(heap[j])).sign == 0 <==> heap[i].ToSym() == heap[j].ToSym()
      ensures heap[i].CompareTo(AState(heap[j])).sign < 0 <==> Order.Precedes(keys, heap[i].ToSym(), heap[j].ToSym())
    {
      KeysIds(model.heap);
      assert model.heap[i] == heap[i].Snapshot() && model.heap[j] == heap[j].Snapshot();
      assert Key(model.heap[i]) in keys && Key(model.heap[j]) in keys;
      Order.CompareByPosition(keys, heap[i].ToSym(), heap[j].ToSym());
    }

    /** `events_list` of a State this specification created: one entry per event name, in
        first-pushed order, each showing the first event declared under that name; no name
        appears twice, and a name appears exactly when it has events. */
    lemma CreatedEventsList(i: nat)
      requires Valid() && i < |heap|
      ensures var st := heap[i]; var r := st.EventsList();
        && Distinct(st.events)
        && (forall j | 0 <= j < |r| :: r[j].event == Names(st.events)[j] && r[j].first == Lookup(st.events, r[j].event)[0])
        && (forall j, k | 0 <= j < k < |r| :: r[j].event != r[k].event)
        && (forall n :: (exists j | 0 <= j < |r| :: r[j].event == n) <==> |Lookup(st.events, n)| > 0)
    {
      assert model.heap[i] == heap[i].Snapshot();
      var st := heap[i];
      assert Distinct(st.events) && st.EventsList() == Events.EventsList(st.events);
      forall n ensures (exists j | 0 <= j < |st.EventsList()| :: st.EventsList()[j].event == n) <==> |Lookup(st.events, n)| > 0 {
        EventsListCoversNames(st.events, n);
      }
      EventsListCoversNames(st.events, "");
    }

    /** The invariant after `AddState`'s assignments. */
    twostate lemma StateAppended(new name: Ident, new nu: State, new meta: map<Name, Value>)
      requires old(Valid())
      requires (heap, created, model)
            == (old(heap) + [nu], old(created) + {nu}, StateStep(old(model), name, meta))
      requires nu.spec == this && nu.index == |old(heap)| && nu.Snapshot() == NewState(name, Fetch(meta, "meta"))
      requires forall i | 0 <= i < |old(heap)| :: unchanged(old(heap)[i])
      requires (keys, states, initialState, scoped, this.meta)
            == (if name.ToSym() in old(states) then old(keys) else old(keys) + [name.ToSym()],
                old(states)[name.ToSym() := nu],
                if old(states) == map[] then nu else old(initialState), nu, Hash(meta))
      requires (beforeTransition, afterTransition, onTransition, onError)
            == old((beforeTransition, afterTransition, onTransition, onError))
      ensures Valid()
    {
      KeysIds(old(model).heap);
      assert old(heap) != [] ==> Key(old(model).heap[0]) in old(states);
      SnapshotsAppend(old(heap), nu);
      OwnedAppend(old(heap), this, old(created), nu);
      StateMapInsert(old(heap), old(model).states, nu.ToSym(), nu);
    }

    /** One more State of `owner`, at the next index. */
    static lemma OwnedAppend(objs: seq<State>, owner: Specification, within: set<State>, nu: State)
      requires Owned(objs, owner, within) && nu.spec == owner && nu.index == |objs|
      ensures Owned(objs + [nu], owner, within + {nu})
    {
      forall i | 0 <= i < |objs| ensures (objs + [nu])[i] == objs[i] { }
    }

    /** Snapshots of unchanged States, with one more State at the end. */
    static twostate lemma SnapshotsAppend(objs: seq<State>, new nu: State)
      requires forall i | 0 <= i < |objs| :: unchanged(objs[i])
      ensures Snapshots(objs + [nu]) == old(Snapshots(objs)) + [nu.Snapshot()]
    {
      var a, b := Snapshots(objs + [nu]), old(Snapshots(objs)) + [nu.Snapshot()];
      forall i | 0 <= i < |objs| ensures a[i] == b[i] {
        assert (objs + [nu])[i] == objs[i];
      }
    }

    /** `handler(klass)`: sets the scoped State's handler, and its `on_entry` / `on_exit` to
        the handler's methods of those names when the class defines them. */
    method DeclareHandler(klass: Handler)
      requires Valid() && model.scoped.Some?
      modifies this, scoped
      ensures Valid() && model == HandlerStep(old(model), klass) && (heap, created) == old((heap, created)) && scoped == old(scoped)
      ensures (scoped.handler, scoped.onEntry, scoped.onExit, scoped.events)
           == (Some(klass),
               if klass.Defines("on_entry") then Delegate(klass, "on_entry") else old(scoped.onEntry),
               if klass.Defines("on_exit") then Delegate(klass, "on_exit") else old(scoped.onExit),
               old(scoped.events))
    {
      scoped.handler := Some(klass);
      if klass.Defines("on_entry") {
        scoped.onEntry := Delegate(klass, "on_entry");
      }
      if klass.Defines("on_exit") {
        scoped.onExit := Delegate(klass, "on_exit");
      }
      model := HandlerStep(model, klass);
      ScopedChanged();
    }

    /** `event(name, args, &action)`: fails, before anything is pushed, when neither
        `:transitions_to` nor `:transition_to` is given; otherwise appends one event under
        `name` in the scoped State. */
    method DeclareEvent(name: Name, args: EventArgs, action: Option<Proc>) returns (err: Option<DefinitionError>)
      requires Valid() && model.scoped.Some?
      modifies this, scoped
      ensures Valid() && (heap, created) == old((heap, created)) && scoped == old(scoped)
      ensures err == ErrorOf(EventStep(old(model), name, args, action))
      ensures err.Some? ==> err.value == MissingTarget(name) && model == old(model) && scoped.events == old(scoped.events)
      ensures err.None? ==> model == EventStep(old(model), name, args, action).value
      ensures err.None? ==> scoped.events == Push(old(scoped.events), name, NewEvent(name, args, action, old(scoped.handler)))
    {
      err := PushEvent(scoped, name, args, action);
      if err.None? {
        model := EventStep(model, name, args, action).value;
        ScopedChanged();
      }
    }

    /** The work of `event` on the scoped State `st`: the target, the guard (the handler's
        `can_transition_to_<target>?` when there is no `:if` and the handler defines it), the
        error when there is no target, and the push. */
    static method PushEvent(st: State, name: Name, args: EventArgs, action: Option<Proc>) returns (err: Option<DefinitionError>)
      modifies st
      ensures err == if Target(args).None? then Some(MissingTarget(name)) else None
      ensures st.events == if err.Some? then old(st.events) else Push(old(st.events), name, NewEvent(name, args, action, old(st.handler)))
      ensures (st.meta, st.onEntry, st.onExit, st.handler) == old((st.meta, st.onEntry, st.onExit, st.handler))
    {
      var target := if args.transitionsTo.Some? then args.transitionsTo else args.transitionTo;
      var condition := Explicit(args.condition);
      var handler := st.handler;
      var selector := GuardSelector(if target.Some? then target.value else "");
      if handler.Some? && handler.value.Defines(selector) && !args.condition.Truthy() {
        condition := Derived(handler.value, selector);
      }
      if target.None? {
        return Some(MissingTarget(name));
      }
      var e := Event(name, target.value, condition, if args.meta.Truthy() then args.meta else Hash(map[]), action);
      assert e == NewEvent(name, args, action, handler);
      PushDistinct(st.events, name, e);
      st.events := Push(st.events, name, e);
      err := None;
    }

    /** `on_entry(&proc)`: the block, or `nil` without one, becomes the scoped State's hook. */
    method DeclareOnEntry(p: Option<Proc>)
      requires Valid() && model.scoped.Some?
      modifies this, scoped
      ensures Valid() && model == OnEntryStep(old(model), p) && (heap, created) == old((heap, created))
      ensures scoped == old(scoped) && scoped.onEntry == AsHook(p)
    {
      scoped.onEntry := AsHook(p);
      model := OnEntryStep(model, p);
      ScopedChanged();
    }

    /** `on_exit(&proc)`. */
    method DeclareOnExit(p: Option<Proc>)
      requires Valid() && model.scoped.Some?
      modifies this, scoped
      ensures Valid() && model == OnExitStep(old(model), p) && (heap, created) == old((heap, created))
      ensures scoped == old(scoped) && scoped.onExit == AsHook(p)
    {
      scoped.onExit := AsHook(p);
      model := OnExitStep(model, p);
      ScopedChanged();
    }

    /** The invariant after a change to the scoped State's fields that the model makes too. */
    twostate lemma ScopedChanged()
      requires old(Valid()) && (heap, created) == old((heap, created)) && |heap| > 0
      requires forall i | 0 <= i < |heap| - 1 :: unchanged(heap[i])
      requires (keys, states, initialState, scoped, meta) == old((keys, states, initialState, scoped, meta))
      requires (beforeTransition, afterTransition, onTransition, onError)
            == old((beforeTransition, afterTransition, onTransition, onError))
      requires Wf(model) && model == old(model).(heap := old(model).heap[|heap| - 1 := heap[|heap| - 1].Snapshot()])
      ensures Valid()
    {
      assert Snapshots(heap) == old(Snapshots(heap))[|heap| - 1 := heap[|heap| - 1].Snapshot()];
    }

    /** `before_transition(&proc)`: the block, or `nil`, becomes the specification's before transition hook. */
    method DeclareBeforeTransition(p: Option<Proc>)
      requires Valid()
      modifies this
      ensures Valid() && model == TransitionHookStep(old(model), BeforeTransition, p) && (heap, created) == old((heap, created))
      ensures beforeTransition == p && (afterTransition, onTransition, onError) == old((afterTransition, onTransition, onError))
    {
      beforeTransition, model := p, model.(beforeTransition := p);
    }

    /** `after_transition(&proc)`: the block, or `nil`, becomes the specification's after transition hook. */
    method DeclareAfterTransition(p: Option<Proc>)
      requires Valid()
      modifies this
      ensures Valid() && model == TransitionHookStep(old(model), AfterTransition, p) && (heap, created) == old((heap, created))
      ensures afterTransition == p && (beforeTransition, onTransition, onError) == old((beforeTransition, onTransition, onError))
    {
      afterTransition, model := p, model.(afterTransition := p);
    }

    /** `on_transition(&proc)`: the block, or `nil`, becomes the specification's on transition hook. */
    method DeclareOnTransition(p: Option<Proc>)
      requires Valid()
      modifies this
      ensures Valid() && model == TransitionHookStep(old(model), OnTransition, p) && (heap, created) == old((heap, created))
      ensures onTransition == p && (beforeTransition, afterTransition, onError) == old((beforeTransition, afterTransition, onError))
    {
      onTransition, model := p, model.(onTransition := p);
    }

    /** `on_error(&proc)`: the block, or `nil`, becomes the specification's on error hook. */
    method DeclareOnError(p: Option<Proc>)
      requires Valid()
      modifies this
      ensures Valid() && model == TransitionHookStep(old(model), OnError, p) && (heap, created) == old((heap, created))
      ensures onError == p && (beforeTransition, afterTransition, onTransition) == old((beforeTransition, afterTransition, onTransition))
    {
      onError, model := p, model.(onError := p);
    }
  }

  /** The outcome of an evaluation as the error it raises, if any. */
  function ErrorOf(r: Result<SpecVal>): (e: Option<DefinitionError>)
    ensures e.Some? <==> r.Err?
    ensures r.Err? ==> e.value == r.error
  {
    if r.Err? then Some(r.error) else None
  }

  /** Storing a new State under `key` is storing its heap index under `key`. */
  lemma StateMapInsert(objs: seq<State>, ids: map<Name, nat>, key: Name, nu: State)
    requires forall k | k in ids :: ids[k] < |objs|
    ensures Specification.StateMap(objs + [nu], ids[key := |objs|]) == Specification.StateMap(objs, ids)[key := nu]
  {
    var a, b := Specification.StateMap(objs + [nu], ids[key := |objs|]), Specification.StateMap(objs, ids)[key := nu];
    assert a.Keys == b.Keys;
    forall k | k in a ensures a[k] == b[k] {
      if k != key { assert (objs + [nu])[ids[k]] == objs[ids[k]]; }
    }
  }

  /** One declaration of a block is evaluated, then the rest from where it left off. */
  lemma RunCons(s: SpecVal, ds: seq<Decl>)
    requires Wf(s) && Declarable(s.scoped.Some?, ds) && ds != []
    ensures NeedsScope(ds[0]) ==> s.scoped.Some?
    ensures Exec(s, ds[0]).Err? ==> Run(s, ds) == Exec(s, ds[0])
    ensures Exec(s, ds[0]).Ok? ==> Declarable(Exec(s, ds[0]).value.scoped.Some?, ds[1..])
    ensures Exec(s, ds[0]).Ok? ==> Run(s, ds) == Run(Exec(s, ds[0]).value, ds[1..])
  {
  }

  /** A declaration other than `state` is one `Step`. */
  lemma ExecOther(s: SpecVal, d: Decl)
    requires Wf(s) && (NeedsScope(d) ==> s.scoped.Some?) && !d.StateDecl?
    ensures d.HandlerDecl? ==> Exec(s, d) == Ok(HandlerStep(s, d.klass))
    ensures d.EventDecl? ==> Exec(s, d) == EventStep(s, d.event, d.args, d.action)
    ensures d.OnEntryDecl? ==> Exec(s, d) == Ok(OnEntryStep(s, d.proc))
    ensures d.OnExitDecl? ==> Exec(s, d) == Ok(OnExitStep(s, d.proc))
    ensures d.TransitionHookDecl? ==> Exec(s, d) == Ok(TransitionHookStep(s, d.kind, d.proc))
  {
  }
}
