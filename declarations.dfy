/** The meaning of a workflow declaration block, on values.

    A block is a list of declarations (`state`, `handler`, `event`, `on_entry`, `on_exit` and
    the four transition hooks); a `state` declaration carries its nested block. Evaluating it
    changes a `SpecVal`: the key list and map of `Specification#states`, every `State` ever
    created (a heap indexed by creation order, so that a replaced `State` keeps its identity),
    the `initial_state` and scope cursor as heap indices, the specification's `meta` and its
    four hook slots. */
module Declarations {
  import opened Values
  import opened Events
  import Order

  /** The options of `event(name, args)` that the builder reads: `:transitions_to`,
      `:transition_to`, `:if` and `:meta` (`None` / `Nil` for an absent key). */
  datatype EventArgs = EventArgs(transitionsTo: Option<Name>, transitionTo: Option<Name>, condition: Value, meta: Value)

  /** The four specification-wide hook slots. */
  datatype TransitionHook = BeforeTransition | AfterTransition | OnTransition | OnError

  /** One call inside a declaration block. */
  datatype Decl =
    | StateDecl(name: Ident, meta: map<Name, Value>, body: seq<Decl>)
    | HandlerDecl(klass: Handler)
    | EventDecl(event: Name, args: EventArgs, action: Option<Proc>)
    | OnEntryDecl(proc: Option<Proc>)
    | OnExitDecl(proc: Option<Proc>)
    | TransitionHookDecl(kind: TransitionHook, proc: Option<Proc>)

  /** The default `meta` argument of `state`: `{:meta => {}}`. */
  const DefaultStateMeta: map<Name, Value> := map["meta" := Hash(map[])]

  /** The fields of one `State` object (its back-reference is the enclosing specification). */
  datatype StateVal = StateVal(name: Ident, meta: Value, events: Collection,
                               onEntry: Hook, onExit: Hook, handler: Option<Handler>)

  /** `State.new(name, spec, meta)`: no events, no hooks, no handler. */
  function NewState(name: Ident, meta: Value): (r: StateVal)
    ensures r.name == name && r.meta == meta && r.events == Empty
    ensures r.onEntry == Unset && r.onExit == Unset && r.handler == None
  {
    StateVal(name, meta, Empty, Unset, Unset, None)
  }

  datatype SpecVal = SpecVal(
    keys: seq<Name>,           // `states.keys`, in Hash order
    states: map<Name, nat>,    // `states`, as heap indices
    heap: seq<StateVal>,       // every State created so far, in creation order
    initial: Option<nat>,      // `@initial_state`
    scoped: Option<nat>,       // `@scoped_state`
    meta: Value,               // `@meta`
    beforeTransition: Option<Proc>,
    afterTransition: Option<Proc>,
    onTransition: Option<Proc>,
    onError: Option<Proc>)

  /** `Specification.new(meta)` before its block runs: no states, no hooks. */
  function Init(meta: Value): (s: SpecVal)
    ensures Wf(s) && s.keys == [] && s.heap == [] && s.initial == None && s.meta == meta
  {
    SpecVal([], map[], [], None, None, meta, None, None, None, None)
  }

  /** The invariant every evaluation keeps: the key list, the map and the two cursors are
      what creating the heap's States one after another gives (see `Keys` and `Ids`); the
      initial state is the first State created and the scope the last. */
  ghost predicate Wf(s: SpecVal)
  {
    (s.keys, s.states, s.initial, s.scoped)
      == (Keys(s.heap), Ids(s.heap),
          if |s.heap| == 0 then None else Some(0), if |s.heap| == 0 then None else Some(|s.heap| - 1))
  }

  /** The key of a State in `states`. */
  function Key(st: StateVal): Name
  {
    st.name.ToSym()
  }

  /** `states.keys` after storing the States of `h` in order: a new key goes last, a known
      one keeps its place (`Hash#[]=`). */
  function Keys(h: seq<StateVal>): (r: seq<Name>)
  {
    if h == [] then []
    else
      var ks := Keys(h[..|h| - 1]);
      if Key(h[|h| - 1]) in ks then ks else ks + [Key(h[|h| - 1])]
  }

  /** `states` after storing the States of `h` in order, as heap indices: the last State
      stored under a key wins. */
  function Ids(h: seq<StateVal>): (r: map<Name, nat>)
  {
    if h == [] then map[] else Ids(h[..|h| - 1])[Key(h[|h| - 1]) := |h| - 1]
  }

  /** The key list and the map agree: no key twice, the same keys, each key mapped to a State
      of that key. */
  lemma {:induction false} KeysIds(h: seq<StateVal>)
    ensures Order.Distinct(Keys(h))
    ensures forall k :: k in Ids(h) <==> k in Keys(h)
    ensures forall k | k in Ids(h) :: Ids(h)[k] < |h| && Key(h[Ids(h)[k]]) == k
    ensures forall i | 0 <= i < |h| :: Key(h[i]) in Ids(h)
  {
    if h != [] {
      var h' := h[..|h| - 1];
      KeysIds(h');
      forall i | 0 <= i < |h| - 1 ensures Key(h[i]) in Ids(h) {
        assert h[i] == h'[i];
      }
      forall k | k in Ids(h) ensures Ids(h)[k] < |h| && Key(h[Ids(h)[k]]) == k {
        if k != Key(h[|h| - 1]) { assert h[Ids(h')[k]] == h'[Ids(h')[k]]; }
      }
    }
  }

  /** Replacing the last State by one with the same key changes neither. */
  lemma SameLastKey(h: seq<StateVal>, st: StateVal)
    requires h != [] && Key(st) == Key(h[|h| - 1])
    ensures Keys(h[|h| - 1 := st]) == Keys(h) && Ids(h[|h| - 1 := st]) == Ids(h)
  {
    assert h[|h| - 1 := st][..|h| - 1] == h[..|h| - 1];
  }

  /** Storing one more State. */
  lemma AppendKey(h: seq<StateVal>, st: StateVal)
    ensures Keys(h + [st]) == if Key(st) in Keys(h) then Keys(h) else Keys(h) + [Key(st)]
    ensures Ids(h + [st]) == Ids(h)[Key(st) := |h|]
  {
    assert (h + [st])[..|h|] == h;
  }

  /** The declarations that dereference the scope cursor. */
  predicate NeedsScope(d: Decl)
  {
    d.HandlerDecl? || d.EventDecl? || d.OnEntryDecl? || d.OnExitDecl?
  }

  /** A block whose declarations never use the scope cursor before some `state` has set it,
      given whether it is already set. */
  predicate Declarable(scoped: bool, ds: seq<Decl>)
    decreases |ds|
  {
    scoped || ds == [] || (!NeedsScope(ds[0]) && Declarable(ds[0].StateDecl?, ds[1..]))
  }

  /** `args[:transitions_to] || args[:transition_to]`. */
  function Target(args: EventArgs): (t: Option<Name>)
    ensures t.None? <==> args.transitionsTo.None? && args.transitionTo.None?
    ensures args.transitionsTo.Some? ==> t == args.transitionsTo
    ensures args.transitionsTo.None? ==> t == args.transitionTo
  {
    if args.transitionsTo.Some? then args.transitionsTo else args.transitionTo
  }

  /** `"can_transition_to_#{target}?"`. */
  function GuardSelector(target: Name): (m: Name)
    ensures |m| == |target| + 19 && m[..18] == "can_transition_to_" && m[18..|m| - 1] == target && m[|m| - 1] == '?'
  {
    "can_transition_to_" + target + "?"
  }

  /** The condition an event gets: `args[:if]`, replaced (`||=`) by the handler-derived guard
      when `:if` is falsy and the scoped state's handler defines the guard predicate. */
  function GuardFor(explicit: Value, handler: Option<Handler>, target: Name): (g: Guard)
    ensures explicit.Truthy() ==> g == Explicit(explicit)
    ensures g.Explicit? ==> g.value == explicit
    ensures g.Derived? ==> handler == Some(g.handler) && g.selector == GuardSelector(target) && g.handler.Defines(g.selector)
    ensures !explicit.Truthy() && handler.Some? && handler.value.Defines(GuardSelector(target)) ==> g.Derived?
  {
    if handler.Some? && handler.value.Defines(GuardSelector(target)) && !explicit.Truthy()
    then Derived(handler.value, GuardSelector(target))
    else Explicit(explicit)
  }

  /** `args[:meta] or {}`. */
  function EventMeta(args: EventArgs): (m: Value)
    ensures m.Truthy()
    ensures args.meta.Truthy() ==> m == args.meta
    ensures !args.meta.Truthy() ==> m == Hash(map[])
  {
    if args.meta.Truthy() then args.meta else Hash(map[])
  }

  function ScopedState(s: SpecVal): StateVal
    requires Wf(s) && s.scoped.Some?
  {
    s.heap[s.scoped.value]
  }

  /** `r` has the keys, map, cursors and `meta` of `s`, and the same States with the same
      names and metas; only events, hooks and handlers of States may differ. */
  ghost predicate Preserves(s: SpecVal, r: SpecVal)
  {
    r.keys == s.keys && r.states == s.states && r.initial == s.initial && r.scoped == s.scoped
    && r.meta == s.meta && |r.heap| == |s.heap|
    && forall i | 0 <= i < |s.heap| :: r.heap[i].name == s.heap[i].name && r.heap[i].meta == s.heap[i].meta
  }

  /** Which of the four transition hook slots. */
  function Slot(s: SpecVal, kind: TransitionHook): Option<Proc>
  {
    match kind
    case BeforeTransition => s.beforeTransition
    case AfterTransition => s.afterTransition
    case OnTransition => s.onTransition
    case OnError => s.onError
  }

  ghost predicate SameSlots(s: SpecVal, r: SpecVal)
  {
    r.beforeTransition == s.beforeTransition && r.afterTransition == s.afterTransition
    && r.onTransition == s.onTransition && r.onError == s.onError
  }

  /** The specification with the scoped State's fields replaced by `st` (of the same name
      and meta). */
  function WithScoped(s: SpecVal, st: StateVal): (r: SpecVal)
    requires Wf(s) && s.scoped.Some? && st.name == ScopedState(s).name && st.meta == ScopedState(s).meta
    ensures Wf(r) && Preserves(s, r) && SameSlots(s, r)
    ensures r == s.(heap := s.heap[s.scoped.value := st]) && ScopedState(r) == st
  {
    SameLastKey(s.heap, st);
    s.(heap := s.heap[s.scoped.value := st])
  }

  /** `state(name, meta)` up to, not including, the evaluation of its block. */
  function StateStep(s: SpecVal, name: Ident, meta: map<Name, Value>): (r: SpecVal)
    requires Wf(s)
    ensures Wf(r) && SameSlots(s, r)
    ensures r.heap == s.heap + [NewState(name, Fetch(meta, "meta"))] && r.scoped == Some(|s.heap|)
    ensures r.keys == (if name.ToSym() in s.keys then s.keys else s.keys + [name.ToSym()])
    ensures r.states == s.states[name.ToSym() := |s.heap|] && r.meta == Hash(meta)
  {
    var id := |s.heap|;
    var key := name.ToSym();
    var nu := NewState(name, Fetch(meta, "meta"));
    AppendKey(s.heap, nu);
    KeysIds(s.heap);
    assert s.states == map[] <==> id == 0 by {
      if id > 0 { assert Key(s.heap[0]) in s.states; }
    }
    s.(keys := if key in s.states then s.keys else s.keys + [key],
       states := s.states[key := id],
       heap := s.heap + [nu],
       initial := if s.states == map[] then Some(id) else s.initial,
       scoped := Some(id),
       meta := Hash(meta))
  }

  /** `handler(klass)`. */
  function HandlerStep(s: SpecVal, klass: Handler): (r: SpecVal)
    requires Wf(s) && s.scoped.Some?
    ensures Wf(r) && Preserves(s, r) && SameSlots(s, r)
    ensures r == s.(heap := s.heap[s.scoped.value := ScopedState(r)])
  {
    var st := ScopedState(s);
    WithScoped(s, st.(handler := Some(klass),
                      onEntry := if klass.Defines("on_entry") then Delegate(klass, "on_entry") else st.onEntry,
                      onExit := if klass.Defines("on_exit") then Delegate(klass, "on_exit") else st.onExit))
  }

  /** The `Event` that `event(name, args, &action)` builds in a state whose handler is
      `handler`. */
  function NewEvent(name: Name, args: EventArgs, action: Option<Proc>, handler: Option<Handler>): (e: Event)
    requires Target(args).Some?
    ensures e.name == name && e.target == Target(args).value && e.action == action
  {
    var target := Target(args).value;
    Event(name, target, GuardFor(args.condition, handler, target), EventMeta(args), action)
  }

  /** `event(name, args, &action)`: fails before pushing anything when there is no target. */
  function EventStep(s: SpecVal, name: Name, args: EventArgs, action: Option<Proc>): (r: Result<SpecVal>)
    requires Wf(s) && s.scoped.Some?
    ensures r.Ok? ==> Wf(r.value) && Preserves(s, r.value) && SameSlots(s, r.value)
    ensures r.Ok? ==> r.value == s.(heap := s.heap[s.scoped.value := ScopedState(r.value)])
    ensures r.Err? <==> Target(args).None?
  {
    var st := ScopedState(s);
    if Target(args).None? then Err(MissingTarget(name))
    else
      PushDistinct(st.events, name, NewEvent(name, args, action, st.handler));
      Ok(WithScoped(s, st.(events := Push(st.events, name, NewEvent(name, args, action, st.handler)))))
  }

  /** `on_entry(&proc)`: the block, or `nil` without one, replaces the scoped State's hook. */
  function OnEntryStep(s: SpecVal, p: Option<Proc>): (r: SpecVal)
    requires Wf(s) && s.scoped.Some?
    ensures Wf(r) && Preserves(s, r) && SameSlots(s, r)
    ensures ScopedState(r) == ScopedState(s).(onEntry := AsHook(p))
    ensures r == s.(heap := s.heap[s.scoped.value := ScopedState(r)])
  {
    WithScoped(s, ScopedState(s).(onEntry := AsHook(p)))
  }

  /** `on_exit(&proc)`. */
  function OnExitStep(s: SpecVal, p: Option<Proc>): (r: SpecVal)
    requires Wf(s) && s.scoped.Some?
    ensures Wf(r) && Preserves(s, r) && SameSlots(s, r)
    ensures ScopedState(r) == ScopedState(s).(onExit := AsHook(p))
    ensures r == s.(heap := s.heap[s.scoped.value := ScopedState(r)])
  {
    WithScoped(s, ScopedState(s).(onExit := AsHook(p)))
  }

  /** `before_transition`, `after_transition`, `on_transition`, `on_error` (`&proc`): the
      block, or `nil`, replaces the slot. */
  function TransitionHookStep(s: SpecVal, kind: TransitionHook, p: Option<Proc>): (r: SpecVal)
    requires Wf(s)
    ensures Wf(r) && Preserves(s, r) && r.heap == s.heap
    ensures forall k :: Slot(r, k) == if k == kind then p else Slot(s, k)
  {
    match kind
    case BeforeTransition => s.(beforeTransition := p)
    case AfterTransition => s.(afterTransition := p)
    case OnTransition => s.(onTransition := p)
    case OnError => s.(onError := p)
  }

  /** One declaration method, without the evaluation of a `state`'s nested block. */
  function Step(s: SpecVal, d: Decl): (r: Result<SpecVal>)
    requires Wf(s) && (NeedsScope(d) ==> s.scoped.Some?)
    ensures r.Ok? ==> Wf(r.value) && |r.value.heap| == |s.heap| + (if d.StateDecl? then 1 else 0)
    ensures r.Err? <==> d.EventDecl? && Target(d.args).None?
    ensures r.Ok? && d.StateDecl? ==> r.value == StateStep(s, d.name, d.meta)
    ensures r.Ok? && !d.StateDecl? ==> Preserves(s, r.value)
    ensures r.Ok? && !d.StateDecl? && !d.TransitionHookDecl? ==> SameSlots(s, r.value)
    ensures d.TransitionHookDecl? ==> r == Ok(TransitionHookStep(s, d.kind, d.proc))
  {
    match d
    case StateDecl(name, meta, _) => Ok(StateStep(s, name, meta))
    case HandlerDecl(klass) => Ok(HandlerStep(s, klass))
    case EventDecl(name, args, action) => EventStep(s, name, args, action)
    case OnEntryDecl(p) => Ok(OnEntryStep(s, p))
    case OnExitDecl(p) => Ok(OnExitStep(s, p))
    case TransitionHookDecl(kind, p) => Ok(TransitionHookStep(s, kind, p))
  }

  function Size(d: Decl): (n: nat)
    ensures n >= 1
  {
    match d
    case StateDecl(_, _, body) => 1 + SizeAll(body)
    case _ => 1
  }

  function SizeAll(ds: seq<Decl>): nat
  {
    if ds == [] then 0 else Size(ds[0]) + SizeAll(ds[1..])
  }

  /** One declaration, including the `instance_eval` of a `state`'s nested block against the
      new scope. */
  function Exec(s: SpecVal, d: Decl): (r: Result<SpecVal>)
    requires Wf(s) && (NeedsScope(d) ==> s.scoped.Some?)
    ensures r.Ok? ==> Wf(r.value) && |s.heap| <= |r.value.heap|
    ensures r.Ok? && d.StateDecl? ==> r.value.scoped.Some?
    decreases Size(d), 0
  {
    match Step(s, d)
    case Err(e) => Err(e)
    case Ok(s1) => if d.StateDecl? then Run(s1, d.body) else Ok(s1)
  }

  /** A whole block, evaluated top to bottom; the first definition error aborts it. */
  function Run(s: SpecVal, ds: seq<Decl>): (r: Result<SpecVal>)
    requires Wf(s) && Declarable(s.scoped.Some?, ds)
    ensures r.Ok? ==> Wf(r.value) && |s.heap| <= |r.value.heap|
    decreases SizeAll(ds), 1
  {
    if ds == [] then Ok(s)
    else
      match Exec(s, ds[0])
      case Err(e) => Err(e)
      case Ok(s1) => Run(s1, ds[1..])
  }

  /** The declarations of a block in the order they execute: each `state` (with its block
      emptied) followed by what its block declares. */
  function Trace(ds: seq<Decl>): seq<Decl>
    decreases SizeAll(ds), 1
  {
    if ds == [] then [] else TraceOne(ds[0]) + Trace(ds[1..])
  }

  function TraceOne(d: Decl): seq<Decl>
    decreases Size(d), 0
  {
    if d.StateDecl? then [d.(body := [])] + Trace(d.body) else [d]
  }

  /** A flat list of declarations, applied one `Step` at a time. */
  function RunFlat(s: SpecVal, t: seq<Decl>): (r: Result<SpecVal>)
    requires Wf(s) && Declarable(s.scoped.Some?, t)
    ensures r.Ok? ==> Wf(r.value) && |s.heap| <= |r.value.heap|
    decreases |t|
  {
    if t == [] then Ok(s)
    else
      match Step(s, t[0])
      case Err(e) => Err(e)
      case Ok(s1) => RunFlat(s1, t[1..])
  }
}
