/** What evaluating a declaration block does, proved about the model in `Declarations`. */
module DeclarationProperties {
  import opened Values
  import opened Events
  import opened Declarations
  import Order

  // ---------------------------------------------------------------------------------------
  // Nesting: a `state` block does not restore the scope cursor when it ends, so a nested
  // block means the same as its declarations written flat after the `state` line.
  // ---------------------------------------------------------------------------------------

  lemma {:induction false} RunFlatAppend(s: SpecVal, a: seq<Decl>, b: seq<Decl>)
    requires Wf(s) && Declarable(s.scoped.Some?, a)
    requires RunFlat(s, a).Ok? ==> Declarable(RunFlat(s, a).value.scoped.Some?, b)
    ensures Declarable(s.scoped.Some?, a + b)
    ensures RunFlat(s, a + b) == if RunFlat(s, a).Err? then RunFlat(s, a) else RunFlat(RunFlat(s, a).value, b)
    decreases |a|
  {
    if a == [] {
      assert a + b == b;
    } else {
      assert (a + b)[0] == a[0] && (a + b)[1..] == a[1..] + b;
      var r := Step(s, a[0]);
      if r.Ok? {
        RunFlatAppend(r.value, a[1..], b);
      }
    }
  }

  /** Evaluating one declaration, nested block included, is evaluating its trace. */
  lemma {:induction false} ExecIsFlat(s: SpecVal, d: Decl)
    requires Wf(s) && (NeedsScope(d) ==> s.scoped.Some?)
    ensures Declarable(s.scoped.Some?, TraceOne(d))
    ensures Exec(s, d) == RunFlat(s, TraceOne(d))
    decreases Size(d), 0
  {
    if d.StateDecl? {
      var t := Trace(d.body);
      assert TraceOne(d) == [d.(body := [])] + t;
      assert ([d.(body := [])] + t)[1..] == t;
      var s1 := Step(s, d).value;
      assert Step(s, d.(body := [])) == Step(s, d);
      RunIsFlat(s1, d.body);
    } else {
      assert TraceOne(d)[1..] == [];
    }
  }

  /** The scope cursor is never restored: evaluating a block with nested `state` blocks is
      the same as evaluating its declarations one after another in execution order. */
  lemma {:induction false} RunIsFlat(s: SpecVal, ds: seq<Decl>)
    requires Wf(s) && Declarable(s.scoped.Some?, ds)
    ensures Declarable(s.scoped.Some?, Trace(ds))
    ensures Run(s, ds) == RunFlat(s, Trace(ds))
    decreases SizeAll(ds), 1
  {
    if ds != [] {
      ExecIsFlat(s, ds[0]);
      var r := Exec(s, ds[0]);
      if r.Ok? {
        RunIsFlat(r.value, ds[1..]);
      }
      RunFlatAppend(s, TraceOne(ds[0]), Trace(ds[1..]));
    }
  }

  // ---------------------------------------------------------------------------------------
  // Reference definitions over a flat trace.
  // ---------------------------------------------------------------------------------------

  /** The `state` declarations of a trace, in order. */
  function StatesIn(t: seq<Decl>): (r: seq<Decl>)
    ensures forall i | 0 <= i < |r| :: r[i].StateDecl?
  {
    if t == [] then [] else (if t[0].StateDecl? then [t[0]] else []) + StatesIn(t[1..])
  }

  /** The keys (`name.to_sym`) of the `state` declarations of a trace, repetitions included. */
  function DeclaredKeys(t: seq<Decl>): (r: seq<Name>)
    ensures |r| == |StatesIn(t)|
    ensures forall i | 0 <= i < |r| :: r[i] == StatesIn(t)[i].name.ToSym()
  {
    if t == [] then [] else (if t[0].StateDecl? then [t[0].name.ToSym()] else []) + DeclaredKeys(t[1..])
  }

  /** Inserting `ns` one after another into a Ruby Hash whose keys are `keys`. */
  function AddNew(keys: seq<Name>, ns: seq<Name>): seq<Name>
    decreases |ns|
  {
    if ns == [] then keys else AddNew(if ns[0] in keys then keys else keys + [ns[0]], ns[1..])
  }

  /** An event declaration without a target. */
  predicate Broken(d: Decl)
  {
    d.EventDecl? && Target(d.args).None?
  }

  /** The block of the last declaration of hook `kind` in `t`, or `dflt` if there is none. */
  function LastHook(t: seq<Decl>, kind: TransitionHook, dflt: Option<Proc>): Option<Proc>
  {
    if t == [] then dflt
    else if t[|t| - 1].TransitionHookDecl? && t[|t| - 1].kind == kind then t[|t| - 1].proc
    else LastHook(t[..|t| - 1], kind, dflt)
  }

  // ---------------------------------------------------------------------------------------
  // One declaration at a time.
  // ---------------------------------------------------------------------------------------

  /** `state(name, meta)`: a fresh State named `name` with meta `meta[:meta]` becomes the
      scope; the specification's `meta` becomes the whole argument; a new key goes last,
      while a repeated key keeps its position and now maps to the new State, so the replaced
      State is no longer reachable from `states`; the initial state is set only by the first
      `state` and otherwise kept, even when it is the replaced State. */
  lemma StateDeclaration(s: SpecVal, name: Ident, meta: map<Name, Value>)
    requires Wf(s)
    ensures var r := StateStep(s, name, meta); var key := name.ToSym(); var id := |s.heap|;
      && r.heap == s.heap + [NewState(name, Fetch(meta, "meta"))]
      && r.scoped == Some(id)
      && r.meta == Hash(meta)
      && r.states == s.states[key := id]
      && r.keys == (if key in s.keys then s.keys else s.keys + [key])
      && (s.keys == [] ==> r.initial == Some(id))
      && (s.keys != [] ==> r.initial == s.initial)
      && (key in s.states ==> forall k | k in r.states :: r.states[k] != s.states[key])
      && r.beforeTransition == s.beforeTransition && r.afterTransition == s.afterTransition
      && r.onTransition == s.onTransition && r.onError == s.onError
  {
    var key := name.ToSym();
    KeysIds(s.heap);
    if s.keys != [] {
      assert s.keys[0] in s.states;
    }
    if key in s.states {
      var r := StateStep(s, name, meta);
      forall k | k in r.states ensures r.states[k] != s.states[key] {
        if k != key {
          assert Key(s.heap[s.states[k]]) == k;
        }
      }
    }
  }

  /** `state name` without a meta argument: the default `{:meta => {}}` gives the new State
      an empty hash as its meta, and becomes the specification's `meta` as a whole. */
  lemma DefaultStateArgument(s: SpecVal, name: Ident)
    requires Wf(s)
    ensures var r := StateStep(s, name, DefaultStateMeta);
      r.heap[|s.heap|].meta == Hash(map[]) && r.meta == Hash(map["meta" := Hash(map[])])
  {
  }

  /** Different targets give different guard predicate names. */
  lemma GuardSelectorInjective(a: Name, b: Name)
    ensures GuardSelector(a) == GuardSelector(b) ==> a == b
  {
    if GuardSelector(a) == GuardSelector(b) {
      var m := GuardSelector(a);
      assert a == m[18..|m| - 1] == b;
    }
  }

  /** `event(name, args, &action)` fails exactly when neither `:transitions_to` nor
      `:transition_to` is given, and the error names the event. */
  lemma EventDeclarationError(s: SpecVal, name: Name, args: EventArgs, action: Option<Proc>)
    requires Wf(s) && s.scoped.Some?
    ensures EventStep(s, name, args, action).Err? <==> args.transitionsTo.None? && args.transitionTo.None?
    ensures EventStep(s, name, args, action).Err? ==> EventStep(s, name, args, action).error == MissingTarget(name)
  {
  }

  /** Given a target, `event(name, args, &action)` appends exactly one event (target,
      condition, `args[:meta] or {}`, action) under `name` in the scoped State, after the
      events already there; every other name, every other State and every other field is left
      alone. */
  lemma EventDeclaration(s: SpecVal, name: Name, args: EventArgs, action: Option<Proc>)
    requires Wf(s) && s.scoped.Some? && Target(args).Some?
    ensures var r := EventStep(s, name, args, action).value;
      var st, st' := ScopedState(s), ScopedState(r);
      var e := NewEvent(name, args, action, st.handler);
      && e.target == (if args.transitionsTo.Some? then args.transitionsTo.value else args.transitionTo.value)
      && e.condition == GuardFor(args.condition, st.handler, e.target)
      && e.meta == (if args.meta.Truthy() then args.meta else Hash(map[]))
      && Lookup(st'.events, name) == Lookup(st.events, name) + [e]
      && (forall n | n != name :: Lookup(st'.events, n) == Lookup(st.events, n))
      && st' == st.(events := st'.events)
      && r == s.(heap := s.heap[s.scoped.value := st'])
  {
    PushLookup(ScopedState(s).events, name, NewEvent(name, args, action, ScopedState(s).handler));
  }

  /** The condition of an event: a truthy `:if` is kept and the handler is never consulted;
      otherwise the handler-derived guard is used exactly when the handler defines
      `can_transition_to_<target>?`; otherwise the (falsy) `:if` value stays. */
  lemma GuardPrecedence(explicit: Value, handler: Option<Handler>, target: Name)
    ensures explicit.Truthy() ==> GuardFor(explicit, handler, target) == Explicit(explicit)
    ensures !explicit.Truthy() && handler.Some? && handler.value.Defines("can_transition_to_" + target + "?")
            ==> GuardFor(explicit, handler, target) == Derived(handler.value, "can_transition_to_" + target + "?")
    ensures !explicit.Truthy() && (handler.None? || !handler.value.Defines("can_transition_to_" + target + "?"))
            ==> GuardFor(explicit, handler, target) == Explicit(explicit)
    ensures GuardFor(explicit, handler, target).Derived? ==> !explicit.Truthy() && handler.Some?
  {
  }

  /** `handler(klass)` always sets the handler, and replaces `on_entry` / `on_exit` only when
      the class defines that method. */
  lemma HandlerDeclaration(s: SpecVal, klass: Handler)
    requires Wf(s) && s.scoped.Some?
    ensures var st, st' := ScopedState(s), ScopedState(HandlerStep(s, klass));
      && st'.handler == Some(klass)
      && st'.onEntry == (if "on_entry" in klass.methods then Delegate(klass, "on_entry") else st.onEntry)
      && st'.onExit == (if "on_exit" in klass.methods then Delegate(klass, "on_exit") else st.onExit)
      && st'.events == st.events && st'.name == st.name && st'.meta == st.meta
  {
  }

  /** Explicit `on_entry` / `on_exit` blocks overwrite whatever `handler` installed. */
  lemma ExplicitHookOverridesHandler(s: SpecVal, klass: Handler, p: Option<Proc>, q: Option<Proc>)
    requires Wf(s) && s.scoped.Some?
    ensures var r := OnExitStep(OnEntryStep(HandlerStep(s, klass), p), q);
      ScopedState(r).onEntry == AsHook(p) && ScopedState(r).onExit == AsHook(q)
      && ScopedState(r).handler == Some(klass)
  {
    assert ScopedState(HandlerStep(s, klass)).handler == Some(klass);
  }

  /** A later `handler` replaces an explicit `on_entry` block only when the class defines
      `on_entry`. */
  lemma HandlerAfterExplicitHook(s: SpecVal, p: Option<Proc>, klass: Handler)
    requires Wf(s) && s.scoped.Some?
    ensures ScopedState(HandlerStep(OnEntryStep(s, p), klass)).onEntry
            == (if klass.Defines("on_entry") then Delegate(klass, "on_entry") else AsHook(p))
  {
  }

  // ---------------------------------------------------------------------------------------
  // A whole flat trace.
  // ---------------------------------------------------------------------------------------

  /** A declaration never renames or re-metas an existing State; a `state` adds exactly one
      new State at the end, and every other declaration adds none. */
  lemma StepKeepsHeap(s: SpecVal, d: Decl, r: SpecVal)
    requires Wf(s) && (NeedsScope(d) ==> s.scoped.Some?) && Step(s, d) == Ok(r)
    ensures |r.heap| == |s.heap| + (if d.StateDecl? then 1 else 0)
    ensures forall i | 0 <= i < |s.heap| :: r.heap[i].name == s.heap[i].name && r.heap[i].meta == s.heap[i].meta
  {
    if d.StateDecl? {
      assert r.heap == s.heap + [NewState(d.name, Fetch(d.meta, "meta"))];
    } else {
      assert Preserves(s, r);
    }
  }

  /** The State a `state` declaration adds has its name and `meta[:meta]`. */
  lemma StepNewState(s: SpecVal, d: Decl, r: SpecVal)
    requires Wf(s) && d.StateDecl? && Step(s, d) == Ok(r)
    ensures |r.heap| == |s.heap| + 1
    ensures r.heap[|s.heap|].name == d.name && r.heap[|s.heap|].meta == Fetch(d.meta, "meta")
  {
    assert r.heap == s.heap + [NewState(d.name, Fetch(d.meta, "meta"))];
  }

  /** Only a `state` declaration changes the key list (adding a new key last) and the `meta`. */
  lemma StepKeysAndMeta(s: SpecVal, d: Decl, r: SpecVal)
    requires Wf(s) && (NeedsScope(d) ==> s.scoped.Some?) && Step(s, d) == Ok(r)
    ensures r.keys == (if d.StateDecl? && d.name.ToSym() !in s.keys then s.keys + [d.name.ToSym()] else s.keys)
    ensures r.meta == (if d.StateDecl? then Hash(d.meta) else s.meta)
  {
    if !d.StateDecl? {
      assert Preserves(s, r);
    }
  }

  /** `state_names` lists each declared key once, in the order its first `state` was
      evaluated; later declarations of a known name do not move it. */
  lemma {:induction false} FlatKeys(s: SpecVal, t: seq<Decl>)
    requires Wf(s) && Declarable(s.scoped.Some?, t) && RunFlat(s, t).Ok?
    ensures RunFlat(s, t).value.keys == AddNew(s.keys, DeclaredKeys(t))
    decreases |t|
  {
    if t != [] {
      var s1 := Step(s, t[0]).value;
      assert RunFlat(s, t) == RunFlat(s1, t[1..]);
      StepKeysAndMeta(s, t[0], s1);
      FlatKeys(s1, t[1..]);
      if t[0].StateDecl? {
        assert DeclaredKeys(t) == [t[0].name.ToSym()] + DeclaredKeys(t[1..]);
      } else {
        assert DeclaredKeys(t) == DeclaredKeys(t[1..]);
      }
    }
  }

  /** The name and meta of every State of a heap, in creation order. */
  function Heads(h: seq<StateVal>): (r: seq<(Ident, Value)>)
    ensures |r| == |h| && forall i | 0 <= i < |h| :: r[i] == (h[i].name, h[i].meta)
  {
    seq(|h|, i requires 0 <= i < |h| => (h[i].name, h[i].meta))
  }

  /** The name and meta of the State a `state` declaration creates. */
  function HeadOf(d: Decl): (Ident, Value)
    requires d.StateDecl?
  {
    (d.name, Fetch(d.meta, "meta"))
  }

  /** The heads after a trace, read from the front: each `state` appends one. */
  function HeadsAfter(t: seq<Decl>, hs: seq<(Ident, Value)>): seq<(Ident, Value)>
  {
    if t == [] then hs else HeadsAfter(t[1..], if t[0].StateDecl? then hs + [HeadOf(t[0])] else hs)
  }

  /** They are the heads before, then one per `state` declaration of the trace, the first
      of them being the first declaration's. */
  lemma {:induction false} HeadsAfterStates(t: seq<Decl>, hs: seq<(Ident, Value)>)
    ensures |HeadsAfter(t, hs)| == |hs| + |StatesIn(t)| && HeadsAfter(t, hs)[..|hs|] == hs
    ensures StatesIn(t) != [] ==> HeadsAfter(t, hs)[|hs|] == HeadOf(StatesIn(t)[0])
  {
    if t != [] {
      var hs' := if t[0].StateDecl? then hs + [HeadOf(t[0])] else hs;
      HeadsAfterStates(t[1..], hs');
      var r := HeadsAfter(t, hs);
      assert r == HeadsAfter(t[1..], hs');
      if t[0].StateDecl? {
        assert StatesIn(t) == [t[0]] + StatesIn(t[1..]);
        assert r[..|hs|] == r[..|hs'|][..|hs|];
        assert r[|hs|] == r[..|hs'|][|hs|];
      } else {
        assert StatesIn(t) == StatesIn(t[1..]);
      }
    }
  }

  lemma StepHeads(s: SpecVal, d: Decl, r: SpecVal)
    requires Wf(s) && (NeedsScope(d) ==> s.scoped.Some?) && Step(s, d) == Ok(r)
    ensures Heads(r.heap) == if d.StateDecl? then Heads(s.heap) + [HeadOf(d)] else Heads(s.heap)
  {
    StepKeepsHeap(s, d, r);
    if d.StateDecl? {
      StepNewState(s, d, r);
      HeadsExtend(s.heap, r.heap, [HeadOf(d)]);
    } else {
      HeadsExtend(s.heap, r.heap, []);
    }
  }

  lemma HeadsExtend(h: seq<StateVal>, h': seq<StateVal>, extra: seq<(Ident, Value)>)
    requires |h'| == |h| + |extra|
    requires forall i | 0 <= i < |h| :: h'[i].name == h[i].name && h'[i].meta == h[i].meta
    requires forall i | 0 <= i < |extra| :: extra[i] == (h'[|h| + i].name, h'[|h| + i].meta)
    ensures Heads(h') == Heads(h) + extra
  {
    var a, b := Heads(h'), Heads(h) + extra;
    forall i | 0 <= i < |a| ensures a[i] == b[i] {
      if i >= |h| { assert extra[i - |h|] == (h'[i].name, h'[i].meta); }
    }
  }

  /** The States created by a trace are one per `state` declaration, in order, each with that
      declaration's name and `meta[:meta]`; those created before keep theirs. */
  lemma {:induction false} FlatHeap(s: SpecVal, t: seq<Decl>)
    requires Wf(s) && Declarable(s.scoped.Some?, t) && RunFlat(s, t).Ok?
    ensures Heads(RunFlat(s, t).value.heap) == HeadsAfter(t, Heads(s.heap))
    decreases |t|
  {
    if t != [] {
      var s1 := Step(s, t[0]).value;
      assert RunFlat(s, t) == RunFlat(s1, t[1..]);
      StepHeads(s, t[0], s1);
      FlatHeap(s1, t[1..]);
    }
  }

  /** The `meta` after a trace, read from the front: each `state` replaces it. */
  function MetaAfter(t: seq<Decl>, m: Value): Value
  {
    if t == [] then m else MetaAfter(t[1..], if t[0].StateDecl? then Hash(t[0].meta) else m)
  }

  /** It is the whole `meta` argument of the last `state` of the trace, or `m` without one. */
  lemma {:induction false} MetaAfterLastState(t: seq<Decl>, m: Value)
    ensures var sd := StatesIn(t); MetaAfter(t, m) == if sd == [] then m else Hash(sd[|sd| - 1].meta)
  {
    if t != [] {
      MetaAfterLastState(t[1..], if t[0].StateDecl? then Hash(t[0].meta) else m);
      var sd, rest := StatesIn(t), StatesIn(t[1..]);
      if t[0].StateDecl? {
        assert sd == [t[0]] + rest;
        if rest != [] {
          assert sd[|sd| - 1] == rest[|rest| - 1];
        }
      } else {
        assert sd == rest;
      }
    }
  }

  /** The specification's `meta` is the whole `meta` argument of the last `state` evaluated,
      or, if the trace declares no state, what it was before. */
  lemma {:induction false} FlatMeta(s: SpecVal, t: seq<Decl>)
    requires Wf(s) && Declarable(s.scoped.Some?, t) && RunFlat(s, t).Ok?
    ensures RunFlat(s, t).value.meta == MetaAfter(t, s.meta)
    decreases |t|
  {
    if t != [] {
      var s1 := Step(s, t[0]).value;
      assert RunFlat(s, t) == RunFlat(s1, t[1..]);
      StepKeysAndMeta(s, t[0], s1);
      FlatMeta(s1, t[1..]);
    }
  }

  lemma {:induction false} LastHookCons(t: seq<Decl>, kind: TransitionHook, dflt: Option<Proc>)
    requires t != []
    ensures LastHook(t, kind, dflt)
         == LastHook(t[1..], kind, if t[0].TransitionHookDecl? && t[0].kind == kind then t[0].proc else dflt)
    decreases |t|
  {
    if |t| > 1 {
      var last := t[|t| - 1];
      if !(last.TransitionHookDecl? && last.kind == kind) {
        assert t[1..][..|t| - 2] == t[..|t| - 1][1..];
        LastHookCons(t[..|t| - 1], kind, dflt);
      }
    }
  }

  /** Each transition hook slot holds the block of the last declaration of that hook. */
  lemma {:induction false} FlatHooks(s: SpecVal, t: seq<Decl>, kind: TransitionHook)
    requires Wf(s) && Declarable(s.scoped.Some?, t) && RunFlat(s, t).Ok?
    ensures Slot(RunFlat(s, t).value, kind) == LastHook(t, kind, Slot(s, kind))
    decreases |t|
  {
    if t != [] {
      var s1 := Step(s, t[0]).value;
      LastHookCons(t, kind, Slot(s, kind));
      if !t[0].TransitionHookDecl? && !t[0].StateDecl? {
        assert s.scoped.Some?;
      }
      FlatHooks(s1, t[1..], kind);
    }
  }

  /** The error of a trace, read from the front: the first event without a target. */
  function FirstError(t: seq<Decl>): Option<DefinitionError>
  {
    if t == [] then None else if Broken(t[0]) then Some(MissingTarget(t[0].event)) else FirstError(t[1..])
  }

  /** There is one exactly when some event lacks a target, and it names the first such event. */
  lemma {:induction false} FirstErrorIsFirstBroken(t: seq<Decl>)
    ensures FirstError(t).Some? <==> exists i | 0 <= i < |t| :: Broken(t[i])
    ensures FirstError(t).Some? ==>
      exists i | 0 <= i < |t| :: Broken(t[i]) && (forall j | 0 <= j < i :: !Broken(t[j]))
                              && FirstError(t).value == MissingTarget(t[i].event)
  {
    if t != [] && !Broken(t[0]) {
      FirstErrorIsFirstBroken(t[1..]);
      if exists i | 0 <= i < |t| :: Broken(t[i]) {
        var i :| 0 <= i < |t| && Broken(t[i]);
        assert Broken(t[1..][i - 1]);
      }
      if FirstError(t).Some? {
        var i :| 0 <= i < |t[1..]| && Broken(t[1..][i]) && (forall j | 0 <= j < i :: !Broken(t[1..][j]))
                 && FirstError(t[1..]).value == MissingTarget(t[1..][i].event);
        assert forall j | 0 <= j < i + 1 :: !Broken(t[j]) by {
          forall j | 0 <= j < i + 1 ensures !Broken(t[j]) {
            if j > 0 { assert t[j] == t[1..][j - 1]; }
          }
        }
        assert Broken(t[i + 1]);
      }
    }
  }

  /** A trace fails exactly with its first error; nothing after it is evaluated. */
  lemma {:induction false} FlatError(s: SpecVal, t: seq<Decl>)
    requires Wf(s) && Declarable(s.scoped.Some?, t)
    ensures RunFlat(s, t).Err? <==> FirstError(t).Some?
    ensures RunFlat(s, t).Err? ==> RunFlat(s, t).error == FirstError(t).value
    decreases |t|
  {
    if t != [] && !Broken(t[0]) {
      var s1 := Step(s, t[0]).value;
      assert RunFlat(s, t) == RunFlat(s1, t[1..]);
      FlatError(s1, t[1..]);
    }
  }

  // ---------------------------------------------------------------------------------------
  // Key order of a Ruby Hash.
  // ---------------------------------------------------------------------------------------

  lemma IndexOfTail(ns: seq<Name>, n: Name)
    requires n in ns && ns[0] != n
    ensures n in ns[1..] && Order.IndexOf(ns, n) == 1 + Order.IndexOf(ns[1..], n)
  {
  }

  /** `r` is `keys` with the names of `ns` inserted as Hash keys: `r` has no repeated key, keeps
      `keys` as a prefix, holds exactly the names of both, adds only names not in `keys`, and
      orders the added ones by their first occurrence in `ns`. */
  ghost predicate AddedInOrder(keys: seq<Name>, ns: seq<Name>, r: seq<Name>)
  {
    && Order.Distinct(r)
    && |keys| <= |r| && r[..|keys|] == keys
    && (forall n :: n in r <==> n in keys || n in ns)
    && (forall i | |keys| <= i < |r| :: r[i] !in keys && r[i] in ns)
    && (forall i, j | |keys| <= i < j < |r| :: Order.IndexOf(ns, r[i]) < Order.IndexOf(ns, r[j]))
  }

  /** Inserting `ns` into a Hash with distinct keys `keys`. */
  lemma {:induction false} AddNewOrder(keys: seq<Name>, ns: seq<Name>)
    requires Order.Distinct(keys)
    ensures AddedInOrder(keys, ns, AddNew(keys, ns))
    decreases |ns|
  {
    if ns != [] {
      var n := ns[0];
      if n in keys {
        AddNewOrder(keys, ns[1..]);
        AddKnownStep(keys, ns, AddNew(keys, ns));
      } else {
        assert Order.Distinct(keys + [n]);
        AddNewOrder(keys + [n], ns[1..]);
        AddFreshStep(keys, ns, AddNew(keys, ns));
      }
    }
  }

  /** The first name is already a key: inserting the rest is inserting everything. */
  lemma AddKnownStep(keys: seq<Name>, ns: seq<Name>, r: seq<Name>)
    requires ns != [] && ns[0] in keys && AddedInOrder(keys, ns[1..], r)
    ensures AddedInOrder(keys, ns, r)
  {
    forall i | |keys| <= i < |r| ensures r[i] in ns && Order.IndexOf(ns, r[i]) == 1 + Order.IndexOf(ns[1..], r[i]) {
      IndexOfTail(ns, r[i]);
    }
  }

  /** The first name is new: it is added right after `keys`, before the rest. */
  lemma AddFreshStep(keys: seq<Name>, ns: seq<Name>, r: seq<Name>)
    requires ns != [] && ns[0] !in keys && AddedInOrder(keys + [ns[0]], ns[1..], r)
    ensures AddedInOrder(keys, ns, r)
  {
    var keys' := keys + [ns[0]];
    assert r[..|keys|] == keys by { assert r[..|keys|] == r[..|keys'|][..|keys|]; }
    assert r[|keys|] == ns[0] by { assert r[|keys|] == r[..|keys'|][|keys|]; }
    forall i | |keys'| <= i < |r| ensures r[i] in ns && Order.IndexOf(ns, r[i]) == 1 + Order.IndexOf(ns[1..], r[i]) {
      IndexOfTail(ns, r[i]);
    }
  }

  // ---------------------------------------------------------------------------------------
  // `Specification.new(meta) { ... }`.
  // ---------------------------------------------------------------------------------------

  /** Construction fails exactly when some event, at any depth, lacks a target; the error
      names the first one in evaluation order. */
  lemma ConstructionFails(meta: Value, ds: seq<Decl>)
    requires Declarable(false, ds)
    ensures Run(Init(meta), ds).Err? <==> exists i | 0 <= i < |Trace(ds)| :: Broken(Trace(ds)[i])
    ensures Run(Init(meta), ds).Err? ==>
      exists i | 0 <= i < |Trace(ds)| :: Broken(Trace(ds)[i]) && (forall j | 0 <= j < i :: !Broken(Trace(ds)[j]))
                                       && Run(Init(meta), ds).error == MissingTarget(Trace(ds)[i].event)
  {
    RunIsFlat(Init(meta), ds);
    FlatError(Init(meta), Trace(ds));
    FirstErrorIsFirstBroken(Trace(ds));
  }

  /** `state_names` lists every declared name once, ordered by where each was first declared:
      `a, b, a` gives `[a, b]`. */
  lemma StateNamesInFirstDeclarationOrder(meta: Value, ds: seq<Decl>)
    requires Declarable(false, ds) && Run(Init(meta), ds).Ok?
    ensures var keys := Run(Init(meta), ds).value.keys; var ns := DeclaredKeys(Trace(ds));
      && Order.Distinct(keys)
      && (forall n :: n in keys <==> n in ns)
      && (forall i, j | 0 <= i < j < |keys| :: Order.IndexOf(ns, keys[i]) < Order.IndexOf(ns, keys[j]))
  {
    RunIsFlat(Init(meta), ds);
    FlatKeys(Init(meta), Trace(ds));
    AddNewOrder([], DeclaredKeys(Trace(ds)));
  }

  /** `initial_state` is the State created by the first `state` evaluated (none if there is
      none), with that declaration's name and meta, even if its name was declared again. */
  lemma InitialIsFirstDeclared(meta: Value, ds: seq<Decl>)
    requires Declarable(false, ds) && Run(Init(meta), ds).Ok?
    ensures var r := Run(Init(meta), ds).value; var sd := StatesIn(Trace(ds));
      && (r.initial.Some? <==> sd != [])
      && (sd != [] ==> r.initial == Some(0) && r.heap[0].name == sd[0].name
                       && r.heap[0].meta == Fetch(sd[0].meta, "meta"))
  {
    RunIsFlat(Init(meta), ds);
    FlatHeap(Init(meta), Trace(ds));
    HeadsAfterStates(Trace(ds), []);
    var r := Run(Init(meta), ds).value;
    if |r.heap| > 0 {
      assert Heads(r.heap)[0] == (r.heap[0].name, r.heap[0].meta);
    }
  }

  /** The specification's `meta` ends as the whole `meta` argument of the last `state`
      evaluated, or stays the constructor's when no state is declared. */
  lemma MetaIsLastStateArgument(meta: Value, ds: seq<Decl>)
    requires Declarable(false, ds) && Run(Init(meta), ds).Ok?
    ensures var sd := StatesIn(Trace(ds));
      Run(Init(meta), ds).value.meta == if sd == [] then meta else Hash(sd[|sd| - 1].meta)
  {
    RunIsFlat(Init(meta), ds);
    FlatMeta(Init(meta), Trace(ds));
    MetaAfterLastState(Trace(ds), meta);
  }

  /** Each of `before_transition`, `after_transition`, `on_transition` and `on_error` holds
      the block of its last declaration, wherever it was nested. */
  lemma TransitionHooksLastWins(meta: Value, ds: seq<Decl>, kind: TransitionHook)
    requires Declarable(false, ds) && Run(Init(meta), ds).Ok?
    ensures Slot(Run(Init(meta), ds).value, kind) == LastHook(Trace(ds), kind, None)
  {
    RunIsFlat(Init(meta), ds);
    FlatHooks(Init(meta), Trace(ds), kind);
  }
}
