# Workflow specification builder, in Dafny

This project models the specification builder of the Ruby `workflow` gem. It also models the gem's `State` node.

`Workflow::Specification.new(meta) { ... }` evaluates a declaration block. The block can contain:
- `state`, with an optional nested block;
- `handler`, `event`, `on_entry` and `on_exit`, which attach to the current scope;
- `before_transition`, `after_transition`, `on_transition` and `on_error`, which set the specification's four hook slots.

Evaluation builds:
- an insertion-ordered map from state name to `State`;
- the initial state;
- the specification's `meta`;
- the four hook slots.

Each `State` holds an ordered multi-map from event name to the events declared under it. States compare by the position of their names among the specification's keys.

The project has two layers.

- **Value layer.** `Declarations` gives the meaning of a block as a value (`SpecVal`).
  - A block is a list of `Decl` commands, and a `state` command carries its nested block.
  - `Run` evaluates a block one command at a time and stops at the first definition error.
  - Every `State` ever created sits in a heap, in creation order. A replaced `State` therefore keeps its identity. This is how the model states that `initial_state` can still be a State that `states` no longer reaches.
  - `DeclarationProperties` proves what a whole block does. The deepest result is that nesting is only notation: `RunIsFlat` proves the scope cursor is never restored, so a nested block means the same as its declarations written after the `state` line. From that, the module proves:
    - the order of `state_names`;
    - which State is the initial state;
    - the final `meta`;
    - the hook slots;
    - the construction error.
- **Object layer.** `Workflow` has the classes `State` and `Specification`.
  - Their fields are the Ruby instance variables.
  - Each declaration method changes them in place.
  - A ghost `model: SpecVal`, together with the heap of created States, is tied to those fields by `Valid()`.
  - Every declaration method ensures `Valid()` and states its exact effect on the fields. It also states that the model took the corresponding step of `Declarations`.
  - `Store`, `Record` and `PushEvent` are helpers. `AddState` combines `Store` (the real fields) and `Record` (the ghost fields) and then re-establishes `Valid()`. `DeclareEvent` combines `PushEvent` (the scoped State's events) with the model's step.

`Events` models the per-state `EventCollection` from the way the core uses it. `Order` models the comparison behind `State#<=>`.

Two details of `state` follow from the code itself:
- **Re-declaring a state name.** `@states[name.to_sym] = new_state` is Ruby `Hash#[]=`. It replaces the value and keeps the key's original position, so `a, b, a` gives `state_names == [:a, :b]`.
- **A `meta` argument without `:meta`.** The new State's meta is `meta[:meta]`, which is `nil` when the key is absent. The empty hash comes only from the default argument `{:meta => {}}` (`Declarations.DefaultStateMeta`, see `DeclarationProperties.DefaultStateArgument`).

## Model

| member | source | states |
|---|---|---|
| Order.IndexOf | lib/workflow/state.rb:32 | `Array#index`: a position holding the name, with no earlier occurrence |
| Order.Spaceship | lib/workflow/state.rb:32 | `Integer#<=>`: negative, zero or positive exactly when less, equal or greater |
| Order.Compare | lib/workflow/state.rb:29-33 | it raises (UnknownState, naming the argument) exactly when the argument is not a key; it is `nil` exactly when only the receiver is not a key; otherwise it is a sign in -1..1 |
| Order.CompareByPosition | lib/workflow/state.rb:29-33 | between declared names it is never nil or an error; it is negative iff the receiver was declared first, zero iff the names are equal, positive iff the argument was declared first |
| Order.CompareAntisymmetric | lib/workflow/state.rb:28-33 | swapping receiver and argument negates the sign |
| Order.CompareTransitive | lib/workflow/state.rb:28-33 | the order is transitive; a zero result through a chain forces equal names; with antisymmetry this is the total order `Comparable` relies on |
| Order.CompareStableUnderAppend | lib/workflow/state.rb:30-32 | declaring a new key afterwards does not change how two existing keys compare |
| Events.Lookup | lib/workflow/specification.rb:50 | the events under a name are non-empty exactly when the name was pushed |
| Events.Push | lib/workflow/specification.rb:50-52 | `push` adds a new name last and does not reorder the names already present |
| Events.PushLookup | lib/workflow/specification.rb:50-52 | `push` appends exactly the event under its name, after the earlier ones; every other name's events are unchanged |
| Events.PushDistinct | lib/workflow/specification.rb:50 | `push` keeps one entry per name, so every collection built from `EventCollection.new` has that property; a State's `events` field has the type `Collection` of such collections |
| Events.EventsList | lib/workflow/state.rb:44-46 | one entry per entry of the collection, in order; `event:` is the entry's name; on a collection with one entry per name, the event it displays is the first one pushed under that name |
| Events.EventsListCoversNames | lib/workflow/state.rb:44-46 | a name appears in `events_list` iff it has events, and no name appears twice |
| Events.EventsListAfterPush | lib/workflow/state.rb:44-46 | pushing under a known name leaves `events_list` unchanged (the first event stays first); pushing under a new name adds one entry at the end |
| Declarations.NewState | lib/workflow/state.rb:6-8 | a new State has the given name and meta, no events, no `on_entry` / `on_exit` and no handler |
| Declarations.Init | lib/workflow/specification.rb:11-13 | before the block: no states, no initial state, `meta` as given, and the invariant holds |
| Declarations.KeysIds | lib/workflow/specification.rb:27 | for `Keys` and `Ids`, the key list and the map that storing the created States in order gives: the key list has no repeats and the same keys as the map; each key maps to a State bearing that name; every created State's key is present |
| Declarations.AppendKey | lib/workflow/specification.rb:27 | `Hash#[]=`: a new key goes last, and a known key keeps its place and now maps to the new State |
| Declarations.Target | lib/workflow/specification.rb:40 | the target is `:transitions_to` when given, and `:transition_to` when `:transitions_to` is absent; it is absent exactly when both are |
| Declarations.GuardSelector | lib/workflow/specification.rb:43 | the method name is `can_transition_to_`, then the target, then `?` |
| Declarations.GuardFor | lib/workflow/specification.rb:41-46 | a truthy `:if` is kept; a derived guard is the scoped handler's own `can_transition_to_<target>?`, which that handler defines; it is chosen whenever `:if` is falsy and the handler defines the method; otherwise the guard is the `:if` value |
| Declarations.EventMeta | lib/workflow/specification.rb:51 | `args[:meta] or {}`: a truthy `:meta` is kept, otherwise it is the empty hash, so the result is always truthy |
| Declarations.StateStep | lib/workflow/specification.rb:23-29 | `state` appends a new State (name, `meta[:meta]`), which becomes the scope; the key goes last only if new; the key maps to the new State; `meta` becomes the whole argument; the hook slots are kept |
| Declarations.HandlerStep | lib/workflow/specification.rb:33-37 | `handler` keeps the invariant; the result is the input with only the scoped State replaced (every other State, key, cursor, `meta` and hook slot is identical); the scoped State keeps its name and meta |
| Declarations.NewEvent | lib/workflow/specification.rb:51 | the built event carries the event name, the target and the action |
| Declarations.EventStep | lib/workflow/specification.rb:39-53 | `event` fails exactly when there is no target; on success it keeps the invariant (one event entry per name included), and the result is the input with only the scoped State replaced |
| Declarations.OnEntryStep | lib/workflow/specification.rb:55-57 | the scoped State's `on_entry` becomes the block, or `nil`; the result is the input with only that State replaced |
| Declarations.OnExitStep | lib/workflow/specification.rb:59-61 | the scoped State's `on_exit` becomes the block, or `nil`; the result is the input with only that State replaced |
| Declarations.TransitionHookStep | lib/workflow/specification.rb:63-77 | exactly the named slot of the four becomes the block, or `nil`; the States are untouched |
| Declarations.Step | lib/workflow/specification.rb:23-77 | a declaration method fails only for an event without a target; only `state` adds a State, and it adds exactly one; other declarations keep keys, names, metas and cursors |
| Declarations.Exec | lib/workflow/specification.rb:23-31 | with its nested block, a successful `state` leaves a scope set, and the invariant holds |
| Declarations.Run | lib/workflow/specification.rb:14 | evaluating a block keeps the invariant and never removes a created State |
| DeclarationProperties.ExecIsFlat | lib/workflow/specification.rb:28-30 | a `state` with its block means the `state` line followed by the block's declarations, evaluated against the new scope |
| DeclarationProperties.RunIsFlat | lib/workflow/specification.rb:28-30 | the scope is never restored: a block with nested `state` blocks means its flat trace |
| DeclarationProperties.StateDeclaration | lib/workflow/specification.rb:23-29 | on top of `StateStep`: only the first `state` sets the initial state, and later ones keep it, even when it is the State being replaced; the replaced State is no longer reachable from `states` |
| DeclarationProperties.DefaultStateArgument | lib/workflow/specification.rb:23-29 | with the default argument `{:meta => {}}`, the new State's meta is the empty hash and the specification's `meta` is `{:meta => {}}` |
| DeclarationProperties.GuardSelectorInjective | lib/workflow/specification.rb:43 | different targets give different guard method names |
| DeclarationProperties.EventDeclarationError | lib/workflow/specification.rb:40-49 | `event` raises exactly when neither `:transitions_to` nor `:transition_to` is given, and the error names the event |
| DeclarationProperties.EventDeclaration | lib/workflow/specification.rb:40-52 | given a target, one event is appended under the name, after the earlier ones. The event holds the target, the guard, `args[:meta] or {}` and the action. Other names and other States are unchanged, as are all other fields |
| DeclarationProperties.GuardPrecedence | lib/workflow/specification.rb:41-46 | a truthy `:if` is kept; otherwise the handler-derived guard is used exactly when the handler defines `can_transition_to_<target>?`; otherwise the falsy `:if` stays |
| DeclarationProperties.HandlerDeclaration | lib/workflow/specification.rb:33-37 | `handler` always sets the handler; it replaces `on_entry` / `on_exit` only when the class defines that method; events, name and meta are kept |
| DeclarationProperties.ExplicitHookOverridesHandler | lib/workflow/specification.rb:33-61 | explicit `on_entry` / `on_exit` after `handler` overwrite what it installed, and the handler stays |
| DeclarationProperties.HandlerAfterExplicitHook | lib/workflow/specification.rb:33-57 | a later `handler` replaces an explicit `on_entry` block only when the class defines `on_entry` |
| DeclarationProperties.StepKeepsHeap | lib/workflow/specification.rb:23-77 | no declaration renames an existing State or changes its meta; `state` adds exactly one State, and the other declarations add none |
| DeclarationProperties.StepNewState | lib/workflow/specification.rb:25 | the State that `state` adds has the declared name and `meta[:meta]` |
| DeclarationProperties.StepKeysAndMeta | lib/workflow/specification.rb:27-29 | only `state` changes the key list (a new key goes last) and the specification's `meta` |
| DeclarationProperties.FlatKeys | lib/workflow/specification.rb:27 | after a trace, the keys are the earlier keys with the declared names inserted as Hash keys, in order |
| DeclarationProperties.FlatHeap | lib/workflow/specification.rb:25 | a trace creates one State per `state` declaration, in order, with that declaration's name and meta |
| DeclarationProperties.MetaAfterLastState | lib/workflow/specification.rb:29 | the `meta` a trace leaves is the whole argument of its last `state`, or the earlier value without one |
| DeclarationProperties.FlatMeta | lib/workflow/specification.rb:29 | after a trace, the specification's `meta` is what its `state` declarations leave, read front to back |
| DeclarationProperties.FlatHooks | lib/workflow/specification.rb:63-77 | after a trace, each hook slot holds the block of that hook's last declaration, or the earlier value |
| DeclarationProperties.FirstErrorIsFirstBroken | lib/workflow/specification.rb:47-49 | a trace has an error iff some event lacks a target; the error names the first such event |
| DeclarationProperties.FlatError | lib/workflow/specification.rb:47-49 | a trace fails exactly with its first error, and nothing after that error takes effect |
| DeclarationProperties.AddNewOrder | lib/workflow/specification.rb:27 | inserting names into a Hash keeps the old keys as a prefix; it adds each new name once, in order of first occurrence, and nothing else |
| DeclarationProperties.ConstructionFails | lib/workflow/specification.rb:11-15 | construction fails iff some event at any depth lacks a target; the error names the first such event in evaluation order |
| DeclarationProperties.StateNamesInFirstDeclarationOrder | lib/workflow/specification.rb:17-19 | `state_names` lists each declared name once, and no other name, ordered by where each was first declared (`a, b, a` gives `[a, b]`) |
| DeclarationProperties.InitialIsFirstDeclared | lib/workflow/specification.rb:26 | there is an initial state iff some `state` is declared; it is the first State created, with the first declaration's name and meta, even if that name is declared again later |
| DeclarationProperties.MetaIsLastStateArgument | lib/workflow/specification.rb:13-29 | the final `meta` is the whole argument of the last `state` evaluated, or the constructor's when there is none |
| DeclarationProperties.TransitionHooksLastWins | lib/workflow/specification.rb:63-77 | each of the four hook slots holds the block of its last declaration, wherever it is nested |
| Workflow.State.constructor | lib/workflow/state.rb:6-8 | name, back-reference and meta as given; an empty event collection; no hooks; no handler |
| Workflow.State.ToS | lib/workflow/state.rb:36-38 | the name as a string, for a symbol or a string name alike |
| Workflow.State.ToSym | lib/workflow/state.rb:40-42 | the name as a symbol, the same text as `to_s` |
| Workflow.State.EventsList | lib/workflow/state.rb:44-46 | one entry per event name in collection order; each entry shows the first event under its name (the `events` field always has one entry per name) |
| Workflow.Comparand.ToSym | lib/workflow/state.rb:31 | `other_state.to_sym` is the name's text for a State argument, a symbol or a string alike |
| Workflow.State.CompareByName | lib/workflow/state.rb:29-33 | comparing with a State, with its name as a symbol, or with its name as a string gives the same answer |
| Workflow.State.CompareTo | lib/workflow/state.rb:29-33 | raises exactly for an argument whose name is not a key; `nil` exactly when only the receiver's name is not a key; otherwise the `<=>` of the two key positions |
| Workflow.Specification.constructor | lib/workflow/specification.rb:11-13 | `@states` empty, `@meta` as given, the invariant holds |
| Workflow.Specification.Build | lib/workflow/specification.rb:11-15 | construction succeeds iff the block's evaluation does; the object then satisfies the invariant and represents that evaluation; otherwise the error is the evaluation's |
| Workflow.Specification.StateNames | lib/workflow/specification.rb:17-19 | `states.keys` in Hash order (the object's key list, which `Build` ties to the model's, ordered by first declaration); every key of `states` exactly once |
| Workflow.Specification.CreatedEventsList | lib/workflow/state.rb:44-46 | for every State the specification created, `events_list` has one entry per event name in first-pushed order, each showing the first event under its name; no name appears twice, and a name appears exactly when it has events |
| Workflow.Specification.Evaluate | lib/workflow/specification.rb:14 | `instance_eval`: the object ends as the model's evaluation of the block, or with its first error |
| Workflow.Specification.Declare | lib/workflow/specification.rb:23-77 | one declaration changes the object as the model's `Exec` does, and fails with the same error |
| Workflow.Specification.DeclareState | lib/workflow/specification.rb:23-31 | `state` with its nested block changes the object as the model does |
| Workflow.Specification.AddState | lib/workflow/specification.rb:23-29 | the fields after `state`: the new State becomes the scope and is stored under its key; the key is appended only if new; the initial state is set only if `states` was empty; `meta` is the argument; the hook slots are kept |
| Workflow.Specification.Store | lib/workflow/specification.rb:25-29 | the real-field assignments of `state`, as in `AddState` |
| Workflow.Specification.CompareCreated | lib/workflow/state.rb:29-33 | two created States always compare to an integer; it is zero iff they have the same name (itself, or a replaced State and its replacement), and negative iff the receiver's name was declared first |
| Workflow.Specification.DeclareHandler | lib/workflow/specification.rb:33-37 | the scoped State gets the handler; it gets the handler's `on_entry` / `on_exit` only where the class defines them; its events are kept |
| Workflow.Specification.DeclareEvent | lib/workflow/specification.rb:39-53 | with no target, it fails, naming the event, and changes nothing; otherwise exactly the built event is pushed under the name in the scoped State |
| Workflow.Specification.PushEvent | lib/workflow/specification.rb:40-52 | the error exactly when there is no target, before anything is pushed; otherwise the push of the event with the derived guard; meta, hooks and handler are kept |
| Workflow.Specification.DeclareOnEntry | lib/workflow/specification.rb:55-57 | the scoped State's `on_entry` becomes the block, or `nil` |
| Workflow.Specification.DeclareOnExit | lib/workflow/specification.rb:59-61 | the scoped State's `on_exit` becomes the block, or `nil` |
| Workflow.Specification.DeclareAfterTransition | lib/workflow/specification.rb:63-65 | the after-transition slot becomes the block, or `nil`; the other slots are kept |
| Workflow.Specification.DeclareBeforeTransition | lib/workflow/specification.rb:67-69 | the before-transition slot becomes the block, or `nil`; the other slots are kept |
| Workflow.Specification.DeclareOnTransition | lib/workflow/specification.rb:71-73 | the on-transition slot becomes the block, or `nil`; the other slots are kept |
| Workflow.Specification.DeclareOnError | lib/workflow/specification.rb:75-77 | the on-error slot becomes the block, or `nil`; the other slots are kept |

## Left out

- **Rendering.** `State#draw` (lib/workflow/state.rb:10-24) and lib/workflow/draw.rb are not modelled. They build Graphviz output, which is I/O around a library outside this model.
- **Callables.** The bodies of guards, actions and hooks are never run by the builder, so they are opaque tokens (`Proc`).
  - The proc that `handler` installs is the tag `Delegate(klass, method)`.
  - The proc that `event` derives from the handler is the tag `Derived(klass, "can_transition_to_<target>?")`.
  - What these procs do when called (`klass.new(self).on_entry`, `handler.new(context).try(...)`) is not modelled.
- **Ruby metaprogramming.**
  - `instance_eval` of a block becomes evaluation of a `Decl` list.
  - `method_defined?` becomes membership in the handler's method-name set.
  - `present?` on a handler class becomes "a handler was set".
  - A `Specification.new` without a block, where `instance_eval` raises `ArgumentError`, is not modelled, because a block is always a list.
- **Transition resolution.** Choosing the event to fire, and the related execution errors, belong to the execution engine. That is not part of this model.
- **Declarations before any `state`.**
  - Ruby dereferences a nil `@scoped_state` when `handler`, `event`, `on_entry` or `on_exit` appear before any `state`, and raises `NoMethodError`.
  - Here that situation is a precondition: `Declarable` on blocks, and `model.scoped.Some?` on the methods.
- **Declarations.Target: a `false` target is not modelled.** The options hold a name or nothing. Ruby's `||` skips a `false` `:transitions_to` just as it skips nil. But a `false` that ends up as the target is not nil, so Ruby raises no error, while the model sees no target and fails.
- **The `RUBY_VERSION` gate** (lib/workflow/state.rb:27): `<=>` is modelled as always defined.
- **Event and EventCollection.** `Event` and `EventCollection` are modelled only from how the core uses them. lib/workflow/event.rb and lib/workflow/event_collection.rb are not part of this model.
  - `Event#display_name` is not modelled: an `events_list` entry keeps the first event itself.
  - An `:if` that is a proc is kept as an opaque `Atom`, as are other non-hash Ruby values in `meta`.
- **Accessor writers.** `attr_accessor` writers called from outside the builder (for example `spec.initial_state = ...`) are not modelled. Only the builder's own assignments are.
