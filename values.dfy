/** Ruby-level values that the workflow declarations pass around.
    Guards, actions and hooks are opaque callables: the model keeps only their identity. */
module Values {

  /** A state or event name as a symbol's text. */
  type Name = string

  datatype Option<+T> = None | Some(value: T)

  /** A state name as written by the author: `state :a` or `state 'a'`. Both convert to the
      same symbol (`to_sym`) and the same string (`to_s`). */
  datatype Ident = Sym(text: string) | Str(text: string)
  {
    /** `Symbol#to_sym` / `String#to_sym`: the symbol, represented by its text. */
    function ToSym(): Name { text }

    /** `Symbol#to_s` / string interpolation of either form. */
    function ToS(): string { text }
  }

  /** An opaque callable (a block, a proc, a lambda) identified by a token. */
  datatype Proc = Proc(id: nat)

  /** The values that meta hashes and the `:if` option may hold: `nil`, `false`, a hash, or
      any other object (a proc, `true`, a string ...) kept opaque. */
  datatype Value = Nil | False | Atom(id: nat) | Hash(entries: map<Name, Value>)
  {
    /** Ruby truthiness: everything except `nil` and `false`. */
    predicate Truthy() { !Nil? && !False? }
  }

  /** `hash[key]` on a Ruby hash without a default: `nil` when the key is absent. */
  function Fetch(h: map<Name, Value>, key: Name): (v: Value)
    ensures key !in h ==> v == Nil
    ensures key in h ==> v == h[key]
  {
    if key in h then h[key] else Nil
  }

  /** A handler class, reduced to the instance methods it defines (what `method_defined?`
      would answer). */
  datatype Handler = Handler(id: nat, methods: set<Name>)
  {
    predicate Defines(m: Name) { m in methods }
  }

  /** The per-state `on_entry` / `on_exit` slot: unset (`nil`), an explicit block, or the proc
      that `handler` installs, which instantiates the handler and calls the method named by `selector`. */
  datatype Hook = Unset | Given(proc: Proc) | Delegate(handler: Handler, selector: Name)

  /** The slot value a `&proc` parameter produces: `nil` when no block is passed. */
  function AsHook(p: Option<Proc>): (h: Hook)
    ensures h.Unset? <==> p.None?
    ensures p.Some? ==> h == Given(p.value)
  {
    match p
    case None => Unset
    case Some(q) => Given(q)
  }

  /** The raised `WorkflowDefinitionError`, naming the event that lacks a target. */
  datatype DefinitionError = MissingTarget(event: Name)

  datatype Result<+T> = Ok(value: T) | Err(error: DefinitionError)
}
