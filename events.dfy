/** Events and the per-state event collection, as `Specification#event` and
    `State#events_list` use them: an event record and an ordered multi-map from event name to
    the events declared under it. */
module Events {
  import opened Values

  /** An event's `condition`. `Explicit(v)` is whatever `:if` held (`Explicit(Nil)` when there
      was none); `Derived(h, m)` is the proc that instantiates handler `h` on the context and
      calls its predicate named `m`. */
  datatype Guard = Explicit(value: Value) | Derived(handler: Handler, selector: Name)

  /** `Workflow::Event.new(name, target, condition, meta, &action)`. */
  datatype Event = Event(name: Name, target: Name, condition: Guard, meta: Value, action: Option<Proc>)

  /** The events under one name: the first one pushed, then the later ones in push order. */
  datatype Entry = Entry(name: Name, first: Event, later: seq<Event>)
  {
    function Events(): (r: seq<Event>)
      ensures |r| > 0 && r[0] == first
    {
      [first] + later
    }
  }

  /** An `EventCollection`: one entry per name, in first-pushed order. */
  datatype EventCollection = EventCollection(entries: seq<Entry>)

  /** A collection with one entry per name, as every collection `Push` builds from `Empty`
      is (see `PushDistinct`). */
  type Collection = c: EventCollection | Distinct(c) witness EventCollection([])

  /** `EventCollection.new`. */
  const Empty: Collection := EventCollection([])

  /** The names of a collection, in iteration order. */
  function Names(c: EventCollection): (r: seq<Name>)
    ensures |r| == |c.entries| && forall i | 0 <= i < |r| :: r[i] == c.entries[i].name
  {
    seq(|c.entries|, i requires 0 <= i < |c.entries| => c.entries[i].name)
  }

  /** No name has two entries; every collection built by `Push` from `Empty` is like this. */
  ghost predicate Distinct(c: EventCollection)
  {
    forall i, j | 0 <= i < j < |c.entries| :: c.entries[i].name != c.entries[j].name
  }

  /** The position of the entry for `name`, searching from `k`. */
  function FindFrom(c: EventCollection, name: Name, k: nat): (r: Option<nat>)
    requires k <= |c.entries|
    ensures r.Some? ==> k <= r.value < |c.entries| && c.entries[r.value].name == name
                        && forall j | k <= j < r.value :: c.entries[j].name != name
    ensures r.None? ==> forall j | k <= j < |c.entries| :: c.entries[j].name != name
    decreases |c.entries| - k
  {
    if k == |c.entries| then None
    else if c.entries[k].name == name then Some(k)
    else FindFrom(c, name, k + 1)
  }

  function Find(c: EventCollection, name: Name): (r: Option<nat>)
    ensures r.Some? ==> r.value < |c.entries| && c.entries[r.value].name == name
    ensures r.None? <==> name !in Names(c)
  {
    var r := FindFrom(c, name, 0);
    if r.None? then assert forall j | 0 <= j < |c.entries| :: Names(c)[j] != name; r else r
  }

  /** The events declared under `name`, in push order; empty when the name was never pushed. */
  function Lookup(c: EventCollection, name: Name): (r: seq<Event>)
    ensures |r| > 0 <==> name in Names(c)
  {
    match Find(c, name)
    case None => []
    case Some(j) => c.entries[j].Events()
  }

  /** `events.push(name, event)`: appends under `name`, keeping what is already there. */
  function Push(c: EventCollection, name: Name, e: Event): (r: EventCollection)
    ensures Names(r) == if name in Names(c) then Names(c) else Names(c) + [name]
  {
    match Find(c, name)
    case None => EventCollection(c.entries + [Entry(name, e, [])])
    case Some(j) =>
      var old_ := c.entries[j];
      var r := EventCollection(c.entries[j := old_.(later := old_.later + [e])]);
      assert Names(r) == Names(c);
      r
  }

  /** Pushing appends exactly `e` under `name`, and leaves every other name's events alone. */
  lemma PushLookup(c: EventCollection, name: Name, e: Event)
    ensures Lookup(Push(c, name, e), name) == Lookup(c, name) + [e]
    ensures forall n | n != name :: Lookup(Push(c, name, e), n) == Lookup(c, n)
  {
    var r := Push(c, name, e);
    match Find(c, name)
    case None =>
      assert FindFrom(r, name, 0) == Some(|c.entries|) by { FindPrefix(c, r, name, 0); }
      forall n | n != name ensures Lookup(r, n) == Lookup(c, n) {
        FindPrefix(c, r, n, 0);
      }
    case Some(j) =>
      forall n ensures Find(r, n) == Find(c, n) {
        FindSameNames(c, r, n, 0);
      }
      assert r.entries[j].Events() == c.entries[j].Events() + [e];
  }

  /** A search gives the same answer in a collection extended at the end, as long as it finds
      the name in the original part or the name is not the extension's. */
  lemma {:induction false} FindPrefix(c: EventCollection, r: EventCollection, name: Name, k: nat)
    requires |c.entries| < |r.entries| && r.entries[..|c.entries|] == c.entries && k <= |c.entries|
    requires |r.entries| == |c.entries| + 1
    ensures FindFrom(r, name, k) == if FindFrom(c, name, k).None? && r.entries[|c.entries|].name == name
                                    then Some(|c.entries|) else FindFrom(c, name, k)
    decreases |c.entries| - k
  {
    if k < |c.entries| {
      assert r.entries[k] == c.entries[k];
      FindPrefix(c, r, name, k + 1);
    }
  }

  /** A search gives the same answer in a collection with the same names. */
  lemma {:induction false} FindSameNames(c: EventCollection, r: EventCollection, name: Name, k: nat)
    requires Names(r) == Names(c) && k <= |c.entries|
    ensures FindFrom(r, name, k) == FindFrom(c, name, k)
    decreases |c.entries| - k
  {
    if k < |c.entries| {
      assert r.entries[k].name == Names(r)[k] == Names(c)[k] == c.entries[k].name;
      FindSameNames(c, r, name, k + 1);
    }
  }

  /** Pushing keeps one entry per name. */
  lemma PushDistinct(c: EventCollection, name: Name, e: Event)
    requires Distinct(c)
    ensures Distinct(Push(c, name, e))
  {
    var r := Push(c, name, e);
    forall i, j | 0 <= i < j < |r.entries| ensures r.entries[i].name != r.entries[j].name {
      assert Names(r)[i] == r.entries[i].name && Names(r)[j] == r.entries[j].name;
      if j == |c.entries| {
        assert Names(c)[i] == Names(r)[i];
      } else {
        assert Names(c)[i] == Names(r)[i] && Names(c)[j] == Names(r)[j];
      }
    }
  }

  /** One entry of `events_list`: `display_name` is computed from `first`, the first event
      under the name; `event` is the name itself. */
  datatype ListEntry = ListEntry(first: Event, event: Name)

  /** `events.map {|k, v| {display_name: v.first.display_name, event: k}}`. */
  function EventsList(c: EventCollection): (r: seq<ListEntry>)
    ensures |r| == |Names(c)|
    ensures forall i | 0 <= i < |r| :: r[i].event == Names(c)[i]
    ensures Distinct(c) ==> forall i | 0 <= i < |r| :: r[i].first == Lookup(c, Names(c)[i])[0]
  {
    var r := seq(|c.entries|, i requires 0 <= i < |c.entries| => ListEntry(c.entries[i].first, c.entries[i].name));
    assert Distinct(c) ==> forall i | 0 <= i < |r| :: r[i].first == Lookup(c, Names(c)[i])[0] by {
      if Distinct(c) {
        forall i | 0 <= i < |r| ensures r[i].first == Lookup(c, Names(c)[i])[0] {
          assert Find(c, c.entries[i].name) == Some(i);
        }
      }
    }
    r
  }

  /** `events_list` has exactly one entry for every name that has events and no other, with
      no name twice. */
  lemma EventsListCoversNames(c: EventCollection, n: Name)
    requires Distinct(c)
    ensures (exists i | 0 <= i < |EventsList(c)| :: EventsList(c)[i].event == n) <==> |Lookup(c, n)| > 0
    ensures forall i, j | 0 <= i < j < |EventsList(c)| :: EventsList(c)[i].event != EventsList(c)[j].event
  {
    var r := EventsList(c);
    if |Lookup(c, n)| > 0 {
      var i :| 0 <= i < |Names(c)| && Names(c)[i] == n;
      assert r[i].event == n;
    }
    forall i, j | 0 <= i < j < |r| ensures r[i].event != r[j].event {
      assert r[i].event == c.entries[i].name && r[j].event == c.entries[j].name;
    }
  }

  /** Pushing under a name already present leaves `events_list` as it was (the first event
      stays first); pushing under a new name adds one entry at the end. */
  lemma EventsListAfterPush(c: EventCollection, name: Name, e: Event)
    ensures EventsList(Push(c, name, e))
         == if name in Names(c) then EventsList(c) else EventsList(c) + [ListEntry(e, name)]
  {
    var r := Push(c, name, e);
    var a, b := EventsList(r), if name in Names(c) then EventsList(c) else EventsList(c) + [ListEntry(e, name)];
    assert |a| == |b|;
    forall i | 0 <= i < |a| ensures a[i] == b[i] {
      if i < |c.entries| {
        assert r.entries[i].first == c.entries[i].first && r.entries[i].name == c.entries[i].name;
      }
    }
  }
}
