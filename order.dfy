/** The declaration-order comparison of `State#<=>`: two states are ordered by the positions
    of their names in the specification's state keys. */
module Order {
  import opened Values

  ghost predicate Distinct(keys: seq<Name>)
  {
    forall i, j | 0 <= i < j < |keys| :: keys[i] != keys[j]
  }

  /** `Array#index`: the position of the first occurrence of `n`. */
  function IndexOf(keys: seq<Name>, n: Name): (i: nat)
    requires n in keys
    ensures i < |keys| && keys[i] == n
    ensures forall j | 0 <= j < i :: keys[j] != n
  {
    if keys[0] == n then 0 else 1 + IndexOf(keys[1..], n)
  }

  /** `Integer#<=>`. */
  function Spaceship(a: int, b: int): (r: int)
    ensures r < 0 <==> a < b
    ensures r == 0 <==> a == b
    ensures r > 0 <==> a > b
    ensures -1 <= r <= 1
  {
    if a < b then -1 else if a == b then 0 else 1
  }

  /** What `<=>` produces: an integer sign, `nil` (when the receiver's own name is not a key,
      so `nil <=> index` answers `nil`), or the `ArgumentError` raised for an unknown argument. */
  datatype Ordering = Order(sign: int) | NilOrder | UnknownState(name: Name)

  /** `self <=> other` for a receiver named `self` and an argument whose `to_sym` is `other`,
      against the key list `keys` of the owning specification. */
  function Compare(keys: seq<Name>, self: Name, other: Name): (r: Ordering)
    ensures r.UnknownState? <==> other !in keys
    ensures r.UnknownState? ==> r.name == other
    ensures r.NilOrder? <==> other in keys && self !in keys
    ensures r.Order? ==> -1 <= r.sign <= 1
  {
    if other !in keys then UnknownState(other)
    else if self !in keys then NilOrder
    else Order(Spaceship(IndexOf(keys, self), IndexOf(keys, other)))
  }

  /** `a` is declared before `b` in `keys`. */
  ghost predicate Precedes(keys: seq<Name>, a: Name, b: Name)
  {
    exists i, j | 0 <= i < j < |keys| :: keys[i] == a && keys[j] == b
  }

  lemma IndexOfDistinct(keys: seq<Name>, i: nat)
    requires Distinct(keys) && i < |keys|
    ensures IndexOf(keys, keys[i]) == i
  {
  }

  /** Between declared names, `<=>` is negative exactly when the receiver was declared first,
      zero exactly for the same name, and positive exactly when the argument was declared first. */
  lemma CompareByPosition(keys: seq<Name>, a: Name, b: Name)
    requires Distinct(keys) && a in keys && b in keys
    ensures Compare(keys, a, b).Order?
    ensures Compare(keys, a, b).sign < 0 <==> Precedes(keys, a, b)
    ensures Compare(keys, a, b).sign == 0 <==> a == b
    ensures Compare(keys, a, b).sign > 0 <==> Precedes(keys, b, a)
  {
    var i, j := IndexOf(keys, a), IndexOf(keys, b);
    if Precedes(keys, a, b) {
      var i', j' :| 0 <= i' < j' < |keys| && keys[i'] == a && keys[j'] == b;
      IndexOfDistinct(keys, i');
      IndexOfDistinct(keys, j');
    }
    if Precedes(keys, b, a) {
      var j', i' :| 0 <= j' < i' < |keys| && keys[j'] == b && keys[i'] == a;
      IndexOfDistinct(keys, i');
      IndexOfDistinct(keys, j');
    }
    if i < j {
      assert keys[i] == a && keys[j] == b;
    }
    if j < i {
      assert keys[j] == b && keys[i] == a;
    }
  }

  /** Swapping receiver and argument negates the result. */
  lemma CompareAntisymmetric(keys: seq<Name>, a: Name, b: Name)
    requires a in keys && b in keys
    ensures Compare(keys, a, b).Order? && Compare(keys, b, a).Order?
    ensures Compare(keys, a, b).sign == -Compare(keys, b, a).sign
  {
  }

  /** The order is transitive, so with antisymmetry and totality it is a total order on the
      declared names (what `Comparable` relies on). */
  lemma CompareTransitive(keys: seq<Name>, a: Name, b: Name, c: Name)
    requires a in keys && b in keys && c in keys
    requires Compare(keys, a, b).sign <= 0 && Compare(keys, b, c).sign <= 0
    ensures Compare(keys, a, c).sign <= 0
    ensures Compare(keys, a, c).sign == 0 ==> a == b && b == c
  {
    var i, j, k := IndexOf(keys, a), IndexOf(keys, b), IndexOf(keys, c);
    assert i <= j <= k;
  }

  /** Declaring a new state name after `a` and `b` leaves their comparison as it was. */
  lemma CompareStableUnderAppend(keys: seq<Name>, n: Name, a: Name, b: Name)
    requires a in keys && b in keys
    ensures Compare(keys + [n], a, b) == Compare(keys, a, b)
  {
    IndexOfPrefix(keys, n, a);
    IndexOfPrefix(keys, n, b);
  }

  lemma {:induction false} IndexOfPrefix(keys: seq<Name>, n: Name, a: Name)
    requires a in keys
    ensures IndexOf(keys + [n], a) == IndexOf(keys, a)
  {
    if keys[0] != a {
      assert (keys + [n])[1..] == keys[1..] + [n];
      IndexOfPrefix(keys[1..], n, a);
    }
  }
}
