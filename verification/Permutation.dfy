/** Extension permutation evidence: the policy built from samples, and what it accepts. */
module Permutation {
  import opened Wrappers
  import opened Bytes
  import opened Numerals
  import opened Sorting

  /** A normalized extension type: a number, or a name such as the one that stands for all GREASE values. */
  datatype Identifier = Number(value: nat) | Label(text: bytes)

  // ----- the sort key: type name, then text -----

  predicate LexLeq(a: bytes, b: bytes) {
    a == [] || (b != [] && (a[0] < b[0] || (a[0] == b[0] && LexLeq(a[1..], b[1..]))))
  }

  predicate KeyLeq(a: Identifier, b: Identifier) {
    match (a, b)
    case (Number(m), Number(n)) => LexLeq(Decimal(m), Decimal(n))
    case (Number(_), Label(_)) => true
    case (Label(_), Number(_)) => false
    case (Label(s), Label(t)) => LexLeq(s, t)
  }

  lemma {:induction false} LexTotal(a: bytes, b: bytes)
    ensures (LexLeq(a, b) || LexLeq(b, a)) && (LexLeq(a, b) && LexLeq(b, a) ==> a == b)
  {
    if a != [] && b != [] {
      LexTotal(a[1..], b[1..]);
      assert a == [a[0]] + a[1..] && b == [b[0]] + b[1..];
    }
  }

  lemma {:induction false} LexTransitive(a: bytes, b: bytes, c: bytes)
    requires LexLeq(a, b) && LexLeq(b, c)
    ensures LexLeq(a, c)
  {
    if a != [] && a[0] == b[0] == c[0] {
      LexTransitive(a[1..], b[1..], c[1..]);
    }
  }

  lemma DecimalInjective(m: nat, n: nat)
    ensures Decimal(m) == Decimal(n) ==> m == n
  {
    DecimalValue(m);
    DecimalValue(n);
  }

  /** No two identifiers share a key, so sorting by key leaves nothing to chance. */
  lemma KeysOrderIdentifiers()
    ensures TotalOrder(KeyLeq)
  {
    hide LexLeq, Decimal;
    forall a, b
      ensures (KeyLeq(a, b) || KeyLeq(b, a)) && (KeyLeq(a, b) && KeyLeq(b, a) ==> a == b)
    {
      if a.Number? && b.Number? {
        LexTotal(Decimal(a.value), Decimal(b.value));
        DecimalInjective(a.value, b.value);
      } else if a.Label? && b.Label? {
        LexTotal(a.text, b.text);
      }
    }
    forall a, b, c | KeyLeq(a, b) && KeyLeq(b, c)
      ensures KeyLeq(a, c)
    {
      if a.Number? && b.Number? && c.Number? {
        LexTransitive(Decimal(a.value), Decimal(b.value), Decimal(c.value));
      } else if a.Label? && b.Label? && c.Label? {
        LexTransitive(a.text, b.text, c.text);
      }
    }
  }

  function SortTypes(values: seq<Identifier>): seq<Identifier> {
    Sort(values, KeyLeq)
  }

  lemma SortedAlike(a: seq<Identifier>, b: seq<Identifier>)
    ensures SortTypes(a) == SortTypes(b) <==> multiset(a) == multiset(b)
    ensures SortTypes(a) == SortTypes(b) ==> |a| == |b|
  {
    KeysOrderIdentifiers();
    SortCanonical(a, b, KeyLeq);
    SortKeeps(a, KeyLeq);
    assert |multiset(a)| == |a| && |multiset(b)| == |b|;
  }

  // ----- the policy -----

  datatype ProfileError = TooFewSamples | DuplicateType | DifferentTypes

  datatype Policy = Policy(fixed: map<nat, Identifier>, movable: seq<Identifier>, count: nat) {
    predicate Valid() {
      forall i <- fixed :: i < count
    }
  }

  predicate Distinct(s: seq<Identifier>) {
    forall i, j :: 0 <= i < j < |s| ==> s[i] != s[j]
  }

  /** Every sample has the same type at this position. */
  predicate Agreed(orders: seq<seq<Identifier>>, i: nat)
    requires orders != []
  {
    forall o <- orders :: i < |o| && i < |orders[0]| && o[i] == orders[0][i]
  }

  function Without(s: seq<Identifier>, taken: set<Identifier>): seq<Identifier> {
    if s == [] then []
    else (if s[0] in taken then [] else [s[0]]) + Without(s[1..], taken)
  }

  function FixedOf(orders: seq<seq<Identifier>>): map<nat, Identifier>
    requires orders != []
  {
    map i: nat | i < |orders[0]| && Agreed(orders, i) :: orders[0][i]
  }

  function FromSamples(orders: seq<seq<Identifier>>): Result<Policy, ProfileError> {
    if |orders| < 2 then Failure(TooFewSamples)
    else if exists o <- orders :: !Distinct(o) then Failure(DuplicateType)
    else if exists o <- orders[1..] :: SortTypes(o) != SortTypes(orders[0]) then Failure(DifferentTypes)
    else
      var fixed := FixedOf(orders);
      Success(Policy(fixed, Without(SortTypes(orders[0]), fixed.Values), |orders[0]|))
  }

  /** The entries of the first `n` positions that are fixed, and the types an order has at the others. */
  function FixedValues(fixed: map<nat, Identifier>, n: nat): seq<Identifier> {
    if n == 0 then []
    else FixedValues(fixed, n - 1) + if n - 1 in fixed then [fixed[n - 1]] else []
  }

  function Loose(fixed: map<nat, Identifier>, order: seq<Identifier>, n: nat): seq<Identifier>
    requires n <= |order|
  {
    if n == 0 then []
    else Loose(fixed, order, n - 1) + if n - 1 in fixed then [] else [order[n - 1]]
  }

  datatype Difference =
    | Length(expected: nat, actual: nat)
    | Types(expectedTypes: seq<Identifier>, actualTypes: seq<Identifier>)
    | Movable(expectedTypes: seq<Identifier>, actualTypes: seq<Identifier>)
    | Position(index: nat, expectedType: Identifier, actualType: Identifier)
    | Count
    | TypeList
    | NoOrders

  /** An order against which `compare` reports nothing. */
  predicate Accepts(p: Policy, order: seq<Identifier>) {
    && |order| == p.count
    && SortTypes(order) == SortTypes(FixedValues(p.fixed, p.count) + p.movable)
    && SortTypes(Loose(p.fixed, order, |order|)) == p.movable
    && forall i <- p.fixed :: i < |order| && order[i] == p.fixed[i]
  }

  /** `PermutationPolicy.compare`: reports each fixed position that differs, and nothing exactly when it accepts. */
  method Compare(p: Policy, order: seq<Identifier>) returns (differences: seq<Difference>)
    requires p.Valid()
    ensures differences == [] <==> Accepts(p, order)
    ensures |order| != p.count ==> differences == [Length(p.count, |order|)]
    ensures |order| == p.count ==>
              forall i <- p.fixed :: Position(i, p.fixed[i], order[i]) in differences <==> order[i] != p.fixed[i]
  {
    if |order| != p.count {
      return [Length(p.count, |order|)];
    }
    var expectedTypes := SortTypes(FixedValues(p.fixed, p.count) + p.movable);
    var actualTypes := SortTypes(order);
    differences := [];
    if actualTypes != expectedTypes {
      differences := differences + [Types(expectedTypes, actualTypes)];
    }
    var actualMovable := SortTypes(Loose(p.fixed, order, |order|));
    if actualMovable != p.movable {
      differences := differences + [Movable(p.movable, actualMovable)];
    }
    ghost var before := differences;
    var index := 0;
    while index < p.count
      invariant index <= p.count
      invariant differences == [] <==> before == [] && forall i <- p.fixed :: i < index ==> order[i] == p.fixed[i]
      invariant forall d <- differences :: d.Position? ==> d.index < index
      invariant forall i <- p.fixed :: i < index ==>
                                         (Position(i, p.fixed[i], order[i]) in differences <==> order[i] != p.fixed[i])
    {
      if index in p.fixed && order[index] != p.fixed[index] {
        differences := differences + [Position(index, p.fixed[index], order[index])];
      }
      index := index + 1;
    }
  }

  // ----- the policy is exact -----

  lemma {:induction false} WithoutCounts(s: seq<Identifier>, taken: set<Identifier>, x: Identifier)
    ensures multiset(Without(s, taken))[x] == if x in taken then 0 else multiset(s)[x]
  {
    if s != [] {
      var y, rest := s[0], s[1..];
      WithoutCounts(rest, taken, x);
      assert s == [y] + rest;
      assert multiset(s) == multiset{y} + multiset(rest);
      assert Without(s, taken) == if y in taken then Without(rest, taken) else [y] + Without(rest, taken);
    }
  }

  lemma {:induction false} WithoutOrdered(s: seq<Identifier>, taken: set<Identifier>)
    requires Ordered(s, KeyLeq)
    ensures Ordered(Without(s, taken), KeyLeq)
  {
    hide KeyLeq;
    if s != [] {
      var rest := s[1..];
      assert s == [s[0]] + rest;
      OrderedCons(s[0], rest, KeyLeq);
      WithoutOrdered(rest, taken);
      forall y <- Without(rest, taken)
        ensures y in rest
      {
        WithoutCounts(rest, taken, y);
        assert y in multiset(Without(rest, taken));
      }
      OrderedCons(s[0], Without(rest, taken), KeyLeq);
    }
  }

  /** Dropping the fixed types from a sorted list gives the same as sorting what is left without them. */
  lemma SortWithout(s: seq<Identifier>, taken: set<Identifier>)
    ensures Without(SortTypes(s), taken) == SortTypes(Without(s, taken))
  {
    KeysOrderIdentifiers();
    SortKeeps(s, KeyLeq);
    SortKeeps(Without(s, taken), KeyLeq);
    WithoutOrdered(SortTypes(s), taken);
    var a, b := Without(SortTypes(s), taken), SortTypes(Without(s, taken));
    forall x
      ensures multiset(a)[x] == multiset(b)[x]
    {
      WithoutCounts(SortTypes(s), taken, x);
      WithoutCounts(s, taken, x);
    }
    assert multiset(a) == multiset(b);
    OrderedUnique(a, b, KeyLeq);
  }

  lemma MultisetSnoc(s: seq<Identifier>, x: Identifier)
    ensures multiset(s + [x]) == multiset(s) + multiset{x}
  {}

  function FixedAt(fixed: map<nat, Identifier>, n: nat): multiset<Identifier> {
    if n in fixed then multiset{fixed[n]} else multiset{}
  }

  lemma FixedStep(fixed: map<nat, Identifier>, n: nat)
    ensures multiset(FixedValues(fixed, n + 1)) == multiset(FixedValues(fixed, n)) + FixedAt(fixed, n)
  {
    var before := FixedValues(fixed, n);
    assert FixedValues(fixed, n + 1) == before + if n in fixed then [fixed[n]] else [];
    hide FixedValues;
    if n in fixed {
      MultisetSnoc(before, fixed[n]);
    }
  }

  lemma LooseStep(fixed: map<nat, Identifier>, order: seq<Identifier>, n: nat)
    requires n < |order|
    ensures multiset(Loose(fixed, order, n + 1)) ==
            multiset(Loose(fixed, order, n)) + if n in fixed then multiset{} else multiset{order[n]}
  {
    var before := Loose(fixed, order, n);
    assert Loose(fixed, order, n + 1) == before + if n in fixed then [] else [order[n]];
    hide Loose;
    if n !in fixed {
      MultisetSnoc(before, order[n]);
    }
  }

  lemma PartitionStep(fixed: map<nat, Identifier>, order: seq<Identifier>, n: nat)
    requires n < |order| && (n in fixed ==> order[n] == fixed[n])
    requires multiset(order[..n]) == multiset(FixedValues(fixed, n)) + multiset(Loose(fixed, order, n))
    ensures multiset(order[..n + 1]) == multiset(FixedValues(fixed, n + 1)) + multiset(Loose(fixed, order, n + 1))
  {
    hide FixedValues, Loose;
    FixedStep(fixed, n);
    LooseStep(fixed, order, n);
    assert order[..n + 1] == order[..n] + [order[n]];
    MultisetSnoc(order[..n], order[n]);
  }

  /** An order that keeps the fixed positions consists of them and of its loose types. */
  lemma {:induction false} Partition(fixed: map<nat, Identifier>, order: seq<Identifier>, n: nat)
    requires n <= |order| && forall i <- fixed :: i < n ==> order[i] == fixed[i]
    ensures multiset(order[..n]) == multiset(FixedValues(fixed, n)) + multiset(Loose(fixed, order, n))
    decreases n
  {
    hide FixedValues, Loose;
    if n == 0 {
      PartitionNone(fixed, order);
    } else {
      Partition(fixed, order, n - 1);
      PartitionStep(fixed, order, n - 1);
    }
  }

  lemma PartitionNone(fixed: map<nat, Identifier>, order: seq<Identifier>)
    ensures multiset(order[..0]) == multiset(FixedValues(fixed, 0)) + multiset(Loose(fixed, order, 0))
  {
    assert order[..0] == [];
  }

  lemma {:induction false} WithoutSnoc(s: seq<Identifier>, x: Identifier, taken: set<Identifier>)
    ensures Without(s + [x], taken) == Without(s, taken) + if x in taken then [] else [x]
  {
    if s == [] {
      assert s + [x] == [x];
    } else {
      WithoutSnoc(s[1..], x, taken);
      assert (s + [x])[1..] == s[1..] + [x];
    }
  }

  /** Among distinct types, the loose ones are those whose type is at no fixed position. */
  lemma {:induction false} LooseIsWithout(fixed: map<nat, Identifier>, order: seq<Identifier>, n: nat)
    requires n <= |order| && Distinct(order) && forall i <- fixed :: i < |order| && order[i] == fixed[i]
    ensures Loose(fixed, order, n) == Without(order[..n], fixed.Values)
  {
    if n > 0 {
      LooseIsWithout(fixed, order, n - 1);
      var x := order[n - 1];
      assert order[..n] == order[..n - 1] + [x];
      WithoutSnoc(order[..n - 1], x, fixed.Values);
      if x in fixed.Values {
        var i :| i in fixed && fixed[i] == x;
        assert order[i] == order[n - 1];
      }
    }
  }

  /** What a successful `from_samples` knows. */
  lemma PolicyShape(orders: seq<seq<Identifier>>, p: Policy)
    requires FromSamples(orders) == Success(p)
    ensures |orders| >= 2 && p.count == |orders[0]| && p.fixed == FixedOf(orders) && p.Valid()
    ensures forall o <- orders :: Distinct(o) && multiset(o) == multiset(orders[0]) && |o| == |orders[0]|
    ensures p.movable == SortTypes(Loose(p.fixed, orders[0], p.count))
  {
    hide Sort, Without;
    var first := orders[0];
    assert first in orders;
    forall o <- orders
      ensures multiset(o) == multiset(first) && |o| == |first|
    {
      SortedAlike(o, first);
      assert orders == [first] + orders[1..];
      assert o == first || o in orders[1..];
    }
    SortWithout(first, p.fixed.Values);
    LooseIsWithout(p.fixed, first, |first|);
    assert first[..|first|] == first;
  }

  /** A policy accepts an order if and only if it rearranges the same types and keeps every position on which all
      samples agreed. */
  lemma PolicyExact(orders: seq<seq<Identifier>>, p: Policy, order: seq<Identifier>)
    requires FromSamples(orders) == Success(p)
    ensures Accepts(p, order) <==>
            && multiset(order) == multiset(orders[0])
            && forall i: nat :: i < |orders[0]| && Agreed(orders, i) ==> i < |order| && order[i] == orders[0][i]
  {
    PolicyShape(orders, p);
    hide FromSamples, Agreed, Distinct;
    var first := orders[0];
    assert |multiset(order)| == |order| && |multiset(first)| == |first|;
    if |order| == |first| && (forall i <- p.fixed :: order[i] == p.fixed[i]) {
      PolicyExactAt(p, first, order);
    }
  }

  lemma PolicyExactAt(p: Policy, first: seq<Identifier>, order: seq<Identifier>)
    requires |order| == |first| == p.count && p.movable == SortTypes(Loose(p.fixed, first, p.count))
    requires forall i <- p.fixed :: i < |first| && first[i] == p.fixed[i] && order[i] == p.fixed[i]
    ensures Accepts(p, order) <==> multiset(order) == multiset(first)
  {
    hide SortTypes, FixedValues, Loose;
    var n := p.count;
    Partition(p.fixed, order, n);
    Partition(p.fixed, first, n);
    assert order[..n] == order && first[..n] == first;
    var values, loose := FixedValues(p.fixed, n), Loose(p.fixed, first, n);
    var same := Loose(p.fixed, order, n);
    SortTypesKeeps(loose);
    SortedAlike(order, values + p.movable);
    SortedAlike(same, loose);
    assert multiset(values + p.movable) == multiset(values) + multiset(loose);
    SumCancels(multiset(values), multiset(same), multiset(loose));
  }

  lemma SortTypesKeeps(s: seq<Identifier>)
    ensures multiset(SortTypes(s)) == multiset(s)
  {
    KeysOrderIdentifiers();
    SortKeeps(s, KeyLeq);
  }

  /** `from_samples` succeeds exactly on two or more rearrangements of one list of distinct types, and the resulting
      policy accepts every one of them. */
  lemma SamplesAccepted(orders: seq<seq<Identifier>>)
    ensures FromSamples(orders).Success? <==>
            |orders| >= 2 && forall o <- orders :: Distinct(o) && multiset(o) == multiset(orders[0])
    ensures FromSamples(orders).Success? ==> forall o <- orders :: Accepts(FromSamples(orders).value, o)
  {
    if |orders| >= 2 && (forall o <- orders :: Distinct(o) && multiset(o) == multiset(orders[0])) {
      hide Sort, Without, Distinct;
      forall o <- orders[1..]
        ensures SortTypes(o) == SortTypes(orders[0])
      {
        assert orders == orders[..1] + orders[1..];
        assert o in orders;
        SortedAlike(o, orders[0]);
      }
    }
    if FromSamples(orders).Success? {
      var p := FromSamples(orders).value;
      PolicyShape(orders, p);
      forall o <- orders
        ensures Accepts(p, o)
      {
        PolicyExact(orders, p, o);
        assert forall i: nat :: i < |orders[0]| && Agreed(orders, i) ==> o[i] == orders[0][i];
      }
    }
  }
}
