/** The frozen extension-order baseline and the check of a candidate's orders against it. */
module ProfileComparison {
  import opened Wrappers
  import opened Permutation

  datatype Mode = Stable | Nss | Unknown

  datatype Baseline = Baseline(count: int, types: seq<Identifier>, fixedPositions: seq<(int, Identifier)>,
                               movable: seq<Identifier>)

  datatype Candidate = Candidate(count: int, types: seq<Identifier>, orders: seq<seq<Identifier>>)

  datatype PolicyError = InvalidPolicy | InvalidIndex | NotCoveringTypes | NotCoveringPositions | StableButMovable | InvalidMode

  function IndexesOf(items: seq<(int, Identifier)>): (r: seq<int>)
    ensures |r| == |items| && forall k :: 0 <= k < |items| ==> r[k] == items[k].0
  {
    if items == [] then [] else [items[0].0] + IndexesOf(items[1..])
  }

  function TypesOf(items: seq<(int, Identifier)>): (r: seq<Identifier>)
    ensures |r| == |items| && forall k :: 0 <= k < |items| ==> r[k] == items[k].1
  {
    if items == [] then [] else [items[0].1] + TypesOf(items[1..])
  }

  /** Indexes are in range and none is listed twice. */
  predicate SoundIndexes(items: seq<(int, Identifier)>, count: int) {
    && (forall k :: 0 <= k < |items| ==> 0 <= items[k].0 < count)
    && (forall j, k :: 0 <= j < k < |items| ==> items[j].0 != items[k].0)
  }

  predicate ValidBaseline(b: Baseline, mode: Mode) {
    && |b.types| == b.count && Distinct(b.types) && Distinct(b.movable)
    && SoundIndexes(b.fixedPositions, b.count)
    && Distinct(TypesOf(b.fixedPositions) + b.movable)
    && SortTypes(TypesOf(b.fixedPositions) + b.movable) == SortTypes(b.types)
    && |b.fixedPositions| + |b.movable| == b.count
    && (mode == Stable ==> b.movable == []) && mode != Unknown
  }

  function IndexSet(items: seq<(int, Identifier)>): set<int> {
    set k | 0 <= k < |items| :: items[k].0
  }

  lemma TypesSnoc(items: seq<(int, Identifier)>, last: (int, Identifier))
    ensures TypesOf(items + [last]) == TypesOf(items) + [last.1]
  {
    hide TypesOf;
  }

  lemma CutAt(items: seq<(int, Identifier)>, i: nat)
    requires i < |items|
    ensures items[..i + 1] == items[..i] + [items[i]] && items == items[..i] + [items[i]] + items[i + 1..]
  {}

  /** What one more entry does to sound ones: it spoils them exactly when its index is out of range or taken. */
  lemma SoundSnoc(items: seq<(int, Identifier)>, last: (int, Identifier), rest: seq<(int, Identifier)>, count: int)
    requires SoundIndexes(items, count)
    ensures SoundIndexes(items + [last], count) <==> 0 <= last.0 < count && last.0 !in IndexSet(items)
    ensures IndexSet(items + [last]) == IndexSet(items) + {last.0}
    ensures SoundIndexes(items + [last] + rest, count) ==> SoundIndexes(items + [last], count)
  {
    var all := items + [last];
    assert forall k :: 0 <= k < |items| ==> all[k] == items[k];
    assert all[|items|] == last;
    var whole := all + rest;
    assert forall k :: 0 <= k < |all| ==> whole[k] == all[k];
  }

  /** Collects the fixed types, and as many distinct indexes as there are entries, or finds an index it cannot use. */
  method CollectFixed(items: seq<(int, Identifier)>, count: int)
    returns (sound: bool, fixedTypes: seq<Identifier>, size: nat)
    ensures sound <==> SoundIndexes(items, count)
    ensures sound ==> fixedTypes == TypesOf(items) && size == |items|
  {
    var seen: set<int> := {};
    fixedTypes := [];
    var i := 0;
    while i < |items|
      invariant i <= |items| && SoundIndexes(items[..i], count)
      invariant fixedTypes == TypesOf(items[..i]) && seen == IndexSet(items[..i]) && |seen| == i
    {
      hide SoundIndexes, TypesOf, IndexSet;
      var (index, value) := items[i];
      CutAt(items, i);
      TypesSnoc(items[..i], items[i]);
      SoundSnoc(items[..i], items[i], items[i + 1..], count);
      if index < 0 || index >= count || index in seen {
        return false, [], 0;
      }
      seen := seen + {index};
      fixedTypes := fixedTypes + [value];
      i := i + 1;
    }
    assert items[..i] == items;
    return true, fixedTypes, |seen|;
  }

  /** `_validate_extension_policy` raises exactly on an invalid baseline. */
  method ValidateExtensionPolicy(b: Baseline, mode: Mode) returns (error: Option<PolicyError>)
    ensures error.None? <==> ValidBaseline(b, mode)
  {
    hide SortTypes;
    if b.count < 0 || |b.types| != b.count || !Distinct(b.types) || !Distinct(b.movable) {
      return Some(InvalidPolicy);
    }
    var sound, fixedTypes, count := CollectFixed(b.fixedPositions, b.count);
    if !sound {
      return Some(InvalidIndex);
    }
    hide SoundIndexes, Distinct;
    var covered := fixedTypes + b.movable;
    if !Distinct(covered) || SortTypes(covered) != SortTypes(b.types) {
      return Some(NotCoveringTypes);
    }
    if count + |b.movable| != b.count {
      return Some(NotCoveringPositions);
    }
    if mode == Stable && b.movable != [] {
      return Some(StableButMovable);
    }
    if mode == Unknown {
      return Some(InvalidMode);
    }
    return None;
  }

  /** The fixed positions as the comparison loop collects them. */
  function FixedMap(items: seq<(int, Identifier)>): map<nat, Identifier>
    requires forall k :: 0 <= k < |items| ==> items[k].0 >= 0
  {
    if items == [] then map[]
    else FixedMap(items[..|items| - 1])[items[|items| - 1].0 := items[|items| - 1].1]
  }

  /** An order about which the per-order check reports nothing. */
  predicate OrderAccepted(b: Baseline, order: seq<Identifier>)
    requires forall k :: 0 <= k < |b.fixedPositions| ==> b.fixedPositions[k].0 >= 0
  {
    && |order| == b.count
    && SortTypes(order) == SortTypes(b.types)
    && SortTypes(Loose(FixedMap(b.fixedPositions), order, |order|)) == SortTypes(b.movable)
    && forall i <- FixedMap(b.fixedPositions) :: i < |order| && order[i] == FixedMap(b.fixedPositions)[i]
  }

  function PolicyOf(b: Baseline, mode: Mode): Policy
    requires ValidBaseline(b, mode)
  {
    Policy(FixedMap(b.fixedPositions), SortTypes(b.movable), b.count)
  }

  predicate Lists(items: seq<(int, Identifier)>, i: nat, value: Identifier) {
    exists k :: 0 <= k < |items| && items[k] == (i as int, value)
  }

  lemma {:induction false} FixedMapDomain(items: seq<(int, Identifier)>, count: int)
    requires SoundIndexes(items, count)
    ensures forall i <- FixedMap(items) :: i < count && Lists(items, i, FixedMap(items)[i])
  {
    if items != [] {
      var init, last := items[..|items| - 1], items[|items| - 1];
      FixedMapDomain(init, count);
      var before := FixedMap(init);
      assert FixedMap(items) == before[last.0 := last.1];
      hide FixedMap;
      forall i | i in FixedMap(items)
        ensures i < count && Lists(items, i, FixedMap(items)[i])
      {
        if i == last.0 {
          assert items[|items| - 1] == (i as int, last.1);
        } else {
          assert i in before && Lists(init, i, before[i]);
          var k :| 0 <= k < |init| && init[k] == (i as int, before[i]);
          assert items[k] == (i as int, before[i]);
        }
      }
    }
  }

  lemma {:induction false} FixedValuesAdd(m: map<nat, Identifier>, i: nat, v: Identifier, n: nat)
    requires i !in m
    ensures multiset(FixedValues(m[i := v], n)) == multiset(FixedValues(m, n)) + if i < n then multiset{v} else multiset{}
    decreases n
  {
    if n > 0 {
      hide FixedValues, FixedAt;
      var more, k := m[i := v], n - 1;
      FixedValuesAdd(m, i, v, k);
      FixedStep(m, k);
      FixedStep(more, k);
      Extra(m, i, v, k);
      var e1, e2 := if i < k then multiset{v} else multiset{}, if k == i then multiset{v} else multiset{};
      SumOfSums(multiset(FixedValues(m, k)), multiset(FixedValues(more, k)), FixedAt(m, k), e1, e2);
      assert e1 + e2 == if i < n then multiset{v} else multiset{};
    }
  }

  lemma Extra(m: map<nat, Identifier>, i: nat, v: Identifier, k: nat)
    requires i !in m
    ensures FixedAt(m[i := v], k) == FixedAt(m, k) + if k == i then multiset{v} else multiset{}
  {}

  lemma SumOfSums(a: multiset<Identifier>, b: multiset<Identifier>, x: multiset<Identifier>,
                  e1: multiset<Identifier>, e2: multiset<Identifier>)
    requires b == a + e1
    ensures b + (x + e2) == (a + x) + (e1 + e2)
  {}

  lemma SoundInit(items: seq<(int, Identifier)>, count: nat)
    requires items != [] && SoundIndexes(items, count)
    ensures SoundIndexes(items[..|items| - 1], count) && 0 <= items[|items| - 1].0 < count
    ensures forall k :: 0 <= k < |items| ==> items[k].0 >= 0
    ensures var init := items[..|items| - 1]; forall k :: 0 <= k < |init| ==> init[k].0 >= 0
    ensures items[|items| - 1].0 !in FixedMap(items[..|items| - 1])
  {
    var init := items[..|items| - 1];
    hide FixedMap;
    FixedMapDomain(init, count);
  }

  lemma TypesInit(items: seq<(int, Identifier)>)
    requires items != []
    ensures multiset(TypesOf(items)) == multiset(TypesOf(items[..|items| - 1])) + multiset{items[|items| - 1].1}
  {
    hide TypesOf;
    var init, last := items[..|items| - 1], items[|items| - 1];
    TypesSnoc(init, last);
    assert items == init + [last];
    MultisetSnoc(TypesOf(init), last.1);
  }

  lemma {:induction false} FixedValuesListed(items: seq<(int, Identifier)>, count: nat)
    requires SoundIndexes(items, count)
    ensures multiset(FixedValues(FixedMap(items), count)) == multiset(TypesOf(items))
  {
    hide FixedValues, SoundIndexes;
    if items == [] {
      NoFixedValues(count);
    } else {
      var init, last := items[..|items| - 1], items[|items| - 1];
      SoundInit(items, count);
      assert FixedMap(items) == FixedMap(init)[last.0 := last.1];
      hide FixedMap;
      FixedValuesListed(init, count);
      TypesInit(items);
      hide TypesOf;
      FixedValuesAdd(FixedMap(init), last.0, last.1, count);
    }
  }

  lemma {:induction false} NoFixedValues(n: nat)
    ensures FixedValues(map[], n) == []
  {
    if n > 0 {
      NoFixedValues(n - 1);
    }
  }

  /** For every valid baseline, the per-order check accepts exactly the orders its policy accepts. */
  lemma SameOrders(b: Baseline, mode: Mode, order: seq<Identifier>)
    requires ValidBaseline(b, mode)
    ensures OrderAccepted(b, order) <==> Accepts(PolicyOf(b, mode), order)
  {
    hide SortTypes, Loose, Distinct;
    var fixed := FixedMap(b.fixedPositions);
    FixedValuesListed(b.fixedPositions, b.count);
    var values := FixedValues(fixed, b.count);
    SortTypesKeeps(b.movable);
    SortedAlike(values + SortTypes(b.movable), TypesOf(b.fixedPositions) + b.movable);
    assert multiset(values + SortTypes(b.movable)) == multiset(TypesOf(b.fixedPositions) + b.movable);
  }

  /** `_compare_extension_order`: no difference exactly when count and types agree and every one of the candidate's
      orders, of which there is at least one, is accepted. */
  method CompareExtensionOrder(expected: Baseline, mode: Mode, actual: Candidate)
    returns (r: Result<seq<Difference>, PolicyError>)
    ensures r.Success? <==> ValidBaseline(expected, mode)
    ensures r.Success? ==>
              (r.value == [] <==>
               && actual.count == expected.count && actual.types == expected.types && actual.orders != []
               && forall o <- actual.orders :: OrderAccepted(expected, o))
  {
    hide SortTypes, Loose, Distinct, TypesOf, OrderAccepted;
    var error := ValidateExtensionPolicy(expected, mode);
    if error.Some? {
      return Failure(error.value);
    }
    assert SoundIndexes(expected.fixedPositions, expected.count) && expected.count >= 0;
    hide ValidBaseline;
    var differences: seq<Difference> := [];
    if actual.count != expected.count {
      differences := differences + [Count];
    }
    if actual.types != expected.types {
      differences := differences + [TypeList];
    }
    var fixed := BuildFixed(expected.fixedPositions, expected.count);
    FixedMapDomain(expected.fixedPositions, expected.count);
    ghost var before := differences;
    var i := 0;
    while i < |actual.orders|
      invariant i <= |actual.orders|
      invariant differences == [] <==> before == [] && forall j :: 0 <= j < i ==> OrderAccepted(expected, actual.orders[j])
    {
      var found := CompareOrder(expected, fixed, actual.orders[i]);
      differences := differences + found;
      i := i + 1;
    }
    if actual.orders == [] {
      differences := differences + [NoOrders];
    }
    return Success(differences);
  }

  method BuildFixed(items: seq<(int, Identifier)>, count: int) returns (fixed: map<nat, Identifier>)
    requires SoundIndexes(items, count)
    ensures fixed == FixedMap(items)
  {
    fixed := map[];
    var k := 0;
    while k < |items|
      invariant k <= |items| && fixed == FixedMap(items[..k])
    {
      assert items[..k + 1][..k] == items[..k];
      fixed := fixed[items[k].0 := items[k].1];
      k := k + 1;
    }
    assert items[..k] == items;
  }

  /** The checks of one candidate order. */
  method CompareOrder(b: Baseline, fixed: map<nat, Identifier>, order: seq<Identifier>) returns (differences: seq<Difference>)
    requires b.count >= 0 && forall k :: 0 <= k < |b.fixedPositions| ==> b.fixedPositions[k].0 >= 0
    requires fixed == FixedMap(b.fixedPositions) && forall i <- fixed :: i < b.count
    ensures differences == [] <==> OrderAccepted(b, order)
  {
    hide SortTypes, Loose, FixedMap;
    differences := [];
    if |order| != b.count {
      return [Length(b.count, |order|)];
    }
    if SortTypes(order) != SortTypes(b.types) {
      differences := differences + [Types(SortTypes(b.types), SortTypes(order))];
    }
    var loose := SortTypes(Loose(fixed, order, |order|));
    if loose != SortTypes(b.movable) {
      differences := differences + [Movable(SortTypes(b.movable), loose)];
    }
    ghost var before := differences;
    var index := 0;
    while index < |order|
      invariant index <= |order|
      invariant differences == [] <==> before == [] && forall i <- fixed :: i < index ==> order[i] == fixed[i]
    {
      if index in fixed && order[index] != fixed[index] {
        differences := differences + [Position(index, fixed[index], order[index])];
      }
      index := index + 1;
    }
  }

  // ----- baselines made from samples -----

  function FixedItems(fixed: map<nat, Identifier>, n: nat): seq<(int, Identifier)> {
    if n == 0 then []
    else FixedItems(fixed, n - 1) + if n - 1 in fixed then [(n - 1, fixed[n - 1])] else []
  }

  function EveryPosition(order: seq<Identifier>): map<nat, Identifier> {
    map i: nat | i < |order| :: order[i]
  }

  function BaselineOf(p: Policy, first: seq<Identifier>): Baseline {
    Baseline(p.count, SortTypes(first), FixedItems(p.fixed, p.count), p.movable)
  }

  /** `_extension_order_summary`: a single sample is kept as it is, whatever it holds. */
  function Summary(orders: seq<seq<Identifier>>): Result<Baseline, ProfileError> {
    if |orders| == 1 then Success(BaselineOf(Policy(EveryPosition(orders[0]), [], |orders[0]|), orders[0]))
    else
      match FromSamples(orders)
      case Failure(e) => Failure(e)
      case Success(p) => Success(BaselineOf(p, orders[0]))
  }

  lemma {:induction false} ItemsSound(fixed: map<nat, Identifier>, n: nat)
    ensures SoundIndexes(FixedItems(fixed, n), n)
  {
    if n > 0 {
      ItemsSound(fixed, n - 1);
    }
  }

  lemma {:induction false} ItemTypes(fixed: map<nat, Identifier>, n: nat)
    ensures TypesOf(FixedItems(fixed, n)) == FixedValues(fixed, n)
  {
    if n > 0 {
      ItemTypes(fixed, n - 1);
      hide TypesOf;
    }
  }

  lemma {:induction false} ItemMap(fixed: map<nat, Identifier>, n: nat)
    ensures forall k :: 0 <= k < |FixedItems(fixed, n)| ==> FixedItems(fixed, n)[k].0 >= 0
    ensures FixedMap(FixedItems(fixed, n)) == map i | i in fixed && i < n :: fixed[i]
  {
    if n > 0 {
      ItemMap(fixed, n - 1);
      var before := FixedItems(fixed, n - 1);
      if n - 1 in fixed {
        assert FixedItems(fixed, n) == before + [(n - 1, fixed[n - 1])];
        FixedMapSnoc(before, (n - 1, fixed[n - 1]));
      } else {
        assert FixedItems(fixed, n) == before;
      }
      hide FixedItems, FixedMap;
      MapUpTo(fixed, n - 1);
    }
  }

  lemma FixedMapSnoc(items: seq<(int, Identifier)>, last: (int, Identifier))
    requires last.0 >= 0 && forall k :: 0 <= k < |items| ==> items[k].0 >= 0
    ensures forall k :: 0 <= k < |items + [last]| ==> (items + [last])[k].0 >= 0
    ensures FixedMap(items + [last]) == FixedMap(items)[last.0 := last.1]
  {
    var all := items + [last];
    assert all[..|all| - 1] == items;
  }

  lemma MapUpTo(fixed: map<nat, Identifier>, n: nat)
    ensures (map i | i in fixed && i < n + 1 :: fixed[i]) ==
            var before := map i | i in fixed && i < n :: fixed[i]; if n in fixed then before[n := fixed[n]] else before
  {}

  /** The frozen baseline of a capture set is valid, unless it was made from a single sample that repeats a type. A valid
      one's per-order check accepts an order if and only if the order rearranges the captured types and keeps every
      position on which all captures agreed; of a single sample that is the sample itself. */
  lemma SummaryIsExact(orders: seq<seq<Identifier>>, b: Baseline, order: seq<Identifier>)
    requires Summary(orders) == Success(b)
    ensures orders != []
    ensures ValidBaseline(b, Nss) <==> |orders| > 1 || Distinct(orders[0])
    ensures ValidBaseline(b, Nss) ==> (ValidBaseline(b, Stable) <==> b.movable == [])
    ensures ValidBaseline(b, Nss) ==>
              (OrderAccepted(b, order) <==>
               && multiset(order) == multiset(orders[0])
               && forall i: nat :: i < |orders[0]| && Agreed(orders, i) ==> i < |order| && order[i] == orders[0][i])
    ensures ValidBaseline(b, Nss) && |orders| == 1 ==> (OrderAccepted(b, order) <==> order == orders[0])
  {
    if |orders| == 1 {
      SingleSummary(orders, b, order);
      OnlyItself(orders, order);
    } else {
      var p := FromSamples(orders).value;
      SummaryIsValid(orders, p, b);
      SameOrders(b, Nss, order);
      PolicyExact(orders, p, order);
    }
  }

  lemma SingleSummary(orders: seq<seq<Identifier>>, b: Baseline, order: seq<Identifier>)
    requires |orders| == 1 && Summary(orders) == Success(b)
    ensures ValidBaseline(b, Nss) <==> Distinct(orders[0])
    ensures ValidBaseline(b, Nss) ==> ValidBaseline(b, Stable) && b.movable == []
    ensures ValidBaseline(b, Nss) ==> (OrderAccepted(b, order) <==> order == orders[0])
  {
    var o := orders[0];
    hide OrderAccepted, Loose, FixedItems, SortTypes;
    var p := Policy(EveryPosition(o), [], |o|);
    SortTypesKeeps(o);
    if Distinct(b.types) {
      DistinctRearranged(b.types, o);
    }
    if Distinct(o) {
      NothingLoose(o, |o|);
      SortNothing();
      BaselineIsValid(p, o, b);
      SameOrders(b, Nss, order);
      AcceptsOnly(o, order);
    }
  }

  lemma OnlyItself(orders: seq<seq<Identifier>>, order: seq<Identifier>)
    requires |orders| == 1
    ensures order == orders[0] <==>
            && multiset(order) == multiset(orders[0])
            && forall i: nat :: i < |orders[0]| && Agreed(orders, i) ==> i < |order| && order[i] == orders[0][i]
  {
    assert forall i: nat :: i < |orders[0]| ==> Agreed(orders, i);
    hide Agreed;
    assert |multiset(order)| == |order| && |multiset(orders[0])| == |orders[0]|;
  }

  lemma {:induction false} NothingLoose(o: seq<Identifier>, n: nat)
    requires n <= |o|
    ensures Loose(EveryPosition(o), o, n) == []
  {
    if n > 0 {
      NothingLoose(o, n - 1);
    }
  }

  lemma SortNothing()
    ensures SortTypes([]) == []
  {}

  lemma AcceptsOnly(o: seq<Identifier>, order: seq<Identifier>)
    ensures Accepts(Policy(EveryPosition(o), [], |o|), order) <==> order == o
  {
    var p := Policy(EveryPosition(o), [], |o|);
    hide Loose, SortTypes, FixedValues;
    if |order| == |o| && forall i: nat :: i < |o| ==> order[i] == o[i] {
      assert order == o;
      NothingLoose(o, |o|);
      SortNothing();
      PolicyExactAt(p, o, o);
    }
    assert order != o && |order| == |o| ==> exists i :: 0 <= i < |o| && order[i] != o[i];
  }

  lemma SummaryIsValid(orders: seq<seq<Identifier>>, p: Policy, b: Baseline)
    requires |orders| > 1 && FromSamples(orders) == Success(p) && Summary(orders) == Success(b)
    ensures ValidBaseline(b, Nss) && (ValidBaseline(b, Stable) <==> b.movable == [])
    ensures PolicyOf(b, Nss) == p
  {
    PolicyShape(orders, p);
    assert orders[0] in orders;
    BaselineIsValid(p, orders[0], b);
  }

  lemma BaselineIsValid(p: Policy, first: seq<Identifier>, b: Baseline)
    requires p.count == |first| && Distinct(first) && p.movable == SortTypes(Loose(p.fixed, first, p.count))
    requires forall i <- p.fixed :: i < |first| && first[i] == p.fixed[i]
    requires b == BaselineOf(p, first)
    ensures ValidBaseline(b, Nss) && (ValidBaseline(b, Stable) <==> b.movable == [])
    ensures PolicyOf(b, Nss) == p
  {
    hide FixedItems, FixedMap, SoundIndexes, Distinct, SortTypes, Loose, FixedValues, TypesOf;
    ItemsSound(p.fixed, p.count);
    ItemTypes(p.fixed, p.count);
    Covering(p, first);
    assert |b.fixedPositions| == |FixedValues(p.fixed, p.count)|;
    assert ValidBaseline(b, Nss);
    ItemMap(p.fixed, p.count);
    assert (map i | i in p.fixed && i < p.count :: p.fixed[i]) == p.fixed;
  }

  /** Fixed and movable types together are the types of the first sample, each once. */
  lemma Covering(p: Policy, first: seq<Identifier>)
    requires p.count == |first| && Distinct(first) && p.movable == SortTypes(Loose(p.fixed, first, p.count))
    requires forall i <- p.fixed :: i < |first| && first[i] == p.fixed[i]
    ensures var covered := FixedValues(p.fixed, p.count) + p.movable;
            && Distinct(covered) && |covered| == p.count && SortTypes(covered) == SortTypes(SortTypes(first))
    ensures Distinct(p.movable) && Distinct(SortTypes(first)) && |SortTypes(first)| == p.count
    ensures SortTypes(p.movable) == p.movable
  {
    hide Distinct, FixedValues, Loose, SortTypes;
    var values, loose := FixedValues(p.fixed, p.count), Loose(p.fixed, first, p.count);
    Partition(p.fixed, first, p.count);
    assert first[..p.count] == first;
    SortTypesKeeps(loose);
    SortTypesKeeps(first);
    var covered, types := values + p.movable, SortTypes(first);
    assert multiset(covered) == multiset(values) + multiset(p.movable);
    SortedAlike(covered, types);
    DistinctRearranged(first, covered);
    DistinctRearranged(first, types);
    DistinctPart(values, p.movable);
    SameSize(covered, first);
    SameSize(types, first);
    SortTwice(loose);
  }

  lemma SameSize(a: seq<Identifier>, b: seq<Identifier>)
    requires multiset(a) == multiset(b)
    ensures |a| == |b|
  {
    assert |multiset(a)| == |a| && |multiset(b)| == |b|;
  }

  lemma SortTwice(s: seq<Identifier>)
    ensures SortTypes(SortTypes(s)) == SortTypes(s)
  {
    SortTypesKeeps(s);
    SortedAlike(SortTypes(s), s);
  }

  lemma DistinctPart(a: seq<Identifier>, b: seq<Identifier>)
    requires Distinct(a + b)
    ensures Distinct(b)
  {
    assert forall i :: 0 <= i < |b| ==> b[i] == (a + b)[|a| + i];
  }

  lemma {:induction false} DistinctCounts(s: seq<Identifier>)
    ensures Distinct(s) <==> forall x :: multiset(s)[x] <= 1
  {
    if s != [] {
      var rest := s[1..];
      assert s == [s[0]] + rest;
      DistinctCounts(rest);
      if Distinct(s) {
        assert forall k :: 0 <= k < |rest| ==> rest[k] == s[k + 1];
        assert s[0] !in rest;
      }
      if forall x :: multiset(s)[x] <= 1 {
        forall x
          ensures multiset(rest)[x] <= 1
        {
          assert multiset(s)[x] <= 1;
        }
        assert s[0] !in multiset(rest) by {
          assert multiset(s)[s[0]] <= 1;
        }
        assert forall j :: 0 < j < |s| ==> s[j] == rest[j - 1] && s[j] in multiset(rest);
      }
    }
  }

  lemma DistinctRearranged(a: seq<Identifier>, b: seq<Identifier>)
    requires Distinct(a) && multiset(a) == multiset(b)
    ensures Distinct(b)
  {
    DistinctCounts(a);
    DistinctCounts(b);
  }
}
