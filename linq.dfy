/**
  The LINQ operators the duplicate checker is built from, over sequences:
  Select, Distinct with an equality comparer, and GroupBy with a key selector
  and an equality comparer. A comparer is a function `eq`; as in .NET, an
  element is compared with the earlier ones as `eq(earlier, later)`.
*/
module Linq {

  /** One group produced by GroupBy: its key and its members in input order. */
  datatype Grouping<K, T> = Grouping(key: K, elements: seq<T>)

  /** Enumerable.Select. */
  function Select<T, U>(xs: seq<T>, f: T -> U): seq<U>
  {
    seq(|xs|, i requires 0 <= i < |xs| => f(xs[i]))
  }

  /** Enumerable.Where: the elements satisfying `p`, in order. */
  function Where<T>(xs: seq<T>, p: T -> bool): seq<T>
    decreases |xs|
  {
    if xs == [] then []
    else Where(xs[..|xs| - 1], p) + (if p(xs[|xs| - 1]) then [xs[|xs| - 1]] else [])
  }

  lemma {:induction false} WhereMembers<T>(xs: seq<T>, p: T -> bool)
    ensures forall x :: x in Where(xs, p) <==> x in xs && p(x)
    decreases |xs|
  {
    if xs != [] {
      var xs' := xs[..|xs| - 1];
      WhereMembers(xs', p);
      assert xs == xs' + [xs[|xs| - 1]];
    }
  }

  /** `a` is `b` with some elements left out, the rest in the same order. */
  predicate IsSubsequence<T(==)>(a: seq<T>, b: seq<T>)
    decreases |b|
  {
    if a == [] then true
    else if b == [] then false
    else (a[|a| - 1] == b[|b| - 1] && IsSubsequence(a[..|a| - 1], b[..|b| - 1]))
         || IsSubsequence(a, b[..|b| - 1])
  }

  lemma {:induction false} SubsequenceMultiset<T>(a: seq<T>, b: seq<T>)
    requires IsSubsequence(a, b)
    ensures multiset(a) <= multiset(b)
    decreases |b|
  {
    if a != [] {
      var a', b' := a[..|a| - 1], b[..|b| - 1];
      assert a == a' + [a[|a| - 1]] && b == b' + [b[|b| - 1]];
      if a[|a| - 1] == b[|b| - 1] && IsSubsequence(a', b') {
        SubsequenceMultiset(a', b');
      } else {
        SubsequenceMultiset(a, b');
      }
    }
  }

  /** Some element of `kept` is equal to `x` under `eq`. */
  predicate Seen<T>(kept: seq<T>, x: T, eq: (T, T) -> bool)
  {
    exists i | 0 <= i < |kept| :: eq(kept[i], x)
  }

  /** Enumerable.Distinct(comparer): the input in order, dropping every element
      equal to one already kept. */
  function Distinct<T>(xs: seq<T>, eq: (T, T) -> bool): seq<T>
    decreases |xs|
  {
    if xs == [] then []
    else
      var kept := Distinct(xs[..|xs| - 1], eq);
      if Seen(kept, xs[|xs| - 1], eq) then kept else kept + [xs[|xs| - 1]]
  }

  lemma {:induction false} DistinctIsSubsequence<T>(xs: seq<T>, eq: (T, T) -> bool)
    ensures IsSubsequence(Distinct(xs, eq), xs)
    decreases |xs|
  {
    if xs != [] {
      var xs' := xs[..|xs| - 1];
      DistinctIsSubsequence(xs', eq);
      var kept := Distinct(xs', eq);
      if !Seen(kept, xs[|xs| - 1], eq) {
        assert (kept + [xs[|xs| - 1]])[..|kept|] == kept;
      } else if kept != [] {
        assert IsSubsequence(kept, xs');
      }
    }
  }

  /** No two positions of `r` are equal under `eq`. */
  ghost predicate PairwiseUnequal<T>(r: seq<T>, eq: (T, T) -> bool)
  {
    forall i, j | 0 <= i < j < |r| :: !eq(r[i], r[j])
  }

  lemma {:induction false} DistinctPairwise<T>(xs: seq<T>, eq: (T, T) -> bool)
    ensures PairwiseUnequal(Distinct(xs, eq), eq)
    decreases |xs|
  {
    if xs != [] {
      var kept := Distinct(xs[..|xs| - 1], eq);
      DistinctPairwise(xs[..|xs| - 1], eq);
      if !Seen(kept, xs[|xs| - 1], eq) {
        var r := kept + [xs[|xs| - 1]];
        forall i, j | 0 <= i < j < |r| ensures !eq(r[i], r[j]) {
          if j == |kept| {
            assert r[i] == kept[i];
          } else {
            assert r[i] == kept[i] && r[j] == kept[j];
          }
        }
      }
    }
  }

  /** An element no earlier element equals is kept: Distinct keeps the first
      member of each class. */
  lemma {:induction false} DistinctKeepsFirst<T>(xs: seq<T>, eq: (T, T) -> bool)
    ensures forall i | 0 <= i < |xs| && !Seen(xs[..i], xs[i], eq) :: xs[i] in Distinct(xs, eq)
    decreases |xs|
  {
    if xs != [] {
      var n := |xs| - 1;
      var xs' := xs[..n];
      DistinctKeepsFirst(xs', eq);
      DistinctIsSubsequence(xs', eq);
      var kept := Distinct(xs', eq);
      SubsequenceMultiset(kept, xs');
      forall i | 0 <= i < |xs| && !Seen(xs[..i], xs[i], eq)
        ensures xs[i] in Distinct(xs, eq)
      {
        if i < n {
          assert xs'[..i] == xs[..i];
          assert xs[i] in kept;
        } else {
          assert i == n && xs[..i] == xs';
          forall k | 0 <= k < |kept| ensures !eq(kept[k], xs[n]) {
            assert kept[k] in multiset(xs');
            var m :| 0 <= m < n && xs'[m] == kept[k];
            assert xs[..i][m] == kept[k];
          }
        }
      }
    }
  }

  /** With a reflexive comparer every input element is matched by a kept one. */
  lemma {:induction false} DistinctCovers<T>(xs: seq<T>, eq: (T, T) -> bool)
    requires forall i | 0 <= i < |xs| :: eq(xs[i], xs[i])
    ensures forall i | 0 <= i < |xs| :: Seen(Distinct(xs, eq), xs[i], eq)
    decreases |xs|
  {
    if xs != [] {
      var n := |xs| - 1;
      DistinctCovers(xs[..n], eq);
      var kept := Distinct(xs[..n], eq);
      var r := Distinct(xs, eq);
      assert kept <= r;
      forall i | 0 <= i < |xs| ensures Seen(r, xs[i], eq) {
        if i < n {
          assert xs[..n][i] == xs[i];
          var k :| 0 <= k < |kept| && eq(kept[k], xs[i]);
          assert r[k] == kept[k];
        } else if !Seen(kept, xs[n], eq) {
          assert r[|kept|] == xs[n];
        }
      }
    }
  }

  /** The members of `xs` whose key is `k`, in order: the Where that each
      group of GroupBy is made of. */
  function Having<K(==), T>(xs: seq<T>, key: T -> K, k: K): seq<T>
  {
    Where(xs, x => key(x) == k)
  }

  lemma HavingMembers<K, T>(xs: seq<T>, key: T -> K, k: K)
    ensures forall x :: x in Having(xs, key, k) <==> x in xs && key(x) == k
  {
    WhereMembers(xs, x => key(x) == k);
  }

  /** Two different positions of `xs` carry key `k` exactly when the members
      with key `k` number at least two. */
  lemma {:induction false} HavingTwo<K, T>(xs: seq<T>, key: T -> K, k: K)
    ensures |Having(xs, key, k)| >= 2 <==>
            exists i, j :: 0 <= i < j < |xs| && key(xs[i]) == k && key(xs[j]) == k
    decreases |xs|
  {
    if xs != [] {
      var n := |xs| - 1;
      var xs' := xs[..n];
      HavingTwo(xs', key, k);
      HavingMembers(xs', key, k);
      var h' := Having(xs', key, k);
      if |Having(xs, key, k)| >= 2 {
        if key(xs[n]) == k && |h'| < 2 {
          assert Having(xs, key, k) == h' + [xs[n]];
          HavingEmpty(xs', key, k);
          var i :| 0 <= i < n && key(xs'[i]) == k;
          assert key(xs[i]) == k && key(xs[n]) == k;
        } else {
          var i, j :| 0 <= i < j < n && key(xs'[i]) == k && key(xs'[j]) == k;
          assert xs[i] == xs'[i] && xs[j] == xs'[j];
        }
      }
      if exists i, j :: 0 <= i < j < |xs| && key(xs[i]) == k && key(xs[j]) == k {
        var i, j :| 0 <= i < j < |xs| && key(xs[i]) == k && key(xs[j]) == k;
        if j == n {
          assert xs[i] == xs'[i] && xs[i] in h';
        } else {
          assert xs'[i] == xs[i] && xs'[j] == xs[j];
        }
      }
    }
  }

  /** All members of all groups, group after group. */
  function Concat<K, T>(gs: seq<Grouping<K, T>>): seq<T>
    decreases |gs|
  {
    if gs == [] then [] else Concat(gs[..|gs| - 1]) + gs[|gs| - 1].elements
  }

  /** Index of the first group whose key equals `k` under `eq`, or |gs| if none. */
  function FindGroup<K, T>(gs: seq<Grouping<K, T>>, k: K, eq: (K, K) -> bool): (i: nat)
    ensures i <= |gs|
    ensures i < |gs| ==> eq(gs[i].key, k)
    ensures forall j | 0 <= j < i :: !eq(gs[j].key, k)
    decreases |gs|
  {
    if gs == [] then 0
    else if eq(gs[0].key, k) then 0
    else 1 + FindGroup(gs[1..], k, eq)
  }

  /** Files `x` with key `k` into the groups: appended to the first group with
      an equal key, or to a new group at the end. */
  function AddToGroups<K, T>(gs: seq<Grouping<K, T>>, k: K, x: T, eq: (K, K) -> bool): seq<Grouping<K, T>>
  {
    var i := FindGroup(gs, k, eq);
    if i == |gs| then gs + [Grouping(k, [x])]
    else gs[i := Grouping(gs[i].key, gs[i].elements + [x])]
  }

  /** Enumerable.GroupBy(keySelector, comparer): groups in the order their
      first member appears, members in input order. */
  function GroupBy<K, T>(xs: seq<T>, key: T -> K, eq: (K, K) -> bool): seq<Grouping<K, T>>
    decreases |xs|
  {
    if xs == [] then []
    else AddToGroups(GroupBy(xs[..|xs| - 1], key, eq), key(xs[|xs| - 1]), xs[|xs| - 1], eq)
  }

  lemma {:induction false} ConcatAppend<K, T>(a: seq<Grouping<K, T>>, b: seq<Grouping<K, T>>)
    ensures Concat(a + b) == Concat(a) + Concat(b)
    decreases |b|
  {
    if b == [] {
      assert a + b == a;
    } else {
      var n := |b| - 1;
      assert (a + b)[..|a + b| - 1] == a + b[..n];
      ConcatAppend(a, b[..n]);
    }
  }

  lemma ConcatUpdate<K, T>(gs: seq<Grouping<K, T>>, i: nat, x: T)
    requires i < |gs|
    ensures multiset(Concat(gs[i := Grouping(gs[i].key, gs[i].elements + [x])]))
            == multiset(Concat(gs)) + multiset{x}
  {
    var g' := Grouping(gs[i].key, gs[i].elements + [x]);
    var front, back := gs[..i], gs[i + 1..];
    assert gs == front + [gs[i]] + back;
    assert gs[i := g'] == front + [g'] + back;
    ConcatAppend(front + [gs[i]], back);
    ConcatAppend(front, [gs[i]]);
    ConcatAppend(front + [g'], back);
    ConcatAppend(front, [g']);
    assert Concat([gs[i]]) == gs[i].elements;
    assert Concat([g']) == g'.elements;
  }

  /** GroupBy partitions its input: every element lands in exactly one group. */
  lemma {:induction false} GroupByPartition<K, T>(xs: seq<T>, key: T -> K, eq: (K, K) -> bool)
    ensures multiset(Concat(GroupBy(xs, key, eq))) == multiset(xs)
    decreases |xs|
  {
    if xs != [] {
      var n := |xs| - 1;
      var gs := GroupBy(xs[..n], key, eq);
      GroupByPartition(xs[..n], key, eq);
      assert xs == xs[..n] + [xs[n]];
      var i := FindGroup(gs, key(xs[n]), eq);
      if i == |gs| {
        assert (gs + [Grouping(key(xs[n]), [xs[n]])])[..|gs|] == gs;
      } else {
        ConcatUpdate(gs, i, xs[n]);
      }
    }
  }

  /** `eq` agrees with `==` on every pair of keys that occur in `xs`. */
  ghost predicate EqualityOnKeys<K, T>(xs: seq<T>, key: T -> K, eq: (K, K) -> bool)
  {
    forall i, j | 0 <= i < |xs| && 0 <= j < |xs| :: eq(key(xs[i]), key(xs[j])) == (key(xs[i]) == key(xs[j]))
  }

  ghost predicate KeyOccurs<K, T>(xs: seq<T>, key: T -> K, k: K)
  {
    exists n :: 0 <= n < |xs| && key(xs[n]) == k
  }

  /** No member has key `k` exactly when no position of `xs` carries it. */
  lemma {:induction false} HavingEmpty<K, T>(xs: seq<T>, key: T -> K, k: K)
    ensures (Having(xs, key, k) == []) == !KeyOccurs(xs, key, k)
    decreases |xs|
  {
    if xs != [] {
      var n := |xs| - 1;
      var xs' := xs[..n];
      HavingEmpty(xs', key, k);
      if KeyOccurs(xs', key, k) {
        var m :| 0 <= m < |xs'| && key(xs'[m]) == k;
        assert xs[m] == xs'[m];
      } else if key(xs[n]) != k {
        forall m | 0 <= m < |xs| ensures key(xs[m]) != k {
          if m < n { assert xs[m] == xs'[m]; }
        }
      }
    }
  }

  /** Some group has key `k`. */
  ghost predicate HasGroup<K, T>(gs: seq<Grouping<K, T>>, k: K)
  {
    exists i :: 0 <= i < |gs| && gs[i].key == k
  }

  /** `gs` holds one group per distinct key of `xs`, with exactly the members
      of `xs` that carry that key, in order. */
  ghost predicate ExactGroups<K, T>(gs: seq<Grouping<K, T>>, xs: seq<T>, key: T -> K)
  {
    && (forall i | 0 <= i < |gs| :: gs[i].elements == Having(xs, key, gs[i].key) && KeyOccurs(xs, key, gs[i].key))
    && (forall i, j | 0 <= i < j < |gs| :: gs[i].key != gs[j].key)
    && (forall n | 0 <= n < |xs| :: HasGroup(gs, key(xs[n])))
  }

  lemma AddNewGroupExact<K, T>(gs: seq<Grouping<K, T>>, xs: seq<T>, x: T, key: T -> K)
    requires ExactGroups(gs, xs, key)
    requires !KeyOccurs(xs, key, key(x))
    ensures ExactGroups(gs + [Grouping(key(x), [x])], xs + [x], key)
  {
    var k := key(x);
    var xs2 := xs + [x];
    var gs2 := gs + [Grouping(k, [x])];
    assert xs2[..|xs|] == xs;
    HavingEmpty(xs, key, k);
    assert Having(xs2, key, k) == [x];
    forall i | 0 <= i < |gs| ensures gs[i].key != k {
      var m :| 0 <= m < |xs| && key(xs[m]) == gs[i].key;
    }
    forall i | 0 <= i < |gs2| ensures gs2[i].elements == Having(xs2, key, gs2[i].key) && KeyOccurs(xs2, key, gs2[i].key) {
      if i < |gs| {
        var m :| 0 <= m < |xs| && key(xs[m]) == gs[i].key;
        assert xs2[m] == xs[m];
      } else {
        assert xs2[|xs|] == x;
      }
    }
    forall m | 0 <= m < |xs2| ensures HasGroup(gs2, key(xs2[m])) {
      if m < |xs| {
        assert xs2[m] == xs[m];
        var i :| 0 <= i < |gs| && gs[i].key == key(xs[m]);
        assert gs2[i].key == key(xs2[m]);
      } else {
        assert gs2[|gs|].key == key(xs2[m]);
      }
    }
  }

  lemma AddOldGroupExact<K, T>(gs: seq<Grouping<K, T>>, xs: seq<T>, x: T, key: T -> K, i0: nat)
    requires ExactGroups(gs, xs, key)
    requires i0 < |gs| && gs[i0].key == key(x)
    ensures ExactGroups(gs[i0 := Grouping(key(x), gs[i0].elements + [x])], xs + [x], key)
  {
    var k := key(x);
    var xs2 := xs + [x];
    var gs2 := gs[i0 := Grouping(k, gs[i0].elements + [x])];
    assert xs2[..|xs|] == xs;
    forall i | 0 <= i < |gs2| ensures gs2[i].elements == Having(xs2, key, gs2[i].key) && KeyOccurs(xs2, key, gs2[i].key) {
      var m :| 0 <= m < |xs| && key(xs[m]) == gs[i].key;
      assert xs2[m] == xs[m];
    }
    forall m | 0 <= m < |xs2| ensures HasGroup(gs2, key(xs2[m])) {
      if m < |xs| {
        assert xs2[m] == xs[m];
        var i :| 0 <= i < |gs| && gs[i].key == key(xs[m]);
        assert gs2[i].key == key(xs2[m]);
      } else {
        assert gs2[i0].key == key(xs2[m]);
      }
    }
  }

  /** When the comparer is equality on the keys that occur, GroupBy yields one
      group per distinct key, holding exactly the members with that key. */
  lemma {:induction false} GroupByExact<K, T>(xs: seq<T>, key: T -> K, eq: (K, K) -> bool)
    requires EqualityOnKeys(xs, key, eq)
    ensures ExactGroups(GroupBy(xs, key, eq), xs, key)
    decreases |xs|
  {
    if xs != [] {
      var n := |xs| - 1;
      var xs' := xs[..n];
      var x := xs[n];
      var k := key(x);
      assert xs == xs' + [x];
      assert EqualityOnKeys(xs', key, eq) by {
        forall i, j | 0 <= i < |xs'| && 0 <= j < |xs'|
          ensures eq(key(xs'[i]), key(xs'[j])) == (key(xs'[i]) == key(xs'[j]))
        {
          assert xs'[i] == xs[i] && xs'[j] == xs[j];
        }
      }
      GroupByExact(xs', key, eq);
      var gs' := GroupBy(xs', key, eq);
      var i0 := FindGroup(gs', k, eq);
      // every old key is the key of an element of xs', so eq with k is equality
      forall i | 0 <= i < |gs'| ensures eq(gs'[i].key, k) == (gs'[i].key == k) {
        var m :| 0 <= m < |xs'| && key(xs'[m]) == gs'[i].key;
        assert xs'[m] == xs[m];
      }
      if i0 == |gs'| {
        forall m | 0 <= m < |xs'| ensures key(xs'[m]) != k {
          assert HasGroup(gs', key(xs'[m]));
          var i :| 0 <= i < |gs'| && gs'[i].key == key(xs'[m]);
        }
        AddNewGroupExact(gs', xs', x, key);
      } else {
        AddOldGroupExact(gs', xs', x, key, i0);
      }
    }
  }

  /** Two different elements with one key share a group, which therefore
      has two or more members. */
  lemma SharedKeyGroup<K, T>(gs: seq<Grouping<K, T>>, xs: seq<T>, key: T -> K, x: T, y: T) returns (i: nat)
    requires ExactGroups(gs, xs, key)
    requires x in xs && y in xs && x != y && key(x) == key(y)
    ensures i < |gs| && |gs[i].elements| >= 2 && x in gs[i].elements && y in gs[i].elements
  {
    var p :| 0 <= p < |xs| && xs[p] == x;
    var q :| 0 <= q < |xs| && xs[q] == y;
    var k := key(x);
    assert HasGroup(gs, key(xs[p]));
    i :| 0 <= i < |gs| && gs[i].key == k;
    HavingMembers(xs, key, k);
    HavingTwo(xs, key, k);
    if p < q {
      assert key(xs[p]) == k && key(xs[q]) == k;
    } else {
      assert key(xs[q]) == k && key(xs[p]) == k;
    }
  }

  /** A member of a group of two or more has a different element with its
      key, when the input holds no value twice. */
  lemma GroupPartner<K, T>(gs: seq<Grouping<K, T>>, xs: seq<T>, key: T -> K, i: nat, x: T) returns (y: T)
    requires ExactGroups(gs, xs, key)
    requires forall p, q | 0 <= p < q < |xs| :: xs[p] != xs[q]
    requires i < |gs| && |gs[i].elements| >= 2 && x in gs[i].elements
    ensures y in xs && y != x && key(y) == key(x)
  {
    var k := gs[i].key;
    HavingMembers(xs, key, k);
    HavingTwo(xs, key, k);
    var p, q :| 0 <= p < q < |xs| && key(xs[p]) == k && key(xs[q]) == k;
    y := if xs[p] != x then xs[p] else xs[q];
  }

  /** Every member of every group comes from the input. */
  ghost predicate MembersFrom<K, T>(gs: seq<Grouping<K, T>>, xs: seq<T>)
  {
    forall i, x | 0 <= i < |gs| && x in gs[i].elements :: x in xs
  }

  lemma {:induction false} GroupByMembers<K, T>(xs: seq<T>, key: T -> K, eq: (K, K) -> bool)
    ensures MembersFrom(GroupBy(xs, key, eq), xs)
    decreases |xs|
  {
    if xs != [] {
      var n := |xs| - 1;
      GroupByMembers(xs[..n], key, eq);
      var gs' := GroupBy(xs[..n], key, eq);
      var gs := GroupBy(xs, key, eq);
      var i0 := FindGroup(gs', key(xs[n]), eq);
      forall i, x | 0 <= i < |gs| && x in gs[i].elements ensures x in xs {
        if i < |gs'| && x in gs'[i].elements {
          assert x in xs[..n];
        } else {
          assert gs[i].elements == (if i < |gs'| then gs'[i].elements else []) + [xs[n]];
          assert x == xs[n];
        }
      }
    }
  }

  /** Select applied to every group's members. */
  function SelectGroups<K, T, U>(gs: seq<Grouping<K, T>>, f: T -> U): seq<Grouping<K, U>>
  {
    seq(|gs|, i requires 0 <= i < |gs| => Grouping(gs[i].key, Select(gs[i].elements, f)))
  }

  /** Mapping the members commutes with filing one more element. */
  lemma AddToGroupsSelect<K, T, U>(gs: seq<Grouping<K, T>>, k: K, x: T, f: T -> U, eq: (K, K) -> bool)
    ensures SelectGroups(AddToGroups(gs, k, x, eq), f) == AddToGroups(SelectGroups(gs, f), k, f(x), eq)
  {
    var hs := SelectGroups(gs, f);
    var i := FindGroup(gs, k, eq);
    assert forall m | 0 <= m < |gs| :: hs[m].key == gs[m].key;
    assert FindGroup(hs, k, eq) == i;
    if i == |gs| {
      assert Select([x], f) == [f(x)];
      assert SelectGroups(gs + [Grouping(k, [x])], f) == hs + [Grouping(k, [f(x)])];
    } else {
      var g' := Grouping(gs[i].key, gs[i].elements + [x]);
      assert Select(g'.elements, f) == Select(gs[i].elements, f) + [f(x)];
      assert SelectGroups(gs[i := g'], f) == hs[i := Grouping(hs[i].key, hs[i].elements + [f(x)])];
    }
  }

  /** Grouping and then mapping the members gives the same groups as mapping
      first, provided the key can be read before or after the mapping. */
  lemma {:induction false} GroupBySelect<K, T, U>(xs: seq<T>, f: T -> U, keyT: T -> K, keyU: U -> K, eq: (K, K) -> bool)
    requires forall i | 0 <= i < |xs| :: keyT(xs[i]) == keyU(f(xs[i]))
    ensures SelectGroups(GroupBy(xs, keyT, eq), f) == GroupBy(Select(xs, f), keyU, eq)
    decreases |xs|
  {
    if xs != [] {
      var n := |xs| - 1;
      var xs' := xs[..n];
      GroupBySelect(xs', f, keyT, keyU, eq);
      var ys := Select(xs, f);
      assert ys[..n] == Select(xs', f);
      assert keyU(ys[n]) == keyT(xs[n]);
      AddToGroupsSelect(GroupBy(xs', keyT, eq), keyT(xs[n]), xs[n], f, eq);
    }
  }

  lemma SelectAppend<T, U>(a: seq<T>, b: seq<T>, f: T -> U)
    ensures Select(a + b, f) == Select(a, f) + Select(b, f)
  {
  }

  /** Taking out the element at position p removes one copy of it. */
  lemma RemoveAt<T>(b: seq<T>, p: nat)
    requires p < |b|
    ensures b == b[..p] + [b[p]] + b[p + 1..]
    ensures multiset(b[..p] + b[p + 1..]) == multiset(b) - multiset{b[p]}
  {
    assert b == b[..p] + [b[p]] + b[p + 1..];
  }

  /** Under Select, taking out the element at position p takes out one
      copy of its image. */
  lemma SelectRemoveAt<T, U>(b: seq<T>, p: nat, f: T -> U)
    requires p < |b|
    ensures multiset(Select(b, f)) == multiset(Select(b[..p] + b[p + 1..], f)) + multiset{f(b[p])}
  {
    var b1, b2 := b[..p], b[p + 1..];
    assert Select(b, f) == Select(b1, f) + [f(b[p])] + Select(b2, f);
    assert Select(b1 + b2, f) == Select(b1, f) + Select(b2, f);
  }

  /** Two equal multisets stay equal under Select. */
  lemma {:induction false} SelectMultiset<T, U>(a: seq<T>, b: seq<T>, f: T -> U)
    requires multiset(a) == multiset(b)
    ensures multiset(Select(a, f)) == multiset(Select(b, f))
    decreases |a|
  {
    if a != [] {
      var n := |a| - 1;
      var x := a[n];
      RemoveAt(a, n);
      assert x in multiset(b);
      var p :| 0 <= p < |b| && b[p] == x;
      RemoveAt(b, p);
      assert a[..n] + a[n + 1..] == a[..n];
      SelectMultiset(a[..n], b[..p] + b[p + 1..], f);
      SelectRemoveAt(a, n, f);
      SelectRemoveAt(b, p, f);
    }
  }

  /** A sequence with no two related positions, for a reflexive relation,
      holds each value at most once. */
  lemma {:induction false} PairwiseCountsOne<T>(b: seq<T>, rel: (T, T) -> bool, x: T)
    requires forall i | 0 <= i < |b| :: rel(b[i], b[i])
    requires PairwiseUnequal(b, rel)
    ensures multiset(b)[x] <= 1
    decreases |b|
  {
    if b != [] {
      var n := |b| - 1;
      var b' := b[..n];
      assert b == b' + [b[n]];
      PairwiseCountsOne(b', rel, x);
      if b[n] == x {
        forall m | 0 <= m < n ensures b'[m] != x {
          assert !rel(b[m], b[n]);
        }
        assert x !in b';
      }
    }
  }

  lemma TwoPositionsCountTwo<T>(a: seq<T>, i: nat, j: nat)
    requires i < j < |a| && a[i] == a[j]
    ensures multiset(a)[a[i]] >= 2
  {
    assert a == a[..i] + [a[i]] + a[i + 1..j] + [a[j]] + a[j + 1..];
  }

  /** A relation that no two positions of `b` are in also holds of no two
      positions of anything drawn from `b` without repetition. */
  lemma SubMultisetPairwise<T>(a: seq<T>, b: seq<T>, rel: (T, T) -> bool)
    requires forall x, y :: rel(x, y) ==> rel(y, x)
    requires forall i | 0 <= i < |b| :: rel(b[i], b[i])
    requires PairwiseUnequal(b, rel)
    requires multiset(a) <= multiset(b)
    ensures PairwiseUnequal(a, rel)
  {
    forall i, j | 0 <= i < j < |a| ensures !rel(a[i], a[j]) {
      assert a[i] in multiset(b) && a[j] in multiset(b);
      var p :| 0 <= p < |b| && b[p] == a[i];
      var q :| 0 <= q < |b| && b[q] == a[j];
      if p == q {
        TwoPositionsCountTwo(a, i, j);
        PairwiseCountsOne(b, rel, a[i]);
        assert false;
      } else if p < q {
        assert !rel(b[p], b[q]);
      } else {
        assert !rel(b[q], b[p]);
      }
    }
  }
}
