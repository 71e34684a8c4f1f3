/** SQL aggregation: `GROUP BY key` with COUNT and SUM, as one pass over the rows. */
module Aggregates {
  datatype Group<K> = Group(key: K, count: nat, total: int)

  function AddRow<K(==)>(groups: seq<Group<K>>, key: K, amount: int): seq<Group<K>> {
    if groups == [] then [Group(key, 1, amount)]
    else if groups[0].key == key then [Group(key, groups[0].count + 1, groups[0].total + amount)] + groups[1..]
    else [groups[0]] + AddRow(groups[1..], key, amount)
  }

  function GroupBy<T, K(==)>(rows: seq<T>, key: T -> K, amount: T -> int): seq<Group<K>> {
    if rows == [] then []
    else AddRow(GroupBy(rows[..|rows| - 1], key, amount), key(rows[|rows| - 1]), amount(rows[|rows| - 1]))
  }

  function Filter<T>(rows: seq<T>, keep: T -> bool): seq<T> {
    if rows == [] then []
    else Filter(rows[..|rows| - 1], keep) + if keep(rows[|rows| - 1]) then [rows[|rows| - 1]] else []
  }

  function Sum<T>(rows: seq<T>, amount: T -> int): int {
    if rows == [] then 0 else Sum(rows[..|rows| - 1], amount) + amount(rows[|rows| - 1])
  }

  function Totals<K>(groups: seq<Group<K>>): int {
    if groups == [] then 0 else groups[0].total + Totals(groups[1..])
  }

  function Counts<K>(groups: seq<Group<K>>): nat {
    if groups == [] then 0 else groups[0].count + Counts(groups[1..])
  }

  /** The row of the result for a key; no row stands for an empty group. */
  function RowFor<K(==)>(groups: seq<Group<K>>, key: K): Group<K> {
    if groups == [] then Group(key, 0, 0)
    else if groups[0].key == key then groups[0]
    else RowFor(groups[1..], key)
  }

  ghost predicate DistinctKeys<K>(groups: seq<Group<K>>) {
    forall i, j | 0 <= i < j < |groups| :: groups[i].key != groups[j].key
  }

  lemma {:induction false} RowOfOwnKey<K>(groups: seq<Group<K>>, i: nat)
    requires DistinctKeys(groups) && i < |groups|
    ensures RowFor(groups, groups[i].key) == groups[i]
  {
    if i > 0 {
      RowOfOwnKey(groups[1..], i - 1);
    }
  }

  lemma {:induction false} AddRowAddsUp<K>(groups: seq<Group<K>>, key: K, amount: int)
    ensures Totals(AddRow(groups, key, amount)) == Totals(groups) + amount
    ensures Counts(AddRow(groups, key, amount)) == Counts(groups) + 1
  {
    if groups != [] && groups[0].key != key {
      AddRowAddsUp(groups[1..], key, amount);
    }
  }

  lemma {:induction false} AddRowRow<K>(groups: seq<Group<K>>, key: K, amount: int, k: K)
    ensures RowFor(AddRow(groups, key, amount), k)
         == var row := RowFor(groups, k);
            if k == key then Group(k, row.count + 1, row.total + amount) else row
  {
    if groups != [] && groups[0].key != key {
      AddRowRow(groups[1..], key, amount, k);
    }
  }

  lemma {:induction false} AddRowKeys<K>(groups: seq<Group<K>>, key: K, amount: int)
    ensures forall g | g in AddRow(groups, key, amount) :: g.key == key || g in groups
  {
    if groups != [] && groups[0].key != key {
      AddRowKeys(groups[1..], key, amount);
    }
  }

  lemma {:induction false} AddRowDistinct<K>(groups: seq<Group<K>>, key: K, amount: int)
    requires DistinctKeys(groups)
    ensures DistinctKeys(AddRow(groups, key, amount))
  {
    if groups != [] && groups[0].key != key {
      AddRowDistinct(groups[1..], key, amount);
      AddRowKeys(groups[1..], key, amount);
      var rest := AddRow(groups[1..], key, amount);
      forall j | 0 <= j < |rest|
        ensures rest[j].key != groups[0].key
      {
        assert rest[j] in rest;
      }
    }
  }

  /** Grouping loses nothing: the counts and totals of the groups add up to those of the rows. */
  lemma {:induction false} GroupsAddUp<T, K>(rows: seq<T>, key: T -> K, amount: T -> int)
    ensures Counts(GroupBy(rows, key, amount)) == |rows|
    ensures Totals(GroupBy(rows, key, amount)) == Sum(rows, amount)
    ensures DistinctKeys(GroupBy(rows, key, amount))
  {
    if rows != [] {
      var before, last := rows[..|rows| - 1], rows[|rows| - 1];
      GroupsAddUp(before, key, amount);
      AddRowAddsUp(GroupBy(before, key, amount), key(last), amount(last));
      AddRowDistinct(GroupBy(before, key, amount), key(last), amount(last));
    }
  }

  lemma SumAppend<T>(rows: seq<T>, last: T, amount: T -> int)
    ensures Sum(rows + [last], amount) == Sum(rows, amount) + amount(last)
  {
    assert (rows + [last])[..|rows|] == rows;
  }

  lemma FilterStep<T>(rows: seq<T>, keep: T -> bool)
    requires rows != []
    ensures var before, last := rows[..|rows| - 1], rows[|rows| - 1];
            Filter(rows, keep) == if keep(last) then Filter(before, keep) + [last] else Filter(before, keep)
  {
  }

  lemma {:induction false} FilterMember<T>(rows: seq<T>, keep: T -> bool, r: T)
    ensures r in Filter(rows, keep) <==> r in rows && keep(r)
  {
    if rows != [] {
      FilterMember(rows[..|rows| - 1], keep, r);
      FilterStep(rows, keep);
      assert r in rows <==> r in rows[..|rows| - 1] || r == rows[|rows| - 1];
    }
  }

  /** The row for a key is the count and sum of the rows with that key. */
  lemma {:induction false} GroupIsFilteredSum<T, K>(rows: seq<T>, key: T -> K, amount: T -> int, k: K, keep: T -> bool)
    requires forall i | 0 <= i < |rows| :: keep(rows[i]) <==> key(rows[i]) == k
    ensures RowFor(GroupBy(rows, key, amount), k) == Group(k, |Filter(rows, keep)|, Sum(Filter(rows, keep), amount))
  {
    if rows != [] {
      var before, last := rows[..|rows| - 1], rows[|rows| - 1];
      GroupIsFilteredSum(before, key, amount, k, keep);
      AddRowRow(GroupBy(before, key, amount), key(last), amount(last), k);
      FilterStep(rows, keep);
      SumAppend(Filter(before, keep), last, amount);
    }
  }

  lemma {:induction false} FilterSumBound<T>(rows: seq<T>, keep: T -> bool, amount: T -> int)
    requires forall r | r in rows :: amount(r) >= 0
    ensures Sum(Filter(rows, keep), amount) <= Sum(rows, amount)
    ensures forall r | r in Filter(rows, keep) :: r in rows && keep(r)
  {
    if rows != [] {
      var before, last := rows[..|rows| - 1], rows[|rows| - 1];
      FilterSumBound(before, keep, amount);
      FilterStep(rows, keep);
      SumAppend(Filter(before, keep), last, amount);
      assert last in rows;
    }
  }

  /** GROUP BY gives no empty groups. */
  lemma {:induction false} GroupsAreNotEmpty<T, K>(rows: seq<T>, key: T -> K, amount: T -> int)
    ensures forall i | 0 <= i < |GroupBy(rows, key, amount)| :: GroupBy(rows, key, amount)[i].count > 0
  {
    if rows != [] {
      var before, last := rows[..|rows| - 1], rows[|rows| - 1];
      GroupsAreNotEmpty(before, key, amount);
      AddRowNotEmpty(GroupBy(before, key, amount), key(last), amount(last));
    }
  }

  lemma {:induction false} AddRowNotEmpty<K>(groups: seq<Group<K>>, key: K, amount: int)
    requires forall i | 0 <= i < |groups| :: groups[i].count > 0
    ensures forall i | 0 <= i < |AddRow(groups, key, amount)| :: AddRow(groups, key, amount)[i].count > 0
  {
    if groups != [] && groups[0].key != key {
      AddRowNotEmpty(groups[1..], key, amount);
    }
  }

  lemma {:induction false} RowForIsARow<K>(groups: seq<Group<K>>, key: K) returns (i: nat)
    requires RowFor(groups, key).count > 0
    ensures i < |groups| && groups[i].key == key && groups[i] == RowFor(groups, key)
  {
    if groups[0].key == key {
      i := 0;
    } else {
      i := RowForIsARow(groups[1..], key);
      i := i + 1;
    }
  }
}
