/** select_random_items: random.sample over a clamped size. The random choice
    itself is an input: the positions random.sample picked. */
module Selection {
  import opened Results

  function Min(a: int, b: int): int {
    if a < b then a else b
  }

  /** What random.sample(population, k) guarantees about the positions it draws
      from a population of the given size: k of them, in range, no two alike. */
  predicate IsSample(positions: seq<nat>, size: nat, k: nat) {
    |positions| == k
    && (forall i :: 0 <= i < k ==> positions[i] < size)
    && (forall i, j :: 0 <= i < j < k ==> positions[i] != positions[j])
  }

  /** The items at the given positions, in the order the positions are listed. */
  function Pick<T>(items: seq<T>, positions: seq<nat>): (r: seq<T>)
    requires forall i :: 0 <= i < |positions| ==> positions[i] < |items|
    ensures |r| == |positions|
    ensures forall i :: 0 <= i < |r| ==> r[i] == items[positions[i]]
  {
    seq(|positions|, i requires 0 <= i < |positions| => items[positions[i]])
  }

  /** random.sample(items, min(len(items), count)), where positions are the draws.
      A negative count makes random.sample raise ValueError. */
  function SelectRandomItems<T>(items: seq<T>, count: int, positions: seq<nat>): (r: Result<seq<T>>)
    requires count >= 0 ==> IsSample(positions, |items|, Min(|items|, count))
    ensures r.Ok? <==> count >= 0
    ensures r.Err? ==> r.error == NegativeSampleSize(count)
    ensures r.Ok? ==> |r.value| == Min(|items|, count) && |r.value| <= |items|
    ensures r.Ok? ==> forall i :: 0 <= i < |r.value| ==> r.value[i] == items[positions[i]]
  {
    if count < 0 then Err(NegativeSampleSize(count)) else Ok(Pick(items, positions))
  }

  /** Positions into items, renumbered for items with position p taken out. */
  function Renumber(positions: seq<nat>, p: nat): (r: seq<nat>)
    ensures |r| == |positions|
  {
    seq(|positions|, i requires 0 <= i < |positions| =>
      if positions[i] <= p then positions[i] else positions[i] - 1)
  }

  lemma RenumberPick<T>(items: seq<T>, positions: seq<nat>, p: nat)
    requires p < |items|
    requires forall i :: 0 <= i < |positions| ==> positions[i] < |items| && positions[i] != p
    requires forall i, j :: 0 <= i < j < |positions| ==> positions[i] != positions[j]
    ensures var r := Renumber(positions, p);
      (forall i :: 0 <= i < |r| ==> r[i] < |items| - 1)
      && (forall i, j :: 0 <= i < j < |r| ==> r[i] != r[j])
      && Pick(items[..p] + items[p + 1..], r) == Pick(items, positions)
  {
    var remaining := items[..p] + items[p + 1..];
    var r := Renumber(positions, p);
    forall i | 0 <= i < |r|
      ensures r[i] < |remaining| && remaining[r[i]] == items[positions[i]]
    {
    }
  }

  /** Picking at distinct positions never takes an item more often than it occurs. */
  lemma {:induction false} PickDistinct<T>(items: seq<T>, positions: seq<nat>)
    requires forall i :: 0 <= i < |positions| ==> positions[i] < |items|
    requires forall i, j :: 0 <= i < j < |positions| ==> positions[i] != positions[j]
    ensures multiset(Pick(items, positions)) <= multiset(items)
  {
    if positions != [] {
      var p := positions[0];
      var rest := positions[1..];
      var remaining := items[..p] + items[p + 1..];
      assert forall i :: 0 <= i < |rest| ==> rest[i] == positions[i + 1];
      RenumberPick(items, rest, p);
      PickDistinct(remaining, Renumber(rest, p));
      assert Pick(items, positions) == [items[p]] + Pick(items, rest);
      MultisetRemoveOne(items, p);
    }
  }

  lemma MultisetRemoveOne<T>(items: seq<T>, p: nat)
    requires p < |items|
    ensures multiset(items) == multiset(items[..p] + items[p + 1..]) + multiset{items[p]}
  {
    assert items == items[..p] + [items[p]] + items[p + 1..];
  }

  /** No replacement: the sample holds each line at most as often as the file does. */
  lemma SampleWithoutReplacement<T>(items: seq<T>, count: int, positions: seq<nat>)
    requires count >= 0 && IsSample(positions, |items|, Min(|items|, count))
    ensures SelectRandomItems(items, count, positions).Ok?
    ensures multiset(SelectRandomItems(items, count, positions).value) <= multiset(items)
  {
    PickDistinct(items, positions);
  }

  /** A count of zero, or an empty file, yields an empty sample; a count at
      least the file's length takes every line. */
  lemma SampleEdgeCases<T>(items: seq<T>, count: int, positions: seq<nat>)
    requires count >= 0 && IsSample(positions, |items|, Min(|items|, count))
    ensures (count == 0 || items == []) ==> SelectRandomItems(items, count, positions) == Ok([])
    ensures count >= |items| ==> multiset(SelectRandomItems(items, count, positions).value) == multiset(items)
  {
    PickDistinct(items, positions);
    if count >= |items| {
      var r := SelectRandomItems(items, count, positions).value;
      assert |multiset(r)| == |r| == |items| == |multiset(items)|;
      MultisetSubsetOfSameSize(multiset(r), multiset(items));
    }
  }

  lemma MultisetSubsetOfSameSize<T>(a: multiset<T>, b: multiset<T>)
    requires a <= b && |a| == |b|
    ensures a == b
  {
    assert |b - a| == |b| - |a| by {
      assert b == a + (b - a);
    }
    assert b - a == multiset{};
  }
}
