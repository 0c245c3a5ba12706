/** The prize list (`gameData` in script.js) and the operations on it that the
    spin handler and the rest handler perform: the in-stock filter, weight
    sums, the lookup by label and the consumption of one unit of stock. */
module Prizes {

  /** One entry of the prize list; `name` is the JSON `label`. Display-only attributes (image, colour,
      tier) are not part of this model. */
  datatype Prize = Prize(name: string, weight: nat, quantity: nat)

  type Catalog = seq<Prize>

  /** Catalog positions of the entries with stock left, in catalog order:
      the entries `gameData.filter(item => item.quantity > 0)` keeps. */
  function AvailableIndices(c: Catalog): seq<nat>
  {
    if |c| == 0 then []
    else AvailableIndices(c[..|c| - 1]) + (if c[|c| - 1].quantity > 0 then [|c| - 1] else [])
  }

  /** The available prizes: the entries with `quantity > 0`, in catalog order. */
  function Available(c: Catalog): (a: seq<Prize>)
    ensures |a| == |AvailableIndices(c)|
  {
    if |c| == 0 then []
    else Available(c[..|c| - 1]) + (if c[|c| - 1].quantity > 0 then [c[|c| - 1]] else [])
  }

  /** The filter keeps exactly the in-stock positions, each once, in
      increasing order. */
  lemma {:induction false} AvailableIndicesSpec(c: Catalog)
    ensures forall k :: 0 <= k < |AvailableIndices(c)| ==>
      AvailableIndices(c)[k] < |c| && c[AvailableIndices(c)[k]].quantity > 0
    ensures forall k, l :: 0 <= k < l < |AvailableIndices(c)| ==>
      AvailableIndices(c)[k] < AvailableIndices(c)[l]
    ensures forall j :: 0 <= j < |c| && c[j].quantity > 0 ==> j in AvailableIndices(c)
  {
    if |c| > 0 {
      var n := |c| - 1;
      AvailableIndicesSpec(c[..n]);
      var front := AvailableIndices(c[..n]);
      var idx := AvailableIndices(c);
      assert idx == front + (if c[n].quantity > 0 then [n] else []);
      forall j | 0 <= j < |c| && c[j].quantity > 0
        ensures j in idx
      {
        if j < n {
          assert c[..n][j] == c[j];
          assert j in front;
        }
      }
    }
  }

  /** The available prizes are the catalog entries at the available
      positions, in the same order. */
  lemma {:induction false} AvailableSpec(c: Catalog)
    ensures forall k :: 0 <= k < |Available(c)| ==>
      AvailableIndices(c)[k] < |c| && Available(c)[k] == c[AvailableIndices(c)[k]]
  {
    if |c| > 0 {
      var n := |c| - 1;
      AvailableSpec(c[..n]);
      AvailableIndicesSpec(c[..n]);
    }
  }

  /** Sum of the weights of a sequence of prizes (the `reduce` of script.js). */
  function TotalWeight(s: seq<Prize>): nat
  {
    if |s| == 0 then 0 else TotalWeight(s[..|s| - 1]) + s[|s| - 1].weight
  }

  /** Sum of the weights of the first `k` prizes of `s`. */
  function RunningWeight(s: seq<Prize>, k: nat): nat
    requires k <= |s|
  {
    TotalWeight(s[..k])
  }

  /** Reference definition of the weight in play: every catalog entry
      contributes its weight when it has stock and nothing otherwise. */
  function StockedWeight(c: Catalog): nat
  {
    if |c| == 0 then 0
    else StockedWeight(c[..|c| - 1]) + (if c[|c| - 1].quantity > 0 then c[|c| - 1].weight else 0)
  }

  /** Sum of the remaining stock over the whole catalog. */
  function TotalQuantity(c: Catalog): nat
  {
    if |c| == 0 then 0 else TotalQuantity(c[..|c| - 1]) + c[|c| - 1].quantity
  }

  /** JavaScript's `findIndex` on the label: the first position holding
      `name`, or -1 when no entry has it. */
  function FindIndex(c: Catalog, name: string): (r: int)
    ensures -1 <= r < |c|
  {
    if |c| == 0 then -1
    else
      var f := FindIndex(c[..|c| - 1], name);
      if f >= 0 then f
      else if c[|c| - 1].name == name then |c| - 1
      else -1
  }

  /** `findIndex` answers with the first match, and -1 only when there is
      none. */
  lemma {:induction false} FindIndexSpec(c: Catalog, name: string)
    ensures FindIndex(c, name) >= 0 ==> c[FindIndex(c, name)].name == name
    ensures FindIndex(c, name) >= 0 ==>
      forall j :: 0 <= j < FindIndex(c, name) ==> c[j].name != name
    ensures FindIndex(c, name) < 0 <==> forall j :: 0 <= j < |c| ==> c[j].name != name
  {
    if |c| > 0 {
      var n := |c| - 1;
      FindIndexSpec(c[..n], name);
      if FindIndex(c[..n], name) < 0 {
        forall j | 0 <= j < n
          ensures c[j].name != name
        {
          assert c[..n][j] == c[j];
        }
      }
    }
  }

  predicate UniqueLabels(c: Catalog)
  {
    forall j, k :: 0 <= j < k < |c| ==> c[j].name != c[k].name
  }

  /** The decrement `prize.quantity--` of showPrize, reached only when the
      entry still has stock. */
  function Consume(c: Catalog, i: nat): (r: Catalog)
    requires i < |c|
    ensures |r| == |c|
    ensures forall j :: 0 <= j < |c| && j != i ==> r[j] == c[j]
    ensures r[i].name == c[i].name && r[i].weight == c[i].weight
    ensures TotalQuantity(r) + (if c[i].quantity > 0 then 1 else 0) == TotalQuantity(c)
  {
    if c[i].quantity > 0 then
      var r := c[i := c[i].(quantity := c[i].quantity - 1)];
      TotalQuantityUpdate(c, i, c[i].quantity - 1);
      r
    else c
  }

  /** Changing one entry's stock changes the catalog total by the same amount. */
  lemma {:induction false} TotalQuantityUpdate(c: Catalog, i: nat, q: nat)
    requires i < |c|
    ensures TotalQuantity(c[i := c[i].(quantity := q)]) + c[i].quantity == TotalQuantity(c) + q
    decreases |c|
  {
    var n := |c| - 1;
    var c' := c[i := c[i].(quantity := q)];
    assert c'[..n] == if i == n then c[..n] else c[..n][i := c[i].(quantity := q)];
    if i < n {
      TotalQuantityUpdate(c[..n], i, q);
    }
  }

  /** Adding one prize at the end adds its weight. */
  lemma TotalWeightAppend(s: seq<Prize>, p: Prize)
    ensures TotalWeight(s + [p]) == TotalWeight(s) + p.weight
  {
    assert (s + [p])[..|s|] == s;
  }

  /** The running sum grows by exactly the next prize's weight. */
  lemma RunningWeightStep(s: seq<Prize>, k: nat)
    requires k < |s|
    ensures RunningWeight(s, k + 1) == RunningWeight(s, k) + s[k].weight
  {
    assert s[..k + 1][..k] == s[..k];
  }

  /** Running sums never decrease along the sequence. */
  lemma {:induction false} RunningWeightMonotone(s: seq<Prize>, j: nat, k: nat)
    requires j <= k <= |s|
    ensures RunningWeight(s, j) <= RunningWeight(s, k)
    decreases k - j
  {
    if j < k {
      RunningWeightStep(s, k - 1);
      RunningWeightMonotone(s, j, k - 1);
    }
  }

  /** Over the whole sequence the running sum is the total. */
  lemma RunningWeightAll(s: seq<Prize>)
    ensures RunningWeight(s, |s|) == TotalWeight(s)
  {
    assert s[..|s|] == s;
  }

  /** The total weight of the available prizes counts exactly the in-stock
      entries of the catalog: exhausted entries add nothing. */
  lemma {:induction false} AvailableWeightIsStockedWeight(c: Catalog)
    ensures TotalWeight(Available(c)) == StockedWeight(c)
  {
    if |c| > 0 {
      var n := |c| - 1;
      AvailableWeightIsStockedWeight(c[..n]);
      if c[n].quantity > 0 {
        TotalWeightAppend(Available(c[..n]), c[n]);
      } else {
        assert Available(c) == Available(c[..n]) + [];
        assert Available(c[..n]) + [] == Available(c[..n]);
      }
    }
  }

  /** The available set is empty exactly when every entry is out of stock. */
  lemma AvailableEmptyIff(c: Catalog)
    ensures |Available(c)| == 0 <==> forall j :: 0 <= j < |c| ==> c[j].quantity == 0
  {
    AvailableSpec(c);
    AvailableIndicesSpec(c);
    if |Available(c)| > 0 {
      var j := AvailableIndices(c)[0];
      assert c[j].quantity > 0;
    }
  }

  /** When exactly one entry has stock, the available set is that entry. */
  lemma {:induction false} SoleAvailable(c: Catalog, j: nat)
    requires j < |c| && c[j].quantity > 0
    requires forall i :: 0 <= i < |c| && i != j ==> c[i].quantity == 0
    ensures AvailableIndices(c) == [j]
  {
    var n := |c| - 1;
    if j < n {
      SoleAvailable(c[..n], j);
      assert c[n].quantity == 0;
    } else {
      AvailableEmptyIff(c[..n]);
      AvailableSpec(c[..n]);
    }
  }
}
