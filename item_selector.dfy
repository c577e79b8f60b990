/** The selection engine: a binary search for the cutoff index in a price-sorted list, and a
    greedy walk down from that index that admits an item only while the budget can still pay
    for the cheapest items needed to fill the remaining slots. */
module ItemSelector {
  import opened Items

  ghost predicate SortedByPrice(items: seq<Item>) {
    forall i, j :: 0 <= i < j < |items| ==> items[i].priceInCents <= items[j].priceInCents
  }

  ghost predicate NonNegativePrices(items: seq<Item>) {
    forall i :: 0 <= i < |items| ==> items[i].priceInCents >= 0
  }

  /** Sum of the prices of `items`. */
  function TotalPrice(items: seq<Item>): int {
    if items == [] then 0 else items[0].priceInCents + TotalPrice(items[1..])
  }

  lemma {:induction false} TotalPriceConcat(a: seq<Item>, b: seq<Item>)
    ensures TotalPrice(a + b) == TotalPrice(a) + TotalPrice(b)
    decreases |a|
  {
    if a == [] {
      assert a + b == b;
    } else {
      assert (a + b)[1..] == a[1..] + b;
      TotalPriceConcat(a[1..], b);
    }
  }

  lemma {:induction false} TotalPriceNonNegative(items: seq<Item>)
    requires NonNegativePrices(items)
    ensures TotalPrice(items) >= 0
    decreases |items|
  {
    if items != [] {
      TotalPriceNonNegative(items[1..]);
    }
  }

  // ---------------------------------------------------------------------------------------
  // searchCutoffIndex
  // ---------------------------------------------------------------------------------------

  /** How many of `items` cost strictly less than `amount`. */
  function CountBelow(items: seq<Item>, amount: int): (n: nat)
    ensures n <= |items|
  {
    if items == [] then 0
    else (if items[0].priceInCents < amount then 1 else 0) + CountBelow(items[1..], amount)
  }

  /** The cutoff the search is meant to find, defined by counting: -1 for a list that cannot be
      processed, 0 when nothing is below `amount`, otherwise the last position below `amount`. */
  function Cutoff(items: seq<Item>, amount: int): (r: int)
    ensures -1 <= r < |items|
    ensures r == -1 <==> |items| < 2
  {
    if |items| < 2 then -1
    else
      var below := CountBelow(items, amount);
      if below == 0 then 0 else below - 1
  }

  lemma {:induction false} CountBelowNone(items: seq<Item>, amount: int)
    requires forall i :: 0 <= i < |items| ==> items[i].priceInCents >= amount
    ensures CountBelow(items, amount) == 0
    decreases |items|
  {
    if items != [] {
      CountBelowNone(items[1..], amount);
    }
  }

  /** In a sorted list, the items below `amount` are exactly the first CountBelow ones. */
  lemma {:induction false} CountBelowSorted(items: seq<Item>, amount: int, k: int)
    requires SortedByPrice(items) && 0 <= k < |items|
    ensures items[k].priceInCents < amount <==> k < CountBelow(items, amount)
    decreases |items|
  {
    if items[0].priceInCents >= amount {
      CountBelowNone(items, amount);
    } else if k > 0 {
      CountBelowSorted(items[1..], amount, k - 1);
    }
  }

  lemma {:induction false} CountBelowMonotone(items: seq<Item>, a1: int, a2: int)
    requires a1 <= a2
    ensures CountBelow(items, a1) <= CountBelow(items, a2)
    decreases |items|
  {
    if items != [] {
      CountBelowMonotone(items[1..], a1, a2);
    }
  }

  /** A larger amount never moves the cutoff down. */
  lemma CutoffMonotone(items: seq<Item>, a1: int, a2: int)
    requires a1 <= a2
    ensures Cutoff(items, a1) <= Cutoff(items, a2)
  {
    CountBelowMonotone(items, a1, a2);
  }

  /** For a sorted list the cutoff is 0 when even the cheapest item is not below `amount`, and
      otherwise the one position whose item is below `amount` while the next one (if any) is not. */
  lemma CutoffIsUniqueBoundary(items: seq<Item>, amount: int, k: int)
    requires SortedByPrice(items) && 2 <= |items| && 0 <= k < |items|
    ensures items[0].priceInCents >= amount ==> Cutoff(items, amount) == 0
    ensures items[0].priceInCents < amount ==>
              (k == Cutoff(items, amount) <==>
                 items[k].priceInCents < amount && (k == |items| - 1 || amount <= items[k + 1].priceInCents))
  {
    CountBelowSorted(items, amount, 0);
    CountBelowSorted(items, amount, k);
    if k + 1 < |items| {
      CountBelowSorted(items, amount, k + 1);
    }
    if CountBelow(items, amount) == |items| {
      CountBelowSorted(items, amount, |items| - 1);
    }
  }

  /** For a sorted list whose cheapest item is below `amount`, the cutoff is the highest
      position below `amount`: that item is below it and every later one is not. */
  lemma CutoffIsHighestBelow(items: seq<Item>, amount: int)
    requires SortedByPrice(items) && 2 <= |items| && items[0].priceInCents < amount
    ensures items[Cutoff(items, amount)].priceInCents < amount
    ensures forall j :: Cutoff(items, amount) < j < |items| ==> items[j].priceInCents >= amount
  {
    var c := Cutoff(items, amount);
    CountBelowSorted(items, amount, 0);
    CountBelowSorted(items, amount, c);
    forall j | c < j < |items|
      ensures items[j].priceInCents >= amount
    {
      CountBelowSorted(items, amount, j);
    }
  }

  /** `searchCutoffIndex`: -1 for fewer than two items, 0 when the cheapest item is not below
      `amount`, the last index when every item is, and otherwise a binary search for the boundary.
      Without any sortedness the early exits and the boundary still hold; on a sorted list the
      result is the cutoff defined by counting. */
  method SearchCutoffIndex(items: seq<Item>, amount: int) returns (cutoff: int)
    ensures -1 <= cutoff < |items|
    ensures cutoff == -1 <==> |items| < 2
    ensures 2 <= |items| && items[0].priceInCents >= amount ==> cutoff == 0
    ensures 2 <= |items| && items[0].priceInCents < amount && items[|items| - 1].priceInCents < amount ==>
              cutoff == |items| - 1
    ensures 2 <= |items| && items[0].priceInCents < amount <= items[|items| - 1].priceInCents ==>
              cutoff < |items| - 1 && items[cutoff].priceInCents < amount <= items[cutoff + 1].priceInCents
    ensures SortedByPrice(items) ==> cutoff == Cutoff(items, amount)
  {
    if |items| < 2 {
      return -1;
    }
    var start := 0;
    if items[start].priceInCents >= amount {
      if SortedByPrice(items) {
        CutoffIsUniqueBoundary(items, amount, start);
      }
      return start;
    }
    var end := |items| - 1;
    if items[end].priceInCents < amount {
      if SortedByPrice(items) {
        CutoffIsUniqueBoundary(items, amount, end);
      }
      return end;
    }
    cutoff := -1;
    while start < end
      invariant 0 <= start < end < |items|
      invariant items[start].priceInCents < amount <= items[end].priceInCents
      invariant cutoff == -1
      decreases end - start
    {
      var midpoint := (start + end) / 2;
      var itemAtMidpoint := items[midpoint];
      if itemAtMidpoint.priceInCents < amount {
        if midpoint < end {
          var itemAtRightOfMidpoint := items[midpoint + 1];
          if itemAtRightOfMidpoint.priceInCents >= amount {
            cutoff := midpoint;
            break;
          }
        }
        start := midpoint + 1;
      } else {
        if midpoint > start {
          var itemAtLeftOfMidpoint := items[midpoint - 1];
          if itemAtLeftOfMidpoint.priceInCents < amount {
            cutoff := midpoint - 1;
            break;
          }
        }
        end := midpoint - 1;
      }
    }
    if SortedByPrice(items) {
      CutoffIsUniqueBoundary(items, amount, cutoff);
    }
  }

  // ---------------------------------------------------------------------------------------
  // isOkToSelect
  // ---------------------------------------------------------------------------------------

  /** Sum of the prices of the first `k` items (all of them when there are fewer): on a sorted
      list, the price of the `k` cheapest items. */
  function SumFirst(items: seq<Item>, k: nat): (s: int)
    ensures NonNegativePrices(items) ==> 0 <= s <= TotalPrice(items)
  {
    var n := if k < |items| then k else |items|;
    PrefixTotalWithinTotal(items, n);
    TotalPrice(items[..n])
  }

  /** With non-negative prices, a prefix costs between nothing and the whole list. */
  lemma PrefixTotalWithinTotal(items: seq<Item>, n: nat)
    requires n <= |items|
    ensures NonNegativePrices(items) ==> 0 <= TotalPrice(items[..n]) <= TotalPrice(items)
  {
    if NonNegativePrices(items) {
      TotalPriceConcat(items[..n], items[n..]);
      assert items[..n] + items[n..] == items;
      TotalPriceNonNegative(items[..n]);
      TotalPriceNonNegative(items[n..]);
    }
  }

  /** What must be left over after paying for the candidate: with a further slot to fill and
      cheaper positions still ahead, the price of the cheapest items for the slots still open
      after this one; otherwise nothing. */
  function Reserve(numSelected: int, numToSelect: int, items: seq<Item>, currentCandidateIndex: int): (r: int)
    ensures NonNegativePrices(items) ==> r >= 0
    ensures r != 0 ==> numSelected + 1 < numToSelect && currentCandidateIndex > 0
  {
    if numSelected + 1 < numToSelect && currentCandidateIndex > 0 then
      SumFirst(items, numToSelect - (numSelected + 1))
    else
      0
  }

  /** `isOkToSelect`: the candidate is admitted exactly when paying for it leaves at least the
      reserve; so with non-negative prices an admitted item never overdraws the budget. */
  function IsOkToSelect(numSelected: int, numToSelect: int, items: seq<Item>, amountRemaining: int,
                        currentCandidateIndex: int, currentCandidatePrice: int): (ok: bool)
    ensures ok <==> amountRemaining - currentCandidatePrice >= Reserve(numSelected, numToSelect, items, currentCandidateIndex)
    ensures ok && NonNegativePrices(items) ==> amountRemaining >= currentCandidatePrice
  {
    if numSelected + 1 < numToSelect && currentCandidateIndex > 0 then
      var numRemainingIfCurrentSelected := numToSelect - (numSelected + 1);
      var leastExpensiveItemsPrice := SumFirst(items, numRemainingIfCurrentSelected);
      var remainingMinusCandidate := amountRemaining - currentCandidatePrice;
      remainingMinusCandidate >= leastExpensiveItemsPrice
    else
      amountRemaining >= currentCandidatePrice
  }

  // ---------------------------------------------------------------------------------------
  // selectItemsForAmount
  // ---------------------------------------------------------------------------------------

  /** The greedy loop may read position `cursor` only when its guard can hold. */
  predicate CursorReadable(candidates: seq<Item>, cursor: int, amountRemaining: int, numSelected: int, numToSelect: int) {
    amountRemaining <= 0 || numSelected >= numToSelect || cursor < |candidates|
  }

  /** The items the greedy loop admits when it resumes at `cursor`, with `amountRemaining`
      left and `numSelected` items already chosen, in the order it admits them. */
  function WalkItems(candidates: seq<Item>, cursor: int, amountRemaining: int, numSelected: int, numToSelect: int): (items: seq<Item>)
    requires CursorReadable(candidates, cursor, amountRemaining, numSelected, numToSelect)
    decreases cursor + 1
  {
    if amountRemaining > 0 && numSelected < numToSelect && cursor >= 0 then
      var price := candidates[cursor].priceInCents;
      if IsOkToSelect(numSelected, numToSelect, candidates, amountRemaining, cursor, price) then
        [candidates[cursor]] + WalkItems(candidates, cursor - 1, amountRemaining - price, numSelected + 1, numToSelect)
      else
        WalkItems(candidates, cursor - 1, amountRemaining, numSelected, numToSelect)
    else
      []
  }

  /** The positions of the items `WalkItems` admits: never more than the open slots, all at or
      below `cursor`, each strictly lower than the one before. The loop keeps no positions; this
      ghost twin of `WalkItems` exists so that the shape of the result can be stated. */
  ghost function WalkPositions(candidates: seq<Item>, cursor: int, amountRemaining: int, numSelected: int, numToSelect: int): (picks: seq<int>)
    requires CursorReadable(candidates, cursor, amountRemaining, numSelected, numToSelect)
    ensures |picks| <= if numSelected < numToSelect then numToSelect - numSelected else 0
    ensures forall i :: 0 <= i < |picks| ==> 0 <= picks[i] <= cursor && picks[i] < |candidates|
    ensures forall i, j :: 0 <= i < j < |picks| ==> picks[i] > picks[j]
    decreases cursor + 1
  {
    if amountRemaining > 0 && numSelected < numToSelect && cursor >= 0 then
      var price := candidates[cursor].priceInCents;
      if IsOkToSelect(numSelected, numToSelect, candidates, amountRemaining, cursor, price) then
        [cursor] + WalkPositions(candidates, cursor - 1, amountRemaining - price, numSelected + 1, numToSelect)
      else
        WalkPositions(candidates, cursor - 1, amountRemaining, numSelected, numToSelect)
    else
      []
  }

  predicate ValidPositions(candidates: seq<Item>, picks: seq<int>) {
    forall i :: 0 <= i < |picks| ==> 0 <= picks[i] < |candidates|
  }

  /** The items at the given positions, in the order of the positions. */
  ghost function ItemsAt(candidates: seq<Item>, picks: seq<int>): (items: seq<Item>)
    requires ValidPositions(candidates, picks)
    ensures |items| == |picks|
  {
    if picks == [] then [] else [candidates[picks[0]]] + ItemsAt(candidates, picks[1..])
  }

  lemma {:induction false} ItemsAtIndex(candidates: seq<Item>, picks: seq<int>, i: int)
    requires ValidPositions(candidates, picks) && 0 <= i < |picks|
    ensures ItemsAt(candidates, picks)[i] == candidates[picks[i]]
    decreases |picks|
  {
    if i > 0 {
      ItemsAtIndex(candidates, picks[1..], i - 1);
    }
  }

  lemma TotalPriceAppend(items: seq<Item>, x: Item)
    ensures TotalPrice(items + [x]) == TotalPrice(items) + x.priceInCents
  {
    TotalPriceConcat(items, [x]);
    assert [x][1..] == [];
  }

  lemma ItemsAtPrepend(candidates: seq<Item>, k: int, picks: seq<int>)
    requires ValidPositions(candidates, picks) && 0 <= k < |candidates|
    ensures ValidPositions(candidates, [k] + picks)
    ensures ItemsAt(candidates, [k] + picks) == [candidates[k]] + ItemsAt(candidates, picks)
  {
    assert ([k] + picks)[1..] == picks;
  }

  /** The admitted items are exactly the candidates at the admitted positions. */
  lemma {:induction false} WalkItemsAtPositions(candidates: seq<Item>, cursor: int, amountRemaining: int, numSelected: int, numToSelect: int)
    requires CursorReadable(candidates, cursor, amountRemaining, numSelected, numToSelect)
    ensures WalkItems(candidates, cursor, amountRemaining, numSelected, numToSelect)
            == ItemsAt(candidates, WalkPositions(candidates, cursor, amountRemaining, numSelected, numToSelect))
    decreases cursor + 1, 1
  {
    if amountRemaining > 0 && numSelected < numToSelect && cursor >= 0 {
      if IsOkToSelect(numSelected, numToSelect, candidates, amountRemaining, cursor, candidates[cursor].priceInCents) {
        AdmittedItemAtPosition(candidates, cursor, amountRemaining, numSelected, numToSelect);
      } else {
        PassedItemAtPosition(candidates, cursor, amountRemaining, numSelected, numToSelect);
      }
    }
  }

  /** The step of `WalkItemsAtPositions` that admits the candidate at `cursor`. */
  lemma {:induction false} AdmittedItemAtPosition(candidates: seq<Item>, cursor: int, amountRemaining: int, numSelected: int, numToSelect: int)
    requires 0 <= cursor < |candidates| && amountRemaining > 0 && numSelected < numToSelect
    requires IsOkToSelect(numSelected, numToSelect, candidates, amountRemaining, cursor, candidates[cursor].priceInCents)
    ensures WalkItems(candidates, cursor, amountRemaining, numSelected, numToSelect)
            == ItemsAt(candidates, WalkPositions(candidates, cursor, amountRemaining, numSelected, numToSelect))
    decreases cursor + 1, 0
  {
    var price := candidates[cursor].priceInCents;
    var rest := WalkPositions(candidates, cursor - 1, amountRemaining - price, numSelected + 1, numToSelect);
    WalkItemsAtPositions(candidates, cursor - 1, amountRemaining - price, numSelected + 1, numToSelect);
    ItemsAtPrepend(candidates, cursor, rest);
  }

  /** The step of `WalkItemsAtPositions` that passes over the candidate at `cursor`. */
  lemma {:induction false} PassedItemAtPosition(candidates: seq<Item>, cursor: int, amountRemaining: int, numSelected: int, numToSelect: int)
    requires 0 <= cursor < |candidates| && amountRemaining > 0 && numSelected < numToSelect
    requires !IsOkToSelect(numSelected, numToSelect, candidates, amountRemaining, cursor, candidates[cursor].priceInCents)
    ensures WalkItems(candidates, cursor, amountRemaining, numSelected, numToSelect)
            == ItemsAt(candidates, WalkPositions(candidates, cursor, amountRemaining, numSelected, numToSelect))
    decreases cursor + 1, 0
  {
    WalkItemsAtPositions(candidates, cursor - 1, amountRemaining, numSelected, numToSelect);
  }

  /** The positions `selectItemsForAmount` picks: none for a list of fewer than two items. */
  ghost function SelectionIndices(candidates: seq<Item>, maxAffordableItemIndex: int, amount: int, numToSelect: int): seq<int>
    requires |candidates| < 2 || CursorReadable(candidates, maxAffordableItemIndex, amount, 0, numToSelect)
  {
    if |candidates| < 2 then [] else WalkPositions(candidates, maxAffordableItemIndex, amount, 0, numToSelect)
  }

  /** The items `selectItemsForAmount` returns, most expensive position first. */
  function Selection(candidates: seq<Item>, maxAffordableItemIndex: int, amount: int, numToSelect: int): (selected: seq<Item>)
    requires |candidates| < 2 || CursorReadable(candidates, maxAffordableItemIndex, amount, 0, numToSelect)
  {
    if |candidates| < 2 then [] else WalkItems(candidates, maxAffordableItemIndex, amount, 0, numToSelect)
  }

  /** With non-negative prices, what the walk admits costs no more than it had left to spend. */
  lemma {:induction false} WalkWithinBudget(candidates: seq<Item>, cursor: int, amountRemaining: int, numSelected: int, numToSelect: int)
    requires CursorReadable(candidates, cursor, amountRemaining, numSelected, numToSelect)
    requires NonNegativePrices(candidates) && amountRemaining >= 0
    ensures TotalPrice(WalkItems(candidates, cursor, amountRemaining, numSelected, numToSelect)) <= amountRemaining
    decreases cursor + 1
  {
    if amountRemaining > 0 && numSelected < numToSelect && cursor >= 0 {
      var price := candidates[cursor].priceInCents;
      if IsOkToSelect(numSelected, numToSelect, candidates, amountRemaining, cursor, price) {
        var rest := WalkItems(candidates, cursor - 1, amountRemaining - price, numSelected + 1, numToSelect);
        WalkWithinBudget(candidates, cursor - 1, amountRemaining - price, numSelected + 1, numToSelect);
        assert ([candidates[cursor]] + rest)[1..] == rest;
      } else {
        WalkWithinBudget(candidates, cursor - 1, amountRemaining, numSelected, numToSelect);
      }
    }
  }

  /** The result is empty for a list of fewer than two items, a budget that is not positive,
      nothing to select, or a cutoff of -1. */
  lemma SelectionEmptyCases(candidates: seq<Item>, maxAffordableItemIndex: int, amount: int, numToSelect: int)
    requires |candidates| < 2 || amount <= 0 || numToSelect <= 0 || maxAffordableItemIndex < 0
    requires |candidates| < 2 || CursorReadable(candidates, maxAffordableItemIndex, amount, 0, numToSelect)
    ensures Selection(candidates, maxAffordableItemIndex, amount, numToSelect) == []
  {
  }

  /** Never more than `numToSelect` items, each taken from a distinct position at or below the
      cutoff, positions strictly decreasing in the order of the result. */
  lemma SelectionShape(candidates: seq<Item>, maxAffordableItemIndex: int, amount: int, numToSelect: int)
    requires |candidates| < 2 || CursorReadable(candidates, maxAffordableItemIndex, amount, 0, numToSelect)
    ensures var picks := SelectionIndices(candidates, maxAffordableItemIndex, amount, numToSelect);
            var selected := Selection(candidates, maxAffordableItemIndex, amount, numToSelect);
            && |selected| == |picks|
            && (numToSelect >= 0 ==> |selected| <= numToSelect)
            && (forall i :: 0 <= i < |picks| ==>
                  0 <= picks[i] <= maxAffordableItemIndex && selected[i] == candidates[picks[i]])
            && (forall i, j :: 0 <= i < j < |picks| ==> picks[i] > picks[j])
  {
    var picks := SelectionIndices(candidates, maxAffordableItemIndex, amount, numToSelect);
    if |candidates| >= 2 {
      WalkItemsAtPositions(candidates, maxAffordableItemIndex, amount, 0, numToSelect);
    }
    forall i | 0 <= i < |picks|
      ensures Selection(candidates, maxAffordableItemIndex, amount, numToSelect)[i] == candidates[picks[i]]
    {
      ItemsAtIndex(candidates, picks, i);
    }
  }

  /** With non-negative prices, the selected items cost no more than the amount. */
  lemma SelectionWithinBudget(candidates: seq<Item>, maxAffordableItemIndex: int, amount: int, numToSelect: int)
    requires |candidates| < 2 || CursorReadable(candidates, maxAffordableItemIndex, amount, 0, numToSelect)
    requires NonNegativePrices(candidates) && amount >= 0
    ensures TotalPrice(Selection(candidates, maxAffordableItemIndex, amount, numToSelect)) <= amount
  {
    if |candidates| >= 2 {
      WalkWithinBudget(candidates, maxAffordableItemIndex, amount, 0, numToSelect);
    }
  }

  /** On a sorted list the result runs from the most to the least expensive. */
  lemma SelectionNonIncreasing(candidates: seq<Item>, maxAffordableItemIndex: int, amount: int, numToSelect: int)
    requires |candidates| < 2 || CursorReadable(candidates, maxAffordableItemIndex, amount, 0, numToSelect)
    requires SortedByPrice(candidates)
    ensures var selected := Selection(candidates, maxAffordableItemIndex, amount, numToSelect);
            forall i, j :: 0 <= i < j < |selected| ==> selected[i].priceInCents >= selected[j].priceInCents
  {
    SelectionShape(candidates, maxAffordableItemIndex, amount, numToSelect);
  }

  /** Searching for the cutoff first and selecting from it, on a sorted list whose cheapest item
      is below the amount, never picks an item priced at or above the amount. */
  lemma SearchThenSelectSkipsUnaffordable(items: seq<Item>, amount: int, numToSelect: int)
    requires SortedByPrice(items) && 2 <= |items| && items[0].priceInCents < amount
    ensures var selected := Selection(items, Cutoff(items, amount), amount, numToSelect);
            forall i :: 0 <= i < |selected| ==> selected[i].priceInCents < amount
  {
    var cutoff := Cutoff(items, amount);
    SelectionShape(items, cutoff, amount, numToSelect);
    CutoffIsHighestBelow(items, amount);
  }

  // ---------------------------------------------------------------------------------------
  // Filling the quota: what the lookahead in isOkToSelect buys
  // ---------------------------------------------------------------------------------------

  ghost predicate PositivePrices(items: seq<Item>) {
    forall i :: 0 <= i < |items| ==> items[i].priceInCents > 0
  }

  /** One more item in the prefix adds its price to the lookahead sum. */
  lemma SumFirstStep(items: seq<Item>, j: nat)
    requires 1 <= j <= |items|
    ensures SumFirst(items, j) == SumFirst(items, j - 1) + items[j - 1].priceInCents
  {
    assert items[..j] == items[..j - 1] + [items[j - 1]];
    TotalPriceAppend(items[..j - 1], items[j - 1]);
  }

  /** With positive prices, a non-empty prefix costs at least its first item. */
  lemma {:induction false} SumFirstAtLeastFirst(items: seq<Item>, j: nat)
    requires PositivePrices(items) && 1 <= j <= |items|
    ensures SumFirst(items, j) >= items[0].priceInCents
    decreases j
  {
    SumFirstStep(items, j);
    if j > 1 {
      SumFirstAtLeastFirst(items, j - 1);
    } else {
      assert items[..0] == [];
    }
  }

  /** With positive prices, from any state whose cursor leaves a position for every open slot
      and whose remaining budget covers the cheapest items for all of them, the walk fills every
      open slot: a candidate is passed over only while a cheaper position can still take its slot. */
  lemma {:induction false} WalkFillsQuota(candidates: seq<Item>, cursor: int, amountRemaining: int, numSelected: int, numToSelect: int)
    requires PositivePrices(candidates)
    requires 0 <= numSelected < numToSelect && numToSelect - numSelected - 1 <= cursor < |candidates|
    requires amountRemaining >= SumFirst(candidates, numToSelect - numSelected)
    ensures |WalkItems(candidates, cursor, amountRemaining, numSelected, numToSelect)| == numToSelect - numSelected
    decreases cursor + 1
  {
    var open := numToSelect - numSelected;
    SumFirstStep(candidates, open);
    SumFirstAtLeastFirst(candidates, open);
    var price := candidates[cursor].priceInCents;
    var admitted := IsOkToSelect(numSelected, numToSelect, candidates, amountRemaining, cursor, price);
    if admitted && numSelected + 1 < numToSelect {
      WalkFillsQuota(candidates, cursor - 1, amountRemaining - price, numSelected + 1, numToSelect);
    } else if admitted {
      assert WalkItems(candidates, cursor - 1, amountRemaining - price, numSelected + 1, numToSelect) == [];
    } else {
      if open == 1 {
        assert SumFirst(candidates, 0) == 0 by {
          assert candidates[..0] == [];
        }
      }
      assert cursor > open - 1;
      WalkFillsQuota(candidates, cursor - 1, amountRemaining, numSelected, numToSelect);
    }
  }

  /** Strictly decreasing positions leave room below each one for all that follow it. */
  lemma {:induction false} DecreasingPositionsRoom(candidates: seq<Item>, picks: seq<int>)
    requires ValidPositions(candidates, picks)
    requires forall i, j :: 0 <= i < j < |picks| ==> picks[i] > picks[j]
    ensures forall i :: 0 <= i < |picks| ==> picks[i] >= |picks| - 1 - i
    decreases |picks|
  {
    if |picks| > 1 {
      DecreasingPositionsRoom(candidates, picks[1..]);
      forall i | 0 <= i < |picks|
        ensures picks[i] >= |picks| - 1 - i
      {
        if i > 0 {
          assert picks[i] == picks[1..][i - 1];
        } else {
          assert picks[1] == picks[1..][0];
        }
      }
    }
  }

  /** On a sorted list with non-negative prices, items at `m` distinct positions cost at least
      the `m` cheapest items. */
  lemma {:induction false} DistinctPositionsCostAtLeastCheapest(candidates: seq<Item>, picks: seq<int>)
    requires SortedByPrice(candidates) && NonNegativePrices(candidates)
    requires ValidPositions(candidates, picks)
    requires forall i, j :: 0 <= i < j < |picks| ==> picks[i] > picks[j]
    ensures |picks| <= |candidates|
    ensures TotalPrice(ItemsAt(candidates, picks)) >= SumFirst(candidates, |picks|)
    decreases |picks|
  {
    if picks == [] {
      assert candidates[..0] == [];
    } else {
      var rest := picks[1..];
      DecreasingPositionsRoom(candidates, picks);
      DistinctPositionsCostAtLeastCheapest(candidates, rest);
      ItemsAtPrepend(candidates, picks[0], rest);
      assert [picks[0]] + rest == picks;
      SumFirstStep(candidates, |picks|);
      assert candidates[picks[0]].priceInCents >= candidates[|picks| - 1].priceInCents;
      TotalPriceConcat([candidates[picks[0]]], ItemsAt(candidates, rest));
      assert [candidates[picks[0]]][1..] == [];
    }
  }

  /** On a sorted list of positive prices, selecting from the searched cutoff yields exactly
      `numToSelect` items precisely when the `numToSelect` cheapest items fit the amount: the
      lookahead keeps the walk from spending what the remaining slots need. */
  lemma QuotaFilledWhenAffordable(items: seq<Item>, amount: int, numToSelect: int)
    requires SortedByPrice(items) && PositivePrices(items)
    requires 2 <= |items| && 1 <= numToSelect <= |items|
    ensures |Selection(items, Cutoff(items, amount), amount, numToSelect)| == numToSelect
            <==> SumFirst(items, numToSelect) <= amount
  {
    var cutoff := Cutoff(items, amount);
    var selected := Selection(items, cutoff, amount, numToSelect);
    if SumFirst(items, numToSelect) <= amount {
      SumFirstStep(items, numToSelect);
      if numToSelect > 1 {
        SumFirstAtLeastFirst(items, numToSelect - 1);
      }
      CutoffIsUniqueBoundary(items, amount, 0);
      if items[0].priceInCents < amount {
        CountBelowSorted(items, amount, numToSelect - 1);
      } else {
        assert numToSelect == 1;
      }
      WalkFillsQuota(items, cutoff, amount, 0, numToSelect);
    }
    if |selected| == numToSelect {
      var picks := WalkPositions(items, cutoff, amount, 0, numToSelect);
      if amount <= 0 {
        SelectionEmptyCases(items, cutoff, amount, numToSelect);
      }
      WalkItemsAtPositions(items, cutoff, amount, 0, numToSelect);
      SelectionWithinBudget(items, cutoff, amount, numToSelect);
      DistinctPositionsCostAtLeastCheapest(items, picks);
    }
  }

  /** One turn of the greedy loop keeps the items still to come equal to the rest of the walk. */
  lemma WalkItemsStep(selection: seq<Item>, selected: seq<Item>, candidates: seq<Item>, cursor: int, amountRemaining: int, numSelected: int, numToSelect: int)
    requires amountRemaining > 0 && numSelected < numToSelect && 0 <= cursor < |candidates|
    requires selection == selected + WalkItems(candidates, cursor, amountRemaining, numSelected, numToSelect)
    ensures var price := candidates[cursor].priceInCents;
            if IsOkToSelect(numSelected, numToSelect, candidates, amountRemaining, cursor, price)
            then selection == (selected + [candidates[cursor]]) + WalkItems(candidates, cursor - 1, amountRemaining - price, numSelected + 1, numToSelect)
            else selection == selected + WalkItems(candidates, cursor - 1, amountRemaining, numSelected, numToSelect)
  {
  }

  /** `selectItemsForAmount`: walks a cursor down from `maxAffordableItemIndex` while budget,
      slots and positions remain, appending each admitted item. The result is the selection
      above, holds at most `numToSelect` items and, with non-negative prices, fits the amount. */
  method SelectItemsForAmount(candidates: seq<Item>, maxAffordableItemIndex: int, amount: int, numToSelect: int)
    returns (selectedItems: seq<Item>)
    requires |candidates| < 2 || numToSelect >= 0
    requires |candidates| < 2 || CursorReadable(candidates, maxAffordableItemIndex, amount, 0, numToSelect)
    ensures selectedItems == Selection(candidates, maxAffordableItemIndex, amount, numToSelect)
    ensures numToSelect >= 0 ==> |selectedItems| <= numToSelect
    ensures NonNegativePrices(candidates) ==> selectedItems == [] || TotalPrice(selectedItems) <= amount
  {
    if |candidates| < 2 {
      return [];
    }
    var numSelected := 0;
    var currentCandidateIndex := maxAffordableItemIndex;
    var amountRemaining := amount;
    selectedItems := [];
    ghost var selection := Selection(candidates, maxAffordableItemIndex, amount, numToSelect);
    assert selection == selectedItems + selection;
    while amountRemaining > 0 && numSelected < numToSelect && currentCandidateIndex >= 0
      invariant CursorReadable(candidates, currentCandidateIndex, amountRemaining, numSelected, numToSelect)
      invariant 0 <= numSelected <= numToSelect && numSelected == |selectedItems|
      invariant selection == selectedItems + WalkItems(candidates, currentCandidateIndex, amountRemaining, numSelected, numToSelect)
      decreases currentCandidateIndex + 1
    {
      var currentCandidate := candidates[currentCandidateIndex];
      var currentCandidatePrice := currentCandidate.priceInCents;
      WalkItemsStep(selection, selectedItems, candidates, currentCandidateIndex, amountRemaining, numSelected, numToSelect);
      if IsOkToSelect(numSelected, numToSelect, candidates, amountRemaining, currentCandidateIndex, currentCandidatePrice) {
        selectedItems := selectedItems + [currentCandidate];
        amountRemaining := amountRemaining - currentCandidatePrice;
        numSelected := numSelected + 1;
      }
      currentCandidateIndex := currentCandidateIndex - 1;
    }
    assert WalkItems(candidates, currentCandidateIndex, amountRemaining, numSelected, numToSelect) == [];
    if amount <= 0 {
      SelectionEmptyCases(candidates, maxAffordableItemIndex, amount, numToSelect);
    } else if NonNegativePrices(candidates) {
      SelectionWithinBudget(candidates, maxAffordableItemIndex, amount, numToSelect);
    }
  }
}
