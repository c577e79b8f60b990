/** The repository's JUnit vectors, stated on the selection and cutoff definitions: the search
    result feeds the selection, as the tests chain `searchCutoffIndex` into `selectItemsForAmount`. */
module ItemSelectorScenarios {
  import opened Items
  import opened ItemSelector

  const CandyBar := Item("Candy Bar", 500)
  const PaperbackBook := Item("Paperback Book", 700)
  const Detergent := Item("Detergent", 1_000)
  const Headphones := Item("Headphones", 1_400)
  const Earmuffs := Item("Earmuffs", 2_000)
  const BluetoothStereo := Item("Bluetooth Stereo", 6_000)

  /** The six-item catalogue of the coding challenge, sorted by price. */
  function Catalog(): seq<Item> {
    [CandyBar, PaperbackBook, Detergent, Headphones, Earmuffs, BluetoothStereo]
  }

  /** What the tests compute: the cutoff for `amount`, then the selection from it. */
  function SearchThenSelect(items: seq<Item>, amount: int, numToSelect: int): seq<Item> {
    Selection(items, Cutoff(items, amount), amount, numToSelect)
  }

  /** The price of a one-item list, as the lookahead sums it. */
  lemma TotalOfOne(a: Item)
    ensures TotalPrice([a]) == a.priceInCents
  {
    assert [a][1..] == [];
  }

  /** Prices of the first one, two and three items of a list, as the lookahead sums them. */
  lemma PrefixTotals(a: Item, b: Item, c: Item)
    ensures TotalPrice([a]) == a.priceInCents
    ensures TotalPrice([a, b]) == a.priceInCents + b.priceInCents
    ensures TotalPrice([a, b, c]) == a.priceInCents + b.priceInCents + c.priceInCents
  {
    TotalOfOne(a);
    TotalOfOne(b);
    TotalOfOne(c);
    assert [b, c][1..] == [c];
    assert [a, b][1..] == [b];
    assert [a, b, c][1..] == [b, c];
  }

  // One step of the walk each: the candidate is admitted, passed over, or the loop stops.

  lemma Admit(c: seq<Item>, cursor: int, amountRemaining: int, numSelected: int, numToSelect: int, rest: seq<Item>)
    requires amountRemaining > 0 && numSelected < numToSelect && 0 <= cursor < |c|
    requires IsOkToSelect(numSelected, numToSelect, c, amountRemaining, cursor, c[cursor].priceInCents)
    requires WalkItems(c, cursor - 1, amountRemaining - c[cursor].priceInCents, numSelected + 1, numToSelect) == rest
    ensures WalkItems(c, cursor, amountRemaining, numSelected, numToSelect) == [c[cursor]] + rest
  {
  }

  lemma Pass(c: seq<Item>, cursor: int, amountRemaining: int, numSelected: int, numToSelect: int, rest: seq<Item>)
    requires amountRemaining > 0 && numSelected < numToSelect && 0 <= cursor < |c|
    requires !IsOkToSelect(numSelected, numToSelect, c, amountRemaining, cursor, c[cursor].priceInCents)
    requires WalkItems(c, cursor - 1, amountRemaining, numSelected, numToSelect) == rest
    ensures WalkItems(c, cursor, amountRemaining, numSelected, numToSelect) == rest
  {
  }

  lemma Stop(c: seq<Item>, cursor: int, amountRemaining: int, numSelected: int, numToSelect: int)
    requires amountRemaining <= 0 || numSelected >= numToSelect || cursor < 0
    ensures WalkItems(c, cursor, amountRemaining, numSelected, numToSelect) == []
  {
  }

  lemma SingleItemListHasNoCutoff()
    ensures Cutoff([CandyBar], 1_000) == -1
  {
  }

  lemma TwoItemsWithSufficientAmount()
    ensures SearchThenSelect([CandyBar, PaperbackBook], 1_200, 2) == [PaperbackBook, CandyBar]
  {
    var c := [CandyBar, PaperbackBook];
    assert c[..1] == [CandyBar];
    TotalOfOne(CandyBar);
    CutoffIsUniqueBoundary(c, 1_200, 1);
    Stop(c, -1, 0, 2, 2);
    Admit(c, 0, 500, 1, 2, []);
    Admit(c, 1, 1_200, 0, 2, [CandyBar]);
  }

  /** The repository's test for this input expects an empty result; the code as written admits
      the cheaper item, by the same path as the 1100 case on the catalogue. */
  lemma TwoItemsWithInsufficientAmount()
    ensures SearchThenSelect([CandyBar, PaperbackBook], 900, 2) == [CandyBar]
  {
    var c := [CandyBar, PaperbackBook];
    assert c[..1] == [CandyBar];
    TotalOfOne(CandyBar);
    CutoffIsUniqueBoundary(c, 900, 1);
    Stop(c, -1, 400, 1, 2);
    Admit(c, 0, 900, 0, 2, []);
    Pass(c, 1, 900, 0, 2, [CandyBar]);
  }

  /** There is no early exit for a list shorter than the number to select: two items, three
      wanted, and both are returned. */
  lemma FewerCandidatesThanWanted()
    ensures SearchThenSelect([CandyBar, PaperbackBook], 10_000, 3) == [PaperbackBook, CandyBar]
  {
    var c := [CandyBar, PaperbackBook];
    assert c[..2] == c && c[1..] == [PaperbackBook];
    TotalOfOne(CandyBar);
    TotalOfOne(PaperbackBook);
    CutoffIsUniqueBoundary(c, 10_000, 1);
    Stop(c, -1, 8_800, 2, 3);
    Admit(c, 0, 9_300, 1, 3, []);
    Admit(c, 1, 10_000, 0, 3, [CandyBar]);
  }

  lemma FourItemsAtTheSamePrice()
    ensures SearchThenSelect([CandyBar, Item("Paperback Book", 500), Item("Hardback Book", 500), Item("Hammer", 500)], 1_000, 2)
            == [Item("Hammer", 500), Item("Hardback Book", 500)]
  {
    var c := [CandyBar, Item("Paperback Book", 500), Item("Hardback Book", 500), Item("Hammer", 500)];
    assert c[..1] == [CandyBar];
    TotalOfOne(CandyBar);
    CutoffIsUniqueBoundary(c, 1_000, 3);
    Stop(c, 1, 0, 2, 2);
    Admit(c, 2, 500, 1, 2, []);
    Admit(c, 3, 1_000, 0, 2, [c[2]]);
  }

  /** The cutoffs the catalogue cases search for. */
  lemma CatalogCutoffs()
    ensures Cutoff(Catalog(), 1_100) == 2
    ensures Cutoff(Catalog(), 2_300) == 4 && Cutoff(Catalog(), 2_500) == 4 && Cutoff(Catalog(), 5_100) == 4
    ensures Cutoff(Catalog(), 10_000) == 5
  {
    var c := Catalog();
    assert SortedByPrice(c);
    CutoffIsUniqueBoundary(c, 1_100, 2);
    CutoffIsUniqueBoundary(c, 2_300, 4);
    CutoffIsUniqueBoundary(c, 2_500, 4);
    CutoffIsUniqueBoundary(c, 5_100, 4);
    CutoffIsUniqueBoundary(c, 10_000, 5);
  }

  lemma CatalogFacts()
    ensures SumFirst(Catalog(), 1) == 500 && SumFirst(Catalog(), 2) == 1_200 && SumFirst(Catalog(), 3) == 2_200
  {
    var c := Catalog();
    assert c[..1] == [CandyBar];
    assert c[..2] == [CandyBar, PaperbackBook];
    assert c[..3] == [CandyBar, PaperbackBook, Detergent];
    PrefixTotals(CandyBar, PaperbackBook, Detergent);
  }

  lemma ChooseTwoFor2500()
    ensures SearchThenSelect(Catalog(), 2_500, 2) == [Earmuffs, CandyBar]
  {
    var c := Catalog();
    CatalogFacts();
    CatalogCutoffs();
    Stop(c, -1, 0, 2, 2);
    Admit(c, 0, 500, 1, 2, []);
    Pass(c, 1, 500, 1, 2, [CandyBar]);
    Pass(c, 2, 500, 1, 2, [CandyBar]);
    Pass(c, 3, 500, 1, 2, [CandyBar]);
    Admit(c, 4, 2_500, 0, 2, [CandyBar]);
  }

  lemma ChooseTwoFor2300()
    ensures SearchThenSelect(Catalog(), 2_300, 2) == [Headphones, PaperbackBook]
  {
    var c := Catalog();
    CatalogFacts();
    CatalogCutoffs();
    Stop(c, 0, 200, 2, 2);
    Admit(c, 1, 900, 1, 2, []);
    Pass(c, 2, 900, 1, 2, [PaperbackBook]);
    Admit(c, 3, 2_300, 0, 2, [PaperbackBook]);
    Pass(c, 4, 2_300, 0, 2, [Headphones, PaperbackBook]);
  }

  lemma ChooseTwoFor10000()
    ensures SearchThenSelect(Catalog(), 10_000, 2) == [BluetoothStereo, Earmuffs]
  {
    var c := Catalog();
    CatalogFacts();
    CatalogCutoffs();
    Stop(c, 3, 2_000, 2, 2);
    Admit(c, 4, 4_000, 1, 2, []);
    Admit(c, 5, 10_000, 0, 2, [Earmuffs]);
  }

  /** Only one item fits: the target count is out of reach and the result is shorter. */
  lemma ChooseTwoFor1100()
    ensures SearchThenSelect(Catalog(), 1_100, 2) == [CandyBar]
  {
    var c := Catalog();
    CatalogFacts();
    CatalogCutoffs();
    Stop(c, -1, 600, 1, 2);
    Admit(c, 0, 1_100, 0, 2, []);
    Pass(c, 1, 1_100, 0, 2, [CandyBar]);
    Pass(c, 2, 1_100, 0, 2, [CandyBar]);
  }

  lemma ChooseThreeFor2500()
    ensures SearchThenSelect(Catalog(), 2_500, 3) == [Detergent, PaperbackBook, CandyBar]
  {
    var c := Catalog();
    CatalogFacts();
    CatalogCutoffs();
    Stop(c, -1, 300, 3, 3);
    Admit(c, 0, 800, 2, 3, []);
    Admit(c, 1, 1_500, 1, 3, [CandyBar]);
    Admit(c, 2, 2_500, 0, 3, [PaperbackBook, CandyBar]);
    Pass(c, 3, 2_500, 0, 3, [Detergent, PaperbackBook, CandyBar]);
    Pass(c, 4, 2_500, 0, 3, [Detergent, PaperbackBook, CandyBar]);
  }

  lemma ChooseThreeFor2300()
    ensures SearchThenSelect(Catalog(), 2_300, 3) == [Detergent, PaperbackBook, CandyBar]
  {
    var c := Catalog();
    CatalogFacts();
    CatalogCutoffs();
    Stop(c, -1, 100, 3, 3);
    Admit(c, 0, 600, 2, 3, []);
    Admit(c, 1, 1_300, 1, 3, [CandyBar]);
    Admit(c, 2, 2_300, 0, 3, [PaperbackBook, CandyBar]);
    Pass(c, 3, 2_300, 0, 3, [Detergent, PaperbackBook, CandyBar]);
    Pass(c, 4, 2_300, 0, 3, [Detergent, PaperbackBook, CandyBar]);
  }

  lemma ChooseThreeFor10000()
    ensures SearchThenSelect(Catalog(), 10_000, 3) == [BluetoothStereo, Earmuffs, Headphones]
  {
    var c := Catalog();
    CatalogFacts();
    CatalogCutoffs();
    Stop(c, 2, 600, 3, 3);
    Admit(c, 3, 2_000, 2, 3, []);
    Admit(c, 4, 4_000, 1, 3, [Headphones]);
    Admit(c, 5, 10_000, 0, 3, [Earmuffs, Headphones]);
  }

  lemma ChooseFourFor5100()
    ensures SearchThenSelect(Catalog(), 5_100, 4) == [Earmuffs, Headphones, Detergent, PaperbackBook]
  {
    var c := Catalog();
    CatalogFacts();
    CatalogCutoffs();
    Stop(c, 0, 0, 4, 4);
    Admit(c, 1, 700, 3, 4, []);
    Admit(c, 2, 1_700, 2, 4, [PaperbackBook]);
    Admit(c, 3, 3_100, 1, 4, [Detergent, PaperbackBook]);
    Admit(c, 4, 5_100, 0, 4, [Headphones, Detergent, PaperbackBook]);
  }

  /** A free item breaks the quota: the two cheapest of [0, 3, 3] fit the amount 3, yet the
      cutoff excludes both items priced at the amount and only the free item is returned. */
  lemma ZeroPriceLeavesQuotaUnfilled()
    ensures var items := [Item("A", 0), Item("B", 3), Item("C", 3)];
            SortedByPrice(items) && NonNegativePrices(items)
            && SumFirst(items, 2) <= 3 && SearchThenSelect(items, 3, 2) == [Item("A", 0)]
  {
    var c := [Item("A", 0), Item("B", 3), Item("C", 3)];
    assert c[..2] == [Item("A", 0), Item("B", 3)];
    PrefixTotals(Item("A", 0), Item("B", 3), Item("C", 3));
    assert SortedByPrice(c);
    CutoffIsUniqueBoundary(c, 3, 0);
    Stop(c, -1, 3, 1, 2);
    Admit(c, 0, 3, 0, 2, []);
  }

  /** The walk is greedy, not optimal: it takes the 900 item first and can then afford only the
      100 one, a total of 1000, although 500 + 600 = 1100 also fits the amount 1200. */
  lemma GreedyMissesCloserTotal()
    ensures var items := [Item("W", 100), Item("X", 500), Item("Y", 600), Item("Z", 900)];
            var selected := SearchThenSelect(items, 1_200, 2);
            selected == [Item("Z", 900), Item("W", 100)]
            && TotalPrice(selected) == 1_000 < items[1].priceInCents + items[2].priceInCents <= 1_200
  {
    var c := [Item("W", 100), Item("X", 500), Item("Y", 600), Item("Z", 900)];
    assert SortedByPrice(c) && c[..1] == [c[0]];
    TotalOfOne(c[0]);
    CutoffIsUniqueBoundary(c, 1_200, 3);
    Stop(c, -1, 200, 2, 2);
    Admit(c, 0, 300, 1, 2, []);
    Pass(c, 1, 300, 1, 2, [c[0]]);
    Pass(c, 2, 300, 1, 2, [c[0]]);
    Admit(c, 3, 1_200, 0, 2, [c[0]]);
    PrefixTotals(c[3], c[0], c[0]);
  }

  /** An item priced exactly at the amount lies past the cutoff when a cheaper item exists, and
      is not considered: one wanted from [500, 1000] with 1000 to spend gives the 500 item. */
  lemma ItemAtTheAmountLiesPastTheCutoff()
    ensures SearchThenSelect([CandyBar, Detergent], 1_000, 1) == [CandyBar]
  {
    var c := [CandyBar, Detergent];
    CutoffIsUniqueBoundary(c, 1_000, 0);
    Stop(c, -1, 500, 1, 1);
    Admit(c, 0, 1_000, 0, 1, []);
  }

  /** The exception: when the cheapest item is priced at the amount the search stops at 0, and
      the last-slot test admits it, so one wanted from [1000, 2000] with 1000 gives the 1000 item. */
  lemma CheapestItemAtTheAmountIsAdmitted()
    ensures Cutoff([Detergent, Earmuffs], 1_000) == 0
    ensures SearchThenSelect([Detergent, Earmuffs], 1_000, 1) == [Detergent]
  {
    var c := [Detergent, Earmuffs];
    CutoffIsUniqueBoundary(c, 1_000, 0);
    Stop(c, -1, 0, 1, 1);
    Admit(c, 0, 1_000, 0, 1, []);
  }

  /** The loop stops as soon as the budget is spent, even with a free item still to come: the
      three items of [0, 1, 3] fit the amount 4, yet the walk returns [3, 1]. */
  lemma SpentBudgetLeavesQuotaUnfilled()
    ensures var items := [Item("A", 0), Item("B", 1), Item("C", 3)];
            SortedByPrice(items) && NonNegativePrices(items)
            && Cutoff(items, 4) == 2
            && SumFirst(items, 3) <= 4 && SearchThenSelect(items, 4, 3) == [Item("C", 3), Item("B", 1)]
  {
    var c := [Item("A", 0), Item("B", 1), Item("C", 3)];
    assert c[..1] == [c[0]] && c[..2] == [c[0], c[1]] && c[..3] == c;
    PrefixTotals(c[0], c[1], c[2]);
    assert SortedByPrice(c);
    CutoffIsUniqueBoundary(c, 4, 2);
    Stop(c, 0, 0, 2, 3);
    Admit(c, 1, 1, 1, 3, []);
    Admit(c, 2, 4, 0, 3, [c[1]]);
  }
}
