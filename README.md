# Gift-card item selector, in Dafny

The gift-card program chooses a given number of gifts from a price-sorted catalogue, aiming
for a total as close as possible to the amount on the card without exceeding it. It gets
there with a greedy walk that can miss the closest total (`GreedyMissesCloserTotal`), and it
never considers an item priced exactly at the amount unless that item is the cheapest one
(`ItemAtTheAmountLiesPastTheCutoff`, `CheapestItemAtTheAmountIsAdmitted`).
Its engine, `ItemSelector`, works in two steps:

- `searchCutoffIndex` is a binary search. It finds the highest position whose price is
  strictly below the amount, taking early exits for short lists and for amounts outside the
  price range.
- `selectItemsForAmount` is a greedy walk. It moves a cursor down from that position and
  admits an item only while the rest of the budget can still pay for the cheapest items
  needed to fill the remaining slots. That admission test is `isOkToSelect`.

The catalogue entries are immutable `Item(name, priceInCents)` values with structural
`equals`, `hashCode` and `toString`.

The project has three modules:

- `Items` (`item.dfy`): the `Item` datatype with its getters, `Equals`, `HashCode` (in
  wrapping 32-bit arithmetic) and `ToString` (with the decimal text of the price).
- `ItemSelector` (`item_selector.dfy`):
  - the two loops as imperative methods, `SearchCutoffIndex` and `SelectItemsForAmount`,
    each proved against a reference function: `Cutoff`, defined by counting, and
    `Selection`, defined by recursion over the walk;
  - `IsOkToSelect` as a function;
  - lemmas for the properties the code's documentation promises.
- `ItemSelectorScenarios` (`scenarios.dfy`): the repository's JUnit vectors, stated as lemmas.
  The tests chain the search into the selection. Their lists are sorted, and on a sorted
  list `SearchCutoffIndex` returns `Cutoff`. So each vector is stated on
  `Selection(items, Cutoff(items, amount), ...)`.

Sortedness and non-negative prices are never required by the operations, just as the Java
code never checks them. They appear only as hypotheses of the lemmas and of the
conditional `ensures` clauses that need them.

Three points of the code's behaviour are easy to misread:

- There is no early exit that returns an empty result when the list is shorter than the
  number to select. `FewerCandidatesThanWanted` shows two items returned when three are wanted.
- The lookahead sum of the cheapest items is recomputed from the front of the list on every
  admission test. No table of prefix sums is kept.
- The JUnit case at `src/test/java/com/paxos/coding/giftcard/ItemSelectorTest.java:68-79`
  expects an empty result for `[500, 700]`, amount 900, two wanted. The code admits the
  500 item on the same path as the 1100 catalogue case at lines 122-127, which expects
  exactly that item. `TwoItemsWithInsufficientAmount` states what the code returns.

## Model

| member | source | states |
|---|---|---|
| Items.GettersReturnConstructorArguments | src/main/java/com/paxos/coding/giftcard/Item.java:11-25 | the getters return exactly the name and price the item was built with; fields are never reassigned since an item is a value |
| Items.Item.GetName | src/main/java/com/paxos/coding/giftcard/Item.java:19-21 | returns the item's name (no contract of its own; its fact is `GettersReturnConstructorArguments`) |
| Items.Item.GetPriceInCents | src/main/java/com/paxos/coding/giftcard/Item.java:23-25 | returns the item's price (no contract of its own; its fact is `GettersReturnConstructorArguments`) |
| Items.Item.Equals | src/main/java/com/paxos/coding/giftcard/Item.java:27-34 | an item equals the other object exactly when that object is an Item with the same name and price, i.e. the same value |
| Items.EqualsIsFieldwise | src/main/java/com/paxos/coding/giftcard/Item.java:32-33 | against another item, equality holds iff prices are equal and names are equal |
| Items.EqualsIsAnEquivalence | src/main/java/com/paxos/coding/giftcard/Item.java:28-34 | equals is reflexive, symmetric and transitive on items |
| Items.EqualsRejectsNullAndOtherClasses | src/main/java/com/paxos/coding/giftcard/Item.java:30 | equals is false against null and against an object of another class |
| Items.Item.HashCode | src/main/java/com/paxos/coding/giftcard/Item.java:36-39 | the hash of (name, price) as `Objects.hash` combines them, always a Java `int` |
| Items.StringHashCode | src/main/java/com/paxos/coding/giftcard/Item.java:38 | the `String.hashCode` of the name that `Objects.hash` folds in: h := 31 * h + c over the characters, always a Java `int` |
| Items.WrapToInt | src/main/java/com/paxos/coding/giftcard/Item.java:38 | truncation to a Java `int`: in range, congruent to the input modulo 2^32, the identity on values already in range |
| Items.EqualItemsHaveEqualHashCodes | src/main/java/com/paxos/coding/giftcard/Item.java:27-39 | whenever equals holds, the other object is an item with the same hash code |
| Items.NatToDecimal | src/main/java/com/paxos/coding/giftcard/Item.java:43 | the decimal digits of a non-negative value: at least one digit, all digits, no leading zero unless the value is 0 |
| Items.IntToDecimal | src/main/java/com/paxos/coding/giftcard/Item.java:43 | a minus sign before the digits of a negative value (no contract of its own; its fact is `IntToDecimalRoundTrip`) |
| Items.NatToDecimalRoundTrip | src/main/java/com/paxos/coding/giftcard/Item.java:43 | the decimal digits written for a non-negative price read back as that price |
| Items.IntToDecimalRoundTrip | src/main/java/com/paxos/coding/giftcard/Item.java:43 | the decimal text of any price, sign included, parses back to that price |
| Items.Item.ToString | src/main/java/com/paxos/coding/giftcard/Item.java:41-44 | the text starts with the name followed by ", " |
| Items.ToStringLayout | src/main/java/com/paxos/coding/giftcard/Item.java:41-44 | the text is the name, then ", ", then text that parses back to the price: a '-' exactly for a negative price, then at least one digit, with no leading zero unless the price is 0 |
| ItemSelector.Cutoff | src/main/java/com/paxos/coding/giftcard/ItemSelector.java:48-55 | the intended cutoff lies in [-1, size-1] and is -1 exactly for lists of fewer than two items |
| ItemSelector.CountBelowSorted | src/main/java/com/paxos/coding/giftcard/ItemSelector.java:49 | on a sorted list, a position is below the amount iff it is among the first CountBelow positions |
| ItemSelector.CutoffMonotone | src/main/java/com/paxos/coding/giftcard/ItemSelector.java:49-51 | a larger amount never gives a lower cutoff |
| ItemSelector.CutoffIsUniqueBoundary | src/main/java/com/paxos/coding/giftcard/ItemSelector.java:49-51 | on a sorted list of two or more items: the cutoff is 0 when the cheapest item is not below the amount; otherwise a position is the cutoff iff its price is below the amount and the next one (if any) is not |
| ItemSelector.CutoffIsHighestBelow | src/main/java/com/paxos/coding/giftcard/ItemSelector.java:48-51 | on a sorted list whose cheapest item is below the amount, the item at the cutoff is below the amount and every later one is not |
| ItemSelector.SearchCutoffIndex | src/main/java/com/paxos/coding/giftcard/ItemSelector.java:57-93 | terminates with a result in [-1, size-1] for any list; -1 iff fewer than two items; 0 when the first price is at least the amount; the last index when the last price is below it; otherwise, even unsorted, a position below the amount whose right neighbour is not, so never -1; on a sorted list equal to `Cutoff` |
| ItemSelector.SumFirst | src/main/java/com/paxos/coding/giftcard/ItemSelector.java:110 | the sum of the first k prices (all when fewer) lies between 0 and the total price when prices are non-negative |
| ItemSelector.PrefixTotalWithinTotal | src/main/java/com/paxos/coding/giftcard/ItemSelector.java:110 | with non-negative prices a prefix of the list costs between 0 and the whole list |
| ItemSelector.SumFirstStep | src/main/java/com/paxos/coding/giftcard/ItemSelector.java:110 | taking one more item into the limited stream adds exactly that item's price |
| ItemSelector.Reserve | src/main/java/com/paxos/coding/giftcard/ItemSelector.java:108-116 | the amount that must be left after paying for the candidate is non-negative for non-negative prices, and non-zero only with a further slot to fill and a cursor above 0 |
| ItemSelector.IsOkToSelect | src/main/java/com/paxos/coding/giftcard/ItemSelector.java:105-117 | the candidate is admitted iff what remains after its price covers the reserve; with non-negative prices an admitted candidate never costs more than what remains |
| ItemSelector.WalkItems | src/main/java/com/paxos/coding/giftcard/ItemSelector.java:34-43 | the recursive definition of the loop from any state (no contract of its own; `SelectItemsForAmount` is proved equal to it through `Selection`) |
| ItemSelector.WalkPositions | src/main/java/com/paxos/coding/giftcard/ItemSelector.java:30-42 | the positions the walk admits are at most the open slots, all within the list and at or below the starting cursor, strictly decreasing |
| ItemSelector.WalkItemsAtPositions | src/main/java/com/paxos/coding/giftcard/ItemSelector.java:35-42 | the items the walk appends are exactly the candidates at the admitted positions, in admission order |
| ItemSelector.WalkWithinBudget | src/main/java/com/paxos/coding/giftcard/ItemSelector.java:34-43 | with non-negative prices, whatever the walk admits from any state costs at most the amount it had left |
| ItemSelector.Selection | src/main/java/com/paxos/coding/giftcard/ItemSelector.java:27-45 | the result of `selectItemsForAmount`: empty below two candidates, otherwise the walk from `maxAffordableItemIndex` with the full amount and nothing selected (no contract of its own; the lemmas below state its properties) |
| ItemSelector.SelectionEmptyCases | src/main/java/com/paxos/coding/giftcard/ItemSelector.java:27-34 | the result is empty for fewer than two candidates, an amount not above 0, nothing to select, or a cutoff of -1 |
| ItemSelector.SelectionShape | src/main/java/com/paxos/coding/giftcard/ItemSelector.java:23-42 | at most `numToSelect` items, the i-th being the candidate at a position at or below `maxAffordableItemIndex`, positions strictly decreasing, so none picked twice |
| ItemSelector.SelectionWithinBudget | src/main/java/com/paxos/coding/giftcard/ItemSelector.java:14-15 | with non-negative prices and amount, the selected prices sum to at most the amount |
| ItemSelector.SelectionNonIncreasing | src/main/java/com/paxos/coding/giftcard/ItemSelector.java:18-42 | on a sorted list the selected items run from the most to the least expensive |
| ItemSelector.SearchThenSelectSkipsUnaffordable | src/main/java/com/paxos/coding/giftcard/ItemSelector.java:19-20 | selecting from the searched cutoff of a sorted list never picks an item priced at or above the amount (when the cheapest one is below it) |
| ItemSelector.WalkFillsQuota | src/main/java/com/paxos/coding/giftcard/ItemSelector.java:105-116 | with positive prices, from a state whose cursor leaves a position for each open slot and whose budget covers the cheapest items for all of them, the walk fills every open slot |
| ItemSelector.DistinctPositionsCostAtLeastCheapest | src/main/java/com/paxos/coding/giftcard/ItemSelector.java:13-16 | on a sorted list with non-negative prices, items at m strictly decreasing positions cost at least the m cheapest items |
| ItemSelector.QuotaFilledWhenAffordable | src/main/java/com/paxos/coding/giftcard/ItemSelector.java:13-16 | on a sorted list of positive prices, selecting from the searched cutoff yields exactly `numToSelect` items iff the `numToSelect` cheapest items fit the amount |
| ItemSelector.WalkItemsStep | src/main/java/com/paxos/coding/giftcard/ItemSelector.java:35-42 | one turn of the loop, admitting or passing over the candidate, keeps what is selected plus what the walk still admits equal to the whole selection |
| ItemSelector.SelectItemsForAmount | src/main/java/com/paxos/coding/giftcard/ItemSelector.java:25-46 | the loop returns exactly `Selection`; at most `numToSelect` items; with non-negative prices the total is within the amount |
| ItemSelectorScenarios.SingleItemListHasNoCutoff | src/test/java/com/paxos/coding/giftcard/ItemSelectorTest.java:43-51 | a one-item list has cutoff -1 |
| ItemSelectorScenarios.TwoItemsWithSufficientAmount | src/test/java/com/paxos/coding/giftcard/ItemSelectorTest.java:54-65 | [500, 700] for 1200, two wanted, gives both |
| ItemSelectorScenarios.TwoItemsWithInsufficientAmount | src/main/java/com/paxos/coding/giftcard/ItemSelector.java:34-43 | [500, 700] for 900, two wanted, gives the 500 item (the test at ItemSelectorTest.java:68-79 expects nothing) |
| ItemSelectorScenarios.FewerCandidatesThanWanted | src/main/java/com/paxos/coding/giftcard/ItemSelector.java:27-34 | two candidates and three wanted: no early exit, both are returned |
| ItemSelectorScenarios.FourItemsAtTheSamePrice | src/test/java/com/paxos/coding/giftcard/ItemSelectorTest.java:82-96 | four items at 500 for 1000 give the last two, Hammer then Hardback Book |
| ItemSelectorScenarios.CatalogCutoffs | src/test/java/com/paxos/coding/giftcard/ItemSelectorTest.java:99-160 | on the six-item catalogue the cutoffs for 1100, 2300, 2500, 5100 and 10000 are 2, 4, 4, 4 and 5 |
| ItemSelectorScenarios.CatalogFacts | src/main/java/com/paxos/coding/giftcard/ItemSelector.java:110 | the lookahead sums of the first one, two and three catalogue items are 500, 1200 and 2200 |
| ItemSelectorScenarios.ChooseTwoFor2500 | src/test/java/com/paxos/coding/giftcard/ItemSelectorTest.java:101-106 | 2500, two wanted: Earmuffs, Candy Bar |
| ItemSelectorScenarios.ChooseTwoFor2300 | src/test/java/com/paxos/coding/giftcard/ItemSelectorTest.java:108-113 | 2300, two wanted: Headphones, Paperback Book |
| ItemSelectorScenarios.ChooseTwoFor10000 | src/test/java/com/paxos/coding/giftcard/ItemSelectorTest.java:115-120 | 10000, two wanted: Bluetooth Stereo, Earmuffs |
| ItemSelectorScenarios.ChooseTwoFor1100 | src/test/java/com/paxos/coding/giftcard/ItemSelectorTest.java:122-127 | 1100, two wanted: only Candy Bar |
| ItemSelectorScenarios.ChooseThreeFor2500 | src/test/java/com/paxos/coding/giftcard/ItemSelectorTest.java:133-138 | 2500, three wanted: Detergent, Paperback Book, Candy Bar |
| ItemSelectorScenarios.ChooseThreeFor2300 | src/test/java/com/paxos/coding/giftcard/ItemSelectorTest.java:140-145 | 2300, three wanted: Detergent, Paperback Book, Candy Bar |
| ItemSelectorScenarios.ChooseThreeFor10000 | src/test/java/com/paxos/coding/giftcard/ItemSelectorTest.java:147-152 | 10000, three wanted: Bluetooth Stereo, Earmuffs, Headphones |
| ItemSelectorScenarios.ChooseFourFor5100 | src/test/java/com/paxos/coding/giftcard/ItemSelectorTest.java:158-163 | 5100, four wanted: Earmuffs, Headphones, Detergent, Paperback Book |
| ItemSelectorScenarios.ZeroPriceLeavesQuotaUnfilled | src/main/java/com/paxos/coding/giftcard/ItemSelector.java:62-92 | for [0, 3, 3], amount 3, two wanted, the two cheapest fit the amount yet only the free item is returned |
| ItemSelectorScenarios.GreedyMissesCloserTotal | src/main/java/com/paxos/coding/giftcard/ItemSelector.java:34-43 | for [100, 500, 600, 900], amount 1200, two wanted, the walk returns [900, 100] totalling 1000 although 500 + 600 = 1100 also fits |
| ItemSelectorScenarios.ItemAtTheAmountLiesPastTheCutoff | src/main/java/com/paxos/coding/giftcard/ItemSelector.java:57-93 | for [500, 1000], amount 1000, one wanted, the cutoff stops below the item priced at the amount and the result is the 500 item |
| ItemSelectorScenarios.CheapestItemAtTheAmountIsAdmitted | src/main/java/com/paxos/coding/giftcard/ItemSelector.java:62 | for [1000, 2000], amount 1000, one wanted, the search returns 0 early and the last-slot test at line 115 admits the item priced exactly at the amount |
| ItemSelectorScenarios.SpentBudgetLeavesQuotaUnfilled | src/main/java/com/paxos/coding/giftcard/ItemSelector.java:34 | for [0, 1, 3], amount 4, three wanted, the cutoff is 2 and the walk returns [3, 1], stopping on a spent budget although all three fit |

## Left out

- `Main.java` is not part of this model. It parses command-line arguments, checks that a
  file exists, calls `System.exit` and prints to the console.
- `ItemFileReader.java` is not part of this model. It reads lines from a file and calls
  `split` and `Integer.parseInt`, so it is I/O over library calls.
- Null lists and null names cannot arise, since a `seq` and a `string` are never null. The
  null checks at `ItemSelector.java:27` and `:59` become the length tests alone.
- SelectItemsForAmount: the Java code throws from `new ArrayList<>(numToSelect)` when
  `numToSelect` is negative. The model requires `numToSelect >= 0` for lists of two or more
  items instead of modelling the exception.
- SelectItemsForAmount: the Java code throws from `candidates.get` when
  `maxAffordableItemIndex` is past the end and the loop is entered. The model requires that
  the first read is in range instead of modelling the exception.
- IsOkToSelect: 32-bit wrap-around is not modelled here, and neither is it in
  `SelectItemsForAmount` or `SumFirst`. The subtractions `amountRemaining - currentCandidatePrice`
  (`ItemSelector.java:111`) and `amountRemaining -= currentCandidatePrice` (`ItemSelector.java:39`)
  and the stream sum (`ItemSelector.java:110`) use mathematical integers. They agree with Java
  only while the prices, the amount, every prefix sum of up to `numToSelect` prices and the
  results of both subtractions stay within `int` range; non-negative prices keep the
  subtractions in range. For example, with prices [1500000000, 1500000000, 2000000000], amount
  2100000000 and three wanted, the Java sum of the first two prices wraps to a negative value
  and admits the 2000000000 item; the model rejects it. With the negative prices
  [-1000000000, -500000000, -500000000, 0], amount 2000000000 and three wanted, the Java
  subtraction wraps at the third candidate and rejects it; the model admits it.
- SearchCutoffIndex: the midpoint `(start + end) / 2` is computed without overflow. In Java it
  overflows once `start + end` exceeds the `int` range, which takes a list of more than 2^30 items.
- Items.StringHashCode: this is `String.hashCode` over Dafny characters. Characters outside
  the Basic Multilingual Plane count as one unit here, not as two UTF-16 code units.
- Items.Item.Equals: the reference-identity shortcut `this == o` is not modelled separately.
  It agrees with structural equality on a value type.
- Subclasses of `Item` are folded into "an object of another class", because `getClass()`
  differs for them.
- The JUnit and Hamcrest machinery is not modelled; the test vectors are lemmas. `hasItems`
  ignores order, and the lemmas state the exact order the code produces.

## Findings

| source | as written | input that shows it | evidently intended | confidence | as-written member | corrected member |
|---|---|---|---|---|---|---|
| src/main/java/com/paxos/coding/giftcard/ItemSelector.java:62-92 | the cutoff excludes every item priced at or above the amount unless it is the cheapest one, so with a free item the walk can stop short of `numToSelect` although the cheapest items fit | prices [0, 3, 3], amount 3, two wanted: the result is [0] while 0 + 3 fits | `numToSelect` items whenever the `numToSelect` cheapest fit the amount, which the code achieves when every price is positive | medium, not executed | ItemSelectorScenarios.ZeroPriceLeavesQuotaUnfilled | ItemSelector.QuotaFilledWhenAffordable |
| src/main/java/com/paxos/coding/giftcard/ItemSelector.java:34 | the loop stops as soon as `amountRemaining` reaches 0, so free items still below the cursor are never taken and the walk can stop short of `numToSelect` | prices [0, 1, 3], amount 4, three wanted: the result is [3, 1] while 0 + 1 + 3 fits | `numToSelect` items whenever the `numToSelect` cheapest fit the amount, which the code achieves when every price is positive | medium, not executed | ItemSelectorScenarios.SpentBudgetLeavesQuotaUnfilled | ItemSelector.QuotaFilledWhenAffordable |
