# Prize wheel: weighted selection with finite stock

A Dafny model of the prize-selection core of a browser spin-wheel game
(`script.js`). The page holds a prize list (`gameData`: label, weight,
remaining quantity). When the spin button is pressed, `spinWheel` works in
these steps:

1. It keeps the prizes that still have stock, in list order.
2. It totals their weights.
3. It scales `Math.random()` by that total.
4. It subtracts the weights one by one until the remainder is no longer
   positive.
5. It maps the chosen prize back to a list position with `findIndex` on the
   label.
6. It sends the wheel there.

When the wheel comes to rest, the prize at the reported position is awarded
and its quantity decremented, but only if it still has stock. Otherwise the
"no prize" message is shown. The `isSpinning` flag keeps a second spin from
starting while one is in flight.

Modules:

- `Wrappers` holds `Option`.
- `Prizes` (prizes.dfy) covers the prize list, the in-stock filter, the weight
  and stock sums, `findIndex` and the decrement.
- `Selection` (selection.dfy) covers the draw, the subtraction walk, the
  winner and the position handed to the wheel.
- `Game` (game.dfy) covers the page state: the spin flag, the click, index
  change and rest handlers, and whole event sequences.

Modelling choices:

- The JSON field `label` is called `name`, because `label` is a Dafny keyword.
- `Math.random()` is a parameter. It is an exact fraction `num/den` in
  [0, 1), which every double in [0, 1) is.
- Weights are natural numbers. A weight of zero is allowed, because the
  script does not reject one.
- The walk runs on `⌈num·total/den⌉`. The loop only ever compares the
  exact product num·total/den with integer running sums, so rounding it up
  changes no branch. `DrawTest` proves this, and `WinnerOfIsFirstCovering`
  states the result in terms of the exact product. Floating-point rounding
  of the product itself is not modelled (see "## Left out").
- The wheel widget is not modelled. Its callbacks arrive as events:
  - `IndexChanged(moving)` for `onCurrentIndexChange`, with whether the
    wheel is still spinning;
  - `Rested(index)` for `onRest`, with the index it reports.
  The full-spin lemma `SpinThenRest` assumes that the wheel rests on the
  index `spinToItem` was given.

Boundary behaviour of the code:

- Ties at a running-sum boundary go to the EARLIER prize, because the test
  at script.js:163 is `random <= 0`. A draw of exactly 0 goes to the first
  available prize. So prize k owns the interval (P(k), P(k+1)] of the
  scaled draw. Here P(k) is the running sum of the first k weights.
- Selection (script.js:142-171) and consumption (script.js:128-139) are
  separate events. Stock is checked again at rest time (script.js:131).
- The spin flag is not cleared on rest. It is cleared only on the exhausted
  path (script.js:152) or when `onCurrentIndexChange` sees that the wheel
  has stopped (script.js:122-123).
- Nothing in script.js validates the list: an empty list, zero weights and
  repeated labels all pass. An empty list or one with nothing in stock takes
  the "no prize" path. With repeated labels, `findIndex` can send the wheel
  to an out-of-stock twin of the drawn prize (`DuplicateLabelsMissStock`).
  Stock then remains, but "no prize" is shown.

## Model

| member | source | states |
|---|---|---|
| Prizes.AvailableIndicesSpec | script.js:148 | the filter keeps every position whose quantity is positive and no other, each once, in increasing catalog order |
| Prizes.AvailableSpec | script.js:148 | the available prizes are exactly the catalog entries at those positions, in the same relative order |
| Prizes.AvailableEmptyIff | script.js:148-149 | the available set is empty exactly when every entry has quantity 0 |
| Prizes.SoleAvailable | script.js:148 | when exactly one entry has stock, the filter yields just that position |
| Prizes.AvailableWeightIsStockedWeight | script.js:157 | the total weight is the sum of weights over in-stock entries only; exhausted entries contribute nothing |
| Prizes.FindIndexSpec | script.js:169 | `findIndex` by label returns the first position holding the label, and -1 exactly when no entry has it |
| Prizes.Consume | script.js:186 | the decrement keeps length, names and weights, leaves every other entry unchanged, and lowers total stock by exactly 1 when the entry had stock and by 0 otherwise |
| Selection.DrawCeilBounds | script.js:158 | the rounded draw is the ceiling of the exact product num·total/den: not below it and less than one above it |
| Selection.DrawTest | script.js:158-163 | for every integer running sum, the exact product num·total/den is at most the sum exactly when the rounded draw is, so each `random <= 0` test on the exact product takes the same branch |
| Selection.WalkSpec | script.js:161-167 | the loop breaks at the first position whose running weight reaches the draw, and runs to the end only when no running weight does |
| Selection.WalkBreaks | script.js:159-167 | with a draw no larger than the total, the loop breaks exactly when there is at least one available prize, so the `availablePrizes[0]` initialiser never decides the result on its own |
| Selection.WinnerOf | script.js:159-167 | the winner is a position of the available set, and that prize has positive quantity |
| Selection.WinnerIsFirstCovering | script.js:158-167 | the winner's running weight reaches the draw, and no earlier running weight does |
| Selection.WinnerOfIsFirstCovering | script.js:157-167 | in terms of the exact product num·total/den, the winner is the first available prize whose running weight is at least that product |
| Selection.WinnerInterval | script.js:158-167 | position k wins if and only if the draw lies in (P(k), P(k+1)], with a draw of 0 going to position 0, so exactly one prize wins each draw |
| Selection.ZeroDrawWinsFirst | script.js:158-165 | `Math.random()` returning 0 selects the first available prize, because of the `<=` test |
| Selection.WinnerShare | script.js:157-167 | of the rounded draws 1..total, each of which a uniform draw hits with probability 1/total, exactly `weight` select each available prize |
| Selection.Select | script.js:147-169 | nothing is selected exactly when nothing has stock. Otherwise the position holds the winner's label, no earlier position holds that label (`findIndex` returns the first match), and it is never past the winner's own position |
| Selection.SelectFindsWinner | script.js:169 | with unique labels, the label lookup returns the winner's own catalog position, whose quantity is positive |
| Game.OnClick | script.js:114-118 | the listener's `!isSpinning` test is redundant: `spinWheel` makes the same test first (script.js:143), so a click behaves exactly as `spinWheel` does |
| Game.SpinWheel | script.js:142-171 | it is ignored without a wheel or while spinning and never changes stock. It shows "no prize" and leaves the flag down exactly when nothing has stock. Otherwise it raises the flag and hands `spinToItem` exactly the position `Select` chooses (script.js:169-170) |
| Game.OnIndexChange | script.js:121-126 | the flag is down afterwards exactly when the wheel reported it stopped or the flag was already down; stock is untouched |
| Game.OnRest | script.js:128-139 | a prize is awarded exactly when the reported position is in range and has stock. Its quantity drops by exactly 1, every other entry is unchanged and the flag is untouched. An out-of-range index changes nothing |
| Game.Apply | script.js:114-139 | one event keeps names and weights, never raises a quantity, and lowers total stock by exactly the number of prizes it awards (0 or 1) |
| Game.Run | script.js:128-139 | across any event sequence, total stock drops by exactly the number of "You won" messages, and no entry's quantity grows |
| Game.NoOverAllocation | script.js:130-137 | no interleaving of clicks and wheel events awards more prizes than there was stock |
| Game.GuardBlocksReentry | script.js:115-116 | a click while spinning leaves the session unchanged |
| Game.FlagTransitions | script.js:115-154 | only a click that starts the wheel raises the flag, and only the wheel reporting it stopped lowers a raised flag |
| Game.SpinThenRest | script.js:128-171 | one full spin with unique labels either shows "no prize" and changes nothing, or shows the drawn prize and lowers exactly its quantity by 1 |
| Game.SoleStockAlwaysWins | script.js:148-169 | with unique labels, when exactly one entry has stock, every spin sends the wheel to it |
| Game.DuplicateLabelsMissStock | script.js:169 | with two entries sharing a label, the wheel is sent to the out-of-stock first twin and "no prize" is shown although one unit remains |
| Game.TwoPrizeScenario | script.js:128-155 | with prizes A (1 in stock) and B (none), the first spin awards A; after the wheel stops, the next spin shows "no prize" |

## Left out

- DOM access, fetching `gameData.json`, the language toggle and its texts
  (script.js:18-57, 173-198): these are I/O and presentation. The "no prize"
  and "You won" messages are the effects `ShowNoPrize` and `ShowPrize`.
- Slice-angle geometry in `initializeWheel` (script.js:74-90): this is
  floating-point display maths for the renderer.
- The wheel widget itself (script.js:1, 92-112, 170): its construction,
  animation, image and overlay loading are foreign code. Whether the
  widget really raises `onCurrentIndexChange` after it stops is the
  widget's business; the model takes the reported "moving" flag as given.
- Game.OnRest: with an index outside the list, script.js:130-131 throws a
  TypeError on `undefined.quantity`. The model treats this as a handler that
  changes nothing (`NoEffect`), because the throw happens before any change.
- Floating-point rounding of `Math.random() * totalWeight` and of
  `random -= weight`: the model uses the exact product num·total/den and
  exact running sums. Non-integer weights are not modelled.
- The probability of each prize is stated as a count of equally likely
  rounded draws (`WinnerShare`), not as a measure over real numbers.
- Confetti and sounds by tier (script.js:201-233), and therefore the
  `tier`, `image` and `color` fields: these are side effects with no
  checkable output.
- `saveGameData` (script.js:237-240): an empty function with nothing to
  model.
