/** The page's event handlers around the selector: the spin button, the
    `spinWheel` routine with its `isSpinning` guard, and the two callbacks of
    the wheel widget (`onCurrentIndexChange`, `onRest`). The widget itself is
    outside the model: its callbacks arrive as events carrying what it
    reports. */
module Game {
  import opened Wrappers
  import opened Prizes
  import opened Selection

  /** The `isSpinning` flag. */
  datatype Phase = Idle | Spinning

  /** Page state: the prize list, whether the wheel widget was created
      (`wheel` is not null) and the spin flag. */
  datatype Session = Session(catalog: Catalog, wheelReady: bool, phase: Phase)

  /** What a handler makes visible: nothing, the "no prize" message, a
      `spinToItem` call on the wheel, or the "You won" message for a prize
      (as it was before its stock was decremented). */
  datatype Effect = NoEffect | ShowNoPrize | SpinTo(index: nat) | ShowPrize(prize: Prize)

  datatype Step = Step(session: Session, effect: Effect)

  /** Inputs the page reacts to: a click on the spin button (with the value
      `Math.random()` will return), an index change reported by the wheel
      (with whether it is still moving) and the wheel coming to rest on an
      index. */
  datatype Event = Pressed(u: Draw) | IndexChanged(moving: bool) | Rested(index: nat)

  /** Entry-wise: same length, same names and weights, stock never grows. */
  predicate StockOnlyShrinks(before: Catalog, after: Catalog)
  {
    && |after| == |before|
    && forall j :: 0 <= j < |before| ==>
         && after[j].name == before[j].name
         && after[j].weight == before[j].weight
         && after[j].quantity <= before[j].quantity
  }

  /** `spinWheel`: ignored without a wheel or while a spin is in flight;
      otherwise raises the flag and either reports "no prize" and lowers it
      again, or hands the selected catalog position to the wheel. */
  function SpinWheel(s: Session, u: Draw): (st: Step)
    ensures !s.wheelReady || s.phase == Spinning ==> st == Step(s, NoEffect)
    ensures st.session.catalog == s.catalog && st.session.wheelReady == s.wheelReady
    ensures st.effect == ShowNoPrize <==>
      s.wheelReady && s.phase == Idle && forall j :: 0 <= j < |s.catalog| ==> s.catalog[j].quantity == 0
    ensures st.effect == ShowNoPrize ==> st.session.phase == Idle
    ensures st.effect.SpinTo? <==> s.wheelReady && s.phase == Idle && st.effect != ShowNoPrize
    ensures st.effect.SpinTo? ==> st.session.phase == Spinning && st.effect.index < |s.catalog|
    ensures st.effect.SpinTo? ==> Select(s.catalog, u) == Some(st.effect.index)
    ensures !st.effect.ShowPrize?
  {
    if !s.wheelReady || s.phase == Spinning then Step(s, NoEffect)
    else
      var target := Select(s.catalog, u);
      if target.None? then
        assert s.phase == Idle;
        Step(s.(phase := Idle), ShowNoPrize)
      else Step(s.(phase := Spinning), SpinTo(target.value))
  }

  /** The click listener: calls `spinWheel` only when no spin is in flight.
      Its test repeats the one `spinWheel` makes first, so the listener
      behaves exactly as `spinWheel` does. */
  function OnClick(s: Session, u: Draw): (st: Step)
    ensures st == SpinWheel(s, u)
  {
    if s.phase == Idle then SpinWheel(s, u) else Step(s, NoEffect)
  }

  /** `onCurrentIndexChange`: lowers the flag once the wheel has stopped. */
  function OnIndexChange(s: Session, moving: bool): (r: Session)
    ensures r.catalog == s.catalog && r.wheelReady == s.wheelReady
    ensures r.phase == Idle <==> !moving || s.phase == Idle
  {
    if !moving then s.(phase := Idle) else s
  }

  /** `onRest` followed by `showPrize`: the prize at the reported index is
      awarded and loses one unit of stock if it has any left; otherwise the
      "no prize" message is shown. An index outside the list makes
      `prize.quantity` throw before anything changes. The flag is left as is. */
  function OnRest(s: Session, index: nat): (st: Step)
    ensures st.session.phase == s.phase && st.session.wheelReady == s.wheelReady
    ensures StockOnlyShrinks(s.catalog, st.session.catalog)
    ensures index >= |s.catalog| ==> st == Step(s, NoEffect)
    ensures index < |s.catalog| && s.catalog[index].quantity == 0 ==> st == Step(s, ShowNoPrize)
    ensures st.effect.ShowPrize? <==> index < |s.catalog| && s.catalog[index].quantity > 0
    ensures st.effect.ShowPrize? ==>
      && index < |s.catalog|
      && st.effect.prize == s.catalog[index]
      && st.session.catalog[index].quantity == s.catalog[index].quantity - 1
    ensures forall j :: 0 <= j < |s.catalog| && j != index ==> st.session.catalog[j] == s.catalog[j]
    ensures TotalQuantity(st.session.catalog) + (if st.effect.ShowPrize? then 1 else 0)
      == TotalQuantity(s.catalog)
  {
    if index >= |s.catalog| then Step(s, NoEffect)
    else if s.catalog[index].quantity > 0 then
      Step(s.(catalog := Consume(s.catalog, index)), ShowPrize(s.catalog[index]))
    else Step(s, ShowNoPrize)
  }

  /** One event handled by the page. */
  function Apply(s: Session, e: Event): (st: Step)
    ensures st.session.wheelReady == s.wheelReady
    ensures StockOnlyShrinks(s.catalog, st.session.catalog)
    ensures TotalQuantity(st.session.catalog) + (if st.effect.ShowPrize? then 1 else 0)
      == TotalQuantity(s.catalog)
    ensures st.effect.ShowPrize? ==> st.effect.prize.quantity > 0
  {
    match e
    case Pressed(u) => OnClick(s, u)
    case IndexChanged(moving) => Step(OnIndexChange(s, moving), NoEffect)
    case Rested(index) => OnRest(s, index)
  }

  datatype RunResult = RunResult(final: Session, wins: nat)

  /** A session driven by a sequence of events; `wins` counts the "You won"
      messages shown along the way. */
  function Run(s: Session, events: seq<Event>): (r: RunResult)
    ensures TotalQuantity(r.final.catalog) + r.wins == TotalQuantity(s.catalog)
    ensures StockOnlyShrinks(s.catalog, r.final.catalog)
    decreases |events|
  {
    if |events| == 0 then RunResult(s, 0)
    else
      var st := Apply(s, events[0]);
      var rest := Run(st.session, events[1..]);
      RunResult(rest.final, rest.wins + if st.effect.ShowPrize? then 1 else 0)
  }

  /** However the events interleave, no more prizes are awarded than there
      was stock: overlapping clicks cannot over-allocate. */
  lemma NoOverAllocation(s: Session, events: seq<Event>)
    ensures Run(s, events).wins <= TotalQuantity(s.catalog)
    ensures TotalQuantity(s.catalog) == 0 ==> Run(s, events).wins == 0
  {
  }

  /** A spin in flight blocks a second one: a click changes nothing. */
  lemma GuardBlocksReentry(s: Session, u: Draw)
    requires s.phase == Spinning
    ensures Apply(s, Pressed(u)) == Step(s, NoEffect)
  {
  }

  /** The flag is raised only by a click that starts the wheel, and lowered
      only by the exhausted path or by the wheel reporting that it stopped. */
  lemma FlagTransitions(s: Session, e: Event)
    ensures s.phase == Idle && Apply(s, e).session.phase == Spinning ==>
      e.Pressed? && Apply(s, e).effect.SpinTo?
    ensures s.phase == Spinning && Apply(s, e).session.phase == Idle ==>
      e == IndexChanged(false)
    ensures Apply(s, e).effect.SpinTo? ==> s.phase == Idle && Apply(s, e).session.phase == Spinning
  {
  }

  /** One full spin with unique labels, the wheel resting where it was sent:
      either nothing has stock and nothing changes, or the drawn prize is
      shown and exactly its stock drops by one. */
  lemma SpinThenRest(s: Session, u: Draw)
    requires s.wheelReady && s.phase == Idle && UniqueLabels(s.catalog)
    ensures var st := SpinWheel(s, u);
      st.effect == ShowNoPrize ==> st.session == s
    ensures var st := SpinWheel(s, u);
      st.effect.SpinTo? ==>
        var rt := OnRest(st.session, st.effect.index);
        var i := st.effect.index;
        && i == AvailableIndices(s.catalog)[WinnerOf(s.catalog, u)]
        && rt.effect == ShowPrize(Available(s.catalog)[WinnerOf(s.catalog, u)])
        && rt.session.catalog[i].quantity + 1 == s.catalog[i].quantity
        && (forall j :: 0 <= j < |s.catalog| && j != i ==> rt.session.catalog[j] == s.catalog[j])
        && TotalQuantity(rt.session.catalog) + 1 == TotalQuantity(s.catalog)
  {
    var st := SpinWheel(s, u);
    if st.effect.SpinTo? {
      SelectFindsWinner(s.catalog, u, st.effect.index);
    }
  }

  /** Catalog order is not identity when labels repeat: the lookup by label
      sends the wheel to the first twin, which may be out of stock, and the
      rest handler then shows "no prize" although stock remains. */
  lemma DuplicateLabelsMissStock(u: Draw)
    ensures var c := [Prize("A", 1, 0), Prize("A", 1, 1)];
      var st := SpinWheel(Session(c, true, Idle), u);
      && TotalQuantity(c) == 1
      && st.effect == SpinTo(0)
      && OnRest(st.session, 0).effect == ShowNoPrize
  {
    var c := [Prize("A", 1, 0), Prize("A", 1, 1)];
    assert c[..1] == [Prize("A", 1, 0)];
    assert Available(c) == [Prize("A", 1, 1)];
  }

  /** When exactly one entry has stock, every spin sends the wheel to it. */
  lemma SoleStockAlwaysWins(s: Session, u: Draw, j: nat)
    requires s.wheelReady && s.phase == Idle && UniqueLabels(s.catalog)
    requires j < |s.catalog| && s.catalog[j].quantity > 0
    requires forall i :: 0 <= i < |s.catalog| && i != j ==> s.catalog[i].quantity == 0
    ensures SpinWheel(s, u).effect == SpinTo(j)
  {
    var c := s.catalog;
    SoleAvailable(c, j);
    var target := Select(c, u);
    assert c[j].quantity != 0;
    assert target.Some?;
    SelectFindsWinner(c, u, target.value);
    assert WinnerOf(c, u) == 0;
    assert target.value == j;
  }

  /** Two prizes, only the first in stock: the first spin awards it, and once
      the wheel has stopped the next spin finds nothing left. */
  lemma TwoPrizeScenario(u: Draw, v: Draw)
    ensures var s0 := Session([Prize("A", 1, 1), Prize("B", 3, 0)], true, Idle);
      var s1 := Apply(s0, Pressed(u));
      var s2 := Apply(s1.session, Rested(0));
      var s3 := Apply(s2.session, IndexChanged(false));
      var s4 := Apply(s3.session, Pressed(v));
      && s1.effect == SpinTo(0)
      && s2.effect == ShowPrize(Prize("A", 1, 1))
      && s4.effect == ShowNoPrize
      && s4.session.catalog == [Prize("A", 1, 0), Prize("B", 3, 0)]
      && s4.session.phase == Idle
  {
    var c := [Prize("A", 1, 1), Prize("B", 3, 0)];
    SoleStockAlwaysWins(Session(c, true, Idle), u, 0);
  }
}
