/** When leaving and re-entering is cheaper than staying (backend/app/services/pricing_service.py):
    the exact rule sets for which it never is. */
module StaySplitting {
  import opened Prelude
  import opened Pricing

  function Fee(r: Rules, offset: int, a: int, b: int): int
    requires r.hourly.Some?
  {
    EstimateFee(r, offset, a, b).value
  }

  /** The stay [a, b) costs more than [a, c) and [c, b) together. */
  predicate Saves(r: Rules, offset: int, a: int, c: int, b: int)
    requires r.hourly.Some?
  {
    a < c < b && Fee(r, offset, a, b) > Fee(r, offset, a, c) + Fee(r, offset, c, b)
  }

  ghost predicate NeverSaves(r: Rules)
    requires r.hourly.Some?
  {
    forall offset, a, c, b :: !Saves(r, offset, a, c, b)
  }

  /** Time costs something. */
  predicate Charges(r: Rules)
    requires r.hourly.Some?
  {
    r.hourly.value > 0 && r.daily != Some(0)
  }

  /** Nights cost something. */
  predicate Nights(r: Rules) { r.overnight.Some? && r.overnight.value > 0 && r.startHour != r.endHour }

  function Span(block: int, n: int): int { n * (block * MINUTE) }

  /** n blocks below the cap and then m days at the cap cost less than the two in one stay. */
  predicate Undercuts(hourly: nat, block: int, daily: nat, n: int, m: int)
    requires block > 0
  {
    && n >= 1 && m >= 1
    && BlockCharge(hourly, block, Span(block, n)) < CeilDiv(Span(block, n), DAY) * daily
    && BlockCharge(hourly, block, Span(block, n)) + m * daily < BlockCharge(hourly, block, Span(block, n) + m * DAY)
  }

  ghost predicate CapUndercuts(hourly: nat, block: int, daily: nat)
    requires block > 0
  {
    exists n, m :: Undercuts(hourly, block, daily, n, m)
  }

  /** Splitting can pay: a grace period while anything costs, or a daily cap that some blocks and days
      undercut. */
  ghost predicate CanSave(r: Rules)
    requires r.hourly.Some?
  {
    if r.graceMinutes > 0 then Charges(r) || Nights(r)
    else Charges(r) && r.daily.Some? && CapUndercuts(r.hourly.value, EffectiveBlock(r), r.daily.value)
  }

  // ------------------------------------------------------------------ ceilings

  lemma CeilShift(x: int, d: int, m: int)
    requires d > 0
    ensures CeilDiv(x + m * d, d) == CeilDiv(x, d) + m
  {
    var q := CeilDiv(x, d);
    CeilFacts(x, d);
    assert (q + m) * d == q * d + m * d && (q + m - 1) * d == (q - 1) * d + m * d;
    CeilLeast(x + m * d, d, q + m);
    CeilLeast(x + m * d, d, q + m - 1);
  }

  lemma CeilMultiple(d: int, m: int)
    requires d > 0
    ensures CeilDiv(m * d, d) == m
  {
    CeilShift(0, d, m);
    assert CeilDiv(0, d) == 0;
  }

  lemma CeilPositive(x: int, d: int)
    requires d > 0 && x > 0
    ensures CeilDiv(x, d) >= 1
  {
    CeilLeast(x, d, 0);
  }

  /** Every started block costs the same: the rate prorated to the block, rounded up over all. */
  lemma BlocksCharge(hourly: nat, block: int, n: int)
    requires block > 0
    ensures BlockCharge(hourly, block, Span(block, n)) == CeilDiv(n * (hourly * block), 60)
  {
    CeilMultiple(block * MINUTE, n);
  }

  // ------------------------------------------------------------ a cap that is not undercut

  lemma Mixed(hourly: nat, block: int, daily: nat, x: int, y: int)
    requires block > 0 && x > 0 && y > 0 && !CapUndercuts(hourly, block, daily)
    ensures Capped(BlockCharge(hourly, block, x + y), Some(daily), x + y)
            <= BlockCharge(hourly, block, x) + CeilDiv(y, DAY) * daily
  {
    var b, m := BlockCharge(hourly, block, x), CeilDiv(y, DAY);
    if b >= CeilDiv(x, DAY) * daily {
      DaysSubadditive(x, y, daily);
    } else {
      var n := CeilDiv(x, block * MINUTE);
      var whole := Span(block, n);
      WholeBlocks(hourly, block, daily, x);
      CeilPositive(y, DAY);
      assert !Undercuts(hourly, block, daily, n, m);
      CeilFacts(y, DAY);
      BlockChargeMono(hourly, block, x + y, whole + m * DAY);
    }
  }

  lemma DaysSubadditive(x: int, y: int, daily: nat)
    ensures CeilDiv(x + y, DAY) * daily <= CeilDiv(x, DAY) * daily + CeilDiv(y, DAY) * daily
  {
    CeilSplit(x, y, DAY);
    var u, v, w := CeilDiv(x, DAY), CeilDiv(y, DAY), CeilDiv(x + y, DAY);
    MulMono(w, u + v, daily);
    assert (u + v) * daily == u * daily + v * daily;
  }

  /** Filling up the last block changes no charge and loses no day. */
  lemma WholeBlocks(hourly: nat, block: int, daily: nat, x: int)
    requires block > 0 && x > 0
    ensures var n := CeilDiv(x, block * MINUTE);
      && n >= 1 && x <= Span(block, n)
      && BlockCharge(hourly, block, Span(block, n)) == BlockCharge(hourly, block, x)
      && CeilDiv(x, DAY) * daily <= CeilDiv(Span(block, n), DAY) * daily
  {
    var n := CeilDiv(x, block * MINUTE);
    CeilPositive(x, block * MINUTE);
    CeilFacts(x, block * MINUTE);
    CeilMultiple(block * MINUTE, n);
    CeilMono(x, Span(block, n), DAY);
    MulMono(CeilDiv(x, DAY), CeilDiv(Span(block, n), DAY), daily);
  }

  lemma CappedSubadditive(hourly: nat, block: int, daily: nat, x: int, y: int)
    requires block > 0 && x > 0 && y > 0 && !CapUndercuts(hourly, block, daily)
    ensures Capped(BlockCharge(hourly, block, x + y), Some(daily), x + y)
            <= Capped(BlockCharge(hourly, block, x), Some(daily), x) +
               Capped(BlockCharge(hourly, block, y), Some(daily), y)
  {
    Mixed(hourly, block, daily, x, y);
    Mixed(hourly, block, daily, y, x);
    DaysSubadditive(x, y, daily);
    BlockChargeSplit(hourly, block, x, y);
  }

  // --------------------------------------------------------------- one that is

  lemma UndercutSaves(hourly: nat, block: int, daily: nat, n: int, m: int)
    requires block > 0 && Undercuts(hourly, block, daily, n, m)
    ensures Span(block, n) > 0
    ensures var x, y := Span(block, n), m * DAY;
      Capped(BlockCharge(hourly, block, x + y), Some(daily), x + y)
      > Capped(BlockCharge(hourly, block, x), Some(daily), x) + Capped(BlockCharge(hourly, block, y), Some(daily), y)
  {
    var x, y := Span(block, n), m * DAY;
    MulMono(1, n, block * MINUTE);
    CeilShift(x, DAY, m);
    CeilMultiple(DAY, m);
    assert (CeilDiv(x, DAY) + m) * daily == CeilDiv(x, DAY) * daily + m * daily;
  }

  /** The moment an overnight window ends: cutting a stay there counts no window twice. */
  function WindowEnd(r: Rules): int { WindowStart(r.startHour, 0) + WindowLength(r.startHour, r.endHour) }

  lemma WindowEndIsClean(r: Rules)
    requires HoursOk(r.startHour, r.endHour) && r.startHour != r.endHour
    ensures EndDay(WindowEnd(r), r.startHour) == 1 == FirstDay(WindowEnd(r), r.startHour, r.endHour)
  {
    var length := WindowLength(r.startHour, r.endHour);
    assert WindowStart(r.startHour, 0) == r.startHour * HOUR;
    assert WindowEnd(r) - r.startHour * HOUR == length && 0 < length <= DAY;
    CeilPositive(length, DAY);
    CeilLeast(length, DAY, 1);
    assert 0 / DAY == 0;
  }

  lemma CleanCut(r: Rules, x: int, y: int)
    requires HoursOk(r.startHour, r.endHour) && x > 0 && y > 0
    ensures var c := WindowEnd(r);
      Surcharge(r, 0, c - x, c + y) == Surcharge(r, 0, c - x, c) + Surcharge(r, 0, c, c + y)
  {
    if r.overnight.Some? && r.startHour != r.endHour {
      var c := WindowEnd(r);
      var u, v := Crossings(c - x, c, r.startHour, r.endHour), Crossings(c, c + y, r.startHour, r.endHour);
      assert Crossings(c - x, c + y, r.startHour, r.endHour) == u + v by {
        WindowEndIsClean(r);
      }
      assert (u + v) * r.overnight.value == u * r.overnight.value + v * r.overnight.value;
    }
  }

  lemma CapSplitSaves(r: Rules, n: int, m: int)
    requires HoursOk(r.startHour, r.endHour) && r.hourly.Some? && r.graceMinutes == 0 && r.daily.Some?
    requires Undercuts(r.hourly.value, EffectiveBlock(r), r.daily.value, n, m)
    ensures var c := WindowEnd(r); Saves(r, 0, c - Span(EffectiveBlock(r), n), c, c + m * DAY)
  {
    UndercutSaves(r.hourly.value, EffectiveBlock(r), r.daily.value, n, m);
    CleanCut(r, Span(EffectiveBlock(r), n), m * DAY);
  }

  // ----------------------------------------------------------------- the grace period

  lemma ChargePositive(r: Rules, ticks: int)
    requires r.hourly.Some? && Charges(r) && ticks > 0
    ensures Capped(BlockCharge(r.hourly.value, EffectiveBlock(r), ticks), r.daily, ticks) > 0
  {
    var h := r.hourly.value;
    var charge := BlockCharge(h, EffectiveBlock(r), ticks);
    BlockChargeBounds(h, EffectiveBlock(r), ticks);
    MulMono(1, h, ticks);
    assert charge > 0;
    if r.daily.Some? {
      CeilPositive(ticks, DAY);
      MulMono(1, CeilDiv(ticks, DAY), r.daily.value);
    }
  }

  lemma NightCrossed(r: Rules, b: int)
    requires HoursOk(r.startHour, r.endHour) && r.startHour != r.endHour && b > WindowStart(r.startHour, 0)
    ensures Crossings(WindowStart(r.startHour, 0), b, r.startHour, r.endHour) >= 1
  {
    StartsBeforeIff(b, r.startHour, 0);
    EndsAfterIff(WindowStart(r.startHour, 0), r.startHour, r.endHour, 0);
  }

  lemma SurchargeNonneg(r: Rules, a: int, b: int)
    requires HoursOk(r.startHour, r.endHour) && a < b
    ensures Surcharge(r, 0, a, b) >= 0
  {
    SurchargeMono(r, 0, a, b, a, b);
  }

  lemma CappedNonneg(r: Rules, ticks: int)
    requires r.hourly.Some? && ticks > 0
    ensures Capped(BlockCharge(r.hourly.value, EffectiveBlock(r), ticks), r.daily, ticks) >= 0
  {
    var charge := BlockCharge(r.hourly.value, EffectiveBlock(r), ticks);
    BlockChargeMono(r.hourly.value, EffectiveBlock(r), ticks, ticks);
    CappedMono(charge, charge, r.daily, ticks, ticks);
  }

  /** Two stays of the grace period's length are free; one of twice its length is not. */
  lemma GraceSplitSaves(r: Rules)
    requires HoursOk(r.startHour, r.endHour) && r.hourly.Some? && r.graceMinutes > 0
    requires Charges(r) || Nights(r)
    ensures var a, g := WindowStart(r.startHour, 0), r.graceMinutes * MINUTE; Saves(r, 0, a, a + g, a + 2 * g)
  {
    var a, g := WindowStart(r.startHour, 0), r.graceMinutes * MINUTE;
    SurchargeNonneg(r, a, a + 2 * g);
    CappedNonneg(r, 2 * g);
    if Charges(r) {
      ChargePositive(r, 2 * g);
    } else {
      NightCrossed(r, a + 2 * g);
      MulMono(1, Crossings(a, a + 2 * g, r.startHour, r.endHour), r.overnight.value);
    }
  }

  // -------------------------------------------------------------------- never saving

  lemma NothingCharged(r: Rules, ticks: int)
    requires r.hourly.Some? && !Charges(r) && ticks > 0
    ensures Capped(BlockCharge(r.hourly.value, EffectiveBlock(r), ticks), r.daily, ticks) == 0
  {
    var h, block := r.hourly.value, EffectiveBlock(r);
    BlockChargeMono(h, block, ticks, ticks);
    if h == 0 {
      assert h * block == 0;
      assert BlockCharge(h, block, ticks) == 0;
      CappedNonneg(r, ticks);
    }
  }

  lemma NoNightNoSurcharge(r: Rules, offset: int, a: int, b: int)
    requires !Nights(r)
    ensures Surcharge(r, offset, a, b) == 0
  {
  }

  lemma NoSaving(r: Rules, offset: int, a: int, c: int, b: int)
    requires HoursOk(r.startHour, r.endHour) && r.hourly.Some? && !CanSave(r)
    ensures !Saves(r, offset, a, c, b)
  {
    if a < c < b {
      if r.graceMinutes > 0 {
        FreeOfCharge(r, offset, a, b);
        FreeOfCharge(r, offset, a, c);
        FreeOfCharge(r, offset, c, b);
      } else {
        SurchargeSplit(r, offset, a, c, b);
        ChargeSubadditive(r, c - a, b - c);
        assert (c - a) + (b - c) == b - a;
      }
    }
  }

  lemma FreeOfCharge(r: Rules, offset: int, a: int, b: int)
    requires r.hourly.Some? && !Charges(r) && !Nights(r)
    ensures Fee(r, offset, a, b) == 0
  {
    if a < b {
      NothingCharged(r, b - a);
      NoNightNoSurcharge(r, offset, a, b);
    }
  }

  lemma ChargeSubadditive(r: Rules, x: int, y: int)
    requires r.hourly.Some? && r.graceMinutes == 0 && !CanSave(r) && x > 0 && y > 0
    ensures var h, block := r.hourly.value, EffectiveBlock(r);
      Capped(BlockCharge(h, block, x + y), r.daily, x + y)
      <= Capped(BlockCharge(h, block, x), r.daily, x) + Capped(BlockCharge(h, block, y), r.daily, y)
  {
    var h, block := r.hourly.value, EffectiveBlock(r);
    if !Charges(r) {
      NothingCharged(r, x + y);
      NothingCharged(r, x);
      NothingCharged(r, y);
    } else if r.daily.None? {
      BlockChargeSplit(h, block, x, y);
    } else {
      CappedSubadditive(h, block, r.daily.value, x, y);
    }
  }

  /** The rule sets under which no stay, at no time and in no time zone, gets cheaper by leaving and
      re-entering: exactly those that cannot save. */
  lemma NeverSavesIff(r: Rules)
    requires HoursOk(r.startHour, r.endHour) && r.hourly.Some?
    ensures NeverSaves(r) <==> !CanSave(r)
  {
    if CanSave(r) {
      if r.graceMinutes > 0 {
        GraceSplitSaves(r);
      } else {
        var n, m :| Undercuts(r.hourly.value, EffectiveBlock(r), r.daily.value, n, m);
        CapSplitSaves(r, n, m);
      }
    } else {
      forall offset, a, c, b ensures !Saves(r, offset, a, c, b) {
        NoSaving(r, offset, a, c, b);
      }
    }
  }

  // ----------------------------------------------- the cap, for blocks that divide a day

  /** k blocks make a day. */
  predicate FillsDay(block: int, k: int) { block > 0 && k >= 1 && k * block == 1440 }

  lemma DaysAreBlocks(block: int, k: int, n: int, m: int)
    requires FillsDay(block, k)
    ensures Span(block, n + m * k) == Span(block, n) + m * DAY
  {
    var size := block * MINUTE;
    assert k * size == DAY by {
      assert k * (block * MINUTE) == (k * block) * MINUTE;
    }
    assert (n + m * k) * size == n * size + m * (k * size);
  }

  lemma DaysAreRates(hourly: nat, block: int, k: int, n: int, m: int)
    requires FillsDay(block, k)
    ensures (n + m * k) * (hourly * block) == n * (hourly * block) + m * (24 * hourly) * 60
  {
    var rate := hourly * block;
    assert k * rate == 24 * hourly * 60 by {
      assert k * (hourly * block) == (k * block) * hourly;
    }
    assert (n + m * k) * rate == n * rate + m * (k * rate);
  }

  /** A whole number of days adds a whole number of blocks and exactly 24 hourly rates a day. */
  lemma DaysCharge(hourly: nat, block: int, k: int, n: int, m: int)
    requires FillsDay(block, k)
    ensures BlockCharge(hourly, block, Span(block, n) + m * DAY) ==
            BlockCharge(hourly, block, Span(block, n)) + m * (24 * hourly)
  {
    DaysAreBlocks(block, k, n, m);
    BlocksCharge(hourly, block, n + m * k);
    BlocksCharge(hourly, block, n);
    DaysAreRates(hourly, block, k, n, m);
    CeilShift(n * (hourly * block), 60, m * (24 * hourly));
  }

  lemma WithinOneDay(block: int, k: int, n: int)
    requires FillsDay(block, k) && 1 <= n <= k
    ensures CeilDiv(Span(block, n), DAY) == 1
  {
    MulMono(1, n, block * MINUTE);
    MulMono(n, k, block * MINUTE);
    assert k * (block * MINUTE) == (k * block) * MINUTE;
    CeilPositive(Span(block, n), DAY);
    CeilLeast(Span(block, n), DAY, 1);
  }

  lemma FirstDayAtCap(hourly: nat, block: int, daily: nat, k: int, n: int)
    requires FillsDay(block, k) && 1 <= n <= k && daily <= CeilDiv(hourly * block, 60)
    ensures BlockCharge(hourly, block, Span(block, n)) >= CeilDiv(Span(block, n), DAY) * daily
  {
    WithinOneDay(block, k, n);
    BlocksCharge(hourly, block, n);
    MulMono(1, n, hourly * block);
    CeilMono(hourly * block, n * (hourly * block), 60);
  }

  lemma NextDayAtCap(hourly: nat, block: int, daily: nat, k: int, n: int)
    requires FillsDay(block, k) && daily <= 24 * hourly
    requires BlockCharge(hourly, block, Span(block, n)) >= CeilDiv(Span(block, n), DAY) * daily
    ensures BlockCharge(hourly, block, Span(block, n + k)) >= CeilDiv(Span(block, n + k), DAY) * daily
  {
    DaysCharge(hourly, block, k, n, 1);
    DaysAreBlocks(block, k, n, 1);
    CeilShift(Span(block, n), DAY, 1);
    var w := CeilDiv(Span(block, n), DAY);
    assert (w + 1) * daily == w * daily + daily;
  }

  /** When a first block already costs the cap, so does every stay. */
  lemma {:induction false} AlwaysAtCap(hourly: nat, block: int, daily: nat, k: int, n: int)
    requires FillsDay(block, k) && n >= 1
    requires daily <= CeilDiv(hourly * block, 60) && daily <= 24 * hourly
    ensures BlockCharge(hourly, block, Span(block, n)) >= CeilDiv(Span(block, n), DAY) * daily
    decreases n
  {
    if n <= k {
      FirstDayAtCap(hourly, block, daily, k, n);
    } else {
      AlwaysAtCap(hourly, block, daily, k, n - k);
      NextDayAtCap(hourly, block, daily, k, n - k);
    }
  }

  lemma OneBlockUndercuts(hourly: nat, block: int, daily: nat, k: int)
    requires FillsDay(block, k) && CeilDiv(hourly * block, 60) < daily < 24 * hourly
    ensures Undercuts(hourly, block, daily, 1, 1)
  {
    WithinOneDay(block, k, 1);
    BlocksCharge(hourly, block, 1);
    DaysCharge(hourly, block, k, 1, 1);
  }

  lemma UndercutsNeeds(hourly: nat, block: int, daily: nat, k: int, n: int, m: int)
    requires FillsDay(block, k) && Undercuts(hourly, block, daily, n, m)
    ensures CeilDiv(hourly * block, 60) < daily < 24 * hourly
  {
    DaysCharge(hourly, block, k, n, m);
    MulMono(24 * hourly, daily, m);
    assert daily < 24 * hourly;
    if daily <= CeilDiv(hourly * block, 60) {
      AlwaysAtCap(hourly, block, daily, k, n);
    }
  }

  /** For a block size that divides a day, the cap can be undercut exactly when it lies strictly
      between the price of one block and 24 hourly rates. */
  lemma CapUndercutsIff(hourly: nat, block: int, daily: nat)
    requires block > 0 && 1440 % block == 0
    ensures CapUndercuts(hourly, block, daily) <==> CeilDiv(hourly * block, 60) < daily < 24 * hourly
  {
    var k := DayBlocks(block);
    if CeilDiv(hourly * block, 60) < daily < 24 * hourly {
      OneBlockUndercuts(hourly, block, daily, k);
    }
    if CapUndercuts(hourly, block, daily) {
      var n, m :| Undercuts(hourly, block, daily, n, m);
      UndercutsNeeds(hourly, block, daily, k, n, m);
    }
  }

  lemma DayBlocks(block: int) returns (k: int)
    requires block > 0 && 1440 % block == 0
    ensures FillsDay(block, k)
  {
    k := 1440 / block;
    DivFloor(1440, block);
    assert k * block == 1440;
    MulMono(k, 0, block);
  }

  // ------------------------------------------------- what the pricing profile's text says

  /** "Per billing block": n blocks cost n times the configured rate exactly when prorating it per hour
      loses nothing, or less than rounding up gives back. */
  lemma PerBlockPriceIff(hourly: nat, block: int, n: int)
    requires block > 0
    ensures BlockCharge(hourly, block, Span(block, n)) == n * hourly <==> 0 <= n * hourly * (60 - block) < 60
  {
    var total := n * hourly;
    BlocksCharge(hourly, block, n);
    assert n * (hourly * block) == total * block;
    CeilLeast(total * block, 60, total);
    CeilLeast(total * block, 60, total - 1);
    assert total * (60 - block) == total * 60 - total * block;
  }

  /** For every rate at once that is so only with blocks of 60 minutes. */
  lemma RateIsPerBlockIff(block: int)
    requires block > 0
    ensures (forall hourly: nat, n: nat :: BlockCharge(hourly, block, Span(block, n)) == n * hourly) <==> block == 60
  {
    if block == 60 {
      forall hourly: nat, n: nat ensures BlockCharge(hourly, block, Span(block, n)) == n * hourly {
        PerBlockPriceIff(hourly, block, n);
      }
    } else {
      PerBlockPriceIff(60, block, 1);
      assert BlockCharge(60, block, Span(block, 1)) != 1 * 60;
    }
  }

  /** "Caps each rolling 24h window": q full days and a last stretch, each capped by itself. */
  function PerWindow(hourly: nat, block: int, daily: nat, q: nat, x: int): int
    requires block > 0
  {
    q * Min(24 * hourly, daily) + Min(BlockCharge(hourly, block, x), daily)
  }

  lemma StretchCharge(hourly: nat, block: int, k: int, q: nat, x: int)
    requires FillsDay(block, k) && 0 < x <= DAY
    ensures BlockCharge(hourly, block, x + q * DAY) == BlockCharge(hourly, block, x) + q * (24 * hourly)
    ensures BlockCharge(hourly, block, x) <= 24 * hourly
    ensures CeilDiv(x + q * DAY, DAY) == q + 1
  {
    var n := CeilDiv(x, block * MINUTE);
    DaysAreBlocks(block, k, 0, q);
    CeilShift(x, block * MINUTE, q * k);
    DaysAreRates(hourly, block, k, n, q);
    CeilShift(n * (hourly * block), 60, q * (24 * hourly));
    BlockChargeMono(hourly, block, x, DAY);
    DaysCharge(hourly, block, k, 0, 1);
    BlocksCharge(hourly, block, 0);
    CeilPositive(x, DAY);
    CeilLeast(x, DAY, 1);
    CeilShift(x, DAY, q);
  }

  lemma CapArithmetic(b: int, q: nat, rate: nat, daily: nat)
    requires 0 <= b <= rate
    ensures var total, split := Min(b + q * rate, (q + 1) * daily), q * Min(rate, daily) + Min(b, daily);
      && total >= split
      && (total == split <==> q == 0 || rate <= daily || b >= daily)
  {
    MulMono(rate, daily, q);
    MulMono(daily, rate, q);
    assert (q + 1) * daily == q * daily + daily;
    assert q * rate == rate * q && q * daily == daily * q;
    MulMono(daily + 1, rate, q);
    assert (daily + 1) * q == daily * q + q;
  }

  /** The code caps the whole stay instead. It never charges less than capping each window would, and
      the same exactly when no day is full, a full day stays under the cap, or the last stretch
      reaches the cap by itself. */
  lemma CapIsPerWindowIff(hourly: nat, block: int, daily: nat, q: nat, x: int)
    requires block > 0 && 1440 % block == 0 && 0 < x <= DAY
    ensures var charged := Capped(BlockCharge(hourly, block, x + q * DAY), Some(daily), x + q * DAY);
      && charged >= PerWindow(hourly, block, daily, q, x)
      && (charged == PerWindow(hourly, block, daily, q, x) <==>
            q == 0 || 24 * hourly <= daily || BlockCharge(hourly, block, x) >= daily)
  {
    var k := DayBlocks(block);
    StretchCharge(hourly, block, k, q, x);
    BlockChargeMono(hourly, block, x, x);
    CapArithmetic(BlockCharge(hourly, block, x), q, 24 * hourly, daily);
  }

  // ---------------------------------------- the cap, for any block: a search that ends

  /** As many days as a block has minutes make 1440 blocks, and add that many times 24 hourly rates. */
  lemma PeriodCharge(hourly: nat, block: int, ticks: int, q: int)
    requires block > 0
    ensures BlockCharge(hourly, block, ticks + (q * block) * DAY) ==
            BlockCharge(hourly, block, ticks) + q * (24 * hourly * block)
  {
    var size, rate := block * MINUTE, hourly * block;
    var n := CeilDiv(ticks, size);
    assert (q * block) * DAY == (1440 * q) * size;
    CeilShift(ticks, size, 1440 * q);
    PeriodRate(rate, n, q);
    assert q * (24 * rate) == q * (24 * hourly * block);
    CeilShift(n * rate, 60, q * (24 * rate));
  }

  lemma PeriodRate(rate: int, n: int, q: int)
    ensures (n + 1440 * q) * rate == n * rate + q * (24 * rate) * 60
  {
  }

  /** What m days add to n blocks. */
  function Added(hourly: nat, block: int, n: int, m: int): int
    requires block > 0
  {
    BlockCharge(hourly, block, Span(block, n) + m * DAY) - BlockCharge(hourly, block, Span(block, n))
  }

  lemma AddedPeriod(hourly: nat, block: int, n: int, m: int, q: int)
    requires block > 0
    ensures Added(hourly, block, n, m + q * block) == Added(hourly, block, n, m) + q * (24 * hourly * block)
  {
    assert (m + q * block) * DAY == m * DAY + (q * block) * DAY;
    PeriodCharge(hourly, block, Span(block, n) + m * DAY, q);
  }

  /** Days beyond whole periods explain the excess, or the day rate does. */
  lemma ExcessShared(added: int, rest: int, q: int, block: int, rate: nat, daily: nat)
    requires block > 0 && q >= 0 && added + q * (rate * block) > (rest + q * block) * daily
    ensures added > rest * daily || rate > daily
  {
    var p := q * block;
    MulMono(0, q, block);
    MulMono(rate, daily, p);
    assert q * (rate * block) == rate * p;
    assert (rest + p) * daily == rest * daily + daily * p;
  }

  lemma FullPeriodUndercuts(hourly: nat, block: int, daily: nat, n: int)
    requires block > 0 && n >= 1 && 24 * hourly > daily
    requires BlockCharge(hourly, block, Span(block, n)) < CeilDiv(Span(block, n), DAY) * daily
    ensures Undercuts(hourly, block, daily, n, block)
  {
    PeriodCharge(hourly, block, Span(block, n), 1);
    assert (1 * block) * DAY == block * DAY;
    MulMono(daily + 1, 24 * hourly, block);
    assert (daily + 1) * block == block * daily + block;
    assert 1 * (24 * hourly * block) == 24 * hourly * block;
  }

  lemma Periods(m: int, block: int) returns (q: int, rest: int)
    requires block > 0 && m >= 0
    ensures m == rest + q * block && 0 <= rest < block && q >= 0
  {
    q, rest := m / block, m % block;
  }

  lemma RestOrRate(hourly: nat, block: int, daily: nat, n: int, q: int, rest: int)
    requires block > 0 && q >= 0 && Undercuts(hourly, block, daily, n, rest + q * block)
    ensures Added(hourly, block, n, rest) > rest * daily || 24 * hourly > daily
  {
    AddedPeriod(hourly, block, n, rest, q);
    ExcessShared(Added(hourly, block, n, rest), rest, q, block, 24 * hourly, daily);
  }

  /** No more days than a block has minutes need be tried. */
  lemma FewerDays(hourly: nat, block: int, daily: nat, n: int, m: int) returns (m': int)
    requires block > 0 && Undercuts(hourly, block, daily, n, m)
    ensures 1 <= m' <= block && Undercuts(hourly, block, daily, n, m')
  {
    var q, rest := Periods(m, block);
    RestOrRate(hourly, block, daily, n, q, rest);
    if 24 * hourly > daily {
      FullPeriodUndercuts(hourly, block, daily, n);
      m' := block;
    } else {
      NothingAdded(hourly, block, n);
      m' := rest;
    }
  }

  lemma NothingAdded(hourly: nat, block: int, n: int)
    requires block > 0
    ensures Added(hourly, block, n, 0) == 0
  {
    assert Span(block, n) + 0 * DAY == Span(block, n);
  }

  lemma BlocksPeriod(hourly: nat, block: int, n: int, j: int)
    requires block > 0
    ensures Span(block, n + 1440 * j) == Span(block, n) + (j * block) * DAY
    ensures BlockCharge(hourly, block, Span(block, n + 1440 * j)) ==
            BlockCharge(hourly, block, Span(block, n)) + j * (24 * hourly * block)
    ensures CeilDiv(Span(block, n + 1440 * j), DAY) == CeilDiv(Span(block, n), DAY) + j * block
  {
    assert (n + 1440 * j) * (block * MINUTE) == n * (block * MINUTE) + (j * block) * DAY;
    PeriodCharge(hourly, block, Span(block, n), j);
    CeilShift(Span(block, n), DAY, j * block);
  }

  lemma AddedPeriodBlocks(hourly: nat, block: int, n: int, m: int, j: int)
    requires block > 0
    ensures Added(hourly, block, n + 1440 * j, m) == Added(hourly, block, n, m)
  {
    BlocksPeriod(hourly, block, n, j);
    PeriodCharge(hourly, block, Span(block, n) + m * DAY, j);
  }

  lemma BelowDayRate(c: int, w: int, minutes: int, hourly: nat, daily: nat)
    requires (c - 1) * 60 < minutes * hourly && minutes <= 1440 * w && w >= 1 && daily > 24 * hourly
    ensures c < w * daily
  {
    MulMono(minutes, 1440 * w, hourly);
    assert 1440 * w * hourly == 60 * (24 * hourly * w);
    MulMono(24 * hourly + 1, daily, w);
    assert (24 * hourly + 1) * w == 24 * hourly * w + w;
  }

  /** A cap above 24 hourly rates is above what any number of blocks costs. */
  lemma HighCapUnreached(hourly: nat, block: int, daily: nat, n: int)
    requires block > 0 && n >= 1 && daily > 24 * hourly
    ensures BlockCharge(hourly, block, Span(block, n)) < CeilDiv(Span(block, n), DAY) * daily
  {
    var minutes := n * block;
    BlocksCharge(hourly, block, n);
    CeilFacts(n * (hourly * block), 60);
    CeilFacts(Span(block, n), DAY);
    assert n * (block * MINUTE) == minutes * MINUTE && n * (hourly * block) == minutes * hourly;
    MulMono(1, n, block * MINUTE);
    CeilPositive(Span(block, n), DAY);
    BelowDayRate(BlockCharge(hourly, block, Span(block, n)), CeilDiv(Span(block, n), DAY), minutes, hourly, daily);
  }

  lemma EarlierBelow(b: int, w: int, j: int, block: int, rate: int, daily: int)
    requires j >= 0 && block > 0 && daily <= rate && b + j * (rate * block) < (w + j * block) * daily
    ensures b < w * daily
  {
    var p := j * block;
    MulMono(0, j, block);
    MulMono(daily, rate, p);
    assert j * (rate * block) == rate * p;
    assert (w + p) * daily == w * daily + daily * p;
  }

  lemma LowCapEarlier(hourly: nat, block: int, daily: nat, n: int, j: int)
    requires block > 0 && j >= 0 && daily <= 24 * hourly
    requires BlockCharge(hourly, block, Span(block, n + 1440 * j)) < CeilDiv(Span(block, n + 1440 * j), DAY) * daily
    ensures BlockCharge(hourly, block, Span(block, n)) < CeilDiv(Span(block, n), DAY) * daily
  {
    BlocksPeriod(hourly, block, n, j);
    var b, w := BlockCharge(hourly, block, Span(block, n)), CeilDiv(Span(block, n), DAY);
    EarlierBelow(b, w, j, block, 24 * hourly, daily);
  }

  /** No more than 1440 blocks need be tried. */
  lemma FewerBlocks(hourly: nat, block: int, daily: nat, n: int, m: int) returns (n': int)
    requires block > 0 && Undercuts(hourly, block, daily, n, m)
    ensures 1 <= n' <= 1440 && Undercuts(hourly, block, daily, n', m)
  {
    var j := (n - 1) / 1440;
    n' := (n - 1) % 1440 + 1;
    assert n == n' + 1440 * j;
    AddedPeriodBlocks(hourly, block, n', m, j);
    if daily > 24 * hourly {
      HighCapUnreached(hourly, block, daily, n');
    } else {
      LowCapEarlier(hourly, block, daily, n', j);
    }
  }

  /** For every block size it is enough to look at up to 1440 blocks and as many days as the block has
      minutes. */
  lemma CapUndercutsBounded(hourly: nat, block: int, daily: nat)
    requires block > 0
    ensures CapUndercuts(hourly, block, daily) <==>
            exists n, m :: n <= 1440 && m <= block && Undercuts(hourly, block, daily, n, m)
  {
    if CapUndercuts(hourly, block, daily) {
      var n, m :| Undercuts(hourly, block, daily, n, m);
      var m' := FewerDays(hourly, block, daily, n, m);
      var n' := FewerBlocks(hourly, block, daily, n, m');
      assert n' <= 1440 && m' <= block;
    }
  }
}
