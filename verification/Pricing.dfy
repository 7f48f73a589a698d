/** The parking-fee estimator (backend/app/services/pricing_service.py), over exact integers:
    instants are microseconds of wall-clock time at a fixed UTC offset. */
module Pricing {
  import opened Prelude

  const MINUTE: int := 60_000_000
  const HOUR: int := 60 * MINUTE
  const DAY: int := 24 * HOUR

  datatype Rules = Rules(
    hourly: Option<nat>,
    daily: Option<nat>,
    overnight: Option<nat>,
    graceMinutes: nat,
    blockMinutes: int,
    startHour: nat,
    endHour: nat)

  predicate HoursOk(startHour: nat, endHour: nat) { startHour < 24 && endHour < 24 }

  function CeilDiv(x: int, d: int): int
    requires d > 0
  {
    -((-x) / d)
  }

  lemma CeilFacts(x: int, d: int)
    requires d > 0
    ensures (CeilDiv(x, d) - 1) * d < x <= CeilDiv(x, d) * d
  {
    DivFloor(-x, d);
    assert (CeilDiv(x, d) - 1) * d == -(((-x) / d + 1) * d);
    assert CeilDiv(x, d) * d == -((-x) / d * d);
  }

  /** Every upper bound in whole blocks is at least the ceiling. */
  lemma CeilLeast(x: int, d: int, m: int)
    requires d > 0
    ensures x <= m * d <==> CeilDiv(x, d) <= m
  {
    CeilFacts(x, d);
    MulMono(CeilDiv(x, d), m, d);
    MulMono(m, CeilDiv(x, d) - 1, d);
  }

  lemma CeilMono(x: int, y: int, d: int)
    requires d > 0 && x <= y
    ensures CeilDiv(x, d) <= CeilDiv(y, d)
  {
    CeilFacts(y, d);
    CeilLeast(x, d, CeilDiv(y, d));
  }

  /** Rounding up two parts costs between nothing and one unit more than rounding up the sum. */
  lemma CeilSplit(x: int, y: int, d: int)
    requires d > 0
    ensures CeilDiv(x + y, d) <= CeilDiv(x, d) + CeilDiv(y, d) <= CeilDiv(x + y, d) + 1
  {
    var a, b := CeilDiv(x, d), CeilDiv(y, d);
    CeilFacts(x, d);
    CeilFacts(y, d);
    assert a * d + b * d == (a + b) * d;
    CeilLeast(x + y, d, a + b);
    assert (a - 1) * d + (b - 1) * d == (a + b - 2) * d;
    CeilLeast(x + y, d, a + b - 2);
  }

  // ---------------------------------------------------------------- overnight windows

  function WindowStart(startHour: nat, day: int): int { day * DAY + startHour * HOUR }

  function WindowLength(startHour: nat, endHour: nat): int {
    if endHour <= startHour then DAY + (endHour - startHour) * HOUR else (endHour - startHour) * HOUR
  }

  /** The window that begins on `day` shares an instant with the stay [from, to). */
  predicate Touches(from: int, to: int, startHour: nat, endHour: nat, day: int) {
    && WindowStart(startHour, day) < to
    && WindowStart(startHour, day) + WindowLength(startHour, endHour) > from
  }

  function FirstDay(from: int, startHour: nat, endHour: nat): int {
    (from - startHour * HOUR - WindowLength(startHour, endHour)) / DAY + 1
  }

  function EndDay(to: int, startHour: nat): int { CeilDiv(to - startHour * HOUR, DAY) }

  lemma StartsBeforeIff(to: int, startHour: nat, day: int)
    ensures WindowStart(startHour, day) < to <==> day < EndDay(to, startHour)
  {
  }

  lemma EndsAfterIff(from: int, startHour: nat, endHour: nat, day: int)
    ensures WindowStart(startHour, day) + WindowLength(startHour, endHour) > from
            <==> FirstDay(from, startHour, endHour) <= day
  {
  }

  ghost function DaysBetween(lo: int, hi: int): set<int>
    decreases hi - lo
  {
    if lo >= hi then {} else DaysBetween(lo, hi - 1) + {hi - 1}
  }

  lemma {:induction false} DaysBetweenFacts(lo: int, hi: int)
    ensures forall d :: d in DaysBetween(lo, hi) <==> lo <= d < hi
    ensures |DaysBetween(lo, hi)| == if lo <= hi then hi - lo else 0
    decreases hi - lo
  {
    if lo < hi {
      DaysBetweenFacts(lo, hi - 1);
    }
  }

  /** All the days, out of all integers, whose window meets the stay. */
  ghost function TouchedDays(from: int, to: int, startHour: nat, endHour: nat): (days: set<int>)
    ensures forall d :: d in days <==> Touches(from, to, startHour, endHour, d)
  {
    var days := DaysBetween(FirstDay(from, startHour, endHour), EndDay(to, startHour));
    assert forall d :: d in days <==> Touches(from, to, startHour, endHour, d) by {
      forall d ensures d in days <==> Touches(from, to, startHour, endHour, d) {
        DaysBetweenFacts(FirstDay(from, startHour, endHour), EndDay(to, startHour));
        StartsBeforeIff(to, startHour, d);
        EndsAfterIff(from, startHour, endHour, d);
      }
    }
    days
  }

  /** The loop starts no later than the first window that can meet the stay, and ends. */
  lemma OneDayBackSuffices(from: int, to: int, startHour: nat, endHour: nat)
    requires HoursOk(startHour, endHour) && startHour != endHour && from < to
    ensures from / DAY - 1 <= FirstDay(from, startHour, endHour) <= EndDay(to, startHour)
  {
  }

  /** The day-by-day loop is exact: it returns the number of daily windows, over all days there
      are, that meet the stay; starting one day back misses none. */
  method OvernightCrossings(from: int, to: int, startHour: nat, endHour: nat) returns (crossings: nat)
    requires HoursOk(startHour, endHour)
    ensures startHour == endHour || to <= from ==> crossings == 0
    ensures startHour != endHour && from < to ==> crossings == |TouchedDays(from, to, startHour, endHour)|
    ensures crossings == Crossings(from, to, startHour, endHour)
  {
    if startHour == endHour || to <= from {
      return 0;
    }
    crossings := 0;
    var day := from / DAY - 1;
    ghost var first, end := FirstDay(from, startHour, endHour), EndDay(to, startHour);
    OneDayBackSuffices(from, to, startHour, endHour);
    while true
      invariant crossings == (if day > first then day - first else 0)
      invariant day <= first || day <= end
      decreases end - day
    {
      var wStart := WindowStart(startHour, day);
      var wEnd := wStart + WindowLength(startHour, endHour);
      StartsBeforeIff(to, startHour, day);
      EndsAfterIff(from, startHour, endHour, day);
      if wStart >= to {
        break;
      }
      if wEnd > from {
        crossings := crossings + 1;
      }
      day := day + 1;
    }
    DaysBetweenFacts(first, end);
  }

  /** The number of overnight windows a stay meets, in closed form. */
  function Crossings(from: int, to: int, startHour: nat, endHour: nat): int {
    if startHour == endHour || to <= from then 0
    else EndDay(to, startHour) - FirstDay(from, startHour, endHour)
  }

  /** Splitting a stay meets at most one window twice, and loses none. */
  lemma CrossingsSplit(from: int, mid: int, to: int, startHour: nat, endHour: nat)
    requires HoursOk(startHour, endHour) && from < mid < to
    ensures var whole := Crossings(from, to, startHour, endHour);
            var parts := Crossings(from, mid, startHour, endHour) + Crossings(mid, to, startHour, endHour);
            whole <= parts <= whole + 1
  {
  }

  lemma CrossingsMono(from: int, to: int, from': int, to': int, startHour: nat, endHour: nat)
    requires HoursOk(startHour, endHour) && from' <= from < to <= to'
    ensures 0 <= Crossings(from, to, startHour, endHour) <= Crossings(from', to', startHour, endHour)
  {
  }

  // ------------------------------------------------------------------------ the fee

  function EffectiveBlock(r: Rules): (b: int)
    ensures b > 0
  {
    if r.blockMinutes > 0 then r.blockMinutes else 60
  }

  /** Started blocks at the hourly rate, prorated to the block size, rounded up. */
  function BlockCharge(hourly: nat, block: int, ticks: int): int
    requires block > 0
  {
    CeilDiv(CeilDiv(ticks, block * MINUTE) * (hourly * block), 60)
  }

  function Capped(charge: int, daily: Option<nat>, ticks: int): int {
    if daily.Some? then Min(charge, CeilDiv(ticks, DAY) * daily.value) else charge
  }

  function Surcharge(r: Rules, offset: int, entered: int, exited: int): int {
    if r.overnight.Some?
    then Crossings(entered + offset, exited + offset, r.startHour, r.endHour) * r.overnight.value
    else 0
  }

  /** The estimate for [entered, exited) at a site whose clock is `offset` ahead of UTC. */
  function EstimateFee(r: Rules, offset: int, entered: int, exited: int): Option<int> {
    if r.hourly.None? then None
    else if exited <= entered then Some(0)
    else if exited - entered <= r.graceMinutes * MINUTE then Some(0)
    else
      var ticks := exited - entered;
      var charge := Capped(BlockCharge(r.hourly.value, EffectiveBlock(r), ticks), r.daily, ticks);
      Some(charge + Surcharge(r, offset, entered, exited))
  }

  lemma BlockChargeMono(hourly: nat, block: int, x: int, y: int)
    requires block > 0 && 0 <= x <= y
    ensures 0 <= BlockCharge(hourly, block, x) <= BlockCharge(hourly, block, y)
  {
    var size, rate := block * MINUTE, hourly * block;
    assert rate >= 0;
    CeilMono(0, x, size);
    CeilMono(x, y, size);
    MulMono(0, CeilDiv(x, size), rate);
    MulMono(CeilDiv(x, size), CeilDiv(y, size), rate);
    CeilMono(0, CeilDiv(x, size) * rate, 60);
    CeilMono(CeilDiv(x, size) * rate, CeilDiv(y, size) * rate, 60);
  }

  lemma CappedMono(a: int, b: int, daily: Option<nat>, x: int, y: int)
    requires 0 <= a <= b && 0 <= x <= y
    ensures 0 <= Capped(a, daily, x) <= Capped(b, daily, y)
  {
    if daily.Some? {
      CeilMono(0, x, DAY);
      CeilMono(x, y, DAY);
      MulMono(0, CeilDiv(x, DAY), daily.value);
      MulMono(CeilDiv(x, DAY), CeilDiv(y, DAY), daily.value);
    }
  }

  lemma SurchargeMono(r: Rules, offset: int, a: int, b: int, a': int, b': int)
    requires HoursOk(r.startHour, r.endHour) && a' <= a < b <= b'
    ensures 0 <= Surcharge(r, offset, a, b) <= Surcharge(r, offset, a', b')
  {
    if r.overnight.Some? {
      CrossingsMono(a + offset, b + offset, a' + offset, b' + offset, r.startHour, r.endHour);
      var n, n' := Crossings(a + offset, b + offset, r.startHour, r.endHour),
                   Crossings(a' + offset, b' + offset, r.startHour, r.endHour);
      MulMono(0, n, r.overnight.value);
      MulMono(n, n', r.overnight.value);
    }
  }

  /** A stay contained in another never costs more, and no estimate is negative. */
  lemma FeeMonotone(r: Rules, offset: int, a: int, b: int, a': int, b': int)
    requires HoursOk(r.startHour, r.endHour) && r.hourly.Some? && a' <= a && b <= b'
    ensures 0 <= EstimateFee(r, offset, a, b).value <= EstimateFee(r, offset, a', b').value
  {
    if a < b {
      var h, block := r.hourly.value, EffectiveBlock(r);
      BlockChargeMono(h, block, b - a, b' - a');
      CappedMono(BlockCharge(h, block, b - a), BlockCharge(h, block, b' - a'), r.daily, b - a, b' - a');
      SurchargeMono(r, offset, a, b, a', b');
    } else if a' < b' {
      var h, block := r.hourly.value, EffectiveBlock(r);
      BlockChargeMono(h, block, b' - a', b' - a');
      CappedMono(BlockCharge(h, block, b' - a'), BlockCharge(h, block, b' - a'), r.daily, b' - a', b' - a');
      SurchargeMono(r, offset, a', b', a', b');
    }
  }

  /** The block charge covers the time at the hourly rate and overshoots by less than one block
      and one unit: hourly * t / 60 <= charge < hourly * (t + block) / 60 + 1, in minutes. */
  lemma BlockChargeBounds(hourly: nat, block: int, ticks: int)
    requires block > 0 && ticks >= 0
    ensures hourly * ticks <= BlockCharge(hourly, block, ticks) * (60 * MINUTE)
                            < hourly * (ticks + block * MINUTE) + 60 * MINUTE
  {
    var size, rate := block * MINUTE, hourly * block;
    var n := CeilDiv(ticks, size);
    var c := BlockCharge(hourly, block, ticks);
    CeilFacts(ticks, size);
    CeilFacts(n * rate, 60);
    assert (n - 1) * size == n * size - size;
    MulMono(ticks, n * size, hourly);
    MulMono(n * size, ticks + size, hourly);
    assert n * rate * MINUTE == n * size * hourly;
    assert c * (60 * MINUTE) == c * 60 * MINUTE;
  }

  lemma BlockChargeSplit(hourly: nat, block: int, x: int, y: int)
    requires block > 0 && x >= 0 && y >= 0
    ensures var parts := BlockCharge(hourly, block, x) + BlockCharge(hourly, block, y);
            BlockCharge(hourly, block, x + y) <= parts <=
            BlockCharge(hourly, block, x + y) + CeilDiv(hourly * block, 60) + 1
  {
    var size, rate := block * MINUTE, hourly * block;
    var m, n, w := CeilDiv(x, size), CeilDiv(y, size), CeilDiv(x + y, size);
    CeilSplit(x, y, size);
    assert rate >= 0;
    ProductSplit(m, n, w, rate);
    CeilSplit(m * rate, n * rate, 60);
    CeilMono(w * rate, m * rate + n * rate, 60);
    CeilMono(m * rate + n * rate, w * rate + rate, 60);
    CeilSplit(w * rate, rate, 60);
  }

  lemma SurchargeSplit(r: Rules, offset: int, a: int, c: int, b: int)
    requires HoursOk(r.startHour, r.endHour) && a < c < b
    ensures var parts := Surcharge(r, offset, a, c) + Surcharge(r, offset, c, b);
            Surcharge(r, offset, a, b) <= parts <=
            Surcharge(r, offset, a, b) + if r.overnight.Some? then r.overnight.value else 0
  {
    if r.overnight.Some? {
      CrossingsSplit(a + offset, c + offset, b + offset, r.startHour, r.endHour);
      ProductSplit(Crossings(a + offset, c + offset, r.startHour, r.endHour),
                   Crossings(c + offset, b + offset, r.startHour, r.endHour),
                   Crossings(a + offset, b + offset, r.startHour, r.endHour), r.overnight.value);
    }
  }

  lemma ProductSplit(i: int, j: int, w: int, k: nat)
    requires w <= i + j <= w + 1
    ensures w * k <= i * k + j * k <= w * k + k
  {
    MulMono(w, i + j, k);
    MulMono(i + j, w + 1, k);
    assert (i + j) * k == i * k + j * k;
    assert (w + 1) * k == w * k + k;
  }

  /** Leaving and re-entering never saves money and costs at most one more rounded-up block, one
      unit of rounding and one overnight surcharge, with no grace period and no daily cap. */
  lemma FeeSplit(r: Rules, offset: int, a: int, c: int, b: int)
    requires HoursOk(r.startHour, r.endHour) && r.hourly.Some? && a < c < b
    requires r.graceMinutes == 0 && r.daily.None?
    ensures var whole := EstimateFee(r, offset, a, b).value;
            var parts := EstimateFee(r, offset, a, c).value + EstimateFee(r, offset, c, b).value;
            whole <= parts <= whole + CeilDiv(r.hourly.value * EffectiveBlock(r), 60) + 1 +
                              if r.overnight.Some? then r.overnight.value else 0
  {
    BlockChargeSplit(r.hourly.value, EffectiveBlock(r), c - a, b - c);
    SurchargeSplit(r, offset, a, c, b);
  }

  // ------------------------------------------------------------ what a fee is made of

  /** The closed form counts the windows that meet the stay, over all days there are. */
  lemma CrossingsAreTouchedDays(from: int, to: int, startHour: nat, endHour: nat)
    requires HoursOk(startHour, endHour) && startHour != endHour && from < to
    ensures Crossings(from, to, startHour, endHour) == |TouchedDays(from, to, startHour, endHour)|
  {
    OneDayBackSuffices(from, to, startHour, endHour);
    DaysBetweenFacts(FirstDay(from, startHour, endHour), EndDay(to, startHour));
  }

  /** The instant lies in the overnight window that begins on `day`. */
  predicate InWindow(t: int, startHour: nat, endHour: nat, day: int) {
    WindowStart(startHour, day) <= t < WindowStart(startHour, day) + WindowLength(startHour, endHour)
  }

  /** A window meets a stay exactly when they share an instant. */
  lemma TouchesIsSharing(from: int, to: int, startHour: nat, endHour: nat, day: int)
    requires HoursOk(startHour, endHour) && startHour != endHour && from < to
    ensures Touches(from, to, startHour, endHour, day) <==>
            exists t :: from <= t < to && InWindow(t, startHour, endHour, day)
  {
    if Touches(from, to, startHour, endHour, day) {
      var t := Max(from, WindowStart(startHour, day));
      assert from <= t < to && InWindow(t, startHour, endHour, day);
    }
  }

  /** The overnight windows by the clock: from the start hour to the end hour of the same day, or past
      midnight when the end hour is not later. */
  lemma NightByTheClock(t: int, startHour: nat, endHour: nat)
    requires HoursOk(startHour, endHour) && startHour != endHour
    ensures var clock := t % DAY;
      (exists day :: InWindow(t, startHour, endHour, day)) <==>
      if startHour < endHour then startHour * HOUR <= clock < endHour * HOUR
      else startHour * HOUR <= clock || clock < endHour * HOUR
  {
    var day := t / DAY;
    assert t == day * DAY + t % DAY;
    forall d ensures InWindow(t, startHour, endHour, d) ==> d == day || d == day - 1 {
    }
    assert InWindow(t, startHour, endHour, day) || InWindow(t, startHour, endHour, day - 1) <==>
           if startHour < endHour then startHour * HOUR <= t % DAY < endHour * HOUR
           else startHour * HOUR <= t % DAY || t % DAY < endHour * HOUR;
  }

  /** Past the grace period the overnight rate is added once for every overnight window, in the site's
      own time, that the stay meets. */
  lemma OvernightOnTop(r: Rules, offset: int, a: int, b: int)
    requires HoursOk(r.startHour, r.endHour) && r.hourly.Some? && r.overnight.Some? && r.startHour != r.endHour
    requires a < b && b - a > r.graceMinutes * MINUTE
    ensures EstimateFee(r, offset, a, b).value == EstimateFee(r.(overnight := None), offset, a, b).value +
            |TouchedDays(a + offset, b + offset, r.startHour, r.endHour)| * r.overnight.value
  {
    CrossingsAreTouchedDays(a + offset, b + offset, r.startHour, r.endHour);
  }

  /** The cap: the daily rate for every started 24 hours, if that is less. */
  lemma CapOnTop(r: Rules, offset: int, a: int, b: int, days: int)
    requires r.hourly.Some? && r.overnight.None? && r.daily.Some?
    requires a < b && b - a > r.graceMinutes * MINUTE && (days - 1) * DAY < b - a <= days * DAY
    ensures EstimateFee(r, offset, a, b).value ==
            Min(EstimateFee(r.(daily := None), offset, a, b).value, days * r.daily.value)
  {
    CeilLeast(b - a, DAY, days);
    CeilLeast(b - a, DAY, days - 1);
  }

  /** The charge: the least amount that covers every started block at the hourly rate. */
  lemma ChargeIsLeast(r: Rules, offset: int, a: int, b: int, blocks: int)
    requires r.hourly.Some? && r.overnight.None? && r.daily.None?
    requires a < b && b - a > r.graceMinutes * MINUTE
    requires var size := EffectiveBlock(r) * MINUTE; (blocks - 1) * size < b - a <= blocks * size
    ensures var fee, price := EstimateFee(r, offset, a, b).value, blocks * (r.hourly.value * EffectiveBlock(r));
            (fee - 1) * 60 < price <= fee * 60
  {
    var size := EffectiveBlock(r) * MINUTE;
    CeilLeast(b - a, size, blocks);
    CeilLeast(b - a, size, blocks - 1);
    CeilFacts(blocks * (r.hourly.value * EffectiveBlock(r)), 60);
  }

  /** Free up to and including the grace period, not estimable without a rate. */
  lemma FreeOrUnpriced(r: Rules, offset: int, a: int, b: int)
    ensures EstimateFee(r, offset, a, b).None? <==> r.hourly.None?
    ensures r.hourly.Some? && (b <= a || b - a <= r.graceMinutes * MINUTE) ==> EstimateFee(r, offset, a, b) == Some(0)
  {
  }

  /** A block size that is not positive counts as an hour. */
  lemma BlockOrHour(r: Rules)
    ensures EffectiveBlock(r) == if r.blockMinutes >= 1 then r.blockMinutes else 60
  {
  }
}
