/** Guild experience: how it is gained, and how levels are bought with it. */
module GuildLevel {
  const UINT_MAX: nat := 0xFFFF_FFFF

  /** guild_exp[100]: what each level costs. */
  type Table = t: seq<nat> | |t| == 100 witness seq(100, _ => 0)

  /** guild_nextexp. */
  function NextExp(t: Table, level: int): (n: nat)
    ensures n > 0 ==> 0 <= level < 100
  {
    if level == 0 then 1 else if 0 < level < 100 then t[level - 1] else 0
  }

  /** The part of a guild that its level depends on. */
  datatype Level = Level(lv: int, skillPoint: int, exp: nat)

  /** One level bought. */
  function Bought(t: Table, g: Level): Level
    requires g.exp >= NextExp(t, g.lv)
  {
    Level(g.lv + 1, g.skillPoint + 1, g.exp - NextExp(t, g.lv))
  }

  predicate CanBuy(t: Table, g: Level) { g.exp >= NextExp(t, g.lv) && NextExp(t, g.lv) > 0 }

  /** The loop of guild_calcinfo. */
  function BuyAll(t: Table, g: Level): Level
    decreases 100 - g.lv
  {
    if CanBuy(t, g) then BuyAll(t, Bought(t, g)) else g
  }

  /** guild_calcinfo, as far as the level goes. */
  function CalcLevel(t: Table, g: Level): Level {
    BuyAll(t, if g.lv <= 0 then g.(lv := 1) else g)
  }

  /** The cost of the levels from one up to another. */
  function Cost(t: Table, from: int, to: int): nat
    decreases to - from
  {
    if from >= to then 0 else NextExp(t, from) + Cost(t, from + 1, to)
  }

  /** Levelling loses no experience: what is gone is the cost of the levels gained. It
      gives a skill point for each, and stops when the next level is too dear or there
      is none. */
  lemma {:induction false} BuyAllConserves(t: Table, g: Level)
    ensures var r := BuyAll(t, g);
      && r.lv >= g.lv
      && g.exp == r.exp + Cost(t, g.lv, r.lv)
      && r.skillPoint - g.skillPoint == r.lv - g.lv
      && (r.exp < NextExp(t, r.lv) || NextExp(t, r.lv) == 0)
      && (g.lv <= 100 ==> r.lv <= 100)
    decreases 100 - g.lv
  {
    if CanBuy(t, g) {
      BuyAllConserves(t, Bought(t, g));
    }
  }

  /** It buys as many levels as it can: any level reached could be paid for, and had a
      price, and the one after the last could not. */
  lemma {:induction false} BuysEveryLevel(t: Table, g: Level, lv: int)
    requires g.lv <= lv < BuyAll(t, g).lv
    ensures NextExp(t, lv) > 0 && Cost(t, g.lv, lv + 1) <= g.exp
    decreases lv - g.lv
  {
    if lv > g.lv {
      BuysEveryLevel(t, Bought(t, g), lv);
    }
  }

  /** The sum of the entries from the lo-th on, before the hi-th. */
  function Sum(t: Table, lo: int, hi: int): nat
    requires 0 <= lo <= hi <= 100
    decreases hi - lo
  {
    if lo == hi then 0 else t[lo] + Sum(t, lo + 1, hi)
  }

  /** Level l costs entry l - 1 of the table. */
  lemma {:induction false} CostIsSum(t: Table, lo: int, hi: int)
    requires 1 <= lo <= hi <= 100
    ensures Cost(t, lo, hi) == Sum(t, lo - 1, hi - 1)
    decreases hi - lo
  {
    if lo < hi {
      CostIsSum(t, lo + 1, hi);
    }
  }

  /** A guild pays for its new levels by the table, entry by entry, until it cannot pay the
      next entry, or that is 0, or there is none: no level is skipped, and none is free. */
  lemma LevelsArePaidFor(t: Table, g: Level)
    requires g.lv <= 100
    ensures var first := if g.lv <= 0 then 1 else g.lv; var r := CalcLevel(t, g);
      && first <= r.lv <= 100
      && g.exp == r.exp + Sum(t, first - 1, r.lv - 1)
      && (forall k :: first - 1 <= k < r.lv - 1 ==> t[k] > 0)
      && (r.lv < 100 ==> t[r.lv - 1] == 0 || r.exp < t[r.lv - 1])
  {
    var first := if g.lv <= 0 then 1 else g.lv;
    var r := CalcLevel(t, g);
    CalcLevelConserves(t, g);
    CostIsSum(t, first, r.lv);
    forall k | first - 1 <= k < r.lv - 1 ensures t[k] > 0 {
      BuysEveryLevel(t, if g.lv <= 0 then g.(lv := 1) else g, k + 1);
    }
  }

  lemma NothingBeyond(t: Table, g: Level)
    requires g.lv >= 100
    ensures CalcLevel(t, g) == g
  {
  }

  lemma CalcLevelConserves(t: Table, g: Level)
    ensures var first := if g.lv <= 0 then 1 else g.lv; var r := CalcLevel(t, g);
      && r.lv >= first
      && g.exp == r.exp + Cost(t, first, r.lv)
      && r.skillPoint - g.skillPoint == r.lv - first
      && (r.exp < NextExp(t, r.lv) || NextExp(t, r.lv) == 0)
      && (first <= 100 ==> r.lv <= 100)
  {
    BuyAllConserves(t, if g.lv <= 0 then g.(lv := 1) else g);
  }

  /** Calculating again changes nothing. */
  lemma CalcLevelTwice(t: Table, g: Level)
    ensures CalcLevel(t, CalcLevel(t, g)) == CalcLevel(t, g)
  {
    CalcLevelConserves(t, g);
  }

  // ------------------------------------------------------------------------ the tax

  /** The guild's share of what a member gained, in 32-bit arithmetic; rate is a
      percentage. */
  function Share(gained: nat, rate: nat): nat {
    if rate == 100 then gained else Hundredth32(gained * rate)
  }

  /** A product as unsigned int arithmetic has it, divided by 100. */
  function Hundredth32(x: nat): nat { x % 0x1_0000_0000 / 100 }

  /** Addition that stops at UINT_MAX. */
  function Saturating(exp: nat, gain: nat): nat {
    if gain > UINT_MAX - exp then UINT_MAX else exp + gain
  }

  /** The guild's level after a member's experience changed: only a rise counts. */
  function GainExp(t: Table, g: Level, was: nat, now: nat, rate: nat): Level {
    if now > was then CalcLevel(t, g.(exp := Saturating(g.exp, Share(now - was, rate)))) else g
  }

  lemma HundredLess(x: nat, y: nat)
    requires y + 100 <= x
    ensures y / 100 < x / 100
  {
    assert (y + 100) / 100 == y / 100 + 1;
  }

  lemma WrapIsSmaller(x: nat)
    requires x > UINT_MAX
    ensures x % 0x1_0000_0000 + 0x1_0000_0000 <= x
  {
  }

  lemma WrapShows(x: nat)
    ensures Hundredth32(x) == x / 100 <==> x <= UINT_MAX
  {
    if x > UINT_MAX {
      WrapIsSmaller(x);
      HundredLess(x, x % 0x1_0000_0000);
    }
  }

  lemma ShareOf(gained: nat, rate: nat, x: nat)
    requires rate != 100 && x == gained * rate
    ensures Share(gained, rate) == Hundredth32(x)
  {
  }

  /** The share is the percentage, rounded down, iff the product fits in 32 bits. */
  lemma ShareIsExact(gained: nat, rate: nat)
    requires gained <= UINT_MAX && rate != 100
    ensures Share(gained, rate) == gained * rate / 100 <==> gained * rate <= UINT_MAX
  {
    var x := gained * rate;
    ShareOf(gained, rate, x);
    WrapShows(x);
  }

  /** At twice the rate 43000000 points become 100654. */
  lemma ShareWraps()
    ensures Share(43_000_000, 200) == 100_654 != 43_000_000 * 200 / 100
  {
  }

  /** Nothing is lost between the members and the guild but what does not fit. */
  lemma GainIsConserved(t: Table, g: Level, was: nat, now: nat, rate: nat)
    requires g.exp <= UINT_MAX && was < now <= UINT_MAX && g.lv >= 1
    ensures var r := GainExp(t, g, was, now, rate); var gain := Share(now - was, rate);
      r.exp + Cost(t, g.lv, r.lv) == if g.exp + gain > UINT_MAX then UINT_MAX else g.exp + gain
  {
    CalcLevelConserves(t, g.(exp := Saturating(g.exp, Share(now - was, rate))));
  }

  /** A member's experience that does not rise gives the guild nothing. */
  lemma NoGainWithoutRise(t: Table, g: Level, was: nat, now: nat, rate: nat)
    requires now <= was
    ensures GainExp(t, g, was, now, rate) == g
  {
  }

  /** At the full rate the guild gets all of a rise. */
  lemma FullRate(gained: nat)
    ensures Share(gained, 100) == gained
  {
  }

  // ----------------------------------------------------------------- in the server

  class Info {
    const table: Table
    var lv: int
    var skillPoint: int
    var exp: nat
    var nextExp: nat

    ghost function View(): Level
      reads this
    {
      Level(lv, skillPoint, exp)
    }

    /** guild_calcinfo: levels are bought one by one. */
    method CalcInfo()
      modifies this
      ensures View() == CalcLevel(table, old(View()))
      ensures nextExp == NextExp(table, lv)
    {
      if lv <= 0 {
        lv := 1;
      }
      ghost var first := View();
      var nextexp := NextExp(table, lv);
      while exp >= nextexp && nextexp > 0
        invariant nextexp == NextExp(table, lv)
        invariant BuyAll(table, View()) == BuyAll(table, first)
        decreases 100 - lv
      {
        exp := exp - nextexp;
        lv := lv + 1;
        skillPoint := skillPoint + 1;
        nextexp := NextExp(table, lv);
      }
      nextExp := nextexp;
    }

    /** GMI_EXP: a member's experience goes from was to now. */
    method MemberExp(was: nat, now: nat, rate: nat)
      requires exp <= UINT_MAX
      modifies this
      ensures View() == GainExp(table, old(View()), was, now, rate)
    {
      if now > was {
        var gain := now - was;
        if rate != 100 {
          gain := Hundredth32(gain * rate);
        }
        if gain > UINT_MAX - exp {
          exp := UINT_MAX;
        } else {
          exp := exp + gain;
        }
        CalcInfo();
      }
    }
  }
}
