/** The clock as the server reads it. */
module Ticks {
  /** gettick: milliseconds in 32 bits. */
  function Tick(now: nat): nat { now % 0x1_0000_0000 }

  /** DIFF_TICK: the signed 32-bit difference. */
  function DiffTick(a: nat, b: nat): int {
    var d := (a - b) % 0x1_0000_0000;
    if d < 0x8000_0000 then d else d - 0x1_0000_0000
  }

  /** The other way round it is negative. */
  lemma DiffTickBackwards(then_: nat, now: nat)
    requires then_ < now < then_ + 0x8000_0000
    ensures DiffTick(Tick(then_), Tick(now)) == then_ - now
  {
    var turns, before := now / 0x1_0000_0000, then_ / 0x1_0000_0000;
    assert now == turns * 0x1_0000_0000 + Tick(now) && then_ == before * 0x1_0000_0000 + Tick(then_);
    assert turns == before || turns == before + 1;
  }

  /** Less than half the range apart, the difference is the time that has passed. */
  lemma DiffTickIsElapsed(then_: nat, now: nat)
    requires then_ <= now < then_ + 0x8000_0000
    ensures DiffTick(Tick(now), Tick(then_)) == now - then_
  {
    var turns, before := now / 0x1_0000_0000, then_ / 0x1_0000_0000;
    assert now == turns * 0x1_0000_0000 + Tick(now) && then_ == before * 0x1_0000_0000 + Tick(then_);
    assert turns == before || turns == before + 1;
  }
}
