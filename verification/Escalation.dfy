/** Ban lengths that grow with each earlier ban of the same network, computed in saturating 64-bit
    arithmetic and cut off at a maximum. */
module Escalation {
  import opened Wrappers

  /** At most this many earlier bans are taken into account. */
  const MAX_STEPS: nat := 32

  function Scaled(base: nat, factor: nat, steps: nat): nat {
    if steps == 0 then base else Scaled(base, factor, steps - 1) * factor
  }

  /** The length after `count` earlier bans: base times factor to the count, between base and max. */
  function Escalated(base: nat, factor: nat, max: nat, count: nat): nat {
    Max(base, Min(max, Scaled(base, factor, Min(count, MAX_STEPS))))
  }

  ghost function Power(factor: nat, n: nat): nat {
    if n == 0 then 1 else factor * Power(factor, n - 1)
  }

  lemma {:induction false} ScaledIsPower(base: nat, factor: nat, steps: nat)
    ensures Scaled(base, factor, steps) == base * Power(factor, steps)
  {
    if steps > 0 {
      ScaledIsPower(base, factor, steps - 1);
      Regroup(base, Power(factor, steps - 1), factor);
    }
  }

  lemma Regroup(a: nat, b: nat, c: nat)
    ensures a * b * c == a * (c * b)
  {
  }

  lemma {:induction false} ScaledMonotone(base: nat, factor: nat, i: nat, j: nat)
    requires factor >= 1 && i <= j
    ensures Scaled(base, factor, i) <= Scaled(base, factor, j)
    decreases j
  {
    if i < j {
      ScaledMonotone(base, factor, i, j - 1);
      var s := Scaled(base, factor, j - 1);
      assert s * factor >= s * 1;
    }
  }

  lemma {:induction false} ScaledZero(base: nat, factor: nat, steps: nat)
    requires base == 0 || (factor == 0 && steps > 0)
    ensures Scaled(base, factor, steps) == 0
  {
    if steps > 0 {
      if base == 0 {
        ScaledZero(base, factor, steps - 1);
      }
      assert Scaled(base, factor, steps - 1) * factor == 0;
    }
  }

  /** The loop over earlier bans, with saturating multiplication and an early exit at the maximum. */
  method EscalateLoop(base: nat, factor: nat, max: nat, count: nat) returns (secs: nat)
    requires base <= U64_MAX && max <= U64_MAX
    ensures secs == Escalated(base, factor, max, count)
  {
    var steps := Min(count, MAX_STEPS);
    secs := base;
    for i := 0 to steps
      invariant secs == Scaled(base, factor, i)
      invariant i > 0 ==> secs < max
    {
      var product := secs * factor;
      assert product == Scaled(base, factor, i + 1);
      secs := Min(product, U64_MAX);
      if secs >= max {
        secs := max;
        if factor >= 1 {
          ScaledMonotone(base, factor, i + 1, steps);
        } else {
          ScaledZero(base, factor, i + 1);
        }
        break;
      }
    }
    secs := Max(secs, base);
  }

  /** More earlier bans never shorten a ban, and no ban is longer than the larger of base and max. */
  lemma EscalatedMonotone(base: nat, factor: nat, max: nat, i: nat, j: nat)
    requires i <= j
    ensures Escalated(base, factor, max, i) <= Escalated(base, factor, max, j)
    ensures base <= Escalated(base, factor, max, i) <= Max(base, max)
  {
    if factor >= 1 {
      ScaledMonotone(base, factor, Min(i, MAX_STEPS), Min(j, MAX_STEPS));
    } else if Min(i, MAX_STEPS) > 0 {
      ScaledZero(base, factor, Min(i, MAX_STEPS));
    }
  }

  lemma {:induction false} ScaledAtLeastDoubling(base: nat, factor: nat, steps: nat)
    requires base >= 1 && factor >= 2
    ensures Scaled(base, factor, steps) >= Scaled(1, 2, steps)
  {
    if steps > 0 {
      ScaledAtLeastDoubling(base, factor, steps - 1);
      var s, d := Scaled(base, factor, steps - 1), Scaled(1, 2, steps - 1);
      assert s * factor >= s * 2;
    }
  }

  lemma {:induction false} ScaledByOne(base: nat, steps: nat)
    ensures Scaled(base, 1, steps) == base
  {
    if steps > 0 {
      ScaledByOne(base, steps - 1);
    }
  }

  lemma ThirtyTwoDoublings()
    ensures Scaled(1, 2, MAX_STEPS) == 0x1_0000_0000
  {
    assert Scaled(1, 2, 8) == 0x100;
    assert Scaled(1, 2, 16) == 0x1_0000;
    assert Scaled(1, 2, 24) == 0x100_0000;
  }

  /** With a maximum of at most 2^32 seconds the cut at 32 steps is never noticed. */
  lemma CutIsInvisible(base: nat, factor: nat, max: nat, count: nat)
    requires max <= 0x1_0000_0000
    ensures Escalated(base, factor, max, count) == Max(base, Min(max, Scaled(base, factor, count)))
  {
    ThirtyTwoDoublings();
    hide Scaled;
    if count > MAX_STEPS {
      if base == 0 || factor == 0 {
        ScaledZero(base, factor, MAX_STEPS);
        ScaledZero(base, factor, count);
      } else if factor == 1 {
        ScaledByOne(base, MAX_STEPS);
        ScaledByOne(base, count);
      } else {
        ScaledAtLeastDoubling(base, factor, MAX_STEPS);
        ScaledMonotone(base, factor, MAX_STEPS, count);
      }
    }
  }
}
