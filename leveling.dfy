/** Level arithmetic: the level a given experience reaches and the experience still needed
    for the next one. The source computes `(int) ((Math.sqrt(2500 + 200 * exp) - 50) / 100)`;
    here the square root is the integer square root, which gives the same value on every
    experience the service accepts. */
module Leveling {
  import opened Validation

  /** The integer square root. */
  function ISqrt(n: nat): (r: nat)
    ensures r * r <= n < (r + 1) * (r + 1)
  {
    if n < 4 then
      (if n == 0 then 0 else 1)
    else
      var q := ISqrt(n / 4);
      HalvedRootBounds(n, q);
      var h := 2 * q;
      if (h + 1) * (h + 1) <= n then h + 1 else h
  }

  /** Doubling the root of n / 4 brackets the root of n between 2q and 2q + 1. */
  lemma HalvedRootBounds(n: nat, q: nat)
    requires q * q <= n / 4 < (q + 1) * (q + 1)
    ensures (2 * q) * (2 * q) <= n < (2 * q + 2) * (2 * q + 2)
  {
    var m := n / 4;
    assert (2 * q) * (2 * q) == 4 * (q * q);
    assert (2 * q + 2) * (2 * q + 2) == 4 * ((q + 1) * (q + 1));
    assert 4 * (q * q) <= 4 * m;
    assert 4 * m + 4 <= 4 * ((q + 1) * (q + 1));
  }

  lemma SquareMonotone(a: nat, b: nat)
    requires a <= b
    ensures a * a <= b * b
  {
    assert a * a <= a * b;
    assert a * b <= b * b;
  }

  /** (100L + 50)^2 and (100L + 150)^2 in terms of the level thresholds. */
  lemma BandSquares(lvl: nat)
    ensures (100 * lvl + 50) * (100 * lvl + 50) == 200 * (50 * lvl * (lvl + 1)) + 2500
    ensures (100 * lvl + 150) * (100 * lvl + 150) == 200 * (50 * (lvl + 1) * (lvl + 2)) + 2500
  {
  }

  /** The level a player with experience `exp` has reached: the largest `L` with
      50 * L * (L + 1) <= exp, so the next level is reached at 50 * (L + 1) * (L + 2). */
  function CurrentLevel(exp: int): (lvl: nat)
    requires 0 <= exp <= MAX_EXPERIENCE
    ensures 50 * lvl * (lvl + 1) <= exp < 50 * (lvl + 1) * (lvl + 2)
  {
    var x := 2500 + 200 * exp;
    var s := ISqrt(x);
    assert s >= 50 by {
      if s < 50 {
        SquareMonotone(s + 1, 50);
      }
    }
    var lvl := (s - 50) / 100;
    assert 100 * lvl + 50 <= s < 100 * lvl + 150;
    BandSquares(lvl);
    SquareMonotone(100 * lvl + 50, s);
    SquareMonotone(s + 1, 100 * lvl + 150);
    lvl
  }

  function UntilNextLevel(exp: int, lvl: int): int {
    50 * (lvl + 1) * (lvl + 2) - exp
  }

  /** 50 * L * (L + 1) grows with L. */
  lemma ThresholdMonotone(a: nat, b: nat)
    requires a <= b
    ensures 50 * a * (a + 1) <= 50 * b * (b + 1)
  {
    assert a * (a + 1) <= b * (a + 1) <= b * (b + 1);
  }

  /** No level above the computed one is reached: the computed level is the greatest. */
  lemma CurrentLevelIsGreatest(exp: int, lvl: nat)
    requires 0 <= exp <= MAX_EXPERIENCE
    requires 50 * lvl * (lvl + 1) <= exp
    ensures lvl <= CurrentLevel(exp)
  {
    var cur := CurrentLevel(exp);
    if lvl > cur {
      ThresholdMonotone(cur + 1, lvl);
    }
  }

  /** The level is determined by the two thresholds around the experience. */
  lemma CurrentLevelUnique(exp: int, lvl: nat)
    requires 0 <= exp <= MAX_EXPERIENCE
    requires 50 * lvl * (lvl + 1) <= exp < 50 * (lvl + 1) * (lvl + 2)
    ensures CurrentLevel(exp) == lvl
  {
    var cur := CurrentLevel(exp);
    CurrentLevelIsGreatest(exp, lvl);
    if cur > lvl {
      ThresholdMonotone(lvl + 1, cur);
    }
  }

  lemma CurrentLevelMonotone(e1: int, e2: int)
    requires 0 <= e1 <= e2 <= MAX_EXPERIENCE
    ensures CurrentLevel(e1) <= CurrentLevel(e2)
  {
    CurrentLevelIsGreatest(e2, CurrentLevel(e1));
  }

  /** A player always needs some experience for the next level, and never more than the
      width 100 * (L + 1) of the current level's band. */
  lemma UntilNextLevelBounds(exp: int)
    requires 0 <= exp <= MAX_EXPERIENCE
    ensures 0 < UntilNextLevel(exp, CurrentLevel(exp)) <= 100 * (CurrentLevel(exp) + 1)
  {
    BandWidth(CurrentLevel(exp));
  }

  /** Level L + 1 is reached 100 * (L + 1) after level L. */
  lemma BandWidth(lvl: nat)
    ensures 50 * (lvl + 1) * (lvl + 2) == 50 * lvl * (lvl + 1) + 100 * (lvl + 1)
  {
  }

  /** Experience 100 is level 1 with 200 to go. */
  lemma LevelAtHundred()
    ensures CurrentLevel(100) == 1 && UntilNextLevel(100, 1) == 200
  {
    assert 50 * 1 * (1 + 1) == 100 && 50 * (1 + 1) * (1 + 2) == 300;
    CurrentLevelUnique(100, 1);
  }

  /** Experience 0 is level 0 with 100 to go. */
  lemma LevelAtZero()
    ensures CurrentLevel(0) == 0 && UntilNextLevel(0, 0) == 100
  {
    assert 50 * 0 * (0 + 1) == 0 && 50 * (0 + 1) * (0 + 2) == 100;
    CurrentLevelUnique(0, 0);
  }

  /** The highest experience accepted is level 446. */
  lemma LevelAtMaximum()
    ensures CurrentLevel(MAX_EXPERIENCE) == 446
  {
    assert 50 * 446 * (446 + 1) == 9_968_100 && 50 * (446 + 1) * (446 + 2) == 10_012_800;
    CurrentLevelUnique(MAX_EXPERIENCE, 446);
  }
}
