module Powers {
  function Power2(n: nat): (r: nat) ensures r >= 1 { if n == 0 then 1 else 2 * Power2(n - 1) }

  lemma {:induction false} Power2Grows(a: nat, b: nat)
    requires a <= b
    ensures Power2(a) <= Power2(b)
    decreases b - a
  {
    if a < b { Power2Grows(a + 1, b); }
  }

  lemma {:induction false} Power2Adds(a: nat, b: nat)
    ensures Power2(a + b) == Power2(a) * Power2(b)
  {
    if a > 0 { Power2Adds(a - 1, b); }
  }
}
