/** Powers of two, and numbers cut into aligned blocks. */
module Arithmetic {
  // ---------- powers of two ----------

  function Pow2(k: nat): (p: nat)
    ensures p > 0
  {
    if k == 0 then 1 else 2 * Pow2(k - 1)
  }

  lemma {:induction false} Pow2Add(j: nat, k: nat)
    ensures Pow2(j + k) == Pow2(j) * Pow2(k)
  {
    if j > 0 {
      Pow2Add(j - 1, k);
    }
  }

  lemma Pow2Values()
    ensures Pow2(8) == 0x100
    ensures Pow2(16) == 0x1_0000
    ensures Pow2(24) == 0x100_0000
    ensures Pow2(32) == 0x1_0000_0000
    ensures Pow2(64) == 0x1_0000_0000_0000_0000
  {
    assert Pow2(4) == 16;
    Pow2Add(4, 4);
    Pow2Add(8, 8);
    Pow2Add(8, 16);
    Pow2Add(16, 16);
    Pow2Add(32, 32);
  }

  lemma Pow2Mono(j: nat, k: nat)
    requires j < k
    ensures Pow2(j) < Pow2(k)
  {
    if j + 1 < k {
      Pow2Mono(j, k - 1);
    }
  }

  lemma Pow2AtMost(j: nat, k: nat)
    requires j <= k
    ensures Pow2(j) <= Pow2(k)
  {
    if j < k {
      Pow2Mono(j, k);
    }
  }

  // ---------- aligned blocks of numbers ----------

  lemma DivBlock(x: nat, q: nat, h: nat)
    requires h > 0
    ensures x / h == q <==> q * h <= x < q * h + h
  {
    var d := x / h;
    assert d * h <= x < d * h + h;
    if d < q {
      assert (d + 1) * h <= q * h;
    } else if q < d {
      assert (q + 1) * h <= d * h;
    }
  }

  lemma MulMono(x: int, y: int, h: nat)
    requires x <= y
    ensures x * h <= y * h
  {
  }

  lemma DivDiv(x: nat, m: nat, h: nat)
    requires m > 0 && h > 0
    ensures m * h > 0
    ensures x / (m * h) == (x / h) / m
  {
    var d := x / h;
    var e := d / m;
    BlockOfBlocks(x, d, e, m, h);
    DivBlock(x, e, m * h);
  }

  lemma BlockOfBlocks(x: nat, d: nat, e: nat, m: nat, h: nat)
    requires m > 0 && h > 0
    requires d == x / h && e == d / m
    ensures e * (m * h) <= x < e * (m * h) + m * h
  {
    DivBlock(x, d, h);
    DivBlock(d, e, m);
    MulMono(e * m, d, h);
    MulMono(d + 1, e * m + m, h);
    assert e * (m * h) == (e * m) * h;
    assert (d + 1) * h == d * h + h;
    assert (e * m + m) * h == (e * m) * h + m * h;
  }
}
