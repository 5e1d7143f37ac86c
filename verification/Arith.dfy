/** Arithmetic the other modules share. */
module Arith {
  function Max(a: int, b: int): int {
    if a < b then b else a
  }

  lemma MulAtLeast(a: int, b: int, w: int)
    requires a >= b && w >= 0
    ensures a * w >= b * w
  {
    assert (a - b) * w >= 0;
    assert (a - b) * w == a * w - b * w;
  }

  lemma DivMod(k: int, w: int)
    requires w > 0
    ensures k == (k / w) * w + k % w && 0 <= k % w < w && (k >= 0 ==> k / w >= 0)
  {
    if k >= 0 && k / w < 0 { MulAtLeast(-1, k / w, w); }
  }
}
