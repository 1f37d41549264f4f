/** What the audio modules share. */
module Samples {
  type S16 = x: int | -32768 <= x <= 32767

  function Clamp16(x: int): S16 {
    if x < -32768 then -32768 else if x > 32767 then 32767 else x
  }

  lemma ProductBounds(d: int, y: int)
    requires d >= 0 && -32768 <= y <= 32767
    ensures -32768 * d <= d * y <= 32767 * d
  {
    NotNegative(d, y + 32768);
    NotNegative(d, 32767 - y);
    assert d * (y + 32768) == d * y + 32768 * d;
    assert d * (32767 - y) == 32767 * d - d * y;
  }

  lemma NotNegative(a: int, b: int)
    requires a >= 0 && b >= 0
    ensures a * b >= 0
  {
  }
}
