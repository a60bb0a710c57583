/** Bytes, minima and the two facts about products that the counting arguments use. */
module Numbers {

  newtype byte = x: int | 0 <= x < 256

  function Min(a: nat, b: nat): nat {
    if a < b then a else b
  }

  lemma MulMono(c: int, x: int, y: int)
    requires c >= 0 && x <= y
    ensures c * x <= c * y && x * c <= y * c
  {
  }

  lemma MulSucc(c: int, x: int)
    ensures c * (x + 1) == c * x + c && (x + 1) * c == x * c + c
  {
  }
}
