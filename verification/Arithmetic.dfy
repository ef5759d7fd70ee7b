/** Integer division, shared by the calendar and the text encoding. */
module Arithmetic {

  /** A quotient and a remainder that fit are the quotient and the remainder. */
  lemma Divides(n: int, k: int, q: int, r: int)
    requires k > 0 && n == k * q + r && 0 <= r < k
    ensures n / k == q && n % k == r
  {
    var e := n / k - q;
    assert k * e == r - n % k;
    assert e >= 1 ==> k * e >= k;
    assert e <= -1 ==> k * e <= -k;
  }
}
