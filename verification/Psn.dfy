/** 24-bit packet sequence numbers (include/rxe/rxe_param.h). */
module Psn {
  /** The PSN that packet number n carries. */
  function Wrap(n: int): (psn: nat)
    ensures psn < 0x100_0000
  {
    n % 0x100_0000
  }

  /** psn_compare: the 32-bit difference, shifted left by eight and read as signed. */
  function PsnCompare(a: nat, b: nat): int {
    var diff := (((a - b) % 0x1_0000_0000) * 256) % 0x1_0000_0000;
    if diff < 0x8000_0000 then diff else diff - 0x1_0000_0000
  }

  lemma WrapDifference(a: int, b: int)
    ensures Wrap(a) == Wrap(b) <==> Wrap(a - b) == 0
  {
  }

  /** The shift keeps exactly the lowest 24 bits of the difference. */
  lemma CompareByDifference(a: nat, b: nat)
    ensures PsnCompare(a, b) == 256 * (if Wrap(a - b) < 0x80_0000 then Wrap(a - b) else Wrap(a - b) - 0x100_0000)
  {
    var d := a - b;
    var q := d / 0x1_0000_0000;
    var u := d % 0x1_0000_0000;
    assert d == q * 0x1_0000_0000 + u;
    assert Wrap(d) == Wrap(u);
    assert u == (u / 0x100_0000) * 0x100_0000 + Wrap(u);
    assert u * 256 == (u / 0x100_0000) * 0x1_0000_0000 + Wrap(u) * 256;
  }

  /** Any two 32-bit values that carry packet numbers m and n compare as the numbers themselves
      if and only if the numbers are less than half the space apart. */
  lemma CompareIsExact(a: nat, b: nat, m: int, n: int)
    requires Wrap(a) == Wrap(m) && Wrap(b) == Wrap(n)
    ensures PsnCompare(a, b) == 256 * (m - n) <==> -0x80_0000 <= m - n < 0x80_0000
  {
    CompareByDifference(a, b);
    WrapSubtract(a, b, m, n);
  }

  lemma WrapSubtract(a: int, b: int, m: int, n: int)
    requires Wrap(a) == Wrap(m) && Wrap(b) == Wrap(n)
    ensures Wrap(a - b) == Wrap(m - n)
  {
    WrapDifference(a, m);
    WrapDifference(b, n);
    var p, q := (a - m) / 0x100_0000, (b - n) / 0x100_0000;
    assert a - m == 0x100_0000 * p && b - n == 0x100_0000 * q;
    assert (a - b) - (m - n) == 0x100_0000 * (p - q);
  }

  lemma WrapNext(n: int)
    ensures Wrap(Wrap(n) + 1) == Wrap(n + 1)
    ensures Wrap(Wrap(n) - 1) == Wrap(n - 1)
  {
    hide Wrap;
    WrapAdd(n, 1);
    WrapAdd(n, -1);
  }

  lemma WrapTwice(n: int)
    ensures Wrap(Wrap(n)) == Wrap(n)
  {
  }

  lemma WrapAdd(n: int, k: int)
    ensures Wrap(Wrap(n) + k) == Wrap(n + k)
  {
    WrapTwice(n);
    hide Wrap;
    WrapSubtract(Wrap(n), -k, n, -k);
    assert Wrap(n) - -k == Wrap(n) + k && n - -k == n + k;
  }
}
