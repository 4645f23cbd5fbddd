/** Little-endian fields of fixed width. */
module LittleEndian {
  import opened Bytes
  import opened Positional

  function Le(n: nat, width: nat): (bs: Bytes)
    ensures |bs| == width
  {
    if width == 0 then [] else [n % 256] + Le(n / 256, width - 1)
  }

  function Unle(bs: Bytes): nat {
    if bs == [] then 0 else bs[0] + 256 * Unle(bs[1..])
  }

  lemma {:induction false} UnleLe(n: nat, width: nat)
    ensures width == 4 && n < 0x1_0000_0000 ==> Unle(Le(n, width)) == n
    ensures width == 8 && n < 0x1_0000_0000_0000_0000 ==> Unle(Le(n, width)) == n
    ensures width == 2 && n < 0x1_0000 ==> Unle(Le(n, width)) == n
  {
    UnleLeBelow(n, width);
    assert Pow(256, 2) == 0x1_0000;
    PowAdd(256, 2, 2);
    PowAdd(256, 4, 4);
  }

  lemma {:induction false} UnleLeBelow(n: nat, width: nat)
    ensures n < Pow(256, width) ==> Unle(Le(n, width)) == n
  {
    if width > 0 {
      UnleLeBelow(n / 256, width - 1);
      assert Le(n, width)[1..] == Le(n / 256, width - 1);
    }
  }

  /** Fields of one width hold different numbers whenever the numbers fit and differ. */
  lemma LeInjective(a: nat, b: nat, width: nat)
    requires width == 4 || width == 8
    requires a < 0x1_0000_0000 || width == 8
    requires b < 0x1_0000_0000 || width == 8
    requires a < 0x1_0000_0000_0000_0000 && b < 0x1_0000_0000_0000_0000
    requires Le(a, width) == Le(b, width)
    ensures a == b
  {
    UnleLe(a, width);
    UnleLe(b, width);
  }

  /** Byte i of a field is digit i of the number in base 256, lowest first. */
  lemma {:induction false} LeAt(n: nat, width: nat, i: nat)
    requires i < width
    ensures Pow(256, i) > 0 && Le(n, width)[i] == n / Pow(256, i) % 256
  {
    PowPositive(256, i);
    if i > 0 {
      LeAt(n / 256, width - 1, i - 1);
      DivDiv(n, Pow(256, i - 1));
    }
  }

  /** Base-256 digits of a number, lowest first. */
  predicate AreLittleEndian(bs: Bytes, n: nat) {
    forall i | 0 <= i < |bs| :: Pow(256, i) > 0 && bs[i] == n / Pow(256, i) % 256
  }

  lemma LittleEndianIs(bs: Bytes, n: nat)
    requires AreLittleEndian(bs, n)
    ensures bs == Le(n, |bs|)
  {
    hide Le, Pow;
    forall i | 0 <= i < |bs|
      ensures bs[i] == Le(n, |bs|)[i]
    {
      LeAt(n, |bs|, i);
    }
  }

  lemma DivDiv(n: nat, p: nat)
    requires p > 0
    ensures n / 256 / p == n / (p * 256)
  {
    var q, r := n / 256, n % 256;
    var a, b := q / p, q % p;
    assert n == (a * p + b) * 256 + r == a * (p * 256) + (b * 256 + r);
    assert b * 256 + r < p * 256;
    UniqueDivision(p * 256, a, b * 256 + r, n / (p * 256), n % (p * 256));
  }
}
