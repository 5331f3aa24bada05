/** What several modules share: options, units, small sets and counters that wrap. */
module Common {

  datatype Option<+T> = None | Some(value: T)

  const SECOND := 1_000_000_000

  function Min(a: int, b: int): int { if b < a then b else a }

  /** The numbers below n. */
  function Below(n: nat): (r: set<int>)
    ensures forall x :: x in r <==> 0 <= x < n
    ensures |r| == n
  {
    if n == 0 then {} else Below(n - 1) + {n - 1}
  }

  lemma {:induction false} SubsetSize(a: set<int>, b: set<int>)
    requires a <= b
    ensures |a| <= |b|
  {
    assert b == a + (b - a);
  }

  /** A signed counter of which half the values are negative. */
  function Wrap(x: int, half: int): int
    requires half > 0
  {
    (x + half) % (2 * half) - half
  }

  // The wrapped value is the only one in the range that differs by a multiple of the width.
  lemma {:induction false} WrapIs(x: int, y: int, k: int, half: int)
    requires half > 0 && -half <= y < half && x == y + 2 * half * k
    ensures Wrap(x, half) == y
  {
    var width, q, r := 2 * half, (x + half) / (2 * half), (x + half) % (2 * half);
    assert x + half == width * q + r;
    assert x + half == width * k + (y + half);
    SameRemainder(width, q, r, k, y + half);
  }

  lemma {:induction false} SameRemainder(width: int, q: int, r: int, k: int, t: int)
    requires width > 0 && 0 <= r < width && 0 <= t < width
    requires width * q + r == width * k + t
    ensures r == t
  {
    var d := q - k;
    assert width * d == t - r;
    MultipleIsFar(width, d);
    assert d == 0;
  }

  lemma {:induction false} MultipleIsFar(width: int, d: int)
    requires width > 0
    ensures d >= 1 ==> width * d >= width
    ensures d <= -1 ==> width * d <= -width
  {
    if d >= 1 {
      assert width * (d - 1) >= 0;
    } else if d <= -1 {
      assert width * (-d - 1) >= 0;
    }
  }

  lemma {:induction false} WrapCarries(x: int, half: int) returns (k: int)
    requires half > 0
    ensures Wrap(x, half) == x - 2 * half * k
  {
    k := (x + half) / (2 * half);
  }

  lemma {:induction false} Distribute(w: int, d: int, c: int, l: int)
    ensures w * (d - c + l) == w * d - w * c + w * l
  {
  }

  lemma {:induction false} WrappedDifference(x: int, y: int, half: int)
    requires half > 0
    ensures Wrap(Wrap(x, half) - Wrap(y, half), half) == Wrap(x - y, half)
    ensures -half <= Wrap(x, half) < half
  {
    var c := WrapCarries(x, half);
    var l := WrapCarries(y, half);
    var d := WrapCarries(x - y, half);
    Distribute(2 * half, d, c, l);
    WrapIs(Wrap(x, half) - Wrap(y, half), Wrap(x - y, half), d - c + l, half);
  }

  lemma {:induction false} WrappedSum(x: int, y: int, half: int)
    requires half > 0
    ensures Wrap(Wrap(x, half) + y, half) == Wrap(x + y, half)
  {
    var c := WrapCarries(x, half);
    var d := WrapCarries(x + y, half);
    Distribute(2 * half, d, c, 0);
    WrapIs(Wrap(x, half) + y, Wrap(x + y, half), d - c, half);
  }
}
