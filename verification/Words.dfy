/** Optional results, machine words and the one-lap reduction that replaces "% size" in specifications. */
module Words {

  datatype Option<+T> = None | Some(value: T)

  /** Number of values of the 32-bit size_t / uint32_t of the target. */
  const WORD: int := 0x1_0000_0000

  type Byte = bv8

  type Word = x: int | 0 <= x < WORD

  /** Position x on a ring of m cells, for x less than two laps. */
  function Wrap(x: nat, m: nat): nat
    requires m <= x ==> x < 2 * m
  {
    if x < m then x else x - m
  }

  lemma ModIsWrap(x: nat, m: nat)
    requires x < 2 * m
    ensures x % m == Wrap(x, m)
  {
    if m <= x {
      assert x == m * 1 + (x - m);
      DivUnique(x, m, 1, x - m);
    } else {
      DivUnique(x, m, 0, x);
    }
  }

  lemma DivUnique(x: int, m: nat, q: int, r: nat)
    requires r < m && x == m * q + r && 0 < m
    ensures x % m == r
  {
    var d := x / m - q;
    assert x == m * (x / m) + x % m;
    assert m * (x / m) == m * q + m * d;
    assert d >= 1 ==> m * d >= m;
    assert d <= -1 ==> m * d <= -1 * m;
  }

  /** How far "to" lies ahead of "from" on a ring of n cells; equal positions mean a full lap. */
  function Distance(from: nat, to: Word, n: nat): (d: nat)
    requires n > 0
  {
    var d := (to - from + n) % WORD % n;
    if d == 0 then n else d
  }

  lemma DistanceReaches(from: nat, to: Word, n: nat)
    requires from < n && to <= n && 2 * n < WORD
    ensures 1 <= Distance(from, to, n) <= n
    ensures Wrap(from + Distance(from, to, n), n) == to % n
  {
    var x := to - from + n;
    assert x % WORD == x;
    if to == n {
      DivUnique(to, n, 1, 0);
    } else {
      ModIsWrap(to, n);
    }
    if x == 2 * n {
      DivUnique(x, n, 2, 0);
    } else {
      ModIsWrap(x, n);
    }
  }

  function Min(a: nat, b: nat): nat {
    if a <= b then a else b
  }
}
