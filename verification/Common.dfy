/** Small definitions shared by the other modules. */
module Common {

  datatype Option<+T> = None | Some(value: T)

  type byte = x: nat | x < 256

  function Min(a: nat, b: nat): nat {
    if a < b then a else b
  }

  /** Rounded up to a multiple of 4. */
  function Align4(n: nat): (r: nat)
    ensures n <= r < n + 4 && r % 4 == 0
  {
    if n % 4 == 0 then n else n + (4 - n % 4)
  }

  // ----- products, quotients and remainders -----

  /** `g` rows of `len` end before row `h` does. */
  lemma {:induction false} Rows(g: nat, h: nat, len: nat)
    requires g < h
    ensures g * len + len <= h * len
  {
    assert h * len == (h - 1) * len + len;
    if g < h - 1 { Rows(g, h - 1, len); }
  }

  lemma MulMagnitude(n: int, d: int)
    requires n >= 0
    ensures d >= 1 ==> n * d >= n
    ensures d <= -1 ==> n * d <= -n
    ensures d == 0 ==> n * d == 0
  {
    assert d >= 1 ==> n * (d - 1) >= 0;
    assert d <= -1 ==> n * (-1 - d) >= 0;
  }

  lemma ModUnique(x: int, q: int, r: int, n: nat)
    requires n > 0 && 0 <= r < n && x == n * q + r
    ensures x / n == q && x % n == r
  {
    assert x == n * (x / n) + x % n;
    assert n * (x / n - q) == r - x % n;
    MulMagnitude(n, x / n - q);
  }

  // ----- counting -----

  /** How many of the first `n` flags are set. */
  ghost function CountSet(f: seq<bool>, n: nat): nat
    requires n <= |f|
  {
    if n == 0 then 0 else CountSet(f, n - 1) + if f[n - 1] then 1 else 0
  }

  lemma {:induction false} CountOneMore(f: seq<bool>, h: seq<bool>, i: nat, n: nat)
    requires |f| == |h| && n <= |f| && i < |f| && !f[i] && h[i]
    requires forall j :: 0 <= j < |f| && j != i ==> h[j] == f[j]
    ensures CountSet(h, n) == CountSet(f, n) + if i < n then 1 else 0
  {
    if n > 0 { CountOneMore(f, h, i, n - 1); }
  }

  lemma {:induction false} CountNone(f: seq<bool>, n: nat)
    requires n <= |f| && forall j :: 0 <= j < |f| ==> !f[j]
    ensures CountSet(f, n) == 0
  {
    if n > 0 { CountNone(f, n - 1); }
  }
}
