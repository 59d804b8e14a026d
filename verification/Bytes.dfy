/** Bytes, hashes and the outcome of an operation that can throw: shared by every module. */
module Bytes {
  type Byte = b: int | 0 <= b < 256
  type Bytes = seq<Byte>

  // The double SHA-256 is foreign code: every definition that hashes takes it as a parameter
  // and assumes no more of it than the length of its result.
  type Hash = s: Bytes | |s| == 32 witness seq(32, _ => 0)
  type HashFn = Bytes -> Hash

  datatype Option<+T> = None | Some(value: T)

  /** What a call that can throw does: it returns normally, or it throws for the given reason. */
  datatype Outcome<+E> = Done | Thrown(reason: E)

  predicate Distinct<T(==)>(s: seq<T>) {
    forall i, j :: 0 <= i < j < |s| ==> s[i] != s[j]
  }

  ghost predicate Collision(h: HashFn, x: Bytes, y: Bytes) {
    x != y && h(x) == h(y)
  }

  function Reverse(s: Bytes): (r: Bytes)
    ensures |r| == |s|
  {
    if s == [] then [] else Reverse(s[1..]) + [s[0]]
  }

  lemma ReverseConcat(s: Bytes, t: Bytes)
    ensures Reverse(s + t) == Reverse(t) + Reverse(s)
  {
    if s == [] {
      assert s + t == t;
    } else {
      assert (s + t)[1..] == s[1..] + t;
    }
  }

  lemma {:induction false} ReverseReverse(s: Bytes)
    ensures Reverse(Reverse(s)) == s
  {
    if s != [] {
      ReverseReverse(s[1..]);
      ReverseConcat(Reverse(s[1..]), [s[0]]);
      assert Reverse([s[0]]) == [s[0]];
    }
  }

  function Pow2(n: nat): (p: nat)
    ensures p >= 1
  {
    if n == 0 then 1 else 2 * Pow2(n - 1)
  }

  function Pow256(n: nat): (p: nat)
    ensures p >= 1
  {
    if n == 0 then 1 else 256 * Pow256(n - 1)
  }

  lemma Pow2Eight(n: nat)
    ensures Pow2(n + 8) == 256 * Pow2(n)
  {
    assert Pow2(n + 2) == 4 * Pow2(n);
    assert Pow2(n + 4) == 4 * Pow2(n + 2);
    assert Pow2(n + 6) == 4 * Pow2(n + 4);
    assert Pow2(n + 8) == 4 * Pow2(n + 6);
  }

  // ----- Division

  lemma MulGrows(d: int, p: int)
    requires p > 0
    ensures d >= 1 ==> d * p >= p
    ensures d <= -1 ==> d * p <= -p
  {
  }

  lemma DivUnique(a: int, p: int, q: int, r: int)
    requires 0 <= r < p && a == q * p + r
    ensures a / p == q && a % p == r
  {
    var d := q - a / p;
    assert d * p == a % p - r;
    MulGrows(d, p);
  }

  lemma DivDiv(b: nat, p: nat)
    requires p > 0
    ensures (b / 2) / p == b / (2 * p)
  {
    var q, r := b / (2 * p), b % (2 * p);
    assert b == 2 * (q * p) + r;
    assert b / 2 == q * p + r / 2;
    DivUnique(b / 2, p, q, r / 2);
  }

  lemma HalfTwice(b: nat, p: nat)
    requires p > 0
    ensures b / (2 * p) == b / p / 2
  {
    var q, r := b / p, b % p;
    assert b == (q / 2) * (2 * p) + ((q % 2) * p + r);
    InGrid(p, 2, q % 2, r);
    DivUnique(b, 2 * p, q / 2, (q % 2) * p + r);
  }

  lemma MulMonotone(a: nat, b: nat, w: nat)
    requires a <= b
    ensures a * w <= b * w
  {
    if a < b {
      assert b * w == a * w + (b - a) * w;
    }
  }

  /** A place in m rows of w. */
  lemma InGrid(w: nat, m: nat, y: nat, x: nat)
    requires y < m && x < w
    ensures 0 <= y * w + x < m * w
  {
    MulMonotone(y + 1, m, w);
    assert (y + 1) * w == y * w + w;
  }

  /** Place (x, y) of a square stored row by row. */
  lemma Inside(width: nat, y: nat, x: nat)
    requires y < width && x < width
    ensures y * width + x < width * width
    ensures x + y * width == y * width + x
  {
    InGrid(width, width, y, x);
  }
}
