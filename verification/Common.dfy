/** Machine integers, floors and small types shared by every component of the gateway model. */
module Common {

  datatype Option<+T> = None | Some(value: T)

  const TWO_31 := 0x8000_0000
  const TWO_32 := 0x1_0000_0000
  const TWO_64 := 0x1_0000_0000_0000_0000
  const TWO_128 := 0x1_0000_0000_0000_0000_0000_0000_0000_0000

  type I32 = x: int | -TWO_31 <= x < TWO_31
  type U32 = x: int | 0 <= x < TWO_32
  type U64 = x: int | 0 <= x < TWO_64

  /** Release-mode `i32` arithmetic and `as i32`: the representative of `x` modulo 2^32. */
  function WrapI32(x: int): (r: I32)
    ensures -TWO_31 <= x ==> r <= x
    ensures -TWO_31 <= x < TWO_31 ==> r == x
  {
    (x + TWO_31) % TWO_32 - TWO_31
  }

  /** Wrapping at every step is wrapping once. */
  lemma WrapI32Add(x: int, y: int)
    ensures WrapI32(WrapI32(x) + y) == WrapI32(x + y)
  {
    assert (WrapI32(x) - x) % TWO_32 == 0;
    var k := (WrapI32(x) - x) / TWO_32;
    assert WrapI32(x) + y + TWO_31 == x + y + TWO_31 + k * TWO_32;
  }

  function WrapU64(x: int): (r: U64)
    ensures 0 <= x < TWO_64 ==> r == x
  {
    x % TWO_64
  }

  lemma WrapU64Succ(x: nat)
    ensures WrapU64(WrapU64(x) + 1) == WrapU64(x + 1)
  {
  }

  function Max(a: int, b: int): int {
    if a < b then b else a
  }

  function Min(a: int, b: int): int {
    if a < b then a else b
  }

  lemma MulMonotone(a: int, b: int, c: int)
    requires a <= b
    requires 0 <= c
    ensures a * c <= b * c
  {
    assert (b - a) * c >= 0;
  }

  lemma MulCancel(a: int, b: int, c: int)
    requires 0 < c
    requires a * c < b * c
    ensures a < b
  {
    if b <= a {
      MulMonotone(b, a, c);
    }
  }

  lemma Distribute(x: int, y: int, z: int)
    ensures x * (y + z) == x * y + x * z
  {
  }

  function CeilDiv(a: nat, d: nat): nat
    requires 0 < d
  {
    (a + d - 1) / d
  }

  /** A multiple of `d` that fits below `a` is at most the floor. */
  lemma DivLower(a: int, d: int, q: int)
    requires 0 < d
    requires q * d <= a
    ensures q <= a / d
  {
    assert a == d * (a / d) + a % d;
    Distribute(d, a / d, 1);
    MulCancel(q, a / d + 1, d);
  }

  lemma DivUpper(a: int, d: int, q: int)
    requires 0 < d
    requires a < (q + 1) * d
    ensures a / d <= q
  {
    assert a == d * (a / d) + a % d;
    MulCancel(a / d, q + 1, d);
  }

  lemma DivMonotone(a: int, b: int, d: int)
    requires 0 < d
    requires a <= b
    ensures a / d <= b / d
  {
    DivLower(b, d, a / d);
  }

  /** Flooring twice never yields more than flooring the sum. */
  lemma FloorSuperadditive(a: int, b: int, d: int)
    requires 0 < d
    ensures a / d + b / d <= (a + b) / d
  {
    assert a == d * (a / d) + a % d && b == d * (b / d) + b % d;
    Distribute(d, a / d, b / d);
    DivLower(a + b, d, a / d + b / d);
  }

  lemma ModUnique(x: int, d: int, q: int, r: int)
    requires 0 <= r < d
    requires x == q * d + r
    ensures x / d == q && x % d == r
  {
    Distribute(d, q, 1);
    DivLower(x, d, q);
    DivUpper(x, d, q);
  }

  /** Counting on by one moves the residue on by one, or back to zero. */
  lemma ModNext(x: nat, d: nat)
    requires 0 < d
    ensures (x + 1) % d == if x % d == d - 1 then 0 else x % d + 1
  {
    var q, r := x / d, x % d;
    assert x == d * q + r;
    Distribute(d, q, 1);
    if r == d - 1 {
      ModUnique(x + 1, d, q + 1, 0);
    } else {
      ModUnique(x + 1, d, q, r + 1);
    }
  }
}
