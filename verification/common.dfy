/** Shared vocabulary: bytes, optional values, the C-string view of a byte
    array, the unsigned 16-bit truncation the firmware's index variables
    perform, and the modular-arithmetic facts the ring-buffer proofs rely on. */
module Common {

  /** An 8-bit unsigned value; `char` and `uint8_t` data are modelled as bytes. */
  type byte = x: int | 0 <= x < 256

  datatype Option<T> = None | Some(value: T)

  /** The NUL value that terminates C strings (the buffer's `end_item`). */
  const EndItem: byte := 0

  /** Line terminator searched for by line-oriented consumption. */
  const Newline: byte := 10

  function Min(a: int, b: int): (r: int)
    ensures r <= a && r <= b
    ensures r == a || r == b
  {
    if a < b then a else b
  }

  /** Storing an `int` into a `uint16_t` keeps it modulo 2^16. */
  function U16(x: int): (r: nat)
    ensures r < 0x1_0000
    ensures 0 <= x < 0x1_0000 ==> r == x
  {
    x % 0x1_0000
  }

  /** The bytes a C routine sees in a NUL-terminated array: everything before
      the first `EndItem` (the whole sequence when there is none). */
  function CString(s: seq<byte>): (r: seq<byte>)
    ensures |r| <= |s| && r == s[..|r|]
    ensures EndItem !in r
    ensures |r| < |s| ==> s[|r|] == EndItem
  {
    if |s| == 0 || s[0] == EndItem then [] else [s[0]] + CString(s[1..])
  }

  /** The bytes of `s` in the opposite order. */
  function Reverse(s: seq<byte>): (r: seq<byte>)
    ensures |r| == |s|
    ensures forall i :: 0 <= i < |s| ==> r[i] == s[|s| - 1 - i]
  {
    seq(|s|, i requires 0 <= i < |s| => s[|s| - 1 - i])
  }

  // ---------------------------------------------------------------------
  // Modular arithmetic used by the ring-buffer index proofs

  /** Euclidean division is unique: a quotient/remainder pair that
      reconstructs `x` is the one `/` and `%` produce. */
  lemma ModUnique(x: int, q: int, r: int, m: int)
    requires m > 0 && 0 <= r < m && x == q * m + r
    ensures x % m == r && x / m == q
  {
    var q' := x / m;
    var r' := x % m;
    var d := q' - q;
    assert d * m == r - r' by {
      assert x == q' * m + r';
      assert q' * m - q * m == d * m;
    }
    if d > 0 {
      MulAtLeast(d, m);
    } else if d < 0 {
      MulAtLeast(-d, m);
    }
  }

  lemma MulAtLeast(d: int, m: int)
    requires d >= 1 && m > 0
    ensures d * m >= m
  {
    assert d * m == (d - 1) * m + m;
  }

  /** Adding less than one period to a reduced value wraps at most once. */
  lemma ModAddSmall(a: nat, i: nat, m: nat)
    requires m > 0 && i < m
    ensures (a + i) % m == (if a % m + i < m then a % m + i else a % m + i - m)
  {
    var q := a / m;
    var r := a % m;
    assert a == q * m + r;
    if r + i < m {
      ModUnique(a + i, q, r + i, m);
    } else {
      ModUnique(a + i, q + 1, r + i - m, m);
    }
  }

  /** A whole period does not change the residue. */
  lemma ModAddPeriod(a: nat, m: nat)
    requires m > 0
    ensures (a + m) % m == a % m
  {
    var q := a / m;
    var r := a % m;
    assert a == q * m + r;
    ModUnique(a + m, q + 1, r, m);
  }

  /** Values below the modulus are their own residue. */
  lemma ModBelow(a: nat, m: nat)
    requires a < m
    ensures a % m == a
  {
    ModUnique(a, 0, a, m);
  }

  /** Below two periods, reduction subtracts the modulus at most once. */
  lemma ModNear(a: nat, m: nat)
    requires 0 < m && a < 2 * m
    ensures a % m == (if a < m then a else a - m)
  {
    if a < m {
      ModUnique(a, 0, a, m);
    } else {
      ModUnique(a, 1, a - m, m);
    }
  }

  /** Offsets that differ by less than one period land on different residues. */
  lemma ModDistinct(a: nat, d1: nat, d2: nat, m: nat)
    requires m > 0 && d1 < d2 < d1 + m
    ensures (a + d1) % m != (a + d2) % m
  {
    ModAddSmall(a + d1, d2 - d1, m);
  }
}
