/** Machine words shared by the modules: bytes as bit-vectors, addresses as
    bounded integers with explicit wrap-around. */
module Words {
  datatype Option<+T> = None | Some(value: T)

  type byte = bv8

  const TWO32: int := 0x1_0000_0000
  const TWO64: int := 0x1_0000_0000_0000_0000

  type u32 = x: int | 0 <= x < 0x1_0000_0000
  type u64 = x: int | 0 <= x < 0x1_0000_0000_0000_0000

  predicate Mentions(s: string, part: string) {
    exists i | 0 <= i <= |s| :: part <= s[i..]
  }

  function Without<T>(s: seq<T>, i: nat): seq<T>
    requires i < |s|
  {
    s[..i] + s[i + 1..]
  }

  /** 64-bit addition with wrap-around. */
  function Add64(a: u64, b: int): u64 {
    (a + b) % TWO64
  }

  lemma Add64Small(a: u64, b: int)
    requires 0 <= a + b < TWO64
    ensures Add64(a, b) == a + b
  {
  }

  lemma Add64Assoc(a: u64, b: int, c: int)
    ensures Add64(Add64(a, b), c) == Add64(a, b + c)
  {
    var q := (a + b) / TWO64;
    assert a + b == q * TWO64 + Add64(a, b);
    ModShift(Add64(a, b) + c, q);
  }

  lemma Add64Injective(a: u64, b: int, c: int)
    requires 0 <= b < TWO64 && 0 <= c < TWO64 && Add64(a, b) == Add64(a, c)
    ensures b == c
  {
    var p, q := (a + b) / TWO64, (a + c) / TWO64;
    assert b - c == (p - q) * TWO64;
  }

  lemma ModShift(x: int, q: int)
    ensures (x + q * TWO64) % TWO64 == x % TWO64
  {
    var k := x / TWO64;
    var r := x % TWO64;
    assert x + q * TWO64 == (k + q) * TWO64 + r;
    ModUnique(x + q * TWO64, k + q, r);
  }

  lemma ModUnique(x: int, k: int, r: int)
    requires x == k * TWO64 + r && 0 <= r < TWO64
    ensures x % TWO64 == r
  {
    var k', r' := x / TWO64, x % TWO64;
    assert (k - k') * TWO64 == r' - r;
  }

  lemma SliceOfSlice<T>(s: seq<T>, a: nat, b: nat, c: nat, d: nat)
    requires a <= b <= |s| && c <= d <= b - a
    ensures s[a..b][c..d] == s[a + c..a + d]
  {
    assert forall i | 0 <= i < d - c :: s[a..b][c..d][i] == s[a..b][c + i];
    assert s[a..b][c..d] == s[a + c..a + d];
  }
}
