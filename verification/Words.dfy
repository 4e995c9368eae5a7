/** Machine integers of the C sources, as ranges of `int`. */
module Words {
  const TWO_16: int := 0x1_0000
  const TWO_32: int := 0x1_0000_0000

  type uint8 = x: int | 0 <= x < 0x100
  type uint16 = x: int | 0 <= x < 0x1_0000
  type uint32 = x: int | 0 <= x < 0x1_0000_0000

  datatype Option<T> = None | Some(value: T)

  type Bytes = seq<uint8>

  /** A byte as an integer. */
  function Byte(b: Bytes, i: nat): (n: int)
    requires i < |b|
    ensures 0 <= n < 256
  {
    b[i]
  }

  /** Unsigned 32-bit addition with wrap-around. */
  function Add32(x: uint32, y: nat): uint32 {
    (x + y) % TWO_32
  }

  lemma AddTwice(p: uint32, a: nat, b: nat)
    ensures Add32(Add32(p, a), b) == Add32(p, a + b)
  {
    var q := (p + a) / TWO_32;
    assert p + a == q * TWO_32 + Add32(p, a);
    assert p + (a + b) == q * TWO_32 + (Add32(p, a) + b);
  }

  lemma MulMono(a: nat, b: nat, c: nat, d: nat)
    requires a <= b && c <= d
    ensures a * c <= b * d
  {
    var x, y := b - a, d - c;
    assert (a + x) * (c + y) == a * c + a * y + x * c + x * y;
  }
}
