/** Packed grid coordinates: a cell (x, y, z) is one 32-bit integer with x in bits 0-7,
    y in bits 8-15 and z in bits 16-23.
    Masking a two's-complement integer with 0xFF keeps its residue modulo 256, and an
    arithmetic right shift by 8·k is floor division by 256^k; Dafny's `%` and `/` by a
    positive constant are exactly those operations, so the model states them that way. */
module Packed {

  type Byte = b: int | 0 <= b < 256

  /** `v & 0xFF` on a two's-complement integer. */
  function Low8(v: int): Byte
  {
    v % 256
  }

  /** `PackXyz(byte, byte, byte)`: the three bytes are or-ed into disjoint bit ranges. */
  function PackBytes(x: Byte, y: Byte, z: Byte): (r: int)
    ensures 0 <= r < 0x100_0000
  {
    x + 256 * y + 65536 * z
  }

  /** `PackXyz(int, int, int)`: every component is first masked to its low byte, so
      negative or oversized components wrap modulo 256. */
  function Pack(x: int, y: int, z: int): (r: int)
    ensures 0 <= r < 0x100_0000
    ensures r == PackBytes(Low8(x), Low8(y), Low8(z))
  {
    Low8(x) + 256 * Low8(y) + 65536 * Low8(z)
  }

  function X(v: int): Byte { Low8(v) }
  function Y(v: int): Byte { Low8(v / 256) }
  function Z(v: int): Byte { Low8(v / 65536) }

  /** `UnpackXyz`. */
  function Unpack(v: int): (r: (Byte, Byte, Byte))
    ensures r == (X(v), Y(v), Z(v))
  {
    (Low8(v), Low8(v / 256), Low8(v / 65536))
  }

  /** Adding whole multiples of 256 moves the quotient and keeps the remainder. */
  lemma Shift256(v: int, q: int)
    ensures (v + 256 * q) / 256 == v / 256 + q
    ensures (v + 256 * q) % 256 == v % 256
  {
  }

  /** `Pack` only sees the low byte of each component. */
  lemma PackCongruent(x: int, y: int, z: int, x': int, y': int, z': int)
    requires Low8(x) == Low8(x') && Low8(y) == Low8(y') && Low8(z) == Low8(z')
    ensures Pack(x, y, z) == Pack(x', y', z')
  {
  }

  /** Masking before an addition does not change the masked sum. */
  lemma Low8Add(u: int, i: int)
    ensures Low8(Low8(u) + i) == Low8(u + i)
  {
    Shift256(u + i, -(u / 256));
    assert Low8(u) + i == u + i + 256 * -(u / 256);
  }

  /** Two shifts by 8 are one shift by 16. */
  lemma DivDiv(v: int)
    ensures v / 256 / 256 == v / 65536
  {
    var a, q := v % 256, v / 256;
    var b, c := q % 256, q / 256;
    assert v == a + 256 * b + 65536 * c;
    assert 0 <= a + 256 * b < 65536;
  }

  /** Replace the x byte of `v` by the low byte of `x`, keeping every other bit. */
  function WithX(v: int, x: int): (r: int)
    ensures X(r) == Low8(x)
    ensures r / 256 == v / 256
  {
    Shift256(Low8(x), v / 256);
    v - Low8(v) + Low8(x)
  }

  /** Replace the y byte, keeping bits 0-7 and bits 16 and above. */
  function WithY(v: int, y: int): (r: int)
    ensures Y(r) == Low8(y)
    ensures X(r) == X(v)
    ensures r / 65536 == v / 65536
  {
    var u := v / 256;
    var r := v - 256 * Low8(u) + 256 * Low8(y);
    assert r == v % 256 + 256 * (Low8(y) + 256 * (u / 256));
    Shift256(v % 256, Low8(y) + 256 * (u / 256));
    Shift256(Low8(y), u / 256);
    DivDiv(v);
    DivDiv(r);
    r
  }

  /** Replace the z byte, keeping bits 0-15 and bits 24 and above. */
  function WithZ(v: int, z: int): (r: int)
    ensures Z(r) == Low8(z)
    ensures r % 65536 == v % 65536
    ensures r / 0x100_0000 == v / 0x100_0000
  {
    var w := v / 65536;
    var r := v - 65536 * Low8(w) + 65536 * Low8(z);
    assert r == v % 65536 + 65536 * (Low8(z) + 256 * (w / 256));
    assert r / 65536 == Low8(z) + 256 * (w / 256);
    Shift256(Low8(z), w / 256);
    assert r / 0x100_0000 == (r / 65536) / 256 by {
      assert r == r % 65536 + 65536 * (r / 65536);
    }
    assert v / 0x100_0000 == (v / 65536) / 256 by {
      assert v == v % 65536 + 65536 * (v / 65536);
    }
    r
  }

  /** The byte overloads of `WithX/WithY/WithZ` or a byte into cleared bits, which is the
      same as the int overloads on a value that is already a byte. */
  lemma WithByteAgrees(v: int, b: Byte)
    ensures WithX(v, b) == v - Low8(v) + b
    ensures WithY(v, b) == v - 256 * Low8(v / 256) + 256 * b
    ensures WithZ(v, b) == v - 65536 * Low8(v / 65536) + 65536 * b
  {
  }

  /** Packing then unpacking returns the three bytes. */
  lemma UnpackPack(x: Byte, y: Byte, z: Byte)
    ensures Unpack(PackBytes(x, y, z)) == (x, y, z)
  {
    var v := x + 256 * y + 65536 * z;
    assert v / 256 == y + 256 * z;
    assert v / 65536 == z;
  }

  /** Unpacking then packing returns every value of the 24-bit packed range. */
  lemma PackUnpack(v: int)
    requires 0 <= v < 0x100_0000
    ensures Pack(X(v), Y(v), Z(v)) == v
  {
    var a, q := v % 256, v / 256;
    var b, c := q % 256, q / 256;
    assert v == a + 256 * b + 65536 * c;
    assert v / 65536 == c;
    assert c < 256;
  }

  /** Two 24-bit packed values are equal iff all three components are. */
  lemma PackInjective(a: int, b: int)
    requires 0 <= a < 0x100_0000 && 0 <= b < 0x100_0000
    ensures a == b <==> Unpack(a) == Unpack(b)
  {
    PackUnpack(a);
    PackUnpack(b);
  }

  /** Components wrap: `Pack(x, y, z)` only sees `x`, `y` and `z` modulo 256, so a cell
      one step left of x = 0 is the cell at x = 255. */
  lemma PackWraps(x: int, y: int, z: int)
    ensures Pack(x + 256, y, z) == Pack(x, y, z)
    ensures Pack(x, y + 256, z) == Pack(x, y, z)
    ensures Pack(x, y, z + 256) == Pack(x, y, z)
    ensures Pack(-1, y, z) == Pack(255, y, z)
  {
  }

  /** Moving to a neighbouring cell through `Pack(X(v) + dx, ...)` shifts each component
      by the offset, modulo 256. */
  lemma PackComponents(x: int, y: int, z: int)
    ensures Unpack(Pack(x, y, z)) == (Low8(x), Low8(y), Low8(z))
  {
    UnpackPack(Low8(x), Low8(y), Low8(z));
  }

  /** Each component of a packed value is the low byte of the packed coordinate. */
  lemma PackAxes(x: int, y: int, z: int)
    ensures X(Pack(x, y, z)) == Low8(x) && Y(Pack(x, y, z)) == Low8(y) && Z(Pack(x, y, z)) == Low8(z)
  {
    var q := Pack(x, y, z);
    var u := Unpack(q);
    PackComponents(x, y, z);
    assert u == (Low8(x), Low8(y), Low8(z));
    assert u.0 == X(q) && u.1 == Y(q) && u.2 == Z(q);
  }
}
