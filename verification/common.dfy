/**
 * Shared vocabulary for the audio-playback and nRF Cloud models: bytes, the C
 * unsigned conversions the sources rely on, little-endian 16-bit fields, and
 * an open storage file with a read cursor.
 */
module Common {

  type byte = x: int | 0 <= x < 256

  const U16Modulus: int := 0x1_0000
  const U32Modulus: int := 0x1_0000_0000
  /** INT_MAX of the 32-bit targets: C `int` arithmetic beyond it is undefined. */
  const IntMax: int := 0x7FFF_FFFF

  datatype Option<+T> = None | Some(value: T)

  function Min(a: int, b: int): (m: int)
    ensures m <= a && m <= b
    ensures m == a || m == b
  {
    if a <= b then a else b
  }

  /** Conversion of an integer value to `uint16_t` (C reduces modulo 2^16). */
  function ToU16(x: int): (r: nat)
    ensures r < U16Modulus
    ensures 0 <= x < U16Modulus ==> r == x
    ensures (x - r) % U16Modulus == 0
  {
    x % U16Modulus
  }

  /** Conversion of an integer value to `uint32_t` / 32-bit `size_t`. */
  function ToU32(x: int): (r: nat)
    ensures r < U32Modulus
    ensures 0 <= x < U32Modulus ==> r == x
    ensures (x - r) % U32Modulus == 0
  {
    x % U32Modulus
  }

  /** The value of a little-endian `uint16_t` stored as bytes `lo`, `hi`. */
  function LeU16(lo: byte, hi: byte): (v: nat)
    ensures v < U16Modulus
  {
    lo + 256 * hi
  }

  /** The two little-endian bytes of a `uint16_t`. */
  function U16Bytes(v: nat): (b: seq<byte>)
    requires v < U16Modulus
    ensures |b| == 2
    ensures LeU16(b[0], b[1]) == v
  {
    [v % 256, v / 256]
  }

  /** Bytes to value and back: every byte pair is the encoding of the value it denotes. */
  lemma LeU16Inverse(lo: byte, hi: byte)
    ensures U16Bytes(LeU16(lo, hi)) == [lo, hi]
  {
  }

  /**
   * The memory of a buffer after a copy of `got` into its start: a short copy
   * leaves the tail with whatever the buffer held before.
   */
  function Overlay<T>(buf: seq<T>, got: seq<T>): (r: seq<T>)
    requires |got| <= |buf|
    ensures |r| == |buf|
    ensures r[..|got|] == got
    ensures r[|got|..] == buf[|got|..]
  {
    got + buf[|got|..]
  }

  /** An open file on the SD card: its contents and the read cursor. */
  datatype File = File(data: seq<byte>, pos: nat)
  type OpenFile = f: File | f.pos <= |f.data| witness File([], 0)

  /** Bytes left between the cursor and the end of the file. */
  function Remaining(f: OpenFile): nat
  {
    |f.data| - f.pos
  }

  /**
   * A successful driver read (or skip) of up to `n` bytes: it is short only
   * at the end of the file, and advances the cursor by what it delivered.
   */
  function Read(f: OpenFile, n: nat): (r: (seq<byte>, OpenFile))
    ensures |r.0| == Min(n, Remaining(f))
    ensures r.0 == f.data[f.pos .. f.pos + |r.0|]
    ensures r.1.data == f.data && r.1.pos == f.pos + |r.0|
  {
    var k := Min(n, Remaining(f));
    (f.data[f.pos .. f.pos + k], File(f.data, f.pos + k))
  }

  /** Two consecutive reads deliver what one read of the combined size does. */
  lemma ReadSplit(f: OpenFile, m: nat, n: nat)
    requires m + n <= Remaining(f)
    ensures Read(f, m).0 + Read(Read(f, m).1, n).0 == Read(f, m + n).0
    ensures Read(Read(f, m).1, n).1 == Read(f, m + n).1
  {
    var s := f.pos;
    assert f.data[s .. s + m] + f.data[s + m .. s + m + n] == f.data[s .. s + m + n];
  }

  // ---------------------------------------------------------------------
  // Nonlinear arithmetic the solver needs spelled out

  lemma MulDivExact(a: nat, b: nat)
    requires b > 0
    ensures (a * b) / b == a
  {
    var q := (a * b) / b;
    var r := (a * b) % b;
    assert a * b == q * b + r;
    assert (a - q) * b == r;
    if a > q {
      MulAtLeast(a - q, b);
    }
  }

  lemma MulAtLeast(x: nat, b: nat)
    requires x >= 1
    ensures x * b >= b
  {
    assert x * b == (x - 1) * b + b;
  }

  /** Floor division brackets its dividend, and a dividend below `m` divisors gives a quotient below `m`. */
  lemma DivBounds(a: nat, d: nat, m: nat)
    requires d > 0 && a < d * m
    ensures (a / d) * d <= a < (a / d + 1) * d
    ensures 0 <= a / d < m
  {
    var q := a / d;
    assert a == q * d + a % d;
    assert (q + 1) * d == q * d + d;
    if q < 0 {
      MulMono(0, -q - 1, d);
    } else {
      MulCancelLt(q, m, d);
    }
  }

  lemma MulMono(x: nat, y: nat, d: nat)
    requires x <= y
    ensures x * d <= y * d
  {
    assert y * d == x * d + (y - x) * d;
  }

  /** A strict inequality between multiples of the same number is one between the factors. */
  lemma MulCancelLt(x: nat, y: nat, d: nat)
    requires x * d < y * d
    ensures x < y
  {
    if x >= y {
      MulMono(y, x, d);
    }
  }

  /** All blocks, one after another. */
  function Flatten<T>(blocks: seq<seq<T>>): seq<T>
  {
    if blocks == [] then [] else blocks[0] + Flatten(blocks[1..])
  }

  /** Blocks with one more in front flatten to that block followed by the rest. */
  lemma FlattenCons<T>(b: seq<T>, rest: seq<seq<T>>)
    ensures Flatten([b] + rest) == b + Flatten(rest)
  {
    assert ([b] + rest)[1..] == rest;
  }
}
