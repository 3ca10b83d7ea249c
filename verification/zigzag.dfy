/** The ZigZag mapping between signed and unsigned integers of one width
    (32 bits for short and int, 64 bits for long), as written with shifts and xor. */
module ZigZag {
  import opened Bits

  /** `(n << 1) ^ (n >> (width - 1))`, computed on the width-bit two's-complement pattern. */
  function Encode(n: int, width: nat): (r: nat)
    requires SignedFits(n, width)
    ensures r < Pow2(width)
    ensures r == if n >= 0 then 2 * n else -2 * n - 1
  {
    var m := Pow2(width);
    // n << 1 wraps around to a width-bit pattern
    var shifted := (2 * n) % m;
    // n >> (width - 1) is an arithmetic shift: all ones for a negative n, zero otherwise
    var sign := if n < 0 then m - 1 else 0;
    // x ^ 0 is x, and x ^ (all ones) is the complement of x
    var r := if sign == 0 then shifted else m - 1 - shifted;
    EncodeValue(n, width);
    r
  }

  lemma EncodeValue(n: int, width: nat)
    requires SignedFits(n, width)
    ensures var m := Pow2(width);
            (if n < 0 then m - 1 - (2 * n) % m else (2 * n) % m) == if n >= 0 then 2 * n else -2 * n - 1
  {
    var m := Pow2(width);
    if n >= 0 {
      DivModUnique(2 * n, m, 0, 2 * n);
    } else {
      DivModUnique(2 * n, m, -1, 2 * n + m);
    }
  }

  /** `(n >> 1) ^ -(n & 1)` read back as a signed width-bit integer. */
  function Decode(n: nat, width: nat): (r: int)
    requires width >= 1 && n < Pow2(width)
    ensures SignedFits(r, width)
    ensures r >= 0 <==> n % 2 == 0
  {
    // n >> 1 is a logical shift; the cast to the signed type keeps its value
    var half := n / 2;
    // -(n & 1) is 0 or all ones; x ^ -1 is ~x, which is -x - 1
    if n % 2 == 0 then half else -half - 1
  }

  /** Decoding inverts encoding on every signed width-bit integer. */
  lemma DecodeEncode(n: int, width: nat)
    requires SignedFits(n, width)
    ensures Decode(Encode(n, width), width) == n
  {
    EncodeValue(n, width);
  }

  /** Encoding inverts decoding on every unsigned width-bit integer: the mapping is a bijection. */
  lemma EncodeDecode(u: nat, width: nat)
    requires width >= 1 && u < Pow2(width)
    ensures Encode(Decode(u, width), width) == u
  {
    EncodeValue(Decode(u, width), width);
  }

  /** A non-negative integer encodes to an even code and a negative one to an odd code. */
  lemma EncodeParity(n: int, width: nat)
    requires SignedFits(n, width)
    ensures Encode(n, width) % 2 == 0 <==> n >= 0
  {
  }
}
