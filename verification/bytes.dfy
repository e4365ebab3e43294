/** Fixed-width unsigned integers, their little-endian encoding, and the
    `read_exact` primitive the parser is built from. */
module Bytes {
  import opened Outcomes

  const U32Limit: nat := 0x1_0000_0000

  type u8 = x: int | 0 <= x < 0x100
  type u32 = x: int | 0 <= x < 0x1_0000_0000

  /** The low 32 bits of `x`: a `u32` addition in a release build, or an
      `as u32` cast of a `usize`. */
  function Wrap(x: nat): (r: u32)
    ensures x < U32Limit ==> r == x
    ensures r <= x && (x - r) % U32Limit == 0
  {
    x % U32Limit
  }

  lemma WrapAdd(a: nat, b: nat)
    ensures Wrap(Wrap(a) + b) == Wrap(a + b)
  {
    var q := a / U32Limit;
    assert a == q * U32Limit + Wrap(a);
    assert a + b == q * U32Limit + (Wrap(a) + b);
  }

  /** `u32::to_le_bytes`. */
  function LeBytes(x: u32): (r: seq<u8>)
    ensures |r| == 4
  {
    var q1 := x / 0x100;
    var q2 := q1 / 0x100;
    [x % 0x100, q1 % 0x100, q2 % 0x100, q2 / 0x100]
  }

  /** `u32::from_le_bytes`: the first byte is the least significant, the
      last the most significant. */
  function LeValue(b: seq<u8>): (r: u32)
    requires |b| == 4
    ensures r % 0x100 == b[0]
    ensures (r / 0x100) % 0x100 == b[1]
    ensures (r / 0x1_0000) % 0x100 == b[2]
    ensures r / 0x100_0000 == b[3]
  {
    b[0] as int + 0x100 * (b[1] as int + 0x100 * (b[2] as int + 0x100 * b[3] as int))
  }

  lemma LeValueOfLeBytes(x: u32)
    ensures LeValue(LeBytes(x)) == x
  {
    var q1 := x / 0x100;
    var q2 := q1 / 0x100;
    var q3 := q2 / 0x100;
    SplitByte(x, x % 0x100, q1);
    SplitByte(q1, q1 % 0x100, q2);
    SplitByte(q2, q2 % 0x100, q3);
    var b := LeBytes(x);
    assert b[0] as int + 0x100 * (b[1] as int + 0x100 * (b[2] as int + 0x100 * b[3] as int))
        == x % 0x100 + 0x100 * (q1 % 0x100 + 0x100 * (q2 % 0x100 + 0x100 * q3));
  }

  lemma LeBytesOfLeValue(b: seq<u8>)
    requires |b| == 4
    ensures LeBytes(LeValue(b)) == b
  {
    var x := LeValue(b);
    var h1 := b[1] as int + 0x100 * (b[2] as int + 0x100 * b[3] as int);
    var h2 := b[2] as int + 0x100 * b[3] as int;
    SplitByte(x, b[0], h1);
    SplitByte(h1, b[1], h2);
    SplitByte(h2, b[2], b[3]);
  }

  /** Division and remainder by 256 of `lo + 256 * hi`. */
  lemma SplitByte(x: int, lo: int, hi: int)
    requires 0 <= lo < 0x100 && x == lo + 0x100 * hi
    ensures x % 0x100 == lo && x / 0x100 == hi
  {
  }

  /** `read_exact` into an `n`-byte buffer from a reader whose remaining input
      is `input`, followed (as at every read in `test` and `list_files`) by
      `unwrap` or `expect`: the first `n` bytes and what is left, or a panic when fewer
      than `n` bytes remain. */
  function ReadExact(input: seq<u8>, n: nat): (r: Outcome<(seq<u8>, seq<u8>)>)
    ensures !r.Err?
    ensures r.Ok? <==> n <= |input|
    ensures r.Ok? ==> |r.value.0| == n && r.value.0 + r.value.1 == input
  {
    if n <= |input| then Ok((input[..n], input[n..])) else Panic
  }

  /** `read_exact` into a `[u8; 4]` followed by `u32::from_le_bytes`. */
  function ReadU32(input: seq<u8>): (r: Outcome<(u32, seq<u8>)>)
    ensures !r.Err?
    ensures r.Ok? <==> 4 <= |input|
    ensures r.Ok? ==> LeBytes(r.value.0) + r.value.1 == input
  {
    var p :- ReadExact(input, 4);
    LeBytesOfLeValue(p.0);
    Ok((LeValue(p.0), p.1))
  }

  /** Reading a `u32` back from its encoding. */
  lemma ReadU32OfLeBytes(x: u32, rest: seq<u8>)
    ensures ReadU32(LeBytes(x) + rest) == Ok((x, rest))
  {
    LeValueOfLeBytes(x);
    assert (LeBytes(x) + rest)[..4] == LeBytes(x);
    assert (LeBytes(x) + rest)[4..] == rest;
  }
}
