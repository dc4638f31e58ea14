/**
 * The byte-level contract of java.io.DataOutput / DataInput as the message
 * layer uses it: fixed-width big-endian integers, one-byte booleans, raw byte
 * ranges.  A writer is a function to the bytes it emits; a reader takes the
 * remaining input and returns the value read together with what is left, or
 * `Throws(EndOfStream)` when the input runs out.
 */
module Wire {
  import opened JavaLang

  type byte = bv8

  /** Widths in bytes, as the Global constants of the library name them. */
  const BYTE_SIZE: nat := 1
  const SHORT_SIZE: nat := 2
  const INT_SIZE: nat := 4

  function Pow256(n: nat): (p: nat)
    ensures p >= 1
  {
    if n == 0 then 1 else 256 * Pow256(n - 1)
  }

  lemma Pow256Values()
    ensures Pow256(1) == 0x100
    ensures Pow256(2) == 0x1_0000
    ensures Pow256(4) == 0x1_0000_0000
  {
    assert Pow256(1) == 256 * Pow256(0);
    assert Pow256(2) == 256 * Pow256(1);
    assert Pow256(3) == 256 * Pow256(2);
    assert Pow256(4) == 256 * Pow256(3);
  }

  /** The `n` low-order bytes of `u`, most significant first. */
  function BigEndian(u: nat, n: nat): (r: seq<byte>)
    requires u < Pow256(n)
    ensures |r| == n
  {
    if n == 0 then []
    else
      assert u / 256 < Pow256(n - 1);
      BigEndian(u / 256, n - 1) + [(u % 256) as byte]
  }

  /** The unsigned number whose big-endian form is `s`. */
  function FromBigEndian(s: seq<byte>): (u: nat)
    ensures u < Pow256(|s|)
  {
    if |s| == 0 then 0
    else
      var hi := FromBigEndian(s[..|s| - 1]);
      assert hi * 256 + 255 <= (Pow256(|s| - 1) - 1) * 256 + 255;
      hi * 256 + s[|s| - 1] as int
  }

  lemma FromBigEndianSnoc(s: seq<byte>, b: byte)
    ensures FromBigEndian(s + [b]) == FromBigEndian(s) * 256 + b as int
  {
    assert (s + [b])[..|s|] == s;
  }

  lemma ByteRoundTrip(x: int)
    requires 0 <= x < 256
    ensures (x as byte) as int == x
  {
    if x < 128 {
      if x < 64 { } else { }
    } else {
      if x < 192 { } else { }
    }
  }

  lemma DivMod256(u: nat)
    ensures u == (u / 256) * 256 + u % 256 && 0 <= u % 256 < 256
  {
  }

  lemma {:induction false} FromBigEndianOfBigEndian(u: nat, n: nat)
    requires u < Pow256(n)
    ensures FromBigEndian(BigEndian(u, n)) == u
  {
    if n > 0 {
      var q, r := u / 256, u % 256;
      DivMod256(u);
      assert q < Pow256(n - 1);
      var lo: byte := r as byte;
      ByteRoundTrip(r);
      assert BigEndian(u, n) == BigEndian(q, n - 1) + [lo];
      FromBigEndianOfBigEndian(q, n - 1);
      FromBigEndianSnoc(BigEndian(q, n - 1), lo);
    }
  }

  lemma {:induction false} BigEndianOfFromBigEndian(s: seq<byte>)
    ensures BigEndian(FromBigEndian(s), |s|) == s
  {
    if |s| > 0 {
      var init := s[..|s| - 1];
      var hi := FromBigEndian(init);
      var u := FromBigEndian(s);
      assert u == hi * 256 + s[|s| - 1] as int;
      assert u / 256 == hi && u % 256 == s[|s| - 1] as int;
      BigEndianOfFromBigEndian(init);
      assert init + [s[|s| - 1]] == s;
    }
  }

  /** Two's-complement reinterpretation of the low `n` bytes of `v`. */
  function Unsigned(v: int, n: nat): (u: nat)
    ensures u < Pow256(n)
  {
    v % Pow256(n)
  }

  function Signed(u: nat, n: nat): int
  {
    if 2 * u >= Pow256(n) then u - Pow256(n) else u
  }

  // ---------------------------------------------------------------- writers

  /** DataOutput.writeByte: the low eight bits of `v`. */
  function WriteByte(v: int): (r: seq<byte>)
    ensures |r| == BYTE_SIZE
  {
    BigEndian(Unsigned(v, 1), 1)
  }

  /** DataOutput.writeBoolean: 1 for true, 0 for false. */
  function WriteBoolean(b: bool): (r: seq<byte>)
    ensures |r| == BYTE_SIZE
  {
    if b then [1] else [0]
  }

  /** DataOutput.writeShort: the low sixteen bits of `v`, high byte first. */
  function WriteShort(v: int): (r: seq<byte>)
    ensures |r| == SHORT_SIZE
  {
    BigEndian(Unsigned(v, 2), 2)
  }

  /** DataOutput.writeInt: four bytes, high byte first. */
  function WriteInt(v: int): (r: seq<byte>)
    ensures |r| == INT_SIZE
  {
    BigEndian(Unsigned(v, 4), 4)
  }

  /** OutputStream.write(b, off, len): the range must lie inside `b`,
      otherwise IndexOutOfBoundsException is thrown before anything is written. */
  function WriteRange(b: seq<byte>, off: int, len: int): (r: Result<seq<byte>>)
    ensures r.Ok? <==> 0 <= off && 0 <= len && off + len <= |b|
    ensures r.Ok? ==> |r.value| == len && forall i :: 0 <= i < len ==> r.value[i] == b[off + i]
    ensures r.Throws? ==> r.ex == IndexOutOfBounds
  {
    if 0 <= off && 0 <= len && off + len <= |b| then Ok(b[off..off + len]) else Throws(IndexOutOfBounds)
  }

  // ---------------------------------------------------------------- readers

  /** Reads a `n`-byte two's-complement big-endian number. */
  function ReadSigned(input: seq<byte>, n: nat): (r: Result<(int, seq<byte>)>)
    ensures r.Ok? <==> |input| >= n
    ensures r.Ok? ==> r.value.1 == input[n..]
    ensures r.Throws? ==> r.ex == EndOfStream
  {
    if |input| < n then Throws(EndOfStream)
    else Ok((Signed(FromBigEndian(input[..n]), n), input[n..]))
  }

  /** DataInput.readByte: a signed byte. */
  function ReadByte(input: seq<byte>): (r: Result<(int, seq<byte>)>)
    ensures r.Ok? <==> |input| >= BYTE_SIZE
    ensures r.Ok? ==> IsByte(r.value.0) && r.value.1 == input[BYTE_SIZE..]
  {
    Pow256Values();
    ReadSigned(input, BYTE_SIZE)
  }

  /** DataInput.readBoolean: any non-zero byte is true. */
  function ReadBoolean(input: seq<byte>): (r: Result<(bool, seq<byte>)>)
    ensures r.Ok? <==> |input| >= BYTE_SIZE
    ensures r.Ok? ==> r.value == (input[0] != 0, input[1..])
  {
    if |input| < 1 then Throws(EndOfStream) else Ok((input[0] != 0, input[1..]))
  }

  /** DataInput.readShort. */
  function ReadShort(input: seq<byte>): (r: Result<(int, seq<byte>)>)
    ensures r.Ok? <==> |input| >= SHORT_SIZE
    ensures r.Ok? ==> IsShort(r.value.0) && r.value.1 == input[SHORT_SIZE..]
  {
    Pow256Values();
    ReadSigned(input, SHORT_SIZE)
  }

  /** DataInput.readInt. */
  function ReadInt(input: seq<byte>): (r: Result<(int, seq<byte>)>)
    ensures r.Ok? <==> |input| >= INT_SIZE
    ensures r.Ok? ==> IsInt(r.value.0) && r.value.1 == input[INT_SIZE..]
  {
    Pow256Values();
    ReadSigned(input, INT_SIZE)
  }

  /** DataInput.readFully into a fresh array of `n` bytes. */
  function ReadFully(input: seq<byte>, n: nat): (r: Result<(seq<byte>, seq<byte>)>)
    ensures r.Ok? <==> |input| >= n
    ensures r.Ok? ==> r.value.0 + r.value.1 == input && |r.value.0| == n
    ensures r.Throws? ==> r.ex == EndOfStream
  {
    if |input| < n then Throws(EndOfStream) else Ok((input[..n], input[n..]))
  }

  // ---------------------------------------------------------- round trips

  lemma SignedRoundTrip(v: int, n: nat, rest: seq<byte>)
    requires n > 0
    requires 0 <= Pow256(n) + 2 * v < 2 * Pow256(n)
    ensures ReadSigned(BigEndian(Unsigned(v, n), n) + rest, n) == Ok((v, rest))
  {
    var p := Pow256(n);
    if v >= 0 {
      ModOfInRange(v, p, 0);
    } else {
      ModOfInRange(v, p, 1);
    }
    assert Signed(Unsigned(v, n), n) == v;
    var s := BigEndian(Unsigned(v, n), n);
    assert (s + rest)[..n] == s;
    assert (s + rest)[n..] == rest;
    FromBigEndianOfBigEndian(Unsigned(v, n), n);
  }

  lemma ModOfInRange(v: int, p: nat, k: nat)
    requires p > 0 && 0 <= v + k * p < p
    ensures v % p == v + k * p
  {
    var q := v / p;
    var r := v % p;
    assert v == p * q + r && 0 <= r < p;
    MulMonotone(p, q, -(k as int));
  }

  lemma MulMonotone(p: nat, a: int, b: int)
    ensures a < b ==> p * a <= p * b - p
    ensures a > b ==> p * a >= p * b + p
  {
    if a < b {
      var d: nat := b - a - 1;
      assert p * b == p * a + p * d + p;
    } else if a > b {
      var d: nat := a - b - 1;
      assert p * a == p * b + p * d + p;
    }
  }

  /** Reading back a written int yields the same int and leaves the rest. */
  lemma ReadWriteInt(v: int, rest: seq<byte>)
    requires IsInt(v)
    ensures ReadInt(WriteInt(v) + rest) == Ok((v, rest))
  {
    Pow256Values();
    SignedRoundTrip(v, 4, rest);
  }

  /** Conversely, any four bytes are the encoding of the int read from them. */
  lemma WriteReadInt(input: seq<byte>)
    requires |input| >= INT_SIZE
    ensures WriteInt(ReadInt(input).value.0) == input[..INT_SIZE]
  {
    Pow256Values();
    var u := FromBigEndian(input[..4]);
    assert Unsigned(Signed(u, 4), 4) == u;
    BigEndianOfFromBigEndian(input[..4]);
  }

  lemma ReadWriteShort(v: int, rest: seq<byte>)
    requires IsShort(v)
    ensures ReadShort(WriteShort(v) + rest) == Ok((v, rest))
  {
    Pow256Values();
    SignedRoundTrip(v, 2, rest);
  }

  /** writeShort keeps only sixteen bits: a count outside the short range wraps. */
  lemma ReadWriteShortWraps(v: int, rest: seq<byte>)
    ensures ReadShort(WriteShort(v) + rest) == Ok((Signed(Unsigned(v, 2), 2), rest))
  {
    Pow256Values();
    var w := Signed(Unsigned(v, 2), 2);
    assert Unsigned(w, 2) == Unsigned(v, 2);
    SignedRoundTrip(w, 2, rest);
  }

  lemma ReadWriteByte(v: int, rest: seq<byte>)
    requires IsByte(v)
    ensures ReadByte(WriteByte(v) + rest) == Ok((v, rest))
  {
    Pow256Values();
    SignedRoundTrip(v, 1, rest);
  }

  lemma ReadWriteBoolean(b: bool, rest: seq<byte>)
    ensures ReadBoolean(WriteBoolean(b) + rest) == Ok((b, rest))
  {
    assert (WriteBoolean(b) + rest)[1..] == rest;
  }

  /** Regrouping concatenated byte strings; stating it as a lemma keeps the
      proofs that need it from searching for it in a large context. */
  lemma ConcatAssoc(a: seq<byte>, b: seq<byte>, d: seq<byte>)
    ensures a + b + d == a + (b + d)
  {
  }
}
