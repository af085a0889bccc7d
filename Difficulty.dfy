/** The difficulty predicate of the proof of work: `is_valid_hash` inside
    `ImageUploader.find_suffix`. A digest passes at difficulty n when its first
    n bits, read most-significant-bit first within each byte and across byte
    boundaries, are all zero. The source checks n / 8 whole bytes and then
    masks the next byte; it indexes the digest without a bounds check, so a
    difficulty beyond the digest's length can raise IndexError. */
module Difficulty {
  import opened PyValues

  /** Bit j of byte b, where bit 0 is the most significant. */
  predicate BitSet(b: byte, j: nat)
    requires j < 8
  {
    (b >> (7 - j)) & 1 == 1
  }

  /** Bit i of h, numbered MSB-first within each byte and across bytes. */
  predicate HashBit(h: seq<byte>, i: nat)
    requires i < 8 * |h|
  {
    BitSet(h[i / 8], i % 8)
  }

  /** The proof-of-work predicate: the first n bits of h are zero. */
  predicate LeadingZeroBits(h: seq<byte>, n: nat)
    requires n <= 8 * |h|
  {
    forall i :: 0 <= i < n ==> !HashBit(h, i)
  }

  predicate AllZero(h: seq<byte>)
  {
    forall k :: 0 <= k < |h| ==> h[k] == 0
  }

  /** What `is_valid_hash(h, n)` evaluates to. Within the digest it is the
      bit predicate. Beyond it, the whole-byte loop stops at the first
      non-zero byte (False); when every byte is zero it reads past the end
      and raises IndexError. */
  function HashCheck(h: seq<byte>, n: nat): (r: Result<bool>)
    ensures r.Err? ==> r.error == IndexError
    ensures r == Ok(true) <==> n <= 8 * |h| && LeadingZeroBits(h, n)
    ensures r.Err? <==> n > 8 * |h| && AllZero(h)
  {
    if n <= 8 * |h| then Ok(LeadingZeroBits(h, n))
    else if AllZero(h) then Err(IndexError)
    else Ok(false)
  }

  /** `(0xFF << (8 - r)) & 0xFF`: the source shifts an unbounded integer,
      and 0xFF shifted by at most 7 fits in 16 bits, so bv16 is exact. The
      result is the byte whose top r bits, and only those, are set. */
  function Mask(r: nat): (m: byte)
    requires 1 <= r <= 7
    ensures forall j :: 0 <= j < 8 ==> BitSet(m, j) == (j < r)
    ensures r == 3 ==> m == 0xE0
  {
    (((0xFF as bv16) << (8 - r)) & 0xFF) as byte
  }

  lemma ByteZeroIffNoBitSet(b: byte)
    ensures b == 0 <==> forall j :: 0 <= j < 8 ==> !BitSet(b, j)
  {
    if forall j :: 0 <= j < 8 ==> !BitSet(b, j) {
      assert !BitSet(b, 0) && !BitSet(b, 1) && !BitSet(b, 2) && !BitSet(b, 3);
      assert !BitSet(b, 4) && !BitSet(b, 5) && !BitSet(b, 6) && !BitSet(b, 7);
    }
  }

  /** Masking with Mask(r) tests exactly the top r bits of a byte; the low
      8 - r bits are unconstrained. */
  lemma MaskedByteZero(b: byte, r: nat)
    requires 1 <= r <= 7
    ensures (b & Mask(r) == 0) <==> forall j :: 0 <= j < r ==> !BitSet(b, j)
  {
    if forall j :: 0 <= j < r ==> !BitSet(b, j) {
      assert !BitSet(b, 0);
      if r > 1 { assert !BitSet(b, 1); }
      if r > 2 { assert !BitSet(b, 2); }
      if r > 3 { assert !BitSet(b, 3); }
      if r > 4 { assert !BitSet(b, 4); }
      if r > 5 { assert !BitSet(b, 5); }
      if r > 6 { assert !BitSet(b, 6); }
    }
  }

  /** The byte-level reading the source uses agrees with the bit predicate:
      n / 8 whole zero bytes, then the next byte masked by the remaining
      n % 8 bits. */
  lemma ByteView(h: seq<byte>, n: nat)
    requires n <= 8 * |h|
    ensures LeadingZeroBits(h, n) <==>
              (forall k :: 0 <= k < n / 8 ==> h[k] == 0) &&
              (n % 8 > 0 ==> h[n / 8] & Mask(n % 8) == 0)
  {
    var q, r := n / 8, n % 8;
    if LeadingZeroBits(h, n) {
      forall k | 0 <= k < q
        ensures h[k] == 0
      {
        forall j | 0 <= j < 8
          ensures !BitSet(h[k], j)
        {
          assert (8 * k + j) / 8 == k && (8 * k + j) % 8 == j;
          assert !HashBit(h, 8 * k + j);
        }
        ByteZeroIffNoBitSet(h[k]);
      }
      if r > 0 {
        forall j | 0 <= j < r
          ensures !BitSet(h[q], j)
        {
          assert (8 * q + j) / 8 == q && (8 * q + j) % 8 == j;
          assert !HashBit(h, 8 * q + j);
        }
        MaskedByteZero(h[q], r);
      }
    }
    if (forall k :: 0 <= k < q ==> h[k] == 0) && (r > 0 ==> h[q] & Mask(r) == 0) {
      forall i | 0 <= i < n
        ensures !HashBit(h, i)
      {
        var k, j := i / 8, i % 8;
        if k < q {
          ByteZeroIffNoBitSet(h[k]);
        } else {
          assert k == q && j < r;
          MaskedByteZero(h[q], r);
        }
      }
    }
  }

  /** A non-zero byte among the first n / 8 makes the check fail, whether or
      not n lies within the digest. */
  lemma NonZeroWholeByteRejects(h: seq<byte>, n: nat, k: nat)
    requires k < |h| && k < n / 8 && h[k] != 0
    ensures HashCheck(h, n) == Ok(false)
  {
    if n <= 8 * |h| {
      ByteView(h, n);
    }
  }

  /** `is_valid_hash`: a loop over the n / 8 whole bytes with an early
      return, then a masked test of the next byte. */
  method IsValidHash(h: seq<byte>, n: nat) returns (r: Result<bool>)
    ensures r == HashCheck(h, n)
  {
    var fullBytes := n / 8;
    var i := 0;
    while i < fullBytes
      invariant i <= fullBytes && i <= |h|
      invariant forall k :: 0 <= k < i ==> h[k] == 0
    {
      if i >= |h| {
        // hash_bytes[i] is out of range
        return Err(IndexError);
      }
      if h[i] != 0 {
        NonZeroWholeByteRejects(h, n, i);
        return Ok(false);
      }
      i := i + 1;
    }
    var remainingBits := n % 8;
    if remainingBits > 0 {
      if fullBytes >= |h| {
        // hash_bytes[full_bytes] is out of range
        return Err(IndexError);
      }
      var mask := Mask(remainingBits);
      ByteView(h, n);
      return Ok(h[fullBytes] & mask == 0);
    }
    ByteView(h, n);
    return Ok(true);
  }

  /** Difficulty 0 accepts every digest. */
  lemma ZeroDifficultyAccepts(h: seq<byte>)
    ensures HashCheck(h, 0) == Ok(true)
  {
  }

  /** Accepting at difficulty n implies accepting at every smaller difficulty;
      nothing is ever accepted beyond the digest's length. */
  lemma AcceptanceMonotone(h: seq<byte>, n: nat, m: nat)
    requires HashCheck(h, n) == Ok(true) && m <= n
    ensures n <= 8 * |h| && HashCheck(h, m) == Ok(true)
  {
  }

  /** At a whole-byte difficulty the verdict is "the first n / 8 bytes are
      zero", so it depends on those bytes alone. */
  lemma WholeByteDifficulty(h: seq<byte>, h': seq<byte>, n: nat)
    requires n % 8 == 0 && n <= 8 * |h| && n <= 8 * |h'|
    requires h[..n / 8] == h'[..n / 8]
    ensures HashCheck(h, n) == Ok(forall k :: 0 <= k < n / 8 ==> h[k] == 0)
    ensures HashCheck(h, n) == HashCheck(h', n)
  {
    ByteView(h, n);
    ByteView(h', n);
    assert forall k :: 0 <= k < n / 8 ==> h[k] == h[..n / 8][k] == h'[k];
  }

  /** Difficulty 11: byte 0 is zero and the top three bits of byte 1 are zero;
      the low five bits of byte 1 and every later byte are free. */
  lemma ElevenBits(h: seq<byte>)
    requires |h| >= 2
    ensures HashCheck(h, 11) == Ok(h[0] == 0 && h[1] & 0xE0 == 0)
  {
    ByteView(h, 11);
  }
}
