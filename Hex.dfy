/** Hex text and bytes, as the worker uses them: `bytes.hex()` encodes the
    64-byte candidate, and `bytes.fromhex` decodes the server prefix with the
    suffix appended to it as text. `bytes.hex()` writes two lower-case digits
    per byte, high nibble first. `bytes.fromhex` reads pairs of digits of
    either case; ASCII whitespace may stand before a pair, never inside one;
    anything else raises ValueError. */
module Hex {
  import opened PyValues

  const HexDigits: string := "0123456789abcdef"

  predicate IsLowerHexDigit(c: char)
  {
    ('0' <= c <= '9') || ('a' <= c <= 'f')
  }

  /** The ASCII whitespace `bytes.fromhex` skips: space, \t, \n, \v, \f, \r. */
  predicate IsAsciiSpace(c: char)
  {
    c == ' ' || c == '\t' || c == '\n' || c == '\r' || c as int == 11 || c as int == 12
  }

  /** The value of one hex digit of either case, or None. */
  function DigitValue(c: char): (v: Option<nat>)
    ensures v.Some? ==> v.value < 16
    ensures v.Some? ==> !IsAsciiSpace(c)
  {
    if '0' <= c <= '9' then Some(c as int - '0' as int)
    else if 'a' <= c <= 'f' then Some(c as int - 'a' as int + 10)
    else if 'A' <= c <= 'F' then Some(c as int - 'A' as int + 10)
    else None
  }

  /** The digit `bytes.hex()` writes for a nibble k. */
  function HexDigit(k: nat): (c: char)
    requires k < 16
    ensures IsLowerHexDigit(c) && DigitValue(c) == Some(k)
  {
    HexDigits[k]
  }

  /** The two characters `bytes.hex()` writes for one byte. */
  function ByteToHex(b: byte): (s: string)
    ensures |s| == 2 && IsLowerHexDigit(s[0]) && IsLowerHexDigit(s[1])
    ensures DigitValue(s[0]) == Some(b as int / 16) && DigitValue(s[1]) == Some(b as int % 16)
  {
    [HexDigit(b as int / 16), HexDigit(b as int % 16)]
  }

  /** `bytes.hex()`. */
  function ToHex(bs: seq<byte>): (s: string)
    ensures |s| == 2 * |bs|
    ensures forall i :: 0 <= i < |s| ==> IsLowerHexDigit(s[i])
  {
    if bs == [] then [] else ByteToHex(bs[0]) + ToHex(bs[1..])
  }

  /** `bytes.fromhex(s)`; None where it raises ValueError. */
  function FromHex(s: string): (r: Option<seq<byte>>)
    ensures r.Some? ==> 2 * |r.value| <= |s|
  {
    if s == [] then Some([])
    else if IsAsciiSpace(s[0]) then FromHex(s[1..])
    else if |s| < 2 then None
    else if DigitValue(s[0]).None? || DigitValue(s[1]).None? then None
    else match FromHex(s[2..])
      case None => None
      case Some(rest) => Some([PairByte(s[0], s[1])] + rest)
  }

  /** The byte two hex digits stand for, high nibble first. */
  function PairByte(hi: char, lo: char): byte
    requires DigitValue(hi).Some? && DigitValue(lo).Some?
  {
    (16 * DigitValue(hi).value + DigitValue(lo).value) as byte
  }

  /** One step of FromHex on text that starts with a pair of digits. */
  lemma DecodePair(s: string)
    requires |s| >= 2 && DigitValue(s[0]).Some? && DigitValue(s[1]).Some?
    ensures FromHex(s[2..]).Some? ==> FromHex(s) == Some([PairByte(s[0], s[1])] + FromHex(s[2..]).value)
    ensures FromHex(s[2..]).None? ==> FromHex(s).None?
  {
  }

  /** Two digits written by ByteToHex decode back to the byte. */
  lemma ByteRoundTrip(b: byte)
    ensures FromHex(ByteToHex(b)) == Some([b])
  {
    var s := ByteToHex(b);
    assert s[2..] == [] && FromHex(s[2..]) == Some([]);
    assert !IsAsciiSpace(s[0]);
    var k := 16 * DigitValue(s[0]).value + DigitValue(s[1]).value;
    assert k == b as int;
    assert PairByte(s[0], s[1]) == k as byte == b;
    assert FromHex(s) == Some([PairByte(s[0], s[1])] + []);
    assert [PairByte(s[0], s[1])] + [] == [b];
  }

  /** `bytes.fromhex(bs.hex()) == bs`. */
  lemma {:induction false} RoundTrip(bs: seq<byte>)
    ensures FromHex(ToHex(bs)) == Some(bs)
  {
    if bs != [] {
      var s := ToHex(bs);
      var t := ToHex(bs[1..]);
      assert s == ByteToHex(bs[0]) + t;
      assert s[2..] == t;
      RoundTrip(bs[1..]);
      ByteRoundTrip(bs[0]);
      assert [bs[0]] + bs[1..] == bs;
    }
  }

  /** Text that `bytes.fromhex` accepts can be followed by any text: the
      decoding of the concatenation is the first decoding followed by that
      of the rest, and fails exactly when the rest alone fails. */
  lemma {:induction false} AppendDecodes(p: string, t: string)
    requires FromHex(p).Some?
    ensures FromHex(t).Some? ==> FromHex(p + t) == Some(FromHex(p).value + FromHex(t).value)
    ensures FromHex(t).None? ==> FromHex(p + t).None?
  {
    if p == [] {
      assert p + t == t && FromHex(p).value == [];
      if FromHex(t).Some? {
        assert [] + FromHex(t).value == FromHex(t).value;
      }
    } else if IsAsciiSpace(p[0]) {
      assert (p + t)[0] == p[0] && (p + t)[1..] == p[1..] + t;
      AppendDecodes(p[1..], t);
    } else {
      var q := p + t;
      assert q[0] == p[0] && q[1] == p[1] && q[2..] == p[2..] + t;
      DecodePair(p);
      DecodePair(q);
      AppendDecodes(p[2..], t);
      if FromHex(t).Some? {
        ConsAppend(PairByte(p[0], p[1]), FromHex(p[2..]).value, FromHex(t).value);
      }
    }
  }

  lemma ConsAppend(b: byte, x: seq<byte>, y: seq<byte>)
    ensures [b] + (x + y) == ([b] + x) + y
  {
  }

  /** Text of an even number of hex digits, the form a server prefix takes,
      decodes to half as many bytes. */
  lemma {:induction false} EvenHexDecodes(s: string)
    requires |s| % 2 == 0
    requires forall i :: 0 <= i < |s| ==> DigitValue(s[i]).Some?
    ensures FromHex(s).Some? && 2 * |FromHex(s).value| == |s|
  {
    if s != [] {
      EvenHexDecodes(s[2..]);
      DecodePair(s);
    }
  }

  /** The worker hashes `bytes.fromhex(pref + suff)` where `suff` is the hex
      of the candidate: when the prefix decodes, this is the raw prefix bytes
      followed by the raw candidate bytes. */
  lemma {:induction false} PrefixedSuffixDecodes(pref: string, suffix: seq<byte>)
    requires FromHex(pref).Some?
    ensures FromHex(pref + ToHex(suffix)) == Some(FromHex(pref).value + suffix)
  {
    RoundTrip(suffix);
    AppendDecodes(pref, ToHex(suffix));
  }

  /** A candidate suffix is 128 lower-case hex digits that decode to the same
      64 bytes. */
  lemma {:induction false} CandidateHex(c: Candidate)
    ensures |ToHex(c)| == 128
    ensures forall i :: 0 <= i < 128 ==> IsLowerHexDigit(ToHex(c)[i])
    ensures FromHex(ToHex(c)) == Some(c[..])
  {
    RoundTrip(c);
  }
}
