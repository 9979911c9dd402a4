/** The basic Base64 alphabet of section 4 of RFC 4648, as `java.util.Base64.getDecoder()`
    applies it: the `=` padding of the last unit may be left out, but when present it must
    be complete and nothing may follow it; any byte outside the alphabet is rejected. */
module Base64 {
  import opened Results

  type byte = b: int | 0 <= b < 256

  /** A 6-bit group, the value of one alphabet character. */
  type sextet = v: int | 0 <= v < 64

  /** The padding character `=`. */
  const Padding: byte := 61

  /** `A`-`Z`, `a`-`z`, `0`-`9`, `+` and `/`. */
  predicate IsAlphabet(c: byte) {
    65 <= c <= 90 || 97 <= c <= 122 || 48 <= c <= 57 || c == 43 || c == 47
  }

  /** The 6-bit value an alphabet character stands for. */
  function ValueOf(c: byte): sextet
    requires IsAlphabet(c)
  {
    if 65 <= c <= 90 then c - 65
    else if 97 <= c <= 122 then c - 71
    else if 48 <= c <= 57 then c + 4
    else if c == 43 then 62
    else 63
  }

  /** The alphabet character for a 6-bit value. */
  function CharOf(v: sextet): (c: byte)
    ensures IsAlphabet(c) && c != Padding
    ensures ValueOf(c) == v
  {
    if v < 26 then v + 65
    else if v < 52 then v + 71
    else if v < 62 then v - 4
    else if v == 62 then 43
    else 47
  }

  /** Every alphabet character is the encoding of its own value: the table is a bijection. */
  lemma CharOfValueOf(c: byte)
    requires IsAlphabet(c)
    ensures CharOf(ValueOf(c)) == c
  {
  }

  /** Number of `=` characters that end the encoding of `n` bytes. */
  function PadCount(n: nat): (k: nat)
    ensures k < 3 && (n + k) % 3 == 0
  {
    (3 - n % 3) % 3
  }

  /** Standard (padded) encoding of three bytes, two bytes or one byte. */
  function EncodeGroup(b0: byte, b1: byte, b2: byte): seq<byte> {
    [CharOf(b0 / 4), CharOf(b0 % 4 * 16 + b1 / 16), CharOf(b1 % 16 * 4 + b2 / 64), CharOf(b2 % 64)]
  }

  function EncodePair(b0: byte, b1: byte): seq<byte> {
    [CharOf(b0 / 4), CharOf(b0 % 4 * 16 + b1 / 16), CharOf(b1 % 16 * 4), Padding]
  }

  function EncodeSingle(b0: byte): seq<byte> {
    [CharOf(b0 / 4), CharOf(b0 % 4 * 16), Padding, Padding]
  }

  /** RFC 4648 section 4 encoding, with padding. */
  function Encode(data: seq<byte>): (s: seq<byte>)
    ensures |s| == 4 * ((|data| + 2) / 3)
    ensures forall i :: 0 <= i < |s| ==> IsAlphabet(s[i]) || s[i] == Padding
  {
    if |data| >= 3 then EncodeGroup(data[0], data[1], data[2]) + Encode(data[3..])
    else if |data| == 2 then EncodePair(data[0], data[1])
    else if |data| == 1 then EncodeSingle(data[0])
    else []
  }

  /** The bytes carried by the first two, three or four characters of a unit. */
  function FirstByte(c0: sextet, c1: sextet): byte {
    c0 * 4 + c1 / 16
  }

  function SecondByte(c1: sextet, c2: sextet): byte {
    c1 % 16 * 16 + c2 / 4
  }

  function ThirdByte(c2: sextet, c3: sextet): byte {
    c2 % 4 * 64 + c3
  }

  predicate AlphabetPrefix(s: seq<byte>, n: nat)
    requires n <= |s|
  {
    forall i :: 0 <= i < n ==> IsAlphabet(s[i])
  }

  /** The final unit of an encoding: two or three characters, each followed by its
      padding or not. A lone character, a partial padding or anything after the
      padding makes the decoder throw. */
  function DecodeLast(s: seq<byte>): (r: Option<seq<byte>>)
    ensures r.Some? ==> 2 <= |s| <= 4 && 1 <= |r.value| <= 2
  {
    if |s| == 2 && AlphabetPrefix(s, 2) then
      Some([FirstByte(ValueOf(s[0]), ValueOf(s[1]))])
    else if |s| == 4 && AlphabetPrefix(s, 2) && s[2] == Padding && s[3] == Padding then
      Some([FirstByte(ValueOf(s[0]), ValueOf(s[1]))])
    else if (|s| == 3 && AlphabetPrefix(s, 3)) || (|s| == 4 && AlphabetPrefix(s, 3) && s[3] == Padding) then
      Some([FirstByte(ValueOf(s[0]), ValueOf(s[1])), SecondByte(ValueOf(s[1]), ValueOf(s[2]))])
    else
      None
  }

  /** `Base64.getDecoder().decode(s)`; `None` where it throws `IllegalArgumentException`. */
  function Decode(s: seq<byte>): (r: Option<seq<byte>>)
    ensures r.Some? ==> forall i :: 0 <= i < |s| ==> IsAlphabet(s[i]) || s[i] == Padding
    ensures r.Some? ==> |s| % 4 != 1
  {
    if s == [] then Some([])
    else if |s| >= 4 && AlphabetPrefix(s, 4) then
      match Decode(s[4..])
      case None => None
      case Some(rest) =>
        var c0, c1, c2, c3 := ValueOf(s[0]), ValueOf(s[1]), ValueOf(s[2]), ValueOf(s[3]);
        Some([FirstByte(c0, c1), SecondByte(c1, c2), ThirdByte(c2, c3)] + rest)
    else
      DecodeLast(s)
  }

  /** Padding ends the input: an `=` appears only among the last two characters of a
      whole number of units, and nothing but `=` follows it. */
  ghost predicate PaddingAtEnd(s: seq<byte>) {
    && (forall i :: 0 <= i < |s| && s[i] == Padding ==> |s| % 4 == 0 && i >= |s| - 2)
    && (forall i, j :: 0 <= i <= j < |s| && s[i] == Padding ==> s[j] == Padding)
  }

  /** Padding that the decoder accepts is complete and ends the input. */
  lemma {:induction false} PaddingEndsInput(s: seq<byte>)
    requires Decode(s).Some?
    ensures PaddingAtEnd(s)
  {
    if s == [] {
    } else if |s| >= 4 && AlphabetPrefix(s, 4) {
      assert Decode(s[4..]).Some?;
      PaddingEndsInput(s[4..]);
      PaddingAfterFullUnit(s);
    } else {
      assert DecodeLast(s).Some?;
      PaddingInLastUnit(s);
    }
  }

  lemma PaddingAfterFullUnit(s: seq<byte>)
    requires |s| >= 4 && AlphabetPrefix(s, 4) && PaddingAtEnd(s[4..])
    ensures PaddingAtEnd(s)
  {
    forall i | 0 <= i < |s| && s[i] == Padding
      ensures |s| % 4 == 0 && i >= |s| - 2
    {
      assert !IsAlphabet(s[i]);
      assert s[4..][i - 4] == Padding;
    }
    forall i, j | 0 <= i <= j < |s| && s[i] == Padding
      ensures s[j] == Padding
    {
      assert !IsAlphabet(s[i]);
      assert s[4..][i - 4] == Padding;
      assert s[4..][j - 4] == s[j];
    }
  }

  lemma PaddingInLastUnit(s: seq<byte>)
    requires DecodeLast(s).Some?
    ensures PaddingAtEnd(s)
  {
    forall i | 0 <= i < |s| && s[i] == Padding
      ensures |s| == 4 && i >= 2
    {
      assert !IsAlphabet(s[i]);
    }
  }

  /** The 6-bit split of three bytes reassembles to those bytes. */
  lemma GroupRoundTrip(b0: byte, b1: byte, b2: byte)
    ensures FirstByte(b0 / 4, b0 % 4 * 16 + b1 / 16) == b0
    ensures SecondByte(b0 % 4 * 16 + b1 / 16, b1 % 16 * 4 + b2 / 64) == b1
    ensures ThirdByte(b1 % 16 * 4 + b2 / 64, b2 % 64) == b2
  {
  }

  /** A full leading unit decodes to its three bytes, followed by whatever the rest decodes to. */
  lemma DecodeGroupThen(b0: byte, b1: byte, b2: byte, t: seq<byte>)
    requires Decode(t).Some?
    ensures Decode(EncodeGroup(b0, b1, b2) + t) == Some([b0, b1, b2] + Decode(t).value)
  {
    var g := EncodeGroup(b0, b1, b2);
    var s := g + t;
    assert s[..4] == g && s[4..] == t;
    assert AlphabetPrefix(s, 4);
    assert ValueOf(s[0]) == b0 / 4 && ValueOf(s[1]) == b0 % 4 * 16 + b1 / 16;
    assert ValueOf(s[2]) == b1 % 16 * 4 + b2 / 64 && ValueOf(s[3]) == b2 % 64;
    GroupRoundTrip(b0, b1, b2);
  }

  /** The padded and the unpadded forms of a short last unit decode to its bytes. */
  lemma DecodePair(b0: byte, b1: byte)
    ensures Decode(EncodePair(b0, b1)) == Some([b0, b1])
    ensures Decode(EncodePair(b0, b1)[..3]) == Some([b0, b1])
  {
    var s := EncodePair(b0, b1);
    assert !IsAlphabet(s[3]);
    assert AlphabetPrefix(s, 3) && AlphabetPrefix(s[..3], 3);
    assert ValueOf(s[0]) == b0 / 4 && ValueOf(s[1]) == b0 % 4 * 16 + b1 / 16;
    assert ValueOf(s[2]) == b1 % 16 * 4;
    GroupRoundTrip(b0, b1, 0);
    assert Decode(s) == DecodeLast(s);
    assert Decode(s[..3]) == DecodeLast(s[..3]);
  }

  lemma DecodeSingle(b0: byte)
    ensures Decode(EncodeSingle(b0)) == Some([b0])
    ensures Decode(EncodeSingle(b0)[..2]) == Some([b0])
  {
    var s := EncodeSingle(b0);
    assert !IsAlphabet(s[3]) && !IsAlphabet(s[2]);
    assert AlphabetPrefix(s, 2) && AlphabetPrefix(s[..2], 2);
    assert ValueOf(s[0]) == b0 / 4 && ValueOf(s[1]) == b0 % 4 * 16;
    GroupRoundTrip(b0, 0, 0);
    assert Decode(s) == DecodeLast(s);
    assert Decode(s[..2]) == DecodeLast(s[..2]);
  }

  /** Decoding the standard encoding of any byte sequence gives that sequence back. */
  lemma {:induction false} DecodeEncode(data: seq<byte>)
    ensures Decode(Encode(data)) == Some(data)
  {
    if |data| >= 3 {
      DecodeEncode(data[3..]);
      DecodeGroupThen(data[0], data[1], data[2], Encode(data[3..]));
      assert data == [data[0], data[1], data[2]] + data[3..];
    } else if |data| == 2 {
      DecodePair(data[0], data[1]);
      assert data == [data[0], data[1]];
    } else if |data| == 1 {
      DecodeSingle(data[0]);
      assert data == [data[0]];
    }
  }

  /** The standard encoding of `data` ends in `PadCount(|data|)` padding characters,
      and without them it still decodes to `data`. */
  ghost predicate PaddingOptional(data: seq<byte>) {
    var s := Encode(data);
    var k := PadCount(|data|);
    && k <= |s|
    && (forall i :: |s| - k <= i < |s| ==> s[i] == Padding)
    && Decode(s[..|s| - k]) == Some(data)
  }

  lemma PaddingOptionalStep(data: seq<byte>)
    requires |data| >= 3 && PaddingOptional(data[3..])
    ensures PaddingOptional(data)
  {
    var g := EncodeGroup(data[0], data[1], data[2]);
    var rest := Encode(data[3..]);
    var k := PadCount(|data|);
    PadCountStep(|data|);
    assert Encode(data) == g + rest;
    TrailingPaddingStep(g, rest, k);
    DecodeStrippedStep(data, g, rest, k);
  }

  lemma DecodeStrippedStep(data: seq<byte>, g: seq<byte>, rest: seq<byte>, k: nat)
    requires |data| >= 3 && g == EncodeGroup(data[0], data[1], data[2])
    requires k <= |rest| && Decode(rest[..|rest| - k]) == Some(data[3..])
    ensures Decode((g + rest)[..|g + rest| - k]) == Some(data)
  {
    var t := rest[..|rest| - k];
    DecodeGroupThen(data[0], data[1], data[2], t);
    assert (g + rest)[..|g + rest| - k] == g + t;
    assert [data[0], data[1], data[2]] + data[3..] == data;
  }

  lemma PadCountStep(n: nat)
    requires n >= 3
    ensures PadCount(n) == PadCount(n - 3)
  {
    assert n % 3 == (n - 3) % 3;
  }

  lemma TrailingPaddingStep(g: seq<byte>, rest: seq<byte>, k: nat)
    requires |g| == 4 && k <= |rest|
    requires forall i :: |rest| - k <= i < |rest| ==> rest[i] == Padding
    ensures forall i :: |g + rest| - k <= i < |g + rest| ==> (g + rest)[i] == Padding
  {
    forall i | |g + rest| - k <= i < |g + rest|
      ensures (g + rest)[i] == Padding
    {
      assert (g + rest)[i] == rest[i - 4];
    }
  }

  /** The padding is optional: the standard encoding with its trailing `=` characters
      removed decodes to the same bytes. */
  lemma {:induction false} DecodeUnpadded(data: seq<byte>)
    ensures PaddingOptional(data)
  {
    if |data| >= 3 {
      DecodeUnpadded(data[3..]);
      PaddingOptionalStep(data);
    } else if |data| == 2 {
      DecodePair(data[0], data[1]);
      assert data == [data[0], data[1]];
    } else if |data| == 1 {
      DecodeSingle(data[0]);
      assert data == [data[0]];
    }
  }
}
