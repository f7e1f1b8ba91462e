/** Base 64 as `ubinascii.b2a_base64` produces it (section 4 of RFC 4648, with `=` padding
    and a trailing newline). Also the URL-safe form that `b42_urlsafe_encode` derives from it
    by swapping two characters of the alphabet (section 5 of RFC 4648). */
module Base64 {
  import opened Common

  /** Letters, digits, `+` and `/`: the 64 characters of the standard alphabet. */
  predicate IsAlphabetChar(c: char)
  {
    ('A' <= c <= 'Z') || ('a' <= c <= 'z') || ('0' <= c <= '9') || c == '+' || c == '/'
  }

  /** The position of a character in the standard alphabet; 0 for any other character. */
  function ValueOf(c: char): (v: int)
    ensures 0 <= v < 64
  {
    if 'A' <= c <= 'Z' then c as int - 'A' as int
    else if 'a' <= c <= 'z' then c as int - 'a' as int + 26
    else if '0' <= c <= '9' then c as int - '0' as int + 52
    else if c == '+' then 62
    else if c == '/' then 63
    else 0
  }

  /** The character at position `v` of the standard alphabet. */
  function CharOf(v: int): (c: char)
    requires 0 <= v < 64
    ensures IsAlphabetChar(c) && ValueOf(c) == v
  {
    if v < 26 then ('A' as int + v) as char
    else if v < 52 then ('a' as int + v - 26) as char
    else if v < 62 then ('0' as int + v - 52) as char
    else if v == 62 then '+'
    else '/'
  }

  /** Three bytes as four characters of six bits each. */
  function EncodeGroup(b0: Byte, b1: Byte, b2: Byte): string
  {
    [CharOf(b0 / 4), CharOf(b0 % 4 * 16 + b1 / 16), CharOf(b1 % 16 * 4 + b2 / 64), CharOf(b2 % 64)]
  }

  /** A final single byte: two characters and two `=`. */
  function EncodeOne(b0: Byte): string
  {
    [CharOf(b0 / 4), CharOf(b0 % 4 * 16), '=', '=']
  }

  /** A final pair of bytes: three characters and one `=`. */
  function EncodeTwo(b0: Byte, b1: Byte): string
  {
    [CharOf(b0 / 4), CharOf(b0 % 4 * 16 + b1 / 16), CharOf(b1 % 16 * 4), '=']
  }

  /** Padded base 64, section 4 of RFC 4648. */
  function Encode(b: seq<Byte>): (s: string)
    ensures |s| == 4 * ((|b| + 2) / 3)
    ensures forall i :: 0 <= i < |s| ==> IsAlphabetChar(s[i]) || s[i] == '='
  {
    if |b| == 0 then ""
    else if |b| == 1 then EncodeOne(b[0])
    else if |b| == 2 then EncodeTwo(b[0], b[1])
    else EncodeGroup(b[0], b[1], b[2]) + Encode(b[3..])
  }

  /** Four characters back to the one, two or three bytes they encode. */
  function DecodeQuad(q: string): seq<Byte>
    requires |q| == 4
  {
    var v0, v1, v2, v3 := ValueOf(q[0]), ValueOf(q[1]), ValueOf(q[2]), ValueOf(q[3]);
    var b0 := v0 * 4 + v1 / 16;
    if q[2] == '=' then [b0]
    else if q[3] == '=' then [b0, v1 % 16 * 16 + v2 / 4]
    else [b0, v1 % 16 * 16 + v2 / 4, v2 % 4 * 64 + v3]
  }

  /** Padded base 64 back to bytes. */
  function Decode(s: string): seq<Byte>
  {
    if |s| < 4 then [] else DecodeQuad(s[..4]) + Decode(s[4..])
  }

  lemma GroupRoundTrip(b0: Byte, b1: Byte, b2: Byte)
    ensures DecodeQuad(EncodeGroup(b0, b1, b2)) == [b0, b1, b2]
  {
    var v1 := b0 % 4 * 16 + b1 / 16;
    var v2 := b1 % 16 * 4 + b2 / 64;
    assert v1 / 16 == b0 % 4 && v1 % 16 == b1 / 16;
    assert v2 / 4 == b1 % 16 && v2 % 4 == b2 / 64;
  }

  lemma OneRoundTrip(b0: Byte)
    ensures DecodeQuad(EncodeOne(b0)) == [b0]
  {
    var v1 := b0 % 4 * 16;
    assert v1 / 16 == b0 % 4;
  }

  lemma TwoRoundTrip(b0: Byte, b1: Byte)
    ensures DecodeQuad(EncodeTwo(b0, b1)) == [b0, b1]
  {
    var v1 := b0 % 4 * 16 + b1 / 16;
    var v2 := b1 % 16 * 4;
    assert v1 / 16 == b0 % 4 && v1 % 16 == b1 / 16;
    assert v2 / 4 == b1 % 16;
  }

  /** A final group of one or two bytes decodes back. */
  lemma ShortRoundTrip(b: seq<Byte>)
    requires 1 <= |b| <= 2
    ensures Decode(Encode(b)) == b
  {
    if |b| == 1 {
      assert Encode(b) == EncodeOne(b[0]);
      SingleQuad(EncodeOne(b[0]));
      OneRoundTrip(b[0]);
    } else {
      assert Encode(b) == EncodeTwo(b[0], b[1]);
      SingleQuad(EncodeTwo(b[0], b[1]));
      TwoRoundTrip(b[0], b[1]);
    }
  }

  /** Four characters decode as one group. */
  lemma SingleQuad(q: string)
    requires |q| == 4
    ensures Decode(q) == DecodeQuad(q)
  {
    assert q[..4] == q && q[4..] == "";
  }

  /** Decoding a longer encoding decodes the first group, then the rest. */
  lemma GroupStep(b: seq<Byte>)
    requires |b| >= 3
    ensures Decode(Encode(b)) == [b[0], b[1], b[2]] + Decode(Encode(b[3..]))
  {
    var s := Encode(b);
    GroupRoundTrip(b[0], b[1], b[2]);
    assert s == EncodeGroup(b[0], b[1], b[2]) + Encode(b[3..]);
    assert s[..4] == EncodeGroup(b[0], b[1], b[2]);
    assert s[4..] == Encode(b[3..]);
  }

  /** Decoding undoes encoding: distinct payloads have distinct encodings. */
  lemma {:induction false} RoundTrip(b: seq<Byte>)
    ensures Decode(Encode(b)) == b
  {
    if 1 <= |b| <= 2 {
      ShortRoundTrip(b);
    } else if |b| >= 3 {
      GroupStep(b);
      RoundTrip(b[3..]);
      assert b == [b[0], b[1], b[2]] + b[3..];
    }
  }

  /** The test vectors of section 10 of RFC 4648 up to three bytes: "f", "fo" and "foo" as
      ASCII bytes. They pin down the bit layout, which the round trip alone does not. */
  lemma KnownAnswers()
    ensures Encode([]) == ""
    ensures Encode([0x66]) == "Zg=="
    ensures Encode([0x66, 0x6f]) == "Zm8="
    ensures Encode([0x66, 0x6f, 0x6f]) == "Zm9v"
  {
  }

  /** The longer test vectors of section 10 of RFC 4648: "foob", "fooba" and "foobar". */
  lemma LongKnownAnswers()
    ensures Encode([0x66, 0x6f, 0x6f, 0x62]) == "Zm9vYg=="
    ensures Encode([0x66, 0x6f, 0x6f, 0x62, 0x61]) == "Zm9vYmE="
    ensures Encode([0x66, 0x6f, 0x6f, 0x62, 0x61, 0x72]) == "Zm9vYmFy"
  {
    assert EncodeGroup(0x66, 0x6f, 0x6f) == "Zm9v" by {
      KnownAnswers();
    }
    assert [0x66, 0x6f, 0x6f, 0x62][3..] == [0x62];
    assert [0x66, 0x6f, 0x6f, 0x62, 0x61][3..] == [0x62, 0x61];
    assert [0x66, 0x6f, 0x6f, 0x62, 0x61, 0x72][3..] == [0x62, 0x61, 0x72];
  }

  /** `b2a_base64(payload)`: the encoding followed by a newline. */
  function B2aBase64(b: seq<Byte>): (s: string)
    ensures |s| > 0 && s[|s| - 1] == '\n'
  {
    Encode(b) + "\n"
  }

  /** The URL-safe alphabet swaps `+` for `-` and `/` for `_`. */
  function UrlChar(c: char): char
  {
    if c == '+' then '-' else if c == '/' then '_' else c
  }

  /** `string.translate(s, {ord('+'): '-', ord('/'): '_'})`. */
  function Translate(s: string): (t: string)
    ensures |t| == |s| && forall i :: 0 <= i < |s| ==> t[i] == UrlChar(s[i])
  {
    if s == [] then [] else [UrlChar(s[0])] + Translate(s[1..])
  }

  /** Back from the URL-safe alphabet to the standard one. */
  function StandardChar(c: char): char
  {
    if c == '-' then '+' else if c == '_' then '/' else c
  }

  function Untranslate(s: string): (t: string)
    ensures |t| == |s| && forall i :: 0 <= i < |s| ==> t[i] == StandardChar(s[i])
  {
    if s == [] then [] else [StandardChar(s[0])] + Untranslate(s[1..])
  }

  /** Characters of the URL-safe alphabet, and the padding character. */
  predicate IsUrlSafeChar(c: char)
  {
    ('A' <= c <= 'Z') || ('a' <= c <= 'z') || ('0' <= c <= '9') || c == '-' || c == '_' || c == '='
  }

  /** `b42_urlsafe_encode(payload)`: drop the newline, then change the alphabet. Padding is
      kept. */
  function UrlSafeEncode(payload: seq<Byte>): (s: string)
    ensures |s| == 4 * ((|payload| + 2) / 3)
    ensures forall i :: 0 <= i < |s| ==> IsUrlSafeChar(s[i])
  {
    var b := B2aBase64(payload);
    Translate(b[..|b| - 1])
  }

  /** The URL-safe text has no `+`, `/`, newline or `.`, so it can be one dot-separated
      segment of a token. */
  lemma UrlSafeCharacters(payload: seq<Byte>)
    ensures forall i :: 0 <= i < |UrlSafeEncode(payload)| ==>
      UrlSafeEncode(payload)[i] !in {'+', '/', '\n', '.'}
  {
  }

  /** Changing the alphabet back gives the padded encoding. */
  lemma UntranslateUrlSafe(payload: seq<Byte>)
    ensures Untranslate(UrlSafeEncode(payload)) == Encode(payload)
  {
    assert B2aBase64(payload)[..|B2aBase64(payload)| - 1] == Encode(payload);
  }

  /** The URL-safe text decodes back to the payload. */
  lemma UrlSafeRoundTrip(payload: seq<Byte>)
    ensures Decode(Untranslate(UrlSafeEncode(payload))) == payload
  {
    UntranslateUrlSafe(payload);
    RoundTrip(payload);
  }

  /** The padding the encoding ends with: none, or two `=` after one leftover byte, or one
      after two. */
  function PadLength(n: nat): nat
  {
    if n % 3 == 1 then 2 else if n % 3 == 2 then 1 else 0
  }

  lemma PadLengthShift(n: nat)
    ensures PadLength(n + 3) == PadLength(n)
  {
  }

  lemma {:induction false} EncodePadding(b: seq<Byte>)
    ensures var s := Encode(b);
            PadLength(|b|) <= |s| && (forall i :: |s| - PadLength(|b|) <= i < |s| ==> s[i] == '=')
            && (forall i :: 0 <= i < |s| - PadLength(|b|) ==> IsAlphabetChar(s[i]))
  {
    if |b| >= 3 {
      var s, t, k := Encode(b), Encode(b[3..]), PadLength(|b|);
      EncodePadding(b[3..]);
      PadLengthShift(|b[3..]|);
      assert s[4..] == t && |s| == |t| + 4;
      forall i | |s| - k <= i < |s|
        ensures s[i] == '='
      {
        assert s[i] == t[i - 4];
      }
      forall i | 4 <= i < |s| - k
        ensures IsAlphabetChar(s[i])
      {
        assert s[i] == t[i - 4];
      }
    }
  }

  /** `b42_urlsafe_encode` keeps the padding that section 2 of RFC 7515 removes from
      base64url: a one-byte payload ends in `==`. */
  lemma PaddingKept()
    ensures UrlSafeEncode([0]) == "AA=="
  {
  }

  /** Base64url as section 2 of RFC 7515 defines it: the URL-safe text without padding. */
  function UrlSafeEncodeUnpadded(payload: seq<Byte>): (s: string)
    ensures |s| == |UrlSafeEncode(payload)| - PadLength(|payload|)
    ensures forall i :: 0 <= i < |s| ==> IsUrlSafeChar(s[i]) && s[i] != '='
  {
    EncodePadding(payload);
    var t := UrlSafeEncode(payload);
    t[..|t| - PadLength(|payload|)]
  }

  /** `=` repeated `n` times. */
  function Padding(n: nat): (s: string)
    ensures |s| == n && forall i :: 0 <= i < n ==> s[i] == '='
  {
    if n == 0 then "" else Padding(n - 1) + "="
  }

  /** Decoding unpadded base64url: restore the padding, then decode. */
  function UrlSafeDecodeUnpadded(s: string): seq<Byte>
  {
    Decode(Untranslate(s) + Padding((4 - |s| % 4) % 4))
  }

  lemma PadLengthRestored(n: nat)
    ensures var m := 4 * ((n + 2) / 3) - PadLength(n); m >= 0 && (4 - m % 4) % 4 == PadLength(n)
  {
  }

  /** The unpadded text, in the standard alphabet, is the padded encoding without its
      padding. */
  lemma UnpaddedPrefix(payload: seq<Byte>)
    ensures var e := Encode(payload);
            PadLength(|payload|) <= |e|
            && Untranslate(UrlSafeEncodeUnpadded(payload)) == e[..|e| - PadLength(|payload|)]
  {
    var e, t := Encode(payload), UrlSafeEncode(payload);
    var s := UrlSafeEncodeUnpadded(payload);
    UntranslateUrlSafe(payload);
    assert forall i :: 0 <= i < |s| ==> Untranslate(s)[i] == Untranslate(t)[i];
  }

  /** The padded encoding is its unpadded part followed by the padding. */
  lemma PaddedTail(payload: seq<Byte>)
    ensures var e, k := Encode(payload), PadLength(|payload|);
            k <= |e| && e[..|e| - k] + Padding(k) == e
  {
    EncodePadding(payload);
  }

  /** Restoring the padding to the unpadded text, in the standard alphabet, gives the padded
      encoding back. */
  lemma PaddingRestored(payload: seq<Byte>)
    ensures var s := UrlSafeEncodeUnpadded(payload);
            Untranslate(s) + Padding((4 - |s| % 4) % 4) == Encode(payload)
  {
    var s := UrlSafeEncodeUnpadded(payload);
    assert (4 - |s| % 4) % 4 == PadLength(|payload|) by {
      PadLengthRestored(|payload|);
    }
    UnpaddedPrefix(payload);
    PaddedTail(payload);
  }

  lemma UnpaddedRoundTrip(payload: seq<Byte>)
    ensures UrlSafeDecodeUnpadded(UrlSafeEncodeUnpadded(payload)) == payload
  {
    PaddingRestored(payload);
    RoundTrip(payload);
  }
}
