/** Base64 with the standard alphabet and `=` padding, section 4 of RFC 4648:
    the encoding `base64.StdEncoding.EncodeToString` produces. Every three
    bytes become four characters of six bits each; a final group of one or two
    bytes is padded to four characters with `=`. The decoder accepts exactly
    the canonical encodings (section 3.5: the pad bits of a final group are zero). */
module Base64 {
  import opened Results

  newtype byte = x: int | 0 <= x < 256

  /** The 64 characters of the standard alphabet, value v at position v. */
  predicate IsAlphabet(c: char) {
    ('A' <= c <= 'Z') || ('a' <= c <= 'z') || ('0' <= c <= '9') || c == '+' || c == '/'
  }

  /** The alphabet character of a six-bit value. */
  function CharOf(v: int): (c: char)
    requires 0 <= v < 64
    ensures IsAlphabet(c)
  {
    if v < 26 then ('A' as int + v) as char
    else if v < 52 then ('a' as int + v - 26) as char
    else if v < 62 then ('0' as int + v - 52) as char
    else if v == 62 then '+'
    else '/'
  }

  /** The six-bit value of an alphabet character. */
  function ValueOf(c: char): (v: int)
    requires IsAlphabet(c)
    ensures 0 <= v < 64 && CharOf(v) == c
  {
    if 'A' <= c <= 'Z' then c as int - 'A' as int
    else if 'a' <= c <= 'z' then c as int - 'a' as int + 26
    else if '0' <= c <= '9' then c as int - '0' as int + 52
    else if c == '+' then 62
    else 63
  }

  lemma ValueOfCharOf(v: int)
    requires 0 <= v < 64
    ensures ValueOf(CharOf(v)) == v
  {
  }

  /** A character of an encoding: the alphabet or the pad. */
  predicate IsEncodingChar(c: char) {
    IsAlphabet(c) || c == '='
  }

  /** Three bytes as four characters. */
  function EncodeGroup(b0: byte, b1: byte, b2: byte): string {
    [CharOf(b0 as int / 4), CharOf(b0 as int % 4 * 16 + b1 as int / 16),
     CharOf(b1 as int % 16 * 4 + b2 as int / 64), CharOf(b2 as int % 64)]
  }

  /** The last one or two bytes, padded. */
  function EncodeTail(b: seq<byte>): string
    requires 1 <= |b| <= 2
  {
    if |b| == 1 then [CharOf(b[0] as int / 4), CharOf(b[0] as int % 4 * 16), '=', '=']
    else [CharOf(b[0] as int / 4), CharOf(b[0] as int % 4 * 16 + b[1] as int / 16), CharOf(b[1] as int % 16 * 4), '=']
  }

  /** EncodeToString: four characters for every started group of three bytes,
      all of the alphabet except the padding at the very end. */
  function Encode(b: seq<byte>): (r: string)
    ensures |r| == 4 * ((|b| + 2) / 3)
    ensures forall i :: 0 <= i < |r| ==> IsEncodingChar(r[i])
    ensures forall i :: 0 <= i < |r| - 2 ==> IsAlphabet(r[i])
    ensures |b| % 3 == 0 ==> forall i :: 0 <= i < |r| ==> IsAlphabet(r[i])
    decreases |b|
  {
    if |b| == 0 then ""
    else if |b| <= 2 then EncodeTail(b)
    else EncodeGroup(b[0], b[1], b[2]) + Encode(b[3..])
  }

  /** Four alphabet characters as three bytes. */
  function DecodeGroup(q: string): (r: Option<seq<byte>>)
    requires |q| == 4
  {
    if !(IsAlphabet(q[0]) && IsAlphabet(q[1]) && IsAlphabet(q[2]) && IsAlphabet(q[3])) then None
    else
      var c0, c1, c2, c3 := ValueOf(q[0]), ValueOf(q[1]), ValueOf(q[2]), ValueOf(q[3]);
      Some([(c0 * 4 + c1 / 16) as byte, (c1 % 16 * 16 + c2 / 4) as byte, (c2 % 4 * 64 + c3) as byte])
  }

  /** The final four characters: a full group, or one or two bytes with their
      padding; the unused low bits must be zero. */
  function DecodeLast(q: string): (r: Option<seq<byte>>)
    requires |q| == 4
  {
    if q[2] == '=' && q[3] == '=' then
      if IsAlphabet(q[0]) && IsAlphabet(q[1]) && ValueOf(q[1]) % 16 == 0 then
        Some([(ValueOf(q[0]) * 4 + ValueOf(q[1]) / 16) as byte])
      else None
    else if q[3] == '=' then
      if IsAlphabet(q[0]) && IsAlphabet(q[1]) && IsAlphabet(q[2]) && ValueOf(q[2]) % 4 == 0 then
        var c0, c1, c2 := ValueOf(q[0]), ValueOf(q[1]), ValueOf(q[2]);
        Some([(c0 * 4 + c1 / 16) as byte, (c1 % 16 * 16 + c2 / 4) as byte])
      else None
    else DecodeGroup(q)
  }

  /** DecodeString on canonical input; None for anything that is not an encoding. */
  function Decode(s: string): (r: Option<seq<byte>>)
    decreases |s|
  {
    if |s| == 0 then Some([])
    else if |s| < 4 then None
    else if |s| == 4 then DecodeLast(s)
    else
      match DecodeGroup(s[..4])
      case None => None
      case Some(g) =>
        match Decode(s[4..])
        case None => None
        case Some(rest) => Some(g + rest)
  }

  // ----- Decoding undoes encoding -----

  /** Six bits split as the high part of one character and the low part of the next. */
  lemma Split16(a: int, b: int)
    requires 0 <= a && 0 <= b < 16
    ensures (a * 16 + b) / 16 == a && (a * 16 + b) % 16 == b
  {
  }

  lemma Split4(a: int, b: int)
    requires 0 <= a && 0 <= b < 4
    ensures (a * 4 + b) / 4 == a && (a * 4 + b) % 4 == b
  {
  }

  lemma DecodeEncodeGroup(b0: byte, b1: byte, b2: byte)
    ensures DecodeGroup(EncodeGroup(b0, b1, b2)) == Some([b0, b1, b2])
  {
    var x0, x1, x2 := b0 as int, b1 as int, b2 as int;
    var c0, c1, c2, c3 := x0 / 4, x0 % 4 * 16 + x1 / 16, x1 % 16 * 4 + x2 / 64, x2 % 64;
    var q := EncodeGroup(b0, b1, b2);
    assert q == [CharOf(c0), CharOf(c1), CharOf(c2), CharOf(c3)];
    ValueOfCharOf(c0);
    ValueOfCharOf(c1);
    ValueOfCharOf(c2);
    ValueOfCharOf(c3);
    Split16(x0 % 4, x1 / 16);
    Split4(x1 % 16, x2 / 64);
    assert c0 * 4 + c1 / 16 == x0;
    assert c1 % 16 * 16 + c2 / 4 == x1;
    assert c2 % 4 * 64 + c3 == x2;
  }

  lemma DecodeEncodeTail(b: seq<byte>)
    requires 1 <= |b| <= 2
    ensures DecodeLast(EncodeTail(b)) == Some(b)
  {
    var x0 := b[0] as int;
    ValueOfCharOf(x0 / 4);
    if |b| == 1 {
      var q := EncodeTail(b);
      ValueOfCharOf(x0 % 4 * 16);
      assert ValueOf(q[0]) == x0 / 4 && ValueOf(q[1]) == x0 % 4 * 16;
      assert (x0 % 4 * 16) % 16 == 0 && (x0 % 4 * 16) / 16 == x0 % 4;
      assert DecodeLast(q) == Some([(x0 / 4 * 4 + x0 % 4) as byte]);
      assert b == [b[0]];
    } else {
      var x1 := b[1] as int;
      var q := EncodeTail(b);
      ValueOfCharOf(x0 % 4 * 16 + x1 / 16);
      ValueOfCharOf(x1 % 16 * 4);
      assert ValueOf(q[0]) == x0 / 4 && ValueOf(q[1]) == x0 % 4 * 16 + x1 / 16 && ValueOf(q[2]) == x1 % 16 * 4;
      assert (x1 % 16 * 4) % 4 == 0 && (x1 % 16 * 4) / 4 == x1 % 16;
      assert (x0 % 4 * 16 + x1 / 16) / 16 == x0 % 4 && (x0 % 4 * 16 + x1 / 16) % 16 == x1 / 16;
      assert DecodeLast(q) == Some([(x0 / 4 * 4 + x0 % 4) as byte, (x1 / 16 * 16 + x1 % 16) as byte]);
      assert b == [b[0], b[1]];
    }
  }

  /** A full group is never the padded last group, and decodes the same way in both places. */
  lemma DecodeLastOfGroup(b0: byte, b1: byte, b2: byte)
    ensures DecodeLast(EncodeGroup(b0, b1, b2)) == Some([b0, b1, b2])
  {
    DecodeEncodeGroup(b0, b1, b2);
  }

  lemma EncodeFirstGroup(b: seq<byte>)
    requires |b| >= 3
    ensures Encode(b) == EncodeGroup(b[0], b[1], b[2]) + Encode(b[3..])
    ensures Encode(b)[..4] == EncodeGroup(b[0], b[1], b[2]) && Encode(b)[4..] == Encode(b[3..])
  {
    var g, r := EncodeGroup(b[0], b[1], b[2]), Encode(b[3..]);
    assert (g + r)[..4] == g && (g + r)[4..] == r;
  }

  /** Text longer than one group decodes group by group. */
  lemma DecodeFirstGroup(s: string, g: seq<byte>, rest: seq<byte>)
    requires |s| > 4 && DecodeGroup(s[..4]) == Some(g) && Decode(s[4..]) == Some(rest)
    ensures Decode(s) == Some(g + rest)
  {
  }

  /** Decoding an encoding gives back the bytes. */
  lemma {:induction false} DecodeEncode(b: seq<byte>)
    ensures Decode(Encode(b)) == Some(b)
    decreases |b|
  {
    if |b| == 0 {
    } else if |b| <= 2 {
      DecodeEncodeTail(b);
    } else if |b| == 3 {
      EncodeFirstGroup(b);
      assert Encode(b) == EncodeGroup(b[0], b[1], b[2]) + "";
      DecodeLastOfGroup(b[0], b[1], b[2]);
      assert b == [b[0], b[1], b[2]];
    } else {
      DecodeEncode(b[3..]);
      DecodeEncodeLonger(b);
    }
  }

  lemma DecodeEncodeLonger(b: seq<byte>)
    requires |b| > 3 && Decode(Encode(b[3..])) == Some(b[3..])
    ensures Decode(Encode(b)) == Some(b)
  {
    EncodeFirstGroup(b);
    DecodeEncodeGroup(b[0], b[1], b[2]);
    var s := Encode(b);
    assert DecodeGroup(s[..4]) == Some([b[0], b[1], b[2]]);
    assert Decode(s[4..]) == Some(b[3..]);
    assert |s| > 4;
    DecodeFirstGroup(s, [b[0], b[1], b[2]], b[3..]);
    FirstThree(b);
  }

  lemma FirstThree(b: seq<byte>)
    requires |b| >= 3
    ensures b == [b[0], b[1], b[2]] + b[3..]
  {
    assert b[..3] == [b[0], b[1], b[2]];
    assert b == b[..3] + b[3..];
  }

  // ----- Encoding undoes decoding: the decoder accepts only canonical text -----

  lemma EncodeDecodeGroup(q: string)
    requires |q| == 4 && DecodeGroup(q).Some?
    ensures |DecodeGroup(q).value| == 3
    ensures EncodeGroup(DecodeGroup(q).value[0], DecodeGroup(q).value[1], DecodeGroup(q).value[2]) == q
  {
    var c0, c1, c2, c3 := ValueOf(q[0]), ValueOf(q[1]), ValueOf(q[2]), ValueOf(q[3]);
    var g := DecodeGroup(q).value;
    assert g[0] as int / 4 == c0 && g[0] as int % 4 * 16 + g[1] as int / 16 == c1;
    assert g[1] as int % 16 * 4 + g[2] as int / 64 == c2 && g[2] as int % 64 == c3;
  }

  lemma EncodeDecodeLast(q: string)
    requires |q| == 4 && DecodeLast(q).Some?
    ensures 1 <= |DecodeLast(q).value| <= 3
    ensures Encode(DecodeLast(q).value) == q
  {
    var b := DecodeLast(q).value;
    if q[2] == '=' && q[3] == '=' {
      var c0, c1 := ValueOf(q[0]), ValueOf(q[1]);
      assert b[0] as int / 4 == c0 && b[0] as int % 4 * 16 == c1;
      assert Encode(b) == EncodeTail(b);
    } else if q[3] == '=' {
      var c0, c1, c2 := ValueOf(q[0]), ValueOf(q[1]), ValueOf(q[2]);
      assert b[0] as int / 4 == c0 && b[0] as int % 4 * 16 + b[1] as int / 16 == c1;
      assert b[1] as int % 16 * 4 == c2;
      assert Encode(b) == EncodeTail(b);
    } else {
      EncodeDecodeGroup(q);
      assert b[3..] == [];
      assert Encode(b) == EncodeGroup(b[0], b[1], b[2]) + "";
    }
  }

  /** Whatever decodes is the encoding of what it decodes to: Decode and Encode
      are inverse to each other. */
  lemma {:induction false} EncodeDecode(s: string)
    requires Decode(s).Some?
    ensures Encode(Decode(s).value) == s
    decreases |s|
  {
    if |s| == 4 {
      EncodeDecodeLast(s);
    } else if |s| > 4 {
      var g := DecodeGroup(s[..4]).value;
      var rest := Decode(s[4..]).value;
      EncodeDecode(s[4..]);
      EncodeDecodeGroup(s[..4]);
      var b := g + rest;
      assert b[..3] == g && b[3..] == rest;
      assert |Encode(rest)| > 0;
      EncodeFirstGroup(b);
      assert s == s[..4] + s[4..];
    }
  }
}
