/** Standard base64 with padding, as section 4 of RFC 4648 defines it
    (alphabet `A-Z a-z 0-9 + /`, pad character `=`). `Decode` is the strict
    decoder the `base64` crate's `decode` implements for well-formed input:
    the length is a multiple of four, padding appears only in the last
    group, and the bits that padding discards are zero. */
module Base64 {
  import opened Outcome

  /** A 6-bit value, the index of one alphabet character. */
  type sextet = v: int | 0 <= v < 64

  const Pad: char := '='

  /** The alphabet character for a 6-bit value. */
  function CharOf(v: sextet): char {
    if v < 26 then ('A' as int + v) as char
    else if v < 52 then ('a' as int + (v - 26)) as char
    else if v < 62 then ('0' as int + (v - 52)) as char
    else if v == 62 then '+'
    else '/'
  }

  /** The 6-bit value of an alphabet character; `None` for every other character. */
  function ValueOf(c: char): (r: Option<sextet>)
    ensures r.Some? ==> c != Pad
  {
    if 'A' <= c <= 'Z' then Some(c as int - 'A' as int)
    else if 'a' <= c <= 'z' then Some(c as int - 'a' as int + 26)
    else if '0' <= c <= '9' then Some(c as int - '0' as int + 52)
    else if c == '+' then Some(62)
    else if c == '/' then Some(63)
    else None
  }

  /** Every 6-bit value is spelled by a character other than the pad, and
      reading that character gives the value back. */
  lemma ValueOfCharOf(v: sextet)
    ensures CharOf(v) != Pad && ValueOf(CharOf(v)) == Some(v)
  {
  }

  /** Each character has at most one value, so decoding a character and
      encoding the value gives the character back. */
  lemma CharOfValueOf(c: char)
    requires ValueOf(c).Some?
    ensures CharOf(ValueOf(c).value) == c
  {
  }

  /** Three bytes as four characters. */
  function EncodeGroup(a: byte, b: byte, c: byte): seq<char> {
    [CharOf(a / 4), CharOf((a % 4) * 16 + b / 16), CharOf((b % 16) * 4 + c / 64), CharOf(c % 64)]
  }

  /** A final group of one byte: two characters and two pads. */
  function EncodeOne(a: byte): seq<char> {
    [CharOf(a / 4), CharOf((a % 4) * 16), Pad, Pad]
  }

  /** A final group of two bytes: three characters and one pad. */
  function EncodeTwo(a: byte, b: byte): seq<char> {
    [CharOf(a / 4), CharOf((a % 4) * 16 + b / 16), CharOf((b % 16) * 4), Pad]
  }

  /** The padded base64 encoding of `s`. */
  function Encode(s: seq<byte>): seq<char> {
    if |s| == 0 then []
    else if |s| == 1 then EncodeOne(s[0])
    else if |s| == 2 then EncodeTwo(s[0], s[1])
    else EncodeGroup(s[0], s[1], s[2]) + Encode(s[3..])
  }

  /** The byte made of the six bits of `v0` and the top two bits of `v1`. */
  function First(v0: sextet, v1: sextet): byte {
    v0 * 4 + v1 / 16
  }

  /** The byte made of the low four bits of `v1` and the top four of `v2`. */
  function Second(v1: sextet, v2: sextet): byte {
    (v1 % 16) * 16 + v2 / 4
  }

  /** The byte made of the low two bits of `v2` and the six bits of `v3`. */
  function Third(v2: sextet, v3: sextet): byte {
    (v2 % 4) * 64 + v3
  }

  /** Four alphabet characters as three bytes. */
  function DecodeGroup(q: seq<char>): (r: Option<seq<byte>>)
    requires |q| == 4
  {
    match (ValueOf(q[0]), ValueOf(q[1]), ValueOf(q[2]), ValueOf(q[3]))
    case (Some(v0), Some(v1), Some(v2), Some(v3)) =>
      Some([First(v0, v1), Second(v1, v2), Third(v2, v3)])
    case _ => None
  }

  /** The last group, which may end in one or two pads. */
  function DecodeLast(q: seq<char>): (r: Option<seq<byte>>)
    requires |q| == 4
  {
    if q[2] == Pad && q[3] == Pad then
      match (ValueOf(q[0]), ValueOf(q[1]))
      case (Some(v0), Some(v1)) =>
        if v1 % 16 == 0 then Some([First(v0, v1)]) else None
      case _ => None
    else if q[3] == Pad then
      match (ValueOf(q[0]), ValueOf(q[1]), ValueOf(q[2]))
      case (Some(v0), Some(v1), Some(v2)) =>
        if v2 % 4 == 0 then Some([First(v0, v1), Second(v1, v2)]) else None
      case _ => None
    else DecodeGroup(q)
  }

  /** The bytes `s` encodes, or `None` when `s` is not a padded base64 text. */
  function Decode(s: seq<char>): Option<seq<byte>> {
    if |s| == 0 then Some([])
    else if |s| < 4 then None
    else if |s| == 4 then DecodeLast(s)
    else match (DecodeGroup(s[..4]), Decode(s[4..]))
      case (Some(g), Some(rest)) => Some(g + rest)
      case _ => None
  }

  lemma DivMod4(x: nat, y: nat)
    requires y < 4
    ensures (x * 4 + y) / 4 == x && (x * 4 + y) % 4 == y
  {
  }

  lemma DivMod16(x: nat, y: nat)
    requires y < 16
    ensures (x * 16 + y) / 16 == x && (x * 16 + y) % 16 == y
  {
  }

  lemma DivMod64(x: nat, y: nat)
    requires y < 64
    ensures (x * 64 + y) / 64 == x && (x * 64 + y) % 64 == y
  {
  }

  /** Splitting three bytes into four sextets and joining them again is the identity. */
  lemma BytesThroughSextets(a: byte, b: byte, c: byte)
    ensures First(a / 4, (a % 4) * 16 + b / 16) == a
    ensures Second((a % 4) * 16 + b / 16, (b % 16) * 4 + c / 64) == b
    ensures Third((b % 16) * 4 + c / 64, c % 64) == c
  {
    DivMod16(a % 4, b / 16);
    DivMod4(b % 16, c / 64);
  }

  /** Joining four sextets into three bytes and splitting them again is the identity. */
  lemma SextetsThroughBytes(v0: sextet, v1: sextet, v2: sextet, v3: sextet)
    ensures First(v0, v1) / 4 == v0
    ensures (First(v0, v1) % 4) * 16 + Second(v1, v2) / 16 == v1
    ensures (Second(v1, v2) % 16) * 4 + Third(v2, v3) / 64 == v2
    ensures Third(v2, v3) % 64 == v3
  {
    DivMod4(v0, v1 / 16);
    DivMod16(v1 % 16, v2 / 4);
    DivMod64(v2 % 4, v3);
  }

  lemma GroupRoundTrip(a: byte, b: byte, c: byte)
    ensures DecodeGroup(EncodeGroup(a, b, c)) == Some([a, b, c])
  {
    var v0, v1, v2, v3 := a / 4, (a % 4) * 16 + b / 16, (b % 16) * 4 + c / 64, c % 64;
    var q := EncodeGroup(a, b, c);
    assert q == [CharOf(v0), CharOf(v1), CharOf(v2), CharOf(v3)];
    ValueOfCharOf(v0);
    ValueOfCharOf(v1);
    ValueOfCharOf(v2);
    ValueOfCharOf(v3);
    assert DecodeGroup(q) == Some([First(v0, v1), Second(v1, v2), Third(v2, v3)]);
    BytesThroughSextets(a, b, c);
  }

  lemma OneRoundTrip(a: byte)
    ensures DecodeLast(EncodeOne(a)) == Some([a])
  {
    var v0, v1 := a / 4, (a % 4) * 16;
    var q := EncodeOne(a);
    ValueOfCharOf(v0);
    ValueOfCharOf(v1);
    assert ValueOf(q[0]) == Some(v0);
    assert ValueOf(q[1]) == Some(v1);
    DivMod16(a % 4, 0);
    assert DecodeLast(q) == Some([First(v0, v1)]);
    BytesThroughSextets(a, 0, 0);
  }

  lemma TwoRoundTrip(a: byte, b: byte)
    ensures DecodeLast(EncodeTwo(a, b)) == Some([a, b])
  {
    var v0, v1, v2 := a / 4, (a % 4) * 16 + b / 16, (b % 16) * 4;
    var q := EncodeTwo(a, b);
    ValueOfCharOf(v0);
    ValueOfCharOf(v1);
    ValueOfCharOf(v2);
    assert ValueOf(q[0]) == Some(v0);
    assert ValueOf(q[1]) == Some(v1);
    assert ValueOf(q[2]) == Some(v2);
    DivMod4(b % 16, 0);
    assert DecodeLast(q) == Some([First(v0, v1), Second(v1, v2)]);
    BytesThroughSextets(a, b, 0);
  }

  /** A text longer than one group decodes as its first group followed by the rest. */
  lemma DecodeCons(q: seq<char>, rest: seq<char>)
    requires |q| == 4 && |rest| > 0
    ensures Decode(q + rest) == match (DecodeGroup(q), Decode(rest))
      case (Some(g), Some(r)) => Some(g + r)
      case _ => None
  {
    assert (q + rest)[..4] == q && (q + rest)[4..] == rest;
  }

  /** A single group decodes as a last group. */
  lemma DecodeOneGroup(q: seq<char>)
    requires |q| == 4
    ensures Decode(q) == DecodeLast(q)
  {
  }

  lemma DecodeEncodeOne(a: byte)
    ensures Decode(Encode([a])) == Some([a])
  {
    var q := EncodeOne(a);
    assert Encode([a]) == q;
    DecodeOneGroup(q);
    OneRoundTrip(a);
  }

  lemma DecodeEncodeTwo(a: byte, b: byte)
    ensures Decode(Encode([a, b])) == Some([a, b])
  {
    var q := EncodeTwo(a, b);
    assert Encode([a, b]) == q;
    DecodeOneGroup(q);
    TwoRoundTrip(a, b);
  }

  lemma DecodeEncodeThree(a: byte, b: byte, c: byte)
    ensures Decode(Encode([a, b, c])) == Some([a, b, c])
  {
    var q := EncodeGroup(a, b, c);
    assert Encode([a, b, c]) == q + Encode([]) == q;
    DecodeOneGroup(q);
    ValueOfCharOf(c % 64);
    assert q[3] != Pad;
    GroupRoundTrip(a, b, c);
  }

  /** Decoding undoes encoding, for every byte sequence including the empty one. */
  lemma {:induction false} DecodeEncode(s: seq<byte>)
    ensures Decode(Encode(s)) == Some(s)
  {
    if |s| == 1 {
      assert s == [s[0]];
      DecodeEncodeOne(s[0]);
    } else if |s| == 2 {
      assert s == [s[0], s[1]];
      DecodeEncodeTwo(s[0], s[1]);
    } else if |s| == 3 {
      assert s == [s[0], s[1], s[2]];
      DecodeEncodeThree(s[0], s[1], s[2]);
    } else if |s| > 3 {
      DecodeEncode(s[3..]);
      DecodeEncodeCons(s);
    }
  }

  /** A text of more than three bytes encodes as its first group followed by the rest. */
  lemma EncodeCons(s: seq<byte>)
    requires |s| > 3
    ensures Encode(s) == EncodeGroup(s[0], s[1], s[2]) + Encode(s[3..])
  {
  }

  /** One step of the round trip: a full group in front of a non-empty rest. */
  lemma DecodeEncodeCons(s: seq<byte>)
    requires |s| > 3 && Decode(Encode(s[3..])) == Some(s[3..])
    ensures Decode(Encode(s)) == Some(s)
  {
    var g := EncodeGroup(s[0], s[1], s[2]);
    EncodeCons(s);
    GroupRoundTrip(s[0], s[1], s[2]);
    DecodeCons(g, Encode(s[3..]));
    FirstThree(s);
  }

  lemma FirstThree<T>(s: seq<T>)
    requires |s| >= 3
    ensures s == [s[0], s[1], s[2]] + s[3..]
  {
  }

  lemma GroupInverse(q: seq<char>)
    requires |q| == 4 && DecodeGroup(q).Some?
    ensures |DecodeGroup(q).value| == 3
    ensures EncodeGroup(DecodeGroup(q).value[0], DecodeGroup(q).value[1], DecodeGroup(q).value[2]) == q
  {
    var v0, v1, v2, v3 := ValueOf(q[0]).value, ValueOf(q[1]).value, ValueOf(q[2]).value, ValueOf(q[3]).value;
    var a, b, c := First(v0, v1), Second(v1, v2), Third(v2, v3);
    assert DecodeGroup(q) == Some([a, b, c]);
    SextetsThroughBytes(v0, v1, v2, v3);
    assert EncodeGroup(a, b, c) == [CharOf(v0), CharOf(v1), CharOf(v2), CharOf(v3)];
    CharOfValueOf(q[0]);
    CharOfValueOf(q[1]);
    CharOfValueOf(q[2]);
    CharOfValueOf(q[3]);
  }

  lemma LastInverse(q: seq<char>)
    requires |q| == 4 && DecodeLast(q).Some?
    ensures Encode(DecodeLast(q).value) == q
  {
    var bs := DecodeLast(q).value;
    if q[2] == Pad && q[3] == Pad {
      var v0, v1 := ValueOf(q[0]).value, ValueOf(q[1]).value;
      SextetsThroughBytes(v0, v1, 0, 0);
      CharOfValueOf(q[0]);
      CharOfValueOf(q[1]);
      assert EncodeOne(bs[0]) == q;
    } else if q[3] == Pad {
      var v0, v1, v2 := ValueOf(q[0]).value, ValueOf(q[1]).value, ValueOf(q[2]).value;
      SextetsThroughBytes(v0, v1, v2, 0);
      CharOfValueOf(q[0]);
      CharOfValueOf(q[1]);
      CharOfValueOf(q[2]);
      assert EncodeTwo(bs[0], bs[1]) == q;
    } else {
      GroupInverse(q);
      assert Encode(bs) == EncodeGroup(bs[0], bs[1], bs[2]) + Encode(bs[3..]);
    }
  }

  /** Every text `Decode` accepts is the encoding of what it decodes to:
      the decoder accepts no second spelling of any byte sequence. */
  lemma {:induction false} EncodeDecode(s: seq<char>)
    requires Decode(s).Some?
    ensures Encode(Decode(s).value) == s
  {
    if |s| == 4 {
      LastInverse(s);
    } else if |s| > 4 {
      var g := DecodeGroup(s[..4]).value;
      var rest := Decode(s[4..]).value;
      GroupInverse(s[..4]);
      EncodeDecode(s[4..]);
      var x := g + rest;
      assert x[..3] == g && x[3..] == rest;
      assert Encode(x) == EncodeGroup(g[0], g[1], g[2]) + Encode(rest);
      assert s == s[..4] + s[4..];
    }
  }

  /** `Decode` is exactly the inverse of `Encode`. */
  lemma DecodeIsInverse(s: seq<char>, x: seq<byte>)
    ensures Decode(s) == Some(x) <==> s == Encode(x)
  {
    if Decode(s) == Some(x) {
      EncodeDecode(s);
    }
    if s == Encode(x) {
      DecodeEncode(x);
    }
  }

  /** No encoding contains a comma, so a base64 payload ends a data URI cleanly. */
  lemma {:induction false} EncodeHasNoComma(s: seq<byte>)
    ensures ',' !in Encode(s)
  {
    if |s| >= 3 {
      EncodeHasNoComma(s[3..]);
      assert Encode(s) == EncodeGroup(s[0], s[1], s[2]) + Encode(s[3..]);
    }
  }
}
