/** UTF-8 as the two ends of the relay use it: Rust's `str::as_bytes` on the
    sending side and the browser's `TextDecoder` (replacement mode) on the
    receiving side. A `char` here is a Unicode scalar value. */
module Utf8 {
  import opened Bytes

  /** Number of bytes UTF-8 spends on one scalar value. */
  function CharLen(c: char): (n: nat)
    ensures 1 <= n <= 4
    ensures n == 1 <==> (c as int) < 0x80
  {
    var v := c as int;
    if v < 0x80 then 1
    else if v < 0x800 then 2
    else if v < 0x1_0000 then 3
    else 4
  }

  function EncodeChar(c: char): (r: seq<byte>)
    ensures |r| == CharLen(c)
  {
    var v := c as int;
    if v < 0x80 then [v]
    else if v < 0x800 then [0xC0 + v / 0x40, 0x80 + v % 0x40]
    else if v < 0x1_0000 then
      [0xE0 + v / 0x1000, 0x80 + (v / 0x40) % 0x40, 0x80 + v % 0x40]
    else
      [0xF0 + v / 0x4_0000, 0x80 + (v / 0x1000) % 0x40,
       0x80 + (v / 0x40) % 0x40, 0x80 + v % 0x40]
  }

  /** `str::as_bytes`: the UTF-8 encoding of a string. Its length is what
      Rust's `str::len` reports. */
  function Encode(s: string): (r: seq<byte>)
    ensures |r| >= |s|
    ensures s != [] ==> |r| >= CharLen(s[0])
  {
    if s == [] then [] else EncodeChar(s[0]) + Encode(s[1..])
  }

  lemma {:induction false} EncodeAppend(a: string, b: string)
    ensures Encode(a + b) == Encode(a) + Encode(b)
  {
    if a == [] {
      assert a + b == b;
    } else {
      assert (a + b)[1..] == a[1..] + b;
      EncodeAppend(a[1..], b);
    }
  }

  /** A string's UTF-8 length is 1 exactly when it is one ASCII character:
      Rust's `key.len() == 1` test. */
  lemma ByteLenOne(s: string)
    ensures |Encode(s)| == 1 <==> |s| == 1 && (s[0] as int) < 0x80
  {
    if |s| >= 2 {
      assert |Encode(s)| >= CharLen(s[0]) + |s[1..]| by {
        assert Encode(s) == EncodeChar(s[0]) + Encode(s[1..]);
      }
    }
  }

  predicate IsCont(b: byte)
  {
    0x80 <= b <= 0xBF
  }

  /** How many continuation bytes a lead byte announces (0: not a valid lead). */
  function Needed(b0: byte): (n: nat)
    ensures n <= 3
  {
    if 0xC2 <= b0 <= 0xDF then 1
    else if 0xE0 <= b0 <= 0xEF then 2
    else if 0xF0 <= b0 <= 0xF4 then 3
    else 0
  }

  /** The range the first continuation byte must fall in after lead `b0`;
      the narrowed ranges exclude overlong forms, surrogates and values
      above U+10FFFF. */
  function FirstLow(b0: byte): byte
  {
    if b0 == 0xE0 then 0xA0 else if b0 == 0xF0 then 0x90 else 0x80
  }

  function FirstHigh(b0: byte): byte
  {
    if b0 == 0xED then 0x9F else if b0 == 0xF4 then 0x8F else 0xBF
  }

  /** Number of bytes after the lead, up to `need`, that are acceptable
      continuation bytes, counted until the first unacceptable one. */
  function Accepted(b: seq<byte>, need: nat): (k: nat)
    requires |b| > 0
    ensures k <= need && k < |b|
  {
    if need >= 1 && |b| > 1 && FirstLow(b[0]) <= b[1] <= FirstHigh(b[0]) then
      if need >= 2 && |b| > 2 && IsCont(b[2]) then
        if need >= 3 && |b| > 3 && IsCont(b[3]) then 3 else 2
      else 1
    else 0
  }

  const REPLACEMENT: char := '\U{FFFD}'

  /** One step of the WHATWG UTF-8 decoder: the scalar value decoded from the
      front of `b` and the number of bytes consumed. An ill-formed prefix
      yields U+FFFD and consumes the lead byte plus the continuation bytes
      that were acceptable (the maximal subpart); the offending byte is left
      for the next step. */
  function DecodeOne(b: seq<byte>): (r: (char, nat))
    requires |b| > 0
    ensures 1 <= r.1 <= |b|
  {
    var b0 := b[0] as int;
    if b0 < 0x80 then ((b0 as char), 1)
    else
      var need := Needed(b[0]);
      var k := Accepted(b, need);
      if need == 0 || k < need then (REPLACEMENT, k + 1)
      else if need == 1 then
        (((b0 - 0xC0) * 0x40 + (b[1] as int - 0x80)) as char, 2)
      else if need == 2 then
        var v := (b0 - 0xE0) * 0x1000 + (b[1] as int - 0x80) * 0x40 + (b[2] as int - 0x80);
        assert v < 0xD800 || 0xE000 <= v < 0x1_0000;
        (v as char, 3)
      else
        var v := (b0 - 0xF0) * 0x4_0000 + (b[1] as int - 0x80) * 0x1000
          + (b[2] as int - 0x80) * 0x40 + (b[3] as int - 0x80);
        assert 0x1_0000 <= v <= 0x10_FFFF;
        (v as char, 4)
  }

  /** `new TextDecoder().decode(bytes)`. */
  function Decode(b: seq<byte>): (r: string)
    ensures |r| <= |b|
    decreases |b|
  {
    if b == [] then []
    else
      var (c, n) := DecodeOne(b);
      [c] + Decode(b[n..])
  }

  /** The UTF-8 byte-order mark, the encoding of U+FEFF. */
  const BOM: seq<byte> := [0xEF, 0xBB, 0xBF]

  /** `new TextDecoder().decode(bytes)`: with the default `ignoreBOM`
      false, one leading byte-order mark is dropped before decoding. Rust's
      `String::from_utf8_lossy` is plain `Decode`, which keeps it. */
  function TextDecode(b: seq<byte>): (r: string)
  {
    if |b| >= 3 && b[..3] == BOM then Decode(b[3..]) else Decode(b)
  }

  /** U+FEFF is what the byte-order mark encodes. */
  lemma BomIsFeff()
    ensures EncodeChar('\U{FEFF}') == BOM
  {
  }

  lemma DecodeTwo(c: char, rest: seq<byte>)
    requires 0x80 <= c as int < 0x800
    ensures DecodeOne(EncodeChar(c) + rest) == (c, 2)
  {
    var v := c as int;
    var b := EncodeChar(c) + rest;
    assert b[0] == 0xC0 + v / 0x40 && b[1] == 0x80 + v % 0x40;
    assert Needed(b[0]) == 1;
    assert Accepted(b, 1) == 1;
  }

  lemma DecodeThree(c: char, rest: seq<byte>)
    requires 0x800 <= c as int < 0x1_0000
    ensures DecodeOne(EncodeChar(c) + rest) == (c, 3)
  {
    var v := c as int;
    var b := EncodeChar(c) + rest;
    assert b[0] == 0xE0 + v / 0x1000;
    assert b[1] == 0x80 + (v / 0x40) % 0x40;
    assert b[2] == 0x80 + v % 0x40;
    assert v / 0x40 == (v / 0x1000) * 0x40 + (v / 0x40) % 0x40;
    assert Needed(b[0]) == 2;
    assert Accepted(b, 2) == 2;
  }

  /** The base-64 digits of a four-byte scalar value. */
  lemma FourDigits(v: int)
    requires 0x1_0000 <= v <= 0x10_FFFF
    ensures v / 0x4_0000 <= 4
    ensures v / 0x4_0000 == 0 ==> (v / 0x1000) % 0x40 >= 0x10
    ensures v / 0x4_0000 == 4 ==> (v / 0x1000) % 0x40 < 0x10
    ensures v == v / 0x4_0000 * 0x4_0000 + (v / 0x1000) % 0x40 * 0x1000
      + (v / 0x40) % 0x40 * 0x40 + v % 0x40
  {
    var q := v / 0x1000;
    assert v == q * 0x1000 + (v / 0x40) % 0x40 * 0x40 + v % 0x40;
    assert q == (q / 0x40) * 0x40 + q % 0x40;
    assert q / 0x40 == v / 0x4_0000;
    assert 0x10 <= q <= 0x10F;
  }

  lemma DecodeFour(c: char, rest: seq<byte>)
    requires 0x1_0000 <= c as int
    ensures DecodeOne(EncodeChar(c) + rest) == (c, 4)
  {
    var v := c as int;
    FourDigits(v);
    var b := EncodeChar(c) + rest;
    assert b[0] == 0xF0 + v / 0x4_0000;
    assert b[1] == 0x80 + (v / 0x1000) % 0x40;
    assert b[2] == 0x80 + (v / 0x40) % 0x40;
    assert b[3] == 0x80 + v % 0x40;
    assert Needed(b[0]) == 3;
    assert Accepted(b, 3) == 3;
  }

  /** One encoded scalar value at the front decodes to itself, consuming
      exactly its own bytes. */
  lemma DecodeOneOfEncodeChar(c: char, rest: seq<byte>)
    ensures DecodeOne(EncodeChar(c) + rest) == (c, CharLen(c))
  {
    var v := c as int;
    if v < 0x80 {
    } else if v < 0x800 {
      DecodeTwo(c, rest);
    } else if v < 0x1_0000 {
      DecodeThree(c, rest);
    } else {
      DecodeFour(c, rest);
    }
  }

  /** Decoding gives back exactly what was encoded. */
  lemma {:induction false} DecodeEncode(s: string)
    ensures Decode(Encode(s)) == s
  {
    if s != [] {
      var b := Encode(s);
      assert b == EncodeChar(s[0]) + Encode(s[1..]);
      DecodeOneOfEncodeChar(s[0], Encode(s[1..]));
      assert b[CharLen(s[0])..] == Encode(s[1..]);
      DecodeEncode(s[1..]);
    }
  }

  /** An encoded text starts with the byte-order mark exactly when its
      first character is U+FEFF. */
  lemma EncodeStartsWithBom(s: string)
    ensures |Encode(s)| >= 3 && Encode(s)[..3] == BOM <==> s != [] && s[0] == '\U{FEFF}'
  {
    if s != [] {
      var rest := Encode(s[1..]);
      assert Encode(s) == EncodeChar(s[0]) + rest;
      if s[0] == '\U{FEFF}' {
        BomIsFeff();
        assert Encode(s)[..3] == BOM;
      } else if |Encode(s)| >= 3 && Encode(s)[..3] == BOM {
        DecodeOneOfEncodeChar(s[0], rest);
        assert Encode(s) == BOM + Encode(s)[3..];
        DecodeThree('\U{FEFF}', Encode(s)[3..]);
        BomIsFeff();
        assert false;
      }
    }
  }

  /** What the renderer reads from the bridge's bytes: the text itself,
      except that a leading U+FEFF is taken for a byte-order mark and
      dropped. */
  lemma TextDecodeEncode(s: string)
    ensures TextDecode(Encode(s)) == if s != [] && s[0] == '\U{FEFF}' then s[1..] else s
  {
    EncodeStartsWithBom(s);
    if s != [] && s[0] == '\U{FEFF}' {
      BomIsFeff();
      assert Encode(s) == EncodeChar(s[0]) + Encode(s[1..]);
      assert Encode(s)[3..] == Encode(s[1..]);
      DecodeEncode(s[1..]);
    } else {
      DecodeEncode(s);
    }
  }
}
