/** The text the edit page writes and reads: str.encode("utf-8") for
    Path.write_text and the strict UTF-8 decoder plus universal-newline
    translation of Path.read_text (app.py:439-445). A Dafny `char` is a
    Unicode scalar value, so every string can be encoded. */
module Utf8 {
  import opened Replies

  /** One byte of a file. */
  newtype byte = x: int | 0 <= x < 0x100

  /** Whether `n` is a Unicode scalar value. */
  predicate IsScalar(n: int) {
    (0 <= n < 0xD800) || (0xE000 <= n < 0x11_0000)
  }

  /** A continuation byte 10xxxxxx. */
  predicate IsCont(b: byte) {
    0x80 <= b as int < 0xC0
  }

  /** The low six bits of a continuation byte. */
  function Low6(b: byte): int
    requires IsCont(b)
  {
    b as int - 0x80
  }

  /** The UTF-8 encoding of one scalar value: one byte below 0x80, two below
      0x800, three below 0x10000 and four otherwise. */
  function EncodeChar(c: char): (b: seq<byte>)
    ensures |b| == EncodedLength(c as int)
  {
    var n := c as int;
    if n < 0x80 then [n as byte]
    else if n < 0x800 then [(0xC0 + n / 64) as byte, (0x80 + n % 64) as byte]
    else if n < 0x1_0000 then
      [(0xE0 + n / 4096) as byte, (0x80 + (n / 64) % 64) as byte, (0x80 + n % 64) as byte]
    else
      [(0xF0 + n / 262144) as byte, (0x80 + (n / 4096) % 64) as byte,
       (0x80 + (n / 64) % 64) as byte, (0x80 + n % 64) as byte]
  }

  /** How many bytes UTF-8 spends on the scalar value `n`. */
  function EncodedLength(n: int): nat {
    if n < 0x80 then 1 else if n < 0x800 then 2 else if n < 0x1_0000 then 3 else 4
  }

  /** str.encode("utf-8"). */
  function Encode(s: string): (b: seq<byte>)
    ensures |s| <= |b| <= 4 * |s|
  {
    if s == [] then [] else EncodeChar(s[0]) + Encode(s[1..])
  }

  /** Decodes the character at the start of `b`, answering it and the number
      of bytes it takes, or None when the bytes there are not well-formed
      UTF-8: a stray continuation byte, a lead byte above 0xF7, a missing or
      malformed continuation, an overlong form, a surrogate or a value above
      0x10FFFF. This accepts exactly the sequences of table 3-7 of the
      Unicode Standard, as Python's strict decoder does. */
  function DecodeChar(b: seq<byte>): (r: Option<(char, nat)>)
    requires b != []
    ensures r.Some? ==> 1 <= r.value.1 <= |b| && r.value.1 == EncodedLength(r.value.0 as int)
  {
    var b0 := b[0] as int;
    if b0 < 0x80 then Some((b0 as char, 1))
    else if b0 < 0xC0 then None
    else if b0 < 0xE0 then
      if |b| < 2 || !IsCont(b[1]) then None
      else
        var n := (b0 - 0xC0) * 64 + Low6(b[1]);
        if n < 0x80 then None else Some((n as char, 2))
    else if b0 < 0xF0 then
      if |b| < 3 || !IsCont(b[1]) || !IsCont(b[2]) then None
      else
        var n := (b0 - 0xE0) * 4096 + Low6(b[1]) * 64 + Low6(b[2]);
        if n < 0x800 || !IsScalar(n) then None else Some((n as char, 3))
    else if b0 < 0xF8 then
      if |b| < 4 || !IsCont(b[1]) || !IsCont(b[2]) || !IsCont(b[3]) then None
      else
        var n := (b0 - 0xF0) * 262144 + Low6(b[1]) * 4096 + Low6(b[2]) * 64 + Low6(b[3]);
        if n < 0x1_0000 || !IsScalar(n) then None else Some((n as char, 4))
    else None
  }

  /** bytes.decode("utf-8") in strict mode: None stands for
      UnicodeDecodeError. */
  function Decode(b: seq<byte>): (r: Option<string>)
    decreases |b|
  {
    if b == [] then Some([])
    else
      match DecodeChar(b)
      case None => None
      case Some((c, k)) =>
        match Decode(b[k..])
        case None => None
        case Some(rest) => Some([c] + rest)
  }

  lemma EncodeChar1(c: char)
    requires (c as int) < 0x80
    ensures DecodeChar(EncodeChar(c)) == Some((c, 1))
  {
  }

  lemma EncodeChar2(c: char)
    requires 0x80 <= (c as int) < 0x800
    ensures DecodeChar(EncodeChar(c)) == Some((c, 2))
  {
    var n := c as int;
    var b := EncodeChar(c);
    var q, r := n / 64, n % 64;
    assert b[0] as int == 0xC0 + q && b[1] as int == 0x80 + r;
  }

  /** The quotient and remainders of `n` by 4096 and 64 recombine to `n`. */
  lemma Split3(n: nat)
    ensures (n / 64) / 64 == n / 4096
    ensures n == (n / 4096) * 4096 + ((n / 64) % 64) * 64 + n % 64
  {
    var q := n / 64;
    assert n == 64 * q + n % 64;
    assert q == 64 * (q / 64) + q % 64;
    assert n == 4096 * (q / 64) + 64 * (q % 64) + n % 64;
  }

  lemma EncodeChar3(c: char)
    requires 0x800 <= (c as int) < 0x1_0000
    ensures DecodeChar(EncodeChar(c)) == Some((c, 3))
  {
    var n := c as int;
    Split3(n);
    var b := EncodeChar(c);
    var x, y, z := n / 4096, (n / 64) % 64, n % 64;
    assert b[0] as int == 0xE0 + x && b[1] as int == 0x80 + y && b[2] as int == 0x80 + z;
    assert x * 4096 + y * 64 + z == n;
  }

  /** The same for four pieces of six bits. */
  lemma Split4(n: nat)
    ensures n == (n / 262144) * 262144 + ((n / 4096) % 64) * 4096 + ((n / 64) % 64) * 64 + n % 64
  {
    Split3(n);
    var p := n / 4096;
    assert p == 64 * (p / 64) + p % 64;
    assert p / 64 == n / 262144;
  }

  lemma EncodeChar4(c: char)
    requires 0x1_0000 <= (c as int)
    ensures DecodeChar(EncodeChar(c)) == Some((c, 4))
  {
    var n := c as int;
    Split4(n);
    var b := EncodeChar(c);
    var w, x, y, z := n / 262144, (n / 4096) % 64, (n / 64) % 64, n % 64;
    assert b[0] as int == 0xF0 + w && b[1] as int == 0x80 + x;
    assert b[2] as int == 0x80 + y && b[3] as int == 0x80 + z;
    assert w * 262144 + x * 4096 + y * 64 + z == n;
  }

  /** The decoder reads back the character the encoder wrote, whatever
      follows it. */
  lemma DecodeEncodeChar(c: char, rest: seq<byte>)
    ensures DecodeChar(EncodeChar(c) + rest) == Some((c, |EncodeChar(c)|))
  {
    var n := c as int;
    if n < 0x80 { EncodeChar1(c); }
    else if n < 0x800 { EncodeChar2(c); }
    else if n < 0x1_0000 { EncodeChar3(c); }
    else { EncodeChar4(c); }
    var b := EncodeChar(c);
    assert (b + rest)[..|b|] == b;
  }

  /** Decoding what was encoded gives the text back. */
  lemma {:induction false} DecodeEncode(s: string)
    ensures Decode(Encode(s)) == Some(s)
  {
    if s != [] {
      var b := EncodeChar(s[0]);
      var tail := Encode(s[1..]);
      DecodeEncodeChar(s[0], tail);
      assert (b + tail)[|b|..] == tail;
      DecodeEncode(s[1..]);
      assert [s[0]] + s[1..] == s;
    }
  }

  /** Division by 64 recovers a quotient and a remainder below 64. */
  lemma DivMod64(q: int, r: int)
    requires 0 <= r < 64
    ensures (q * 64 + r) / 64 == q && (q * 64 + r) % 64 == r
  {
  }

  /** The encoder's bytes for a character of two, three or four bytes,
      given the six-bit pieces of its value. */
  lemma EncodeTwo(n: int, x: int, z: int)
    requires 0x80 <= n < 0x800 && 0 <= z < 64 && n == x * 64 + z
    ensures EncodeChar(n as char) == [(0xC0 + x) as byte, (0x80 + z) as byte]
  {
    DivMod64(x, z);
  }

  lemma EncodeThree(n: int, x: int, y: int, z: int)
    requires 0x800 <= n < 0x1_0000 && IsScalar(n) && 0 <= y < 64 && 0 <= z < 64
    requires n == (x * 64 + y) * 64 + z
    ensures EncodeChar(n as char) == [(0xE0 + x) as byte, (0x80 + y) as byte, (0x80 + z) as byte]
  {
    DivMod64(x * 64 + y, z);
    DivMod64(x, y);
    Split3(n);
  }

  lemma EncodeFour(n: int, w: int, x: int, y: int, z: int)
    requires 0x1_0000 <= n && IsScalar(n) && 0 <= x < 64 && 0 <= y < 64 && 0 <= z < 64
    requires n == ((w * 64 + x) * 64 + y) * 64 + z
    ensures EncodeChar(n as char) == [(0xF0 + w) as byte, (0x80 + x) as byte, (0x80 + y) as byte, (0x80 + z) as byte]
  {
    DivMod64((w * 64 + x) * 64 + y, z);
    DivMod64(w * 64 + x, y);
    DivMod64(w, x);
    assert n / 4096 == w * 64 + x by { Split3(n); }
    assert n / 262144 == w by { assert n == w * 262144 + (x * 4096 + y * 64 + z); }
  }

  /** The bytes the decoder accepted for one character are exactly the
      encoder's bytes for it. */
  lemma DecodeCharEncodes(b: seq<byte>)
    requires b != [] && DecodeChar(b).Some?
    ensures b[..DecodeChar(b).value.1] == EncodeChar(DecodeChar(b).value.0)
  {
    var b0 := b[0] as int;
    var (c, k) := DecodeChar(b).value;
    var n := c as int;
    if k == 2 {
      EncodeTwo(n, b0 - 0xC0, Low6(b[1]));
      assert b[..2] == [b[0], b[1]];
    } else if k == 3 {
      EncodeThree(n, b0 - 0xE0, Low6(b[1]), Low6(b[2]));
      assert b[..3] == [b[0], b[1], b[2]];
    } else if k == 4 {
      EncodeFour(n, b0 - 0xF0, Low6(b[1]), Low6(b[2]), Low6(b[3]));
      assert b[..4] == [b[0], b[1], b[2], b[3]];
    }
  }

  /** Whatever the decoder accepts is the encoding of what it answers, so
      together with DecodeEncode the decoder refuses every byte string that
      is not the UTF-8 encoding of a text. */
  lemma {:induction false} EncodeDecode(b: seq<byte>)
    requires Decode(b).Some?
    ensures Encode(Decode(b).value) == b
    decreases |b|
  {
    if b != [] {
      var (c, k) := DecodeChar(b).value;
      DecodeCharEncodes(b);
      EncodeDecode(b[k..]);
      var s := Decode(b).value;
      assert s == [c] + Decode(b[k..]).value;
      assert s[1..] == Decode(b[k..]).value;
      assert b == b[..k] + b[k..];
    }
  }

  /** The decoder accepts exactly the encodings of texts. */
  lemma DecodeAcceptsExactlyEncodings(b: seq<byte>)
    ensures Decode(b).Some? <==> exists s :: Encode(s) == b
    ensures forall s :: Encode(s) == b ==> Decode(b) == Some(s)
  {
    if Decode(b).Some? {
      EncodeDecode(b);
    }
    forall s | Encode(s) == b
      ensures Decode(b) == Some(s)
    {
      DecodeEncode(s);
    }
  }

  // ---------------------------------------------------------------------
  // Universal newlines
  // ---------------------------------------------------------------------

  /** The translation read_text applies after decoding (universal newlines):
      "\r\n" and a lone "\r" both become "\n". */
  function TranslateNewlines(s: string): (r: string)
    ensures '\r' !in r
    ensures |r| <= |s|
  {
    if s == [] then []
    else if s[0] == '\r' then
      ['\n'] + TranslateNewlines(if |s| > 1 && s[1] == '\n' then s[2..] else s[1..])
    else [s[0]] + TranslateNewlines(s[1..])
  }

  /** The same translation read line by line from the end: a line ending
      "\r\n", "\r" or "\n" is replaced by "\n", any other character is kept. */
  function TranslateFromEnd(s: string): string
    decreases |s|
  {
    if s == [] then []
    else
      var init, last := s[..|s| - 1], s[|s| - 1];
      if last == '\n' && init != [] && init[|init| - 1] == '\r' then TranslateFromEnd(init[..|init| - 1]) + ['\n']
      else if last == '\r' then TranslateFromEnd(init) + ['\n']
      else TranslateFromEnd(init) + [last]
  }

  /** Appending one character: a "\n" right after a "\r" adds nothing, a
      "\r" adds "\n", anything else adds itself. */
  lemma {:induction false} TranslateSnoc(s: string, c: char)
    ensures TranslateNewlines(s + [c]) ==
            if c == '\n' && s != [] && s[|s| - 1] == '\r' then TranslateNewlines(s)
            else TranslateNewlines(s) + [if c == '\r' then '\n' else c]
    decreases |s|, 1
  {
    if s != [] {
      if s[0] == '\r' {
        TranslateSnocAfterReturn(s, c);
      } else {
        var t := s[1..];
        assert (s + [c])[1..] == t + [c];
        TranslateSnoc(t, c);
        if t != [] { assert t[|t| - 1] == s[|s| - 1]; }
      }
    }
  }

  /** TranslateSnoc for a text that starts with "\r". */
  lemma {:induction false} TranslateSnocAfterReturn(s: string, c: char)
    requires s != [] && s[0] == '\r'
    ensures TranslateNewlines(s + [c]) ==
            if c == '\n' && s[|s| - 1] == '\r' then TranslateNewlines(s)
            else TranslateNewlines(s) + [if c == '\r' then '\n' else c]
    decreases |s|, 0
  {
    var sc := s + [c];
    var t := s[1..];
    if t == [] {
      assert sc == ['\r', c];
      if c != '\n' { assert sc[1..] == [c]; }
    } else if t[0] == '\n' {
      var u := t[1..];
      assert sc[1] == '\n' && sc[2..] == u + [c];
      TranslateSnoc(u, c);
      if u != [] { assert u[|u| - 1] == s[|s| - 1]; }
    } else {
      assert sc[1] == t[0] && sc[1..] == t + [c];
      TranslateSnoc(t, c);
      assert t[|t| - 1] == s[|s| - 1];
    }
  }

  /** Reading from the front and reading from the end translate alike:
      "\r\n" and a lone "\r" become "\n" and nothing else changes. */
  lemma {:induction false} TranslateAgrees(s: string)
    ensures TranslateNewlines(s) == TranslateFromEnd(s)
    decreases |s|
  {
    if s != [] {
      var init, last := s[..|s| - 1], s[|s| - 1];
      assert s == init + [last];
      TranslateSnoc(init, last);
      if last == '\n' && init != [] && init[|init| - 1] == '\r' {
        var pre := init[..|init| - 1];
        assert init == pre + ['\r'];
        TranslateSnoc(pre, '\r');
        TranslateAgrees(pre);
      } else {
        TranslateAgrees(init);
      }
    }
  }

  /** Text without carriage returns is read back as written. */
  lemma {:induction false} TranslateKeepsPlainText(s: string)
    requires '\r' !in s
    ensures TranslateNewlines(s) == s
  {
    if s != [] {
      assert s[0] != '\r';
      assert '\r' !in s[1..] by {
        forall i | 0 <= i < |s[1..]| ensures s[1..][i] != '\r' {
          assert s[1..][i] == s[i + 1];
        }
      }
      TranslateKeepsPlainText(s[1..]);
      assert [s[0]] + s[1..] == s;
    }
  }

  /** Translating twice changes nothing more. */
  lemma TranslateIdempotent(s: string)
    ensures TranslateNewlines(TranslateNewlines(s)) == TranslateNewlines(s)
  {
    TranslateKeepsPlainText(TranslateNewlines(s));
  }

  /** The text the edit page shows for stored bytes (Path.read_text with
      encoding="utf-8"): None when they are not UTF-8. */
  function ReadText(b: seq<byte>): (r: Option<string>)
    ensures r.Some? ==> '\r' !in r.value
  {
    match Decode(b)
    case None => None
    case Some(s) => Some(TranslateNewlines(s))
  }

  /** read_text fails exactly on the byte strings that are not the UTF-8
      encoding of any text. */
  lemma ReadTextFailsOffUtf8(b: seq<byte>)
    ensures ReadText(b).None? <==> forall s :: Encode(s) != b
  {
    DecodeAcceptsExactlyEncodings(b);
  }

  /** Reading back what write_text stored gives the text with its line ends
      normalised, and exactly the text when it holds no "\r". */
  lemma ReadWrittenText(s: string)
    ensures ReadText(Encode(s)) == Some(TranslateNewlines(s))
    ensures '\r' !in s ==> ReadText(Encode(s)) == Some(s)
  {
    DecodeEncode(s);
    if '\r' !in s {
      TranslateKeepsPlainText(s);
    }
  }
}
