/** Strict UTF-8, as Rust's `str::from_utf8` and `BufRead::read_line` check it: the
    well-formed byte sequences of table 3-7 of the Unicode Standard and nothing else
    (no overlong forms, no surrogates, nothing past U+10FFFF). */
module Utf8 {
  import opened Wrappers
  import opened Bytes

  /** A continuation byte, `10xxxxxx`. */
  predicate IsCont(b: byte) { 0x80 <= b < 0xC0 }

  /** The first character of `b` and the number of bytes it takes, when `b` starts with a
      well-formed sequence. */
  function DecodeFirst(b: Bytes): (r: Option<(char, nat)>)
    ensures r.Some? ==> 1 <= r.value.1 <= |b| && r.value.1 <= 4
    ensures r.Some? ==> !IsCont(b[0]) && (r.value.1 == 1 <==> b[0] < 0x80)
    ensures r.Some? ==> forall k :: 1 <= k < r.value.1 ==> IsCont(b[k])
  {
    if b == [] then None
    else if b[0] < 0x80 then Some((b[0] as char, 1))
    else if 0xC2 <= b[0] <= 0xDF then
      if |b| >= 2 && IsCont(b[1]) then
        Some((((b[0] as int - 0xC0) * 64 + (b[1] as int - 0x80)) as char, 2))
      else None
    else if 0xE0 <= b[0] <= 0xEF then
      var lo := if b[0] == 0xE0 then 0xA0 else 0x80;
      var hi := if b[0] == 0xED then 0xA0 else 0xC0;
      if |b| >= 3 && lo <= b[1] < hi && IsCont(b[2]) then
        var v := (b[0] as int - 0xE0) * 0x1000 + (b[1] as int - 0x80) * 64 + (b[2] as int - 0x80);
        Some((v as char, 3))
      else None
    else if 0xF0 <= b[0] <= 0xF4 then
      var lo := if b[0] == 0xF0 then 0x90 else 0x80;
      var hi := if b[0] == 0xF4 then 0x90 else 0xC0;
      if |b| >= 4 && lo <= b[1] < hi && IsCont(b[2]) && IsCont(b[3]) then
        var v := (b[0] as int - 0xF0) * 0x40000 + (b[1] as int - 0x80) * 0x1000 +
                 (b[2] as int - 0x80) * 64 + (b[3] as int - 0x80);
        Some((v as char, 4))
      else None
    else None
  }

  /** The text `b` encodes, or None when `b` is not well-formed UTF-8. */
  function Decode(b: Bytes): Option<string>
    decreases |b|
  {
    if b == [] then Some([])
    else
      match DecodeFirst(b)
      case None => None
      case Some((c, n)) =>
        match Decode(b[n..])
        case None => None
        case Some(t) => Some([c] + t)
  }

  /** The bytes of one character: one for ASCII, then two, three or four. */
  function EncodeChar(c: char): (r: Bytes)
    ensures 1 <= |r| <= 4
  {
    var n := c as int;
    if n < 0x80 then [n]
    else if n < 0x800 then [0xC0 + n / 64, 0x80 + n % 64]
    else if n < 0x10000 then [0xE0 + n / 0x1000, 0x80 + n / 64 % 64, 0x80 + n % 64]
    else [0xF0 + n / 0x40000, 0x80 + n / 0x1000 % 64, 0x80 + n / 64 % 64, 0x80 + n % 64]
  }

  /** The bytes of a text. */
  function Encode(s: string): Bytes
    decreases |s|
  {
    if s == [] then [] else EncodeChar(s[0]) + Encode(s[1..])
  }

  /** Whatever follows, a character's encoding decodes back to that character. */
  lemma DecodeFirstEncode(c: char, rest: Bytes)
    ensures DecodeFirst(EncodeChar(c) + rest) == Some((c, |EncodeChar(c)|))
  {
    var n := c as int;
    var b := EncodeChar(c) + rest;
    if n < 0x80 {
    } else if n < 0x800 {
      assert b[..2] == EncodeChar(c);
      DecodeTwo(n, b);
    } else if n < 0x10000 {
      assert b[..3] == EncodeChar(c);
      DecodeThree(n, b);
    } else {
      assert b[..4] == EncodeChar(c);
      DecodeFour(n, b);
    }
  }

  lemma DecodeTwo(n: int, b: Bytes)
    requires 0x80 <= n < 0x800 && |b| >= 2
    requires b[0] == 0xC0 + n / 64 && b[1] == 0x80 + n % 64
    ensures DecodeFirst(b) == Some((n as char, 2))
  {
    assert (n / 64) * 64 + n % 64 == n;
  }

  lemma DecodeThree(n: int, b: Bytes)
    requires 0x800 <= n < 0x10000 && !(0xD800 <= n < 0xE000) && |b| >= 3
    requires b[0] == 0xE0 + n / 0x1000 && b[1] == 0x80 + n / 64 % 64 && b[2] == 0x80 + n % 64
    ensures DecodeFirst(b) == Some((n as char, 3))
  {
    assert (n / 0x1000) * 0x1000 + (n / 64 % 64) * 64 + n % 64 == n;
  }

  lemma DecodeFour(n: int, b: Bytes)
    requires 0x10000 <= n < 0x110000 && |b| >= 4
    requires b[0] == 0xF0 + n / 0x40000 && b[1] == 0x80 + n / 0x1000 % 64
    requires b[2] == 0x80 + n / 64 % 64 && b[3] == 0x80 + n % 64
    ensures DecodeFirst(b) == Some((n as char, 4))
  {
    var d0, d1, d2, d3 := n / 0x40000, n / 0x1000 % 64, n / 64 % 64, n % 64;
    FourDigits(n);
    assert d0 * 0x40000 + d1 * 0x1000 + d2 * 64 + d3 == n;
    assert b[0] as int - 0xF0 == d0 && b[1] as int - 0x80 == d1;
    assert b[2] as int - 0x80 == d2 && b[3] as int - 0x80 == d3;
  }

  /** The four base-64 digits of a code point below 0x110000. */
  lemma FourDigits(n: int)
    requires 0 <= n
    ensures (n / 0x40000) * 0x40000 + (n / 0x1000 % 64) * 0x1000 + (n / 64 % 64) * 64 + n % 64 == n
  {
    assert n == (n / 64) * 64 + n % 64;
    assert n / 64 == (n / 0x1000) * 64 + n / 64 % 64;
    assert n / 0x1000 == (n / 0x40000) * 64 + n / 0x1000 % 64;
  }

  /** Decoding an encoding gives the text back. */
  lemma {:induction false} DecodeEncode(s: string)
    ensures Decode(Encode(s)) == Some(s)
    decreases |s|
  {
    if s != [] {
      var e := EncodeChar(s[0]);
      DecodeFirstEncode(s[0], Encode(s[1..]));
      DecodeEncode(s[1..]);
      assert (e + Encode(s[1..]))[|e|..] == Encode(s[1..]);
      assert [s[0]] + s[1..] == s;
    }
  }

  /** The first character is read from its own bytes, whatever follows them. */
  lemma DecodeFirstPrefix(a: Bytes, b: Bytes, n: nat)
    requires n <= |a|
    requires (DecodeFirst(a).Some? && DecodeFirst(a).value.1 == n) ||
             (DecodeFirst(a + b).Some? && DecodeFirst(a + b).value.1 == n)
    ensures DecodeFirst(a + b) == DecodeFirst(a)
  {
    assert forall k :: 0 <= k < |a| ==> (a + b)[k] == a[k];
  }

  /** Well-formed texts put together are well formed, and decode to the two texts. */
  lemma {:induction false} DecodeAppend(a: Bytes, b: Bytes)
    requires Decode(a).Some? && Decode(b).Some?
    ensures Decode(a + b) == Some(Decode(a).value + Decode(b).value)
    decreases |a|
  {
    if a == [] {
      assert a + b == b && Decode(a).value + Decode(b).value == Decode(b).value;
    } else {
      var n := DecodeFirst(a).value.1;
      DecodeFirstPrefix(a, b, n);
      DecodeAppend(a[n..], b);
      assert (a + b)[n..] == a[n..] + b;
      assert [DecodeFirst(a).value.0] + (Decode(a[n..]).value + Decode(b).value) ==
             ([DecodeFirst(a).value.0] + Decode(a[n..]).value) + Decode(b).value;
    }
  }

  /** A well-formed text cut right after an ASCII byte leaves two well-formed texts: no
      character's encoding holds an ASCII byte but as its only byte. */
  lemma {:induction false} DecodeSplit(a: Bytes, b: Bytes)
    requires a != [] && a[|a| - 1] < 0x80 && Decode(a + b).Some?
    ensures Decode(a).Some? && Decode(b).Some?
    decreases |a|
  {
    var n := DecodeFirst(a + b).value.1;
    if n > |a| {
      assert false;
    }
    DecodeFirstPrefix(a, b, n);
    assert (a + b)[n..] == a[n..] + b;
    if n < |a| {
      DecodeSplit(a[n..], b);
    } else {
      assert a[n..] == [] && a[n..] + b == b;
    }
  }

  /** Text that starts inside a character, at a continuation byte, is not well formed. */
  lemma DecodeFromContinuation(b: Bytes)
    requires b != [] && IsCont(b[0])
    ensures Decode(b).None?
  {
  }
}
