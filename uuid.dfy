/** UUIDs as 32 hexadecimal digits (128 bits), with the text forms of the `uuid` crate:
    `parse_str` accepts the simple, hyphenated, braced and URN forms in either case, and
    `Display` writes the lowercase hyphenated form. */
module Uuid {
  import opened Wrappers
  import opened Text

  type Nibble = x: int | 0 <= x < 16

  type Uuid = s: seq<Nibble> | |s| == 32 witness NilNibbles()

  function NilNibbles(): seq<Nibble> { seq(32, _ => 0) }

  /** The nil UUID `00000000-0000-0000-0000-000000000000`. */
  const Nil: Uuid := NilNibbles()

  function HexValue(c: char): Nibble
    requires IsAsciiHexDigit(c)
  {
    if '0' <= c <= '9' then c as int - '0' as int
    else if 'a' <= c <= 'f' then c as int - 'a' as int + 10
    else c as int - 'A' as int + 10
  }

  function HexChar(n: Nibble): (c: char)
    ensures IsAsciiHexDigit(c) && HexValue(c) == n
  {
    if n < 10 then ('0' as int + n) as char else ('a' as int + n - 10) as char
  }

  /** A hex digit read and written again comes out in lower case. */
  lemma HexCharOfValue(c: char)
    requires IsAsciiHexDigit(c)
    ensures HexChar(HexValue(c)) == AsciiLowerChar(c)
  {
  }

  predicate AllHex(s: string) {
    forall i :: 0 <= i < |s| ==> IsAsciiHexDigit(s[i])
  }

  function Hex(ns: seq<Nibble>): (s: string)
    ensures |s| == |ns| && AllHex(s)
    ensures forall i :: 0 <= i < |ns| ==> s[i] == HexChar(ns[i])
  {
    seq(|ns|, i requires 0 <= i < |ns| => HexChar(ns[i]))
  }

  predicate HyphensAt(s: string) {
    |s| == 36 && s[8] == '-' && s[13] == '-' && s[18] == '-' && s[23] == '-'
  }

  predicate IsHyphenPos(i: int) { i == 8 || i == 13 || i == 18 || i == 23 }

  /** Where the `j`-th digit sits in the hyphenated form. */
  function Pos(j: nat): (i: nat)
    requires j < 32
    ensures i < 36 && !IsHyphenPos(i)
  {
    j + (if j >= 8 then 1 else 0) + (if j >= 12 then 1 else 0) + (if j >= 16 then 1 else 0) + (if j >= 20 then 1 else 0)
  }

  /** Which digit a non-hyphen position of the hyphenated form holds. */
  function Idx(i: nat): (j: nat)
    requires i < 36 && !IsHyphenPos(i)
    ensures j < 32 && Pos(j) == i
  {
    i - (if i > 8 then 1 else 0) - (if i > 13 then 1 else 0) - (if i > 18 then 1 else 0) - (if i > 23 then 1 else 0)
  }

  /** The 32 digits of a hyphenated UUID. */
  function Dehyphen(s: string): (d: string)
    requires |s| == 36
    ensures |d| == 32
    ensures forall j :: 0 <= j < 32 ==> d[j] == s[Pos(j)]
  {
    seq(32, j requires 0 <= j < 32 => s[Pos(j)])
  }

  function ParseSimple(s: string): (u: Uuid)
    requires |s| == 32 && AllHex(s)
    ensures forall i :: 0 <= i < 32 ==> u[i] == HexValue(s[i])
  {
    seq(32, i requires 0 <= i < 32 => HexValue(s[i]))
  }

  function ParseHyphenated(s: string): Option<Uuid>
    requires |s| == 36
  {
    if HyphensAt(s) && AllHex(Dehyphen(s)) then Some(ParseSimple(Dehyphen(s))) else None
  }

  /** `Uuid::parse_str`. */
  function Parse(s: string): (r: Option<Uuid>)
    ensures |s| !in {32, 36, 38, 45} ==> r.None?
  {
    if |s| == 32 then (if AllHex(s) then Some(ParseSimple(s)) else None)
    else if |s| == 36 then ParseHyphenated(s)
    else if |s| == 38 then (if s[0] == '{' && s[37] == '}' then ParseHyphenated(s[1..37]) else None)
    else if |s| == 45 then (if s[..9] == "urn:uuid:" then ParseHyphenated(s[9..]) else None)
    else None
  }

  /** `Uuid::to_string()`: lowercase, hyphenated 8-4-4-4-12. */
  function ToString(u: Uuid): (s: string)
    ensures |s| == 36 && HyphensAt(s)
    ensures forall i :: 0 <= i < 36 && !IsHyphenPos(i) ==> s[i] == HexChar(u[Idx(i)])
  {
    seq(36, i requires 0 <= i < 36 => if IsHyphenPos(i) then '-' else HexChar(u[Idx(i)]))
  }

  lemma DehyphenToString(u: Uuid)
    ensures Dehyphen(ToString(u)) == Hex(u)
  {
    var s := ToString(u);
    forall j | 0 <= j < 32 ensures Dehyphen(s)[j] == Hex(u)[j] {
      assert Idx(Pos(j)) == j;
    }
  }

  /** Writing a UUID and parsing it back gives the same UUID. */
  lemma ParseToString(u: Uuid)
    ensures Parse(ToString(u)) == Some(u)
  {
    DehyphenToString(u);
    assert ParseSimple(Hex(u)) == u;
  }

  /** A hyphenated string parses exactly when its digits are hex and its hyphens sit at
      positions 8, 13, 18 and 23; the parsed UUID is then written back as the input
      with its letters in lower case. */
  lemma ToStringOfParse(s: string)
    requires |s| == 36
    ensures Parse(s).Some? <==> HyphensAt(s) && AllHex(Dehyphen(s))
    ensures Parse(s).Some? ==> ToString(Parse(s).value) == AsciiLower(s)
  {
    if Parse(s).Some? {
      var u := Parse(s).value;
      var t := ToString(u);
      var d := Dehyphen(s);
      forall i | 0 <= i < 36 ensures t[i] == AsciiLower(s)[i] {
        if !IsHyphenPos(i) {
          HexCharOfValue(d[Idx(i)]);
        }
      }
    }
  }
}
