/** str.encode("utf-8") on strings of Unicode scalar values (RFC 3629, section 3). */
module Utf8 {
  import opened Basics

  function EncodeChar(c: char): Bytes {
    var n := c as int;
    if n < 0x80 then [n]
    else if n < 0x800 then [0xC0 + n / 0x40, 0x80 + n % 0x40]
    else if n < 0x1_0000 then [0xE0 + n / 0x1000, 0x80 + n / 0x40 % 0x40, 0x80 + n % 0x40]
    else [0xF0 + n / 0x4_0000, 0x80 + n / 0x1000 % 0x40, 0x80 + n / 0x40 % 0x40, 0x80 + n % 0x40]
  }

  function Encode(s: string): Bytes {
    if s == "" then [] else EncodeChar(s[0]) + Encode(s[1..])
  }

  /** The character a well-formed encoding starts with, and the number of its bytes. */
  function DecodeFirst(b: Bytes): Option<(char, nat)> {
    if b == [] then None
    else if b[0] < 0x80 then Some((b[0] as char, 1))
    else if b[0] < 0xE0 then
      if |b| < 2 then None else Checked((b[0] - 0xC0) * 0x40 + Low(b[1]), 2)
    else if b[0] < 0xF0 then
      if |b| < 3 then None else Checked((b[0] - 0xE0) * 0x1000 + Low(b[1]) * 0x40 + Low(b[2]), 3)
    else
      if |b| < 4 then None else Checked((b[0] - 0xF0) * 0x4_0000 + Low(b[1]) * 0x1000 + Low(b[2]) * 0x40 + Low(b[3]), 4)
  }

  function Low(b: Byte): int {
    b - 0x80
  }

  function Checked(n: int, length: nat): Option<(char, nat)> {
    if 0 <= n < 0xD800 || 0xE000 <= n < 0x11_0000 then Some((n as char, length)) else None
  }

  lemma DecodesFirst(c: char, rest: Bytes)
    ensures DecodeFirst(EncodeChar(c) + rest) == Some((c, |EncodeChar(c)|))
  {
    var n, b := c as int, EncodeChar(c) + rest;
    if n < 0x80 {
      assert b[0] == n;
    } else if n < 0x800 {
      assert b[0] == 0xC0 + n / 0x40 && b[1] == 0x80 + n % 0x40;
    } else if n < 0x1_0000 {
      SixBitGroups(n);
      assert b[0] == 0xE0 + n / 0x1000 && b[1] == 0x80 + n / 0x40 % 0x40 && b[2] == 0x80 + n % 0x40;
    } else {
      SixBitGroups(n);
      assert b[0] == 0xF0 + n / 0x4_0000 && b[1] == 0x80 + n / 0x1000 % 0x40;
      assert b[2] == 0x80 + n / 0x40 % 0x40 && b[3] == 0x80 + n % 0x40;
    }
  }

  /** The table of RFC 3629: as many bytes as the range of the character says, a lead byte of
      that length, continuation bytes 80..BF, and the bits they carry are the character. */
  lemma EncodedByTable(c: char)
    ensures var n, b := c as int, EncodeChar(c);
            && |b| == (if n <= 0x7F then 1 else if n <= 0x7FF then 2 else if n <= 0xFFFF then 3 else 4)
            && (forall i | 1 <= i < |b| :: 0x80 <= b[i] <= 0xBF)
            && match |b|
               case 1 => b[0] == n
               case 2 => 0xC2 <= b[0] <= 0xDF && n == (b[0] as int - 0xC0) * 64 + (b[1] as int - 0x80)
               case 3 => 0xE0 <= b[0] <= 0xEF && n == ((b[0] as int - 0xE0) * 64 + (b[1] as int - 0x80)) * 64 + (b[2] as int - 0x80)
               case _ => 0xF0 <= b[0] <= 0xF4 &&
                         n == (((b[0] as int - 0xF0) * 64 + (b[1] as int - 0x80)) * 64 + (b[2] as int - 0x80)) * 64 + (b[3] as int - 0x80)
  {
    SixBitGroups(c as int);
  }

  lemma SixBitGroups(n: nat)
    ensures n / 0x1000 * 0x1000 + n / 0x40 % 0x40 * 0x40 + n % 0x40 == n
    ensures n / 0x4_0000 * 0x4_0000 + n / 0x1000 % 0x40 * 0x1000 + n / 0x40 % 0x40 * 0x40 + n % 0x40 == n
  {
    var a := n / 0x40;
    var b := a / 0x40;
    assert n / 0x1000 == b && n / 0x4_0000 == b / 0x40;
  }

  /** Different strings have different encodings. */
  lemma {:induction false} EncodeInjective(s: string, t: string)
    requires Encode(s) == Encode(t)
    ensures s == t
    decreases s
  {
    if s != "" {
      DecodesFirst(s[0], Encode(s[1..]));
    }
    if t != "" {
      DecodesFirst(t[0], Encode(t[1..]));
    }
    if s != "" && t != "" {
      assert Encode(s)[|EncodeChar(s[0])|..] == Encode(s[1..]);
      assert Encode(t)[|EncodeChar(t[0])|..] == Encode(t[1..]);
      EncodeInjective(s[1..], t[1..]);
      assert s == [s[0]] + s[1..] && t == [t[0]] + t[1..];
    }
  }

  /** The characters whose codes are the given bytes. */
  function Latin1(b: Bytes): (s: string)
    ensures |s| == |b|
  {
    seq(|b|, i requires 0 <= i < |b| => b[i] as char)
  }

  /** ASCII text is encoded one byte per character. */
  lemma {:induction false} AsciiText(s: string)
    requires IsAscii(s)
    ensures Latin1(Encode(s)) == s
    decreases s
  {
    if s == "" {
    } else {
      AsciiText(s[1..]);
      assert Encode(s) == [s[0] as int] + Encode(s[1..]);
      assert forall i | 0 < i < |s| :: Latin1(Encode(s))[i] == Latin1(Encode(s[1..]))[i - 1];
    }
  }
}
