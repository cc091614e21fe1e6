/**
 The associated data of a record: the compact JSON text of [collection, id, version,
 tombstone] as json.dumps writes it with its default ASCII escaping (RFC 8259,
 section 7), in UTF-8.

 A reader of that text is given and proved to invert the writer in front of any
 continuation. So the text is an injective, prefix-free encoding of the four fields.
 */
module RecordAad {
  import opened Basics
  import Utf8

  // ---------- strings ----------

  function HexDigit(n: nat): char
    requires n < 16
  {
    if n < 10 then ('0' as int + n) as char else ('a' as int + n - 10) as char
  }

  function Unicode4(n: nat): string
    requires n < 0x1_0000
  {
    ['\\', 'u', HexDigit(n / 0x1000), HexDigit(n / 0x100 % 16), HexDigit(n / 0x10 % 16), HexDigit(n % 16)]
  }

  function Escape(c: char): string {
    if c == '"' then ['\\', '"']
    else if c == '\\' then ['\\', '\\']
    else if c == '\n' then ['\\', 'n']
    else if c == '\r' then ['\\', 'r']
    else if c == '\t' then ['\\', 't']
    else if c as int == 0x0c then ['\\', 'f']
    else if c as int == 0x08 then ['\\', 'b']
    else if ' ' <= c <= '~' then [c]
    else if c as int < 0x1_0000 then Unicode4(c as int)
    else
      var n := c as int - 0x1_0000;
      Unicode4(0xd800 + n / 0x400) + Unicode4(0xdc00 + n % 0x400)
  }

  function EscapeAll(s: string): string {
    if s == "" then "" else Escape(s[0]) + EscapeAll(s[1..])
  }

  function Quote(s: string): string {
    ['"'] + EscapeAll(s) + ['"']
  }

  // ---------- integers ----------

  function Digits(n: nat): string {
    (if n < 10 then "" else Digits(n / 10)) + [('0' as int + n % 10) as char]
  }

  function IntText(v: int): string {
    if v < 0 then ['-'] + Digits(-v) else Digits(v)
  }

  // ---------- the associated data ----------

  datatype Fields = Fields(collection: string, id: string, version: int, tombstone: bool)

  function BoolText(b: bool): string {
    if b then "true" else "false"
  }

  function JsonText(f: Fields): string {
    ['['] + (Quote(f.collection) + ([','] + (Quote(f.id) + ([','] + (IntText(f.version) + ([','] + (BoolText(f.tombstone) + [']'])))))))
  }

  function Aad(f: Fields): Bytes {
    Utf8.Encode(JsonText(f))
  }

  // ---------- the reader ----------

  function HexValue(c: char): nat {
    if '0' <= c <= '9' then c as int - '0' as int
    else if 'a' <= c <= 'f' then c as int - 'a' as int + 10
    else 0
  }

  function ReadUnicode4(s: string): (n: nat)
    requires |s| >= 6
    ensures n < 0x1_0000
  {
    HexValue(s[2]) * 0x1000 + HexValue(s[3]) * 0x100 + HexValue(s[4]) * 0x10 + HexValue(s[5])
  }

  /** One character from the front of a string's contents, and what follows it. */
  function ReadChar(s: string): (r: Option<(char, string)>)
    ensures r.Some? ==> |r.value.1| < |s|
  {
    if s == "" then None
    else if s[0] != '\\' then Some((s[0], s[1..]))
    else if |s| < 2 then None
    else
      match s[1]
      case 'n' => Some(('\n', s[2..]))
      case 'r' => Some(('\r', s[2..]))
      case 't' => Some(('\t', s[2..]))
      case 'f' => Some((0x0c as char, s[2..]))
      case 'b' => Some((0x08 as char, s[2..]))
      case 'u' => ReadEscaped(s)
      case c => Some((c, s[2..]))
  }

  function ReadEscaped(s: string): (r: Option<(char, string)>)
    ensures r.Some? ==> |r.value.1| < |s|
  {
    if |s| < 6 then None
    else
      var n := ReadUnicode4(s);
      if n < 0xd800 || n >= 0xe000 then Some((n as char, s[6..]))
      else if |s| < 12 then None
      else
        var low := ReadUnicode4(s[6..]);
        if 0xd800 <= n < 0xdc00 <= low < 0xe000 then
          Some(((0x1_0000 + (n - 0xd800) * 0x400 + (low - 0xdc00)) as char, s[12..]))
        else
          None
  }

  /** The rest of a string up to its closing quote, and what follows the quote. */
  function ReadString(s: string): Option<(string, string)>
    decreases |s|
  {
    if s != "" && s[0] == '"' then Some(("", s[1..]))
    else
      match ReadChar(s)
      case None => None
      case Some((c, rest)) =>
        match ReadString(rest)
        case None => None
        case Some((t, rest2)) => Some(([c] + t, rest2))
  }

  predicate IsDigit(c: char) {
    '0' <= c <= '9'
  }

  /** The number of digits in front. */
  function Span(s: string): (n: nat)
    ensures n <= |s|
  {
    if s != "" && IsDigit(s[0]) then 1 + Span(s[1..]) else 0
  }

  function NatOf(s: string): nat {
    if s == "" then 0 else NatOf(s[..|s| - 1]) * 10 + (if IsDigit(s[|s| - 1]) then s[|s| - 1] as int - '0' as int else 0)
  }

  function ReadNat(s: string): (nat, string) {
    (NatOf(s[..Span(s)]), s[Span(s)..])
  }

  function ReadInt(s: string): (int, string) {
    if s != "" && s[0] == '-' then
      var (n, rest) := ReadNat(s[1..]);
      (0 - n as int, rest)
    else
      ReadNat(s)
  }

  function Expect(c: char, s: string): Option<string> {
    if s != "" && s[0] == c then Some(s[1..]) else None
  }

  function ReadQuoted(s: string): Option<(string, string)> {
    match Expect('"', s)
    case None => None
    case Some(t) => ReadString(t)
  }

  function ReadBool(s: string): Option<(bool, string)> {
    if |s| >= 4 && s[..4] == "true" then Some((true, s[4..]))
    else if |s| >= 5 && s[..5] == "false" then Some((false, s[5..]))
    else None
  }

  function ReadTail(s: string): Option<((int, bool), string)> {
    var (v, rest) := ReadInt(s);
    match Expect(',', rest)
    case None => None
    case Some(t) =>
      match ReadBool(t)
      case None => None
      case Some((b, u)) =>
        match Expect(']', u)
        case None => None
        case Some(w) => Some(((v, b), w))
  }

  function ReadSecond(collection: string, s: string): Option<(Fields, string)> {
    match Expect(',', s)
    case None => None
    case Some(t) =>
      match ReadQuoted(t)
      case None => None
      case Some((id, u)) =>
        match Expect(',', u)
        case None => None
        case Some(w) =>
          match ReadTail(w)
          case None => None
          case Some(((v, b), rest)) => Some((Fields(collection, id, v, b), rest))
  }

  /** The four fields at the front of a text, and what follows them. */
  function ReadFields(s: string): Option<(Fields, string)> {
    match Expect('[', s)
    case None => None
    case Some(t) =>
      match ReadQuoted(t)
      case None => None
      case Some((collection, u)) => ReadSecond(collection, u)
  }

  // ---------- the reader inverts the writer ----------

  lemma HexRoundTrip(n: nat)
    requires n < 16
    ensures HexValue(HexDigit(n)) == n && ' ' <= HexDigit(n) <= '~'
  {
  }

  lemma Unicode4RoundTrip(n: nat, rest: string)
    requires n < 0x1_0000
    ensures |Unicode4(n)| == 6 && ReadUnicode4(Unicode4(n) + rest) == n
    ensures (Unicode4(n) + rest)[6..] == rest && (Unicode4(n) + rest)[0] == '\\' && (Unicode4(n) + rest)[1] == 'u'
  {
    HexRoundTrip(n / 0x1000);
    HexRoundTrip(n / 0x100 % 16);
    HexRoundTrip(n / 0x10 % 16);
    HexRoundTrip(n % 16);
    var s := Unicode4(n) + rest;
    assert s[2] == HexDigit(n / 0x1000) && s[3] == HexDigit(n / 0x100 % 16);
    assert s[4] == HexDigit(n / 0x10 % 16) && s[5] == HexDigit(n % 16);
    HexDigitsSum(n);
  }

  const LOWER_HEX := "0123456789abcdef"

  /** A backslash, a u and the four lower-case hexadecimal digits of n. */
  predicate IsUnit(s: string, n: nat) {
    && n < 0x1_0000 && |s| == 6 && s[0] == '\\' && s[1] == 'u'
    && s[2] == LOWER_HEX[n / 0x1000] && s[3] == LOWER_HEX[n / 0x100 % 16]
    && s[4] == LOWER_HEX[n / 0x10 % 16] && s[5] == LOWER_HEX[n % 16]
  }

  lemma HexDigitsLower(n: nat)
    requires n < 16
    ensures HexDigit(n) == LOWER_HEX[n]
  {
  }

  lemma UnitWritten(n: nat)
    requires n < 0x1_0000
    ensures IsUnit(Unicode4(n), n)
  {
    HexDigitsLower(n / 0x1000);
    HexDigitsLower(n / 0x100 % 16);
    HexDigitsLower(n / 0x10 % 16);
    HexDigitsLower(n % 16);
  }

  /** The one spelling json.dumps chooses: seven characters have a short escape, other
      printable ASCII stands for itself, and the rest of the basic plane is one unit. */
  lemma SpelledAsJsonDumps(c: char)
    requires c as int <= 0xffff
    ensures c == '"' ==> Escape(c) == "\\\""
    ensures c == '\\' ==> Escape(c) == "\\\\"
    ensures c == '\n' ==> Escape(c) == "\\n"
    ensures c == '\r' ==> Escape(c) == "\\r"
    ensures c == '\t' ==> Escape(c) == "\\t"
    ensures c as int == 12 ==> Escape(c) == "\\f"
    ensures c as int == 8 ==> Escape(c) == "\\b"
    ensures c as int in {32, 33} || 35 <= c as int <= 91 || 93 <= c as int <= 126 ==> Escape(c) == [c]
    ensures (c as int < 32 && c as int !in {8, 9, 10, 12, 13}) || 127 <= c as int ==> IsUnit(Escape(c), c as int)
  {
    UnitWritten(c as int);
  }

  /** Above it, the unit of a high and that of a low surrogate. */
  lemma SpelledInSurrogates(c: char) returns (high: nat, low: nat)
    requires c as int > 0xffff
    ensures Surrogates(c, high, low) && |Escape(c)| == 12
    ensures IsUnit(Escape(c)[..6], high) && IsUnit(Escape(c)[6..], low)
  {
    var n := c as int - 0x1_0000;
    high, low := 0xd800 + n / 0x400, 0xdc00 + n % 0x400;
    SurrogateHalves(n);
    UnitWritten(high);
    UnitWritten(low);
    assert Escape(c)[..6] == Unicode4(high) && Escape(c)[6..] == Unicode4(low);
  }

  /** The UTF-16 pair of c. */
  predicate Surrogates(c: char, high: nat, low: nat) {
    0xd800 <= high < 0xdc00 <= low < 0xe000 && c as int == 0x1_0000 + (high - 0xd800) * 0x400 + (low - 0xdc00)
  }

  lemma HexDigitsSum(n: nat)
    requires n < 0x1_0000
    ensures n / 0x1000 * 0x1000 + n / 0x100 % 16 * 0x100 + n / 0x10 % 16 * 0x10 + n % 16 == n
  {
    var a := n / 16;
    var b := a / 16;
    assert n / 0x100 == b && n / 0x1000 == b / 16;
    assert n == a * 16 + n % 16 && a == b * 16 + a % 16 && b == b / 16 * 16 + b % 16;
  }

  lemma SurrogateHalves(n: nat)
    requires n < 0x10_0000
    ensures n / 0x400 < 0x400 && n / 0x400 * 0x400 + n % 0x400 == n
  {
  }

  lemma SurrogatesRoundTrip(c: char, rest: string)
    requires c as int >= 0x1_0000
    ensures ReadChar(Escape(c) + rest) == Some((c, rest))
  {
    var n := c as int - 0x1_0000;
    var high, low := 0xd800 + n / 0x400, 0xdc00 + n % 0x400;
    SurrogateHalves(n);
    var tail := Unicode4(low) + rest;
    assert Escape(c) + rest == Unicode4(high) + tail;
    Unicode4RoundTrip(high, tail);
    Unicode4RoundTrip(low, rest);
    var s := Unicode4(high) + tail;
    assert s[6..] == tail && s[12..] == tail[6..];
  }

  lemma CharRoundTrip(c: char, rest: string)
    ensures ReadChar(Escape(c) + rest) == Some((c, rest))
    ensures Escape(c) != "" && Escape(c)[0] != '"'
  {
    var s := Escape(c) + rest;
    if c as int >= 0x1_0000 {
      SurrogatesRoundTrip(c, rest);
    } else if |Escape(c)| == 6 {
      Unicode4RoundTrip(c as int, rest);
    } else if |Escape(c)| == 2 {
      assert s[2..] == rest;
    } else {
      assert s[1..] == rest;
    }
  }

  lemma {:induction false} StringRoundTrip(s: string, rest: string)
    ensures ReadString(EscapeAll(s) + (['"'] + rest)) == Some((s, rest))
    decreases s
  {
    var tail := ['"'] + rest;
    if s == "" {
      assert EscapeAll(s) + tail == tail;
    } else {
      var more := EscapeAll(s[1..]) + tail;
      assert EscapeAll(s) + tail == Escape(s[0]) + more;
      CharRoundTrip(s[0], more);
      StringRoundTrip(s[1..], rest);
      assert [s[0]] + s[1..] == s;
    }
  }

  lemma QuotedRoundTrip(s: string, rest: string)
    ensures ReadQuoted(Quote(s) + rest) == Some((s, rest))
  {
    var tail := EscapeAll(s) + (['"'] + rest);
    assert Quote(s) + rest == ['"'] + tail;
    ExpectRoundTrip('"', tail);
    StringRoundTrip(s, rest);
  }

  /** Decimal digits without a leading zero. */
  lemma {:induction false} DigitsRoundTrip(n: nat)
    ensures NatOf(Digits(n)) == n && forall c | c in Digits(n) :: IsDigit(c)
    ensures Digits(n)[0] == '0' ==> Digits(n) == "0"
    decreases n
  {
    if n >= 10 {
      DigitsRoundTrip(n / 10);
    }
    assert Digits(n)[..|Digits(n)| - 1] == if n < 10 then "" else Digits(n / 10);
  }

  lemma {:induction false} SpanStops(s: string, rest: string)
    requires forall c | c in s :: IsDigit(c)
    requires rest == "" || !IsDigit(rest[0])
    ensures Span(s + rest) == |s|
    decreases s
  {
    if s == "" {
      assert s + rest == rest;
    } else {
      assert s[0] in s && (s + rest)[1..] == s[1..] + rest;
      SpanStops(s[1..], rest);
    }
  }

  lemma NatRoundTrip(n: nat, rest: string)
    requires rest != "" && !IsDigit(rest[0])
    ensures ReadNat(Digits(n) + rest) == (n, rest)
    ensures Digits(n)[0] != '-'
  {
    var digits := Digits(n);
    DigitsRoundTrip(n);
    SpanStops(digits, rest);
    assert (digits + rest)[..|digits|] == digits && (digits + rest)[|digits|..] == rest;
    assert digits[0] in digits;
  }

  lemma IntRoundTrip(v: int, rest: string)
    requires rest != "" && !IsDigit(rest[0])
    ensures ReadInt(IntText(v) + rest) == (v, rest)
  {
    if v < 0 {
      NatRoundTrip(-v, rest);
      MinusSign(Digits(-v), rest);
    } else {
      NatRoundTrip(v, rest);
    }
  }

  lemma MinusSign(digits: string, rest: string)
    ensures var (n, after) := ReadNat(digits + rest);
            ReadInt((['-'] + digits) + rest) == (0 - n as int, after)
  {
    assert ((['-'] + digits) + rest)[1..] == digits + rest;
  }

  lemma ExpectRoundTrip(c: char, rest: string)
    ensures Expect(c, [c] + rest) == Some(rest)
  {
  }

  lemma BoolRoundTrip(b: bool, rest: string)
    ensures ReadBool(BoolText(b) + rest) == Some((b, rest))
  {
    if b {
      assert ("true" + rest)[..4] == "true" && ("true" + rest)[4..] == rest;
    } else {
      assert ("false" + rest)[..5] == "false" && ("false" + rest)[5..] == rest;
      assert ("false" + rest)[0] != "true"[0];
    }
  }

  lemma TailRoundTrip(v: int, b: bool, rest: string)
    ensures ReadTail((IntText(v) + ([','] + (BoolText(b) + [']']))) + rest) == Some(((v, b), rest))
  {
    var t3 := [']'] + rest;
    var t2 := BoolText(b) + t3;
    var t1 := [','] + t2;
    assert (IntText(v) + ([','] + (BoolText(b) + [']']))) + rest == IntText(v) + t1;
    IntRoundTrip(v, t1);
    ExpectRoundTrip(',', t2);
    BoolRoundTrip(b, t3);
    ExpectRoundTrip(']', rest);
  }

  lemma SecondRoundTrip(collection: string, id: string, last: string, v: int, b: bool, rest: string)
    requires ReadTail(last) == Some(((v, b), rest))
    ensures ReadSecond(collection, [','] + (Quote(id) + ([','] + last))) == Some((Fields(collection, id, v, b), rest))
  {
    var t3 := [','] + last;
    ExpectRoundTrip(',', Quote(id) + t3);
    QuotedRoundTrip(id, t3);
    ExpectRoundTrip(',', last);
  }

  lemma JsonTextBefore(f: Fields, rest: string)
    ensures var last := (IntText(f.version) + ([','] + (BoolText(f.tombstone) + [']']))) + rest;
            JsonText(f) + rest == ['['] + (Quote(f.collection) + ([','] + (Quote(f.id) + ([','] + last))))
  {
  }

  lemma FieldsRoundTrip(f: Fields, rest: string)
    ensures ReadFields(JsonText(f) + rest) == Some((f, rest))
  {
    var last := (IntText(f.version) + ([','] + (BoolText(f.tombstone) + [']']))) + rest;
    var t1 := [','] + (Quote(f.id) + ([','] + last));
    JsonTextBefore(f, rest);
    ExpectRoundTrip('[', Quote(f.collection) + t1);
    QuotedRoundTrip(f.collection, t1);
    TailRoundTrip(f.version, f.tombstone, rest);
    SecondRoundTrip(f.collection, f.id, last, f.version, f.tombstone, rest);
  }

  // ---------- in bytes ----------

  lemma EscapeIsAscii(c: char)
    ensures IsAscii(Escape(c))
  {
  }

  lemma {:induction false} EscapeAllIsAscii(s: string)
    ensures IsAscii(EscapeAll(s))
    decreases s
  {
    if s == "" {
    } else {
      EscapeIsAscii(s[0]);
      EscapeAllIsAscii(s[1..]);
    }
  }

  lemma QuoteIsAscii(s: string)
    ensures IsAscii(Quote(s))
  {
    EscapeAllIsAscii(s);
  }

  lemma {:induction false} DigitsAreAscii(n: nat)
    ensures IsAscii(Digits(n))
    decreases n
  {
    if n >= 10 {
      DigitsAreAscii(n / 10);
    }
  }

  lemma ConcatIsAscii(a: string, b: string)
    requires IsAscii(a) && IsAscii(b)
    ensures IsAscii(a + b)
  {
  }

  lemma JsonTextIsAscii(f: Fields)
    ensures IsAscii(JsonText(f))
  {
    QuoteIsAscii(f.collection);
    QuoteIsAscii(f.id);
    DigitsAreAscii(if f.version < 0 then -f.version else f.version);
    assert IsAscii(IntText(f.version));
    var t4 := [','] + (BoolText(f.tombstone) + [']']);
    var t3 := IntText(f.version) + t4;
    ConcatIsAscii(IntText(f.version), t4);
    var t2 := Quote(f.id) + ([','] + t3);
    ConcatIsAscii(Quote(f.id), [','] + t3);
    ConcatIsAscii(Quote(f.collection), [','] + t2);
    ConcatIsAscii(['['], Quote(f.collection) + ([','] + t2));
  }

  lemma TextThenBytes(s: string, x: Bytes)
    requires IsAscii(s)
    ensures Utf8.Latin1(Utf8.Encode(s) + x) == s + Utf8.Latin1(x)
  {
    Utf8.AsciiText(s);
    var b := Utf8.Encode(s);
    assert |b| == |s|;
    assert forall i | 0 <= i < |b| :: Utf8.Latin1(b)[i] == s[i];
  }

  /** Injective and prefix-free: whatever bytes follow, the associated data determines
      the four fields and where it ends. */
  lemma AadUniquelyDecodes(f: Fields, x: Bytes, g: Fields, y: Bytes)
    requires Aad(f) + x == Aad(g) + y
    ensures f == g && x == y
  {
    JsonTextIsAscii(f);
    JsonTextIsAscii(g);
    TextThenBytes(JsonText(f), x);
    TextThenBytes(JsonText(g), y);
    FieldsRoundTrip(f, Utf8.Latin1(x));
    FieldsRoundTrip(g, Utf8.Latin1(y));
    assert x == (Aad(f) + x)[|Aad(f)|..] && y == (Aad(g) + y)[|Aad(g)|..];
  }

  const NONCE_LEN := 24

  /** The MAC input aad + nonce + ciphertext decodes uniquely into all its components. */
  lemma MacInputUniquelyDecodes(f: Fields, nonce: Bytes, ct: Bytes, g: Fields, nonce': Bytes, ct': Bytes)
    requires |nonce| == NONCE_LEN && |nonce'| == NONCE_LEN
    requires Aad(f) + nonce + ct == Aad(g) + nonce' + ct'
    ensures f == g && nonce == nonce' && ct == ct'
  {
    assert Aad(f) + (nonce + ct) == Aad(f) + nonce + ct;
    assert Aad(g) + (nonce' + ct') == Aad(g) + nonce' + ct';
    AadUniquelyDecodes(f, nonce + ct, g, nonce' + ct');
    assert nonce == (nonce + ct)[..NONCE_LEN] && nonce' == (nonce' + ct')[..NONCE_LEN];
    assert ct == (nonce + ct)[NONCE_LEN..] && ct' == (nonce' + ct')[NONCE_LEN..];
  }
}
