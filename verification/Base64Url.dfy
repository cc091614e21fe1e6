/**
 Unpadded base64url (RFC 4648, sections 3.2 and 5), as both ends of the protocol use it.
 The decoder is the lenient scanner of Python's binascii: it skips characters outside
 the alphabet, accepts '+' and '/' too, and stops at a complete padding.
 */
module Base64Url {
  import opened Basics

  type Sextet = n: int | 0 <= n < 64

  /** The URL-safe alphabet of RFC 4648, section 5: A-Z, a-z, 0-9, '-' and '_'. */
  function Digit(n: Sextet): char {
    if n < 26 then ('A' as int + n) as char
    else if n < 52 then ('a' as int + n - 26) as char
    else if n < 62 then ('0' as int + n - 52) as char
    else if n == 62 then '-'
    else '_'
  }

  function Value(c: char): Option<Sextet> {
    if 'A' <= c <= 'Z' then Some(c as int - 'A' as int)
    else if 'a' <= c <= 'z' then Some(c as int - 'a' as int + 26)
    else if '0' <= c <= '9' then Some(c as int - '0' as int + 52)
    else if c == '-' || c == '+' then Some(62)
    else if c == '_' || c == '/' then Some(63)
    else None
  }

  lemma ValueOfDigit(n: Sextet)
    ensures Value(Digit(n)) == Some(n) && Digit(n) != '=' && (Digit(n) as int) < 128
  {
  }

  // ---------- encoding ----------

  /** base64.urlsafe_b64encode: groups of three bytes, the last one padded with '='. */
  function EncodePadded(data: Bytes): string
    decreases data
  {
    if |data| < 3 then
      Tail(data) + Padding(|Tail(data)|)
    else
      Quad(data[0], data[1], data[2]) + EncodePadded(data[3..])
  }

  /** The digits of an incomplete group. */
  function Tail(data: Bytes): (s: string)
    requires |data| < 3
    ensures |s| == if data == [] then 0 else |data| + 1
    ensures forall c | c in s :: c != '=' && (c as int) < 128
  {
    match |data|
    case 0 => ""
    case 1 => [Digit(data[0] / 4), Digit(data[0] % 4 * 16)]
    case _ => [Digit(data[0] / 4), Digit(data[0] % 4 * 16 + data[1] / 16), Digit(data[1] % 16 * 4)]
  }

  function Quad(a: Byte, b: Byte, c: Byte): (s: string)
    ensures |s| == 4
    ensures forall c | c in s :: c != '=' && (c as int) < 128
  {
    [Digit(a / 4), Digit(a % 4 * 16 + b / 16), Digit(b % 16 * 4 + c / 64), Digit(c % 64)]
  }

  /** "=" repeated -n % 4 times. */
  function Padding(n: nat): string {
    match n % 4
    case 1 => "==="
    case 2 => "=="
    case 3 => "="
    case _ => ""
  }

  function StripPadding(s: string): string
    decreases s
  {
    if s != "" && s[|s| - 1] == '=' then StripPadding(s[..|s| - 1]) else s
  }

  function Encode(data: Bytes): string {
    StripPadding(EncodePadded(data))
  }

  // ---------- decoding ----------

  /** `quad` characters of the current group are read; the bits they leave are `left`. */
  function Scan(s: string, quad: nat, left: nat, pads: nat): Option<Bytes>
    requires quad < 4 && left < 64
    decreases s
  {
    if s == "" then
      if quad == 0 then Some([]) else None
    else if s[0] == '=' then
      if quad >= 2 && quad + pads + 1 >= 4 then Some([]) else Scan(s[1..], quad, left, if quad >= 2 then pads + 1 else pads)
    else
      match Value(s[0])
      case None => Scan(s[1..], quad, left, pads)
      case Some(v) =>
        match quad
        case 0 => Scan(s[1..], 1, v, 0)
        case 1 => Prepend((left * 4 + v / 16) % 256, Scan(s[1..], 2, v % 16, 0))
        case 2 => Prepend((left * 16 + v / 4) % 256, Scan(s[1..], 3, v % 4, 0))
        case _ => Prepend((left * 64 + v) % 256, Scan(s[1..], 0, 0, 0))
  }

  function Prepend(b: Byte, rest: Option<Bytes>): Option<Bytes> {
    if rest.None? then None else Some([b] + rest.value)
  }

  /** None where base64.urlsafe_b64decode raises. */
  function Decode(s: string): Option<Bytes> {
    if IsAscii(s) then Scan(s + Padding(|s|), 0, 0, 0) else None
  }

  // ---------- round trip ----------

  lemma PaddingPeriod(n: nat)
    ensures (n + 4) % 4 == n % 4 && Padding(n + 4) == Padding(n)
  {
  }

  lemma Reassociate(a: string, b: string, c: string)
    ensures (a + b) + c == a + (b + c)
  {
  }

  /** The encoding with the padding left out. */
  function Raw(data: Bytes): string
    decreases data
  {
    if |data| < 3 then Tail(data) else Quad(data[0], data[1], data[2]) + Raw(data[3..])
  }

  lemma {:induction false} RawCharacters(data: Bytes)
    ensures forall c | c in Raw(data) :: c != '=' && (c as int) < 128
    decreases data
  {
    if |data| >= 3 {
      RawCharacters(data[3..]);
    }
  }

  lemma {:induction false} RawLength(data: Bytes)
    ensures |Raw(data)| % 4 != 1
    decreases data
  {
    if |data| >= 3 {
      RawLength(data[3..]);
      PaddingPeriod(|Raw(data[3..])|);
    }
  }

  lemma {:induction false} PaddedIsRaw(data: Bytes)
    ensures EncodePadded(data) == Raw(data) + Padding(|Raw(data)|)
    decreases data
  {
    if |data| >= 3 {
      var quad, rest := Quad(data[0], data[1], data[2]), Raw(data[3..]);
      PaddedIsRaw(data[3..]);
      PaddingPeriod(|rest|);
      Reassociate(quad, rest, Padding(|rest|));
    }
  }

  lemma StripsWhatWasPadded(s: string, n: nat)
    requires forall c | c in s :: c != '='
    ensures StripPadding(s + Padding(n)) == s
  {
    StripsOne(s, "");
    StripsOne(s, "=");
    StripsOne(s, "==");
    assert s + "" == s && "" + "=" == "=" && "=" + "=" == "==" && "==" + "=" == "===";
    assert s != "" ==> s[|s| - 1] in s;
  }

  lemma StripsOne(s: string, pad: string)
    ensures StripPadding(s + (pad + "=")) == StripPadding(s + pad)
  {
    var t := s + (pad + "=");
    assert t[|t| - 1] == '=' && t[..|t| - 1] == s + pad;
  }

  /** The encoded length is never 1 mod 4, the characters are ASCII without '=', and the
      padding that decoding restores is exactly the padding that encoding stripped. */
  lemma PaddingRestored(data: Bytes)
    ensures |Encode(data)| % 4 != 1
    ensures forall c | c in Encode(data) :: c != '=' && (c as int) < 128
    ensures Encode(data) + Padding(|Encode(data)|) == EncodePadded(data)
  {
    RawCharacters(data);
    RawLength(data);
    PaddedIsRaw(data);
    StripsWhatWasPadded(Raw(data), |Raw(data)|);
  }

  // ---------- the digits ----------

  function ByteAt(data: Bytes, i: nat): Byte {
    if i < |data| then data[i] else 0
  }

  /** The r-th of the four groups of six bits in 24 bits. */
  function SextetOf(bits: nat, r: nat): Sextet {
    match r
    case 0 => bits / 0x4_0000 % 64
    case 1 => bits / 0x1000 % 64
    case 2 => bits / 0x40 % 64
    case _ => bits % 64
  }

  /** The k-th group of six bits of the data read as one bit string, zeros behind it. */
  function SextetAt(data: Bytes, k: nat): Sextet {
    var q := k / 4 * 3;
    SextetOf(ByteAt(data, q) * 0x1_0000 + ByteAt(data, q + 1) * 0x100 + ByteAt(data, q + 2), k % 4)
  }

  lemma FirstGroup(data: Bytes, k: nat)
    requires k < 4 && (|data| >= 3 || k < |Tail(data)|)
    ensures (if |data| >= 3 then Quad(data[0], data[1], data[2]) else Tail(data))[k] == Digit(SextetAt(data, k))
  {
    var a, b, c := ByteAt(data, 0), ByteAt(data, 1), ByteAt(data, 2);
    assert k / 4 == 0 && k % 4 == k;
    SplitGroup(a, b, c);
    QuadDigits(a, b, c, k);
    if |data| < 3 {
      TailDigits(data, k);
    }
  }

  lemma QuadDigits(a: Byte, b: Byte, c: Byte, k: nat)
    requires k < 4
    ensures Quad(a, b, c)[k] == Digit(if k == 0 then a / 4 else if k == 1 then a % 4 * 16 + b / 16
                                      else if k == 2 then b % 16 * 4 + c / 64 else c % 64)
  {
  }

  lemma TailDigits(data: Bytes, k: nat)
    requires |data| < 3 && k < |Tail(data)|
    ensures Tail(data)[k] == Quad(ByteAt(data, 0), ByteAt(data, 1), ByteAt(data, 2))[k]
  {
  }

  lemma SplitGroup(a: Byte, b: Byte, c: Byte)
    ensures var bits := a as int * 0x1_0000 + b as int * 0x100 + c;
            && SextetOf(bits, 0) == a / 4 && SextetOf(bits, 1) == a % 4 * 16 + b / 16
            && SextetOf(bits, 2) == b % 16 * 4 + c / 64 && SextetOf(bits, 3) == c % 64
  {
    var bits := a as int * 0x1_0000 + b as int * 0x100 + c;
    var x: int, y: int, z: int := a % 4 * 16 + b / 16, b % 16 * 4 + c / 64, c % 64;
    assert bits == a / 4 * 0x4_0000 + x * 0x1000 + y * 0x40 + z;
    FourSextets(a / 4, x, y, z);
  }

  lemma FourSextets(w: nat, x: nat, y: nat, z: nat)
    requires x < 64 && y < 64 && z < 64
    ensures var group := w * 0x4_0000 + x * 0x1000 + y * 0x40 + z;
            group / 0x4_0000 == w && group / 0x1000 % 64 == x && group / 0x40 % 64 == y && group % 64 == z
  {
    var group := w * 0x4_0000 + x * 0x1000 + y * 0x40 + z;
    assert group / 0x1000 == w * 64 + x;
    assert group / 0x40 == (w * 64 + x) * 64 + y;
  }

  lemma {:induction false} RawDigits(data: Bytes, k: nat)
    requires k < |Raw(data)|
    ensures Raw(data)[k] == Digit(SextetAt(data, k))
    decreases data
  {
    if k < 4 {
      FirstGroup(data, k);
    } else {
      RawDigits(data[3..], k - 4);
      assert (k - 4) / 4 == k / 4 - 1 && (k - 4) % 4 == k % 4;
      assert forall i: nat :: ByteAt(data[3..], i) == ByteAt(data, i + 3);
    }
  }

  lemma {:induction false} RawSize(data: Bytes)
    ensures |Raw(data)| == (4 * |data| + 2) / 3
    decreases data
  {
    if |data| >= 3 {
      RawSize(data[3..]);
    }
  }

  lemma EncodeIsRaw(data: Bytes)
    ensures Encode(data) == Raw(data)
  {
    RawCharacters(data);
    PaddedIsRaw(data);
    StripsWhatWasPadded(Raw(data), |Raw(data)|);
  }

  lemma EncodedLength(data: Bytes)
    ensures |Encode(data)| == (4 * |data| + 2) / 3
  {
    EncodeIsRaw(data);
    RawSize(data);
  }

  /** The k-th character stands for the k-th group of six bits: 0 to 25 are upper-case
      letters, 26 to 51 lower-case ones, 52 to 61 digits, 62 is '-' and 63 is '_'. */
  lemma EncodedDigits(data: Bytes, k: nat)
    requires k < |Encode(data)|
    ensures var v, c := SextetAt(data, k), Encode(data)[k];
            && (v <= 25 ==> c as int == 65 + v) && (26 <= v <= 51 ==> c as int == 97 + (v - 26))
            && (52 <= v <= 61 ==> c as int == 48 + (v - 52)) && (v == 62 ==> c == '-') && (v == 63 ==> c == '_')
  {
    EncodeIsRaw(data);
    RawDigits(data, k);
  }

  lemma ScanDigit(n: Sextet, rest: string, quad: nat, left: nat)
    requires quad < 4 && left < 64
    ensures Scan([Digit(n)] + rest, quad, left, 0) ==
            match quad
            case 0 => Scan(rest, 1, n, 0)
            case 1 => Prepend((left * 4 + n / 16) % 256, Scan(rest, 2, n % 16, 0))
            case 2 => Prepend((left * 16 + n / 4) % 256, Scan(rest, 3, n % 4, 0))
            case _ => Prepend((left * 64 + n) % 256, Scan(rest, 0, 0, 0))
  {
    ValueOfDigit(n);
    assert ([Digit(n)] + rest)[1..] == rest;
  }

  lemma RegroupBits(a: Byte, b: Byte, c: Byte)
    ensures 0 <= a % 4 * 16 + b / 16 < 64 && 0 <= b % 16 * 4 + c / 64 < 64
    ensures (a / 4 * 4 + (a % 4 * 16 + b / 16) / 16) % 256 == a
    ensures ((a % 4 * 16 + b / 16) % 16 * 16 + (b % 16 * 4 + c / 64) / 4) % 256 == b
    ensures ((b % 16 * 4 + c / 64) % 4 * 64 + c % 64) % 256 == c
  {
    assert (a % 4 * 16 + b / 16) / 16 == a % 4;
    assert (a % 4 * 16 + b / 16) % 16 == b / 16;
    assert (b % 16 * 4 + c / 64) / 4 == b % 16;
    assert (b % 16 * 4 + c / 64) % 4 == c / 64;
  }

  lemma ScanTwo(w: Sextet, x: Sextet, rest: string)
    ensures Scan([Digit(w), Digit(x)] + rest, 0, 0, 0) == Prepend((w * 4 + x / 16) % 256, Scan(rest, 2, x % 16, 0))
  {
    assert [Digit(w), Digit(x)] + rest == [Digit(w)] + ([Digit(x)] + rest);
    ScanDigit(w, [Digit(x)] + rest, 0, 0);
    ScanDigit(x, rest, 1, w);
  }

  lemma ScanQuad(a: Byte, b: Byte, c: Byte, rest: string)
    ensures Scan(Quad(a, b, c) + rest, 0, 0, 0) == Prepend(a, Prepend(b, Prepend(c, Scan(rest, 0, 0, 0))))
  {
    RegroupBits(a, b, c);
    var w, x, y, z: Sextet := a / 4, a % 4 * 16 + b / 16, b % 16 * 4 + c / 64, c % 64;
    var tail := [Digit(y)] + ([Digit(z)] + rest);
    assert Quad(a, b, c) + rest == [Digit(w), Digit(x)] + tail;
    ScanTwo(w, x, tail);
    ScanDigit(y, [Digit(z)] + rest, 2, x % 16);
    ScanDigit(z, rest, 3, y % 4);
  }

  lemma ScanOneByte(a: Byte)
    ensures Scan(EncodePadded([a]), 0, 0, 0) == Some([a])
  {
    RegroupBits(a, 0, 0);
    var w, x: Sextet := a / 4, a % 4 * 16;
    assert Tail([a]) == [Digit(w), Digit(x)] && Padding(2) == "==";
    ScanTwo(w, x, "==");
    assert "=="[1..] == "=";
    assert Scan("==", 2, x % 16, 0) == Scan("=", 2, x % 16, 1) == Some([]);
    assert (w * 4 + x / 16) % 256 == a;
    assert [a] + [] == [a];
  }

  lemma ScanTwoBytes(a: Byte, b: Byte)
    ensures Scan(EncodePadded([a, b]), 0, 0, 0) == Some([a, b])
  {
    RegroupBits(a, b, 0);
    var w, x, y: Sextet := a / 4, a % 4 * 16 + b / 16, b % 16 * 4;
    assert Tail([a, b]) == [Digit(w), Digit(x), Digit(y)] && Padding(3) == "=";
    assert EncodePadded([a, b]) == [Digit(w), Digit(x)] + ([Digit(y)] + "=");
    ScanTwo(w, x, [Digit(y)] + "=");
    ScanDigit(y, "=", 2, x % 16);
    assert [a] + ([b] + []) == [a, b];
  }

  lemma {:induction false} ScanEncoded(data: Bytes)
    ensures Scan(EncodePadded(data), 0, 0, 0) == Some(data)
    decreases data
  {
    if |data| == 1 {
      ScanOneByte(data[0]);
      assert data == [data[0]];
    } else if |data| == 2 {
      ScanTwoBytes(data[0], data[1]);
      assert data == [data[0], data[1]];
    } else if |data| >= 3 {
      ScanQuad(data[0], data[1], data[2], EncodePadded(data[3..]));
      ScanEncoded(data[3..]);
      assert [data[0]] + ([data[1]] + ([data[2]] + data[3..])) == data;
    }
  }

  lemma EncodedIsAscii(data: Bytes)
    ensures IsAscii(Encode(data))
  {
    PaddingRestored(data);
    var s := Encode(data);
    assert forall i | 0 <= i < |s| :: s[i] in s;
  }

  /** Decoding inverts encoding on every byte string. */
  lemma RoundTrip(data: Bytes)
    ensures Decode(Encode(data)) == Some(data)
  {
    PaddingRestored(data);
    EncodedIsAscii(data);
    ScanEncoded(data);
  }

  // ---------- what the decoder takes ----------

  /** It skips characters outside both alphabets. */
  lemma {:induction false} ScanSkips(a: string, x: char, b: string, quad: nat, left: nat, pads: nat)
    requires quad < 4 && left < 64
    requires !('A' <= x <= 'Z') && !('a' <= x <= 'z') && !('0' <= x <= '9') && x !in {'-', '_', '+', '/', '='}
    ensures Scan(a + [x] + b, quad, left, pads) == Scan(a + b, quad, left, pads)
    decreases a
  {
    if a == "" {
      assert (a + [x] + b)[1..] == b && a + b == b;
    } else {
      var rest, both := a[1..] + [x] + b, a[1..] + b;
      assert (a + [x] + b)[0] == a[0] == (a + b)[0] && (a + [x] + b)[1..] == rest && (a + b)[1..] == both;
      ScanSkipsNext(a[0], rest, both, quad, left, pads) by {
        forall q: nat, l: nat, n: nat | q < 4 && l < 64
          ensures Scan(rest, q, l, n) == Scan(both, q, l, n)
        {
          ScanSkips(a[1..], x, b, q, l, n);
        }
      }
    }
  }

  lemma ScanSkipsNext(c: char, s: string, t: string, quad: nat, left: nat, pads: nat)
    requires quad < 4 && left < 64
    requires forall q: nat, l: nat, n: nat | q < 4 && l < 64 :: Scan(s, q, l, n) == Scan(t, q, l, n)
    ensures Scan([c] + s, quad, left, pads) == Scan([c] + t, quad, left, pads)
  {
    assert ([c] + s)[1..] == s && ([c] + t)[1..] == t;
  }

  /** '+' counts as '-', and '/' as '_'. */
  lemma ScanAlias(s: string, quad: nat, left: nat, pads: nat)
    requires quad < 4 && left < 64
    ensures Scan("+" + s, quad, left, pads) == Scan("-" + s, quad, left, pads)
    ensures Scan("/" + s, quad, left, pads) == Scan("_" + s, quad, left, pads)
  {
    assert ("+" + s)[1..] == s && ("-" + s)[1..] == s && ("/" + s)[1..] == s && ("_" + s)[1..] == s;
  }

  predicate AllDigits(s: string) {
    forall c | c in s :: Value(c).Some?
  }

  lemma {:induction false} DigitsScan(s: string, quad: nat, left: nat, total: nat)
    requires quad < 4 && left < 64 && AllDigits(s) && (total - quad - |s|) % 4 == 0
    ensures Scan(s + Padding(total), quad, left, 0).Some? <==> total % 4 != 1
    decreases s
  {
    if s == "" {
      PaddingScan(quad, left, total);
      assert s + Padding(total) == Padding(total);
    } else {
      assert s[0] in s && s + Padding(total) == [s[0]] + (s[1..] + Padding(total));
      assert forall c | c in s[1..] :: c in s;
      ScanValue(s[0], s[1..] + Padding(total), quad, left);
      NextQuad(quad, |s|, total);
      DigitsScan(s[1..], (quad + 1) % 4, LeftAfter(Value(s[0]).value, quad), total);
    }
  }

  lemma NextQuad(quad: nat, n: nat, total: nat)
    requires quad < 4 && (total - quad - n) % 4 == 0
    ensures (total - (quad + 1) % 4 - (n - 1)) % 4 == 0
  {
  }

  /** The bits of v that wait for the next digit. */
  function LeftAfter(v: Sextet, quad: nat): (r: nat)
    ensures r < 64
  {
    match quad
    case 0 => v
    case 1 => v % 16
    case 2 => v % 4
    case _ => 0
  }

  /** After a digit the scan goes on. */
  lemma ScanValue(c: char, rest: string, quad: nat, left: nat)
    requires quad < 4 && left < 64 && Value(c).Some?
    ensures Scan([c] + rest, quad, left, 0).Some? ==
            Scan(rest, (quad + 1) % 4, LeftAfter(Value(c).value, quad), 0).Some?
  {
    assert ([c] + rest)[1..] == rest;
  }

  lemma PaddingScan(quad: nat, left: nat, total: nat)
    requires quad < 4 && left < 64 && (total - quad) % 4 == 0
    ensures Scan(Padding(total), quad, left, 0).Some? <==> total % 4 != 1
  {
    assert total % 4 == quad;
    assert "==="[1..] == "==" && "=="[1..] == "=" && "="[1..] == "";
  }

  /** Text that is not ASCII is refused. */
  lemma DecodesAsciiOnly(s: string)
    ensures Decode(s).Some? ==> forall c | c in s :: (c as int) < 128
  {
  }

  /** Text of digits only decodes iff its length is not 1 mod 4. */
  lemma DecodesIff(s: string)
    requires AllDigits(s)
    ensures Decode(s).Some? <==> |s| % 4 != 1
  {
    assert forall i | 0 <= i < |s| :: s[i] in s;
    DigitsScan(s, 0, 0, |s|);
  }

  lemma EncodeInjective(a: Bytes, b: Bytes)
    requires Encode(a) == Encode(b)
    ensures a == b
  {
    RoundTrip(a);
    RoundTrip(b);
  }

  /** The converse fails: the scanner ignores the bits left over at the end, so another
      string can decode to the same bytes. */
  lemma DecodeNotInjective()
    ensures Decode("AA") == Decode("AB") == Some([0])
  {
    assert "AA" + Padding(2) == [Digit(0), Digit(0)] + "==" && "AB" + Padding(2) == [Digit(0), Digit(1)] + "==";
    ScanTwo(0, 0, "==");
    ScanTwo(0, 1, "==");
    assert "=="[1..] == "=";
    assert Scan("==", 2, 0, 0) == Scan("=", 2, 0, 1) == Some([]);
    assert Scan("==", 2, 1, 0) == Scan("=", 2, 1, 1) == Some([]);
    assert [0] + [] == [0 as Byte];
  }
}
