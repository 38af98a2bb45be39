/** encodeURI and decodeURI as section 19.2.6 of ECMA-262 defines them, with the
    UTF-8 percent-encoding of section 2.1 of RFC 3986. A Dafny `char` is a Unicode
    scalar value, so every string here is well formed and encodeURI never fails;
    decodeURI fails on a malformed escape. */
module Uri {
  import opened Wrappers

  /** The characters that decodeURI leaves escaped: the URI reserved set and '#'. */
  predicate Preserved(c: char) {
    c in ";/?:@&=+$,#"
  }

  /** The characters that encodeURI copies unchanged: letters, digits, the marks
      - _ . ! ~ * ' ( ), and the preserved characters. */
  predicate Unescaped(c: char) {
    ('a' <= c <= 'z') || ('A' <= c <= 'Z') || ('0' <= c <= '9')
    || c in "-_.!~*'()" || Preserved(c)
  }

  predicate IsScalar(cp: int) {
    (0 <= cp < 0xD800) || (0xE000 <= cp < 0x11_0000)
  }

  /** How many octets the UTF-8 sequence led by octet `b` has; 0 when `b` cannot
      lead one (a continuation octet 10xxxxxx, or 11111xxx). */
  function SequenceLength(b: int): nat {
    if b < 0x80 then 1
    else if b < 0xC0 then 0
    else if b < 0xE0 then 2
    else if b < 0xF0 then 3
    else if b < 0xF8 then 4
    else 0
  }

  predicate IsOctets(o: seq<int>) {
    forall j :: 0 <= j < |o| ==> 0 <= o[j] < 256
  }

  /** The UTF-8 encoding of a code point. */
  function Utf8(cp: int): (octets: seq<int>)
    requires IsScalar(cp)
    ensures 1 <= |octets| <= 4
    ensures IsOctets(octets)
    ensures SequenceLength(octets[0]) == |octets|
    ensures forall j :: 1 <= j < |octets| ==> 0x80 <= octets[j] < 0xC0
  {
    if cp < 0x80 then [cp]
    else if cp < 0x800 then [0xC0 + cp / 64, 0x80 + cp % 64]
    else if cp < 0x1_0000 then [0xE0 + cp / 64 / 64, 0x80 + cp / 64 % 64, 0x80 + cp % 64]
    else [0xF0 + cp / 64 / 64 / 64, 0x80 + cp / 64 / 64 % 64, 0x80 + cp / 64 % 64, 0x80 + cp % 64]
  }

  function HexValue(c: char): (v: Option<int>)
    ensures v.Some? <==> ('0' <= c <= '9' || 'A' <= c <= 'F' || 'a' <= c <= 'f')
    ensures v.Some? ==> 0 <= v.value < 16
  {
    if '0' <= c <= '9' then Some(c as int - '0' as int)
    else if 'A' <= c <= 'F' then Some(c as int - 'A' as int + 10)
    else if 'a' <= c <= 'f' then Some(c as int - 'a' as int + 10)
    else None
  }

  predicate IsUpperHex(c: char) {
    ('0' <= c <= '9') || ('A' <= c <= 'F')
  }

  /** The upper-case hexadecimal digit encodeURI writes for `d`. */
  function HexDigit(d: int): (c: char)
    requires 0 <= d < 16
    ensures HexValue(c) == Some(d)
    ensures IsUpperHex(c)
  {
    if d < 10 then ('0' as int + d) as char else ('A' as int + d - 10) as char
  }

  /** The octet written as "%XY" at index k of s, if there is one. */
  function OctetAt(s: seq<char>, k: nat): (r: Option<int>)
    ensures r.Some? ==> k + 3 <= |s| && s[k] == '%' && 0 <= r.value < 256
  {
    if k + 3 <= |s| && s[k] == '%' then
      match (HexValue(s[k + 1]), HexValue(s[k + 2]))
      case (Some(hi), Some(lo)) => Some(16 * hi + lo)
      case _ => None
    else None
  }

  function Escape(b: int): (e: seq<char>)
    requires 0 <= b < 256
    ensures |e| == 3 && e[0] == '%'
    ensures OctetAt(e, 0) == Some(b)
    ensures forall c <- e :: c == '%' || IsUpperHex(c)
  {
    ['%', HexDigit(b / 16), HexDigit(b % 16)]
  }

  function PercentEncode(octets: seq<int>): (r: seq<char>)
    requires IsOctets(octets)
    ensures |r| == 3 * |octets|
    ensures forall c <- r :: c == '%' || IsUpperHex(c)
  {
    if octets == [] then [] else Escape(octets[0]) + PercentEncode(octets[1..])
  }

  function EncodeChar(c: char): (e: seq<char>)
    ensures Unescaped(c) ==> e == [c]
    ensures !Unescaped(c) ==> 3 <= |e| && e[0] == '%'
    ensures forall d <- e :: d == c || d == '%' || IsUpperHex(d)
  {
    if Unescaped(c) then [c]
    else
      var e := PercentEncode(Utf8(c as int));
      PercentEncodeAt(Utf8(c as int), 0);
      e
  }

  /** encodeURI: every character outside the unescaped set becomes the escapes of
      its UTF-8 octets. */
  function EncodeURI(s: seq<char>): (r: seq<char>)
    ensures |r| >= |s|
    ensures forall c <- r :: (c in s && Unescaped(c)) || c == '%' || IsUpperHex(c)
    ensures r == s <==> forall c <- s :: Unescaped(c)
  {
    if s == [] then [] else EncodeChar(s[0]) + EncodeURI(s[1..])
  }

  /** The payload bits of the j-th escape of s when that escape is a UTF-8
      continuation octet. */
  function ContinuationAt(s: seq<char>, j: nat): (r: Option<int>)
    ensures r.Some? ==> 3 * j + 3 <= |s| && 0 <= r.value < 64
  {
    match OctetAt(s, 3 * j)
    case Some(b) => if 0x80 <= b < 0xC0 then Some(b - 0x80) else None
    case None => None
  }

  /** The code point that the n escaped octets at the front of s encode, `b` being
      the first, when they are well-formed UTF-8 (no overlong form, no surrogate,
      nothing above U+10FFFF). */
  function CodePointOf(s: seq<char>, b: int, n: nat): (r: Option<int>)
    requires 2 <= n <= 4 && SequenceLength(b) == n
    ensures r.Some? ==> IsScalar(r.value) && 3 * n <= |s|
  {
    var c1 := ContinuationAt(s, 1);
    var c2 := if n >= 3 then ContinuationAt(s, 2) else Some(0);
    var c3 := if n == 4 then ContinuationAt(s, 3) else Some(0);
    if c1.None? || c2.None? || c3.None? then None
    else
      var cp := if n == 2 then (b - 0xC0) * 64 + c1.value
                else if n == 3 then ((b - 0xE0) * 64 + c1.value) * 64 + c2.value
                else (((b - 0xF0) * 64 + c1.value) * 64 + c2.value) * 64 + c3.value;
      var least := if n == 2 then 0x80 else if n == 3 then 0x800 else 0x1_0000;
      if least <= cp && IsScalar(cp) then Some(cp) else None
  }

  /** One step of decodeURI at a '%': what the escape, or the run of escapes of one
      UTF-8 sequence, stands for, and how many characters it spans. */
  function DecodeEscape(s: seq<char>): (r: Option<(seq<char>, nat)>)
    ensures r.Some? ==> 3 <= r.value.1 <= |s| && |r.value.0| <= r.value.1
  {
    match OctetAt(s, 0)
    case None => None
    case Some(b) =>
      var n := SequenceLength(b);
      if n == 1 then Some((if Preserved(b as char) then s[..3] else [b as char], 3))
      else if n == 0 then None
      else
        match CodePointOf(s, b, n)
        case None => None
        case Some(cp) => Some(([cp as char], 3 * n))
  }

  /** decodeURI: None where the source throws URIError. */
  function DecodeURI(s: seq<char>): (r: Option<seq<char>>)
    ensures '%' !in s ==> r == Some(s)
    ensures r.None? ==> '%' in s
    ensures r.Some? ==> |r.value| <= |s|
    decreases |s|
  {
    if s == [] then Some([])
    else if s[0] != '%' then
      match DecodeURI(s[1..])
      case Some(t) => assert [s[0]] + s[1..] == s; Some([s[0]] + t)
      case None => None
    else
      match DecodeEscape(s)
      case None => None
      case Some((piece, len)) =>
        match DecodeURI(s[len..])
        case Some(t) => Some(piece + t)
        case None => None
  }

  lemma OctetAtConcat(a: seq<char>, b: seq<char>, k: nat)
    ensures k + 3 <= |a| ==> OctetAt(a + b, k) == OctetAt(a, k)
    ensures OctetAt(a + b, |a| + k) == OctetAt(b, k)
  {
  }

  /** The j-th escape of PercentEncode(octets) is that of octets[j]. */
  lemma {:induction false} PercentEncodeAt(octets: seq<int>, j: nat)
    requires IsOctets(octets)
    requires j < |octets|
    ensures OctetAt(PercentEncode(octets), 3 * j) == Some(octets[j])
    decreases j
  {
    var e := Escape(octets[0]);
    var rest := PercentEncode(octets[1..]);
    if j == 0 {
      OctetAtConcat(e, rest, 0);
    } else {
      PercentEncodeAt(octets[1..], j - 1);
      OctetAtConcat(e, rest, 3 * (j - 1));
    }
  }

  /** The continuation escapes of a multi-octet encoding give back the code point. */
  lemma CodePointOfUtf8(cp: int, s: seq<char>)
    requires IsScalar(cp) && cp >= 0x80
    requires forall j :: 0 <= j < |Utf8(cp)| ==> OctetAt(s, 3 * j) == Some(Utf8(cp)[j])
    ensures CodePointOf(s, Utf8(cp)[0], |Utf8(cp)|) == Some(cp)
  {
    var o := Utf8(cp);
    assert OctetAt(s, 3 * 1) == Some(o[1]);
    if |o| == 2 {
      CodePointOf2(cp, s, o);
    } else if |o| == 3 {
      assert OctetAt(s, 3 * 2) == Some(o[2]);
      CodePointOf3(cp, s, o);
    } else {
      assert OctetAt(s, 3 * 2) == Some(o[2]);
      assert OctetAt(s, 3 * 3) == Some(o[3]);
      CodePointOf4(cp, s, o);
    }
  }

  lemma CodePointOf2(cp: int, s: seq<char>, o: seq<int>)
    requires 0x80 <= cp < 0x800 && o == Utf8(cp)
    requires OctetAt(s, 3) == Some(o[1])
    ensures CodePointOf(s, o[0], 2) == Some(cp)
  {
    assert ContinuationAt(s, 1) == Some(cp % 64);
    assert (cp / 64) * 64 + cp % 64 == cp;
  }

  lemma CodePointOf3(cp: int, s: seq<char>, o: seq<int>)
    requires IsScalar(cp) && 0x800 <= cp < 0x1_0000 && o == Utf8(cp)
    requires OctetAt(s, 3) == Some(o[1]) && OctetAt(s, 6) == Some(o[2])
    ensures CodePointOf(s, o[0], 3) == Some(cp)
  {
    assert ContinuationAt(s, 1) == Some(cp / 64 % 64);
    assert ContinuationAt(s, 2) == Some(cp % 64);
    var q := cp / 64;
    assert q * 64 + cp % 64 == cp;
    assert (q / 64) * 64 + q % 64 == q;
  }

  lemma CodePointOf4(cp: int, s: seq<char>, o: seq<int>)
    requires IsScalar(cp) && 0x1_0000 <= cp && o == Utf8(cp)
    requires OctetAt(s, 3) == Some(o[1]) && OctetAt(s, 6) == Some(o[2]) && OctetAt(s, 9) == Some(o[3])
    ensures CodePointOf(s, o[0], 4) == Some(cp)
  {
    assert ContinuationAt(s, 1) == Some(cp / 64 / 64 % 64);
    assert ContinuationAt(s, 2) == Some(cp / 64 % 64);
    assert ContinuationAt(s, 3) == Some(cp % 64);
    var q := cp / 64;
    var r := q / 64;
    assert q * 64 + cp % 64 == cp;
    assert r * 64 + q % 64 == q;
    assert (r / 64) * 64 + r % 64 == r;
  }

  /** One decoding step at the escapes of an encoded character gives that character back. */
  lemma DecodeEscapeOfEncoded(c: char, t: seq<char>)
    requires !Unescaped(c)
    ensures DecodeEscape(EncodeChar(c) + t) == Some(([c], |EncodeChar(c)|))
  {
    var cp := c as int;
    var o := Utf8(cp);
    var e := PercentEncode(o);
    var s := e + t;
    forall j | 0 <= j < |o| ensures OctetAt(s, 3 * j) == Some(o[j]) {
      PercentEncodeAt(o, j);
      OctetAtConcat(e, t, 3 * j);
    }
    assert OctetAt(s, 3 * 0) == Some(o[0]);
    if |o| == 1 {
      assert !Preserved(cp as char);
    } else {
      CodePointOfUtf8(cp, s);
    }
  }

  /** Decoding the encoding of one character followed by more text yields that
      character followed by the decoding of the rest. */
  lemma DecodeEncodeChar(c: char, t: seq<char>)
    ensures DecodeURI(EncodeChar(c) + t) ==
            match DecodeURI(t) case Some(u) => Some([c] + u) case None => None
  {
    var s := EncodeChar(c) + t;
    if Unescaped(c) {
      assert s[1..] == t;
    } else {
      DecodeEscapeOfEncoded(c, t);
      assert s[|EncodeChar(c)|..] == t;
    }
  }

  /** decodeURI undoes encodeURI on every string. */
  lemma {:induction false} DecodeEncode(s: seq<char>)
    ensures DecodeURI(EncodeURI(s)) == Some(s)
  {
    if s != [] {
      DecodeEncode(s[1..]);
      DecodeEncodeChar(s[0], EncodeURI(s[1..]));
      assert [s[0]] + s[1..] == s;
    }
  }
}
