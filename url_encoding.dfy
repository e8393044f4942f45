/**
 * The percent-encodings the page applies to paths and query values:
 * `encodeURI`, `encodeURIComponent` (ECMAScript) and the
 * application/x-www-form-urlencoded serializer behind `URLSearchParams`
 * (WHATWG URL Standard). Each keeps a fixed set of ASCII characters and
 * writes every other character as the UTF-8 bytes of its code point, each
 * byte as '%' and two upper-case hexadecimal digits; the form serializer
 * writes a space as '+'.
 */
module UrlEncoding {

  datatype Scheme = UriComponent | FullUri | FormUrlEncoded

  predicate IsAsciiAlnum(c: char) {
    ('a' <= c <= 'z') || ('A' <= c <= 'Z') || ('0' <= c <= '9')
  }

  /** The characters a scheme writes unchanged. */
  predicate Keeps(scheme: Scheme, c: char) {
    match scheme
    case UriComponent => IsAsciiAlnum(c) || IsUriMark(c)
    case FullUri => IsAsciiAlnum(c) || IsUriMark(c) || IsUriReserved(c)
    case FormUrlEncoded => IsAsciiAlnum(c) || c == '*' || c == '-' || c == '.' || c == '_'
  }

  /** The marks `-_.!~*'()` that both URI encoders keep. */
  predicate IsUriMark(c: char) {
    c == '-' || c == '_' || c == '.' || c == '!' || c == '~' || c == '*' || c == '\'' || c == '(' || c == ')'
  }

  /** The reserved characters `;/?:@&=+$,` and `#` that `encodeURI` also keeps. */
  predicate IsUriReserved(c: char) {
    c == ';' || c == '/' || c == '?' || c == ':' || c == '@' || c == '&' || c == '=' || c == '+' || c == '$' || c == ',' || c == '#'
  }

  /** Every character some scheme keeps is ASCII. */
  lemma KeptIsAscii(scheme: Scheme, c: char)
    requires Keeps(scheme, c)
    ensures (c as int) < 0x80
  {
  }

  type Byte = b: int | 0 <= b < 0x100

  /** The UTF-8 encoding of one code point: one byte below 0x80, otherwise lead and continuation bytes, all at least 0x80. */
  function Utf8(c: char): (bytes: seq<Byte>)
    ensures 1 <= |bytes| <= 4
    ensures (c as int) < 0x80 ==> bytes == [c as int]
    ensures (c as int) >= 0x80 ==> forall i :: 0 <= i < |bytes| ==> bytes[i] >= 0x80
  {
    var cp := c as int;
    if cp < 0x80 then [cp]
    else if cp < 0x800 then [0xC0 + cp / 0x40, 0x80 + cp % 0x40]
    else if cp < 0x1_0000 then [0xE0 + cp / 0x1000, 0x80 + (cp / 0x40) % 0x40, 0x80 + cp % 0x40]
    else [0xF0 + cp / 0x4_0000, 0x80 + (cp / 0x1000) % 0x40, 0x80 + (cp / 0x40) % 0x40, 0x80 + cp % 0x40]
  }

  /** The UTF-8 bytes of a string. */
  function Utf8Bytes(s: string): seq<Byte> {
    if s == [] then [] else Utf8(s[0]) + Utf8Bytes(s[1..])
  }

  predicate IsHexDigit(c: char) { ('0' <= c <= '9') || ('A' <= c <= 'F') }

  /** The upper-case hexadecimal digit of `d`. */
  function HexDigit(d: nat): (c: char)
    requires d < 16
    ensures IsHexDigit(c)
  {
    if d < 10 then ('0' as int + d) as char else ('A' as int + d - 10) as char
  }

  function HexValue(c: char): nat {
    if '0' <= c <= '9' then c as int - '0' as int
    else if 'A' <= c <= 'F' then c as int - 'A' as int + 10
    else 0
  }

  /** '%' followed by the byte's two upper-case hexadecimal digits. */
  function PercentByte(b: Byte): (r: string)
    ensures |r| == 3 && r[0] == '%' && IsHexDigit(r[1]) && IsHexDigit(r[2])
    ensures HexValue(r[1]) * 16 + HexValue(r[2]) == b
  {
    ['%', HexDigit(b / 16), HexDigit(b % 16)]
  }

  function PercentBytes(bytes: seq<Byte>): (r: string)
    ensures |r| == 3 * |bytes|
    ensures forall i :: 0 <= i < |r| ==> r[i] == '%' || IsHexDigit(r[i])
  {
    if bytes == [] then [] else PercentByte(bytes[0]) + PercentBytes(bytes[1..])
  }

  /** How one character is written. */
  function EncodeChar(scheme: Scheme, c: char): (r: string)
    ensures r != []
    ensures Keeps(scheme, c) ==> r == [c]
  {
    if Keeps(scheme, c) then [c]
    else if scheme == FormUrlEncoded && c == ' ' then "+"
    else PercentBytes(Utf8(c))
  }

  /** A character that can appear in the output of `scheme`. */
  predicate IsEncodedChar(scheme: Scheme, c: char) {
    Keeps(scheme, c) || c == '%' || (scheme == FormUrlEncoded && c == '+')
  }

  lemma EncodeCharChars(scheme: Scheme, c: char)
    ensures forall i :: 0 <= i < |EncodeChar(scheme, c)| ==> IsEncodedChar(scheme, EncodeChar(scheme, c)[i])
  {
    if !Keeps(scheme, c) && !(scheme == FormUrlEncoded && c == ' ') {
      var r := PercentBytes(Utf8(c));
      forall i | 0 <= i < |r| ensures IsEncodedChar(scheme, r[i]) {
        if r[i] != '%' {
          assert IsAsciiAlnum(r[i]);
        }
      }
    }
  }

  /**
   * `encodeURIComponent`, `encodeURI` or the form serializer: the output is
   * made only of kept characters, '%' (and '+' for forms), and a string of
   * kept characters is written unchanged.
   */
  function Encode(scheme: Scheme, s: string): (r: string)
    ensures forall i :: 0 <= i < |r| ==> IsEncodedChar(scheme, r[i])
    ensures (forall i :: 0 <= i < |s| ==> Keeps(scheme, s[i])) ==> r == s
  {
    if s == [] then []
    else
      var head := EncodeChar(scheme, s[0]);
      var tail := Encode(scheme, s[1..]);
      EncodeCharChars(scheme, s[0]);
      assert (forall i :: 0 <= i < |s| ==> Keeps(scheme, s[i])) ==> head + tail == s by {
        if forall i :: 0 <= i < |s| ==> Keeps(scheme, s[i]) {
          assert Keeps(scheme, s[0]);
          assert forall i :: 0 <= i < |s[1..]| ==> Keeps(scheme, s[1..][i]) by {
            forall i | 0 <= i < |s[1..]| ensures Keeps(scheme, s[1..][i]) {
              assert s[1..][i] == s[i + 1];
            }
          }
        }
      }
      head + tail
  }

  /** One character: kept, '+' for a space in a form, otherwise the percent-escapes of its UTF-8 bytes. */
  lemma EncodeSingle(scheme: Scheme, c: char)
    ensures Keeps(scheme, c) ==> Encode(scheme, [c]) == [c]
    ensures !Keeps(scheme, c) && scheme == FormUrlEncoded && c == ' ' ==> Encode(scheme, [c]) == "+"
    ensures !Keeps(scheme, c) && !(scheme == FormUrlEncoded && c == ' ') ==> Encode(scheme, [c]) == PercentBytes(Utf8(c))
  {
    assert [c][1..] == [];
  }

  /** The encoders work character by character: encoding `a + b` is encoding `a`, then `b`. */
  lemma {:induction false} EncodeAppend(scheme: Scheme, a: string, b: string)
    ensures Encode(scheme, a + b) == Encode(scheme, a) + Encode(scheme, b)
  {
    if a == [] {
      assert a + b == b;
    } else {
      assert (a + b)[0] == a[0] && (a + b)[1..] == a[1..] + b;
      EncodeAppend(scheme, a[1..], b);
    }
  }

  function EncodeUri(s: string): string { Encode(FullUri, s) }

  function EncodeUriComponent(s: string): string { Encode(UriComponent, s) }

  function FormEncode(s: string): string { Encode(FormUrlEncoded, s) }

  /** The output of `encodeURIComponent` and of the form serializer never holds a delimiter of a query or an intent URI. */
  lemma {:induction false} ComponentHasNoDelimiters(scheme: Scheme, s: string)
    requires scheme != FullUri
    ensures '&' !in Encode(scheme, s) && '=' !in Encode(scheme, s)
    ensures '#' !in Encode(scheme, s) && ';' !in Encode(scheme, s)
  {
    var r := Encode(scheme, s);
    assert !IsEncodedChar(scheme, '&') && !IsEncodedChar(scheme, '=');
    assert !IsEncodedChar(scheme, '#') && !IsEncodedChar(scheme, ';');
  }

  // ------------------------------------------------------------------ decoding

  /**
   * Percent-decoding to bytes: "%XY" is the byte 0xXY, '+' a space for
   * forms, any other character its own code (the encoders only leave ASCII).
   */
  function DecodeBytes(scheme: Scheme, s: string): seq<int>
    decreases |s|
  {
    if s == [] then []
    else if s[0] == '%' && |s| >= 3 then [HexValue(s[1]) * 16 + HexValue(s[2])] + DecodeBytes(scheme, s[3..])
    else if scheme == FormUrlEncoded && s[0] == '+' then [0x20] + DecodeBytes(scheme, s[1..])
    else [s[0] as int] + DecodeBytes(scheme, s[1..])
  }

  lemma {:induction false} DecodePercentBytes(scheme: Scheme, bytes: seq<Byte>, rest: string)
    ensures DecodeBytes(scheme, PercentBytes(bytes) + rest) == bytes + DecodeBytes(scheme, rest)
  {
    if bytes != [] {
      var head := PercentByte(bytes[0]);
      var tail := PercentBytes(bytes[1..]);
      var s := head + (tail + rest);
      assert PercentBytes(bytes) + rest == s;
      assert s[0] == '%' && s[1] == head[1] && s[2] == head[2] && s[3..] == tail + rest;
      assert DecodeBytes(scheme, s) == [bytes[0]] + DecodeBytes(scheme, tail + rest);
      DecodePercentBytes(scheme, bytes[1..], rest);
      assert DecodeBytes(scheme, tail + rest) == bytes[1..] + DecodeBytes(scheme, rest);
      assert bytes == [bytes[0]] + bytes[1..];
    } else {
      assert PercentBytes(bytes) + rest == rest;
    }
  }

  /** Decoding what one character was written as gives back its UTF-8 bytes. */
  lemma DecodeEncodedChar(scheme: Scheme, c: char, rest: string)
    ensures DecodeBytes(scheme, EncodeChar(scheme, c) + rest) == Utf8(c) + DecodeBytes(scheme, rest)
  {
    if Keeps(scheme, c) {
      KeptIsAscii(scheme, c);
      assert ([c] + rest)[1..] == rest;
    } else if scheme == FormUrlEncoded && c == ' ' {
      assert ("+" + rest)[1..] == rest;
    } else {
      DecodePercentBytes(scheme, Utf8(c), rest);
    }
  }

  /** Round trip: percent-decoding an encoded string yields the UTF-8 bytes of the original. */
  lemma {:induction false} DecodeEncode(scheme: Scheme, s: string)
    ensures DecodeBytes(scheme, Encode(scheme, s)) == Utf8Bytes(s)
  {
    if s != [] {
      DecodeEncodedChar(scheme, s[0], Encode(scheme, s[1..]));
      DecodeEncode(scheme, s[1..]);
    }
  }

  // ---------------------------------------------------------- query strings

  /** `parts.join([sep])`. */
  function JoinWith(sep: char, parts: seq<string>): string {
    if parts == [] then ""
    else if |parts| == 1 then parts[0]
    else parts[0] + [sep] + JoinWith(sep, parts[1..])
  }

  /** `s.split(sep)`: the pieces between the separators; never empty. */
  function SplitOn(s: string, sep: char): (parts: seq<string>)
    ensures |parts| >= 1
  {
    if s == [] then [""]
    else
      var rest := SplitOn(s[1..], sep);
      if s[0] == sep then [""] + rest
      else [[s[0]] + rest[0]] + rest[1..]
  }

  lemma {:induction false} SplitPiece(p: string, sep: char)
    requires sep !in p
    ensures SplitOn(p, sep) == [p]
  {
    if p != [] {
      assert sep !in p[1..];
      SplitPiece(p[1..], sep);
      assert [p[0]] + p[1..] == p;
    }
  }

  lemma {:induction false} SplitPieceThenRest(p: string, sep: char, t: string)
    requires sep !in p
    ensures SplitOn(p + [sep] + t, sep) == [p] + SplitOn(t, sep)
  {
    if p == [] {
      assert ([sep] + t)[1..] == t;
    } else {
      var s := p + [sep] + t;
      assert s[0] == p[0] && s[1..] == p[1..] + [sep] + t;
      assert sep !in p[1..];
      SplitPieceThenRest(p[1..], sep, t);
      assert [p[0]] + p[1..] == p;
    }
  }

  /** Splitting a join on its separator gives back the pieces, when no piece holds the separator. */
  lemma {:induction false} SplitJoin(sep: char, parts: seq<string>)
    requires parts != []
    requires forall k :: 0 <= k < |parts| ==> sep !in parts[k]
    ensures SplitOn(JoinWith(sep, parts), sep) == parts
  {
    if |parts| == 1 {
      SplitPiece(parts[0], sep);
    } else {
      SplitPieceThenRest(parts[0], sep, JoinWith(sep, parts[1..]));
      SplitJoin(sep, parts[1..]);
    }
  }

  /** One name/value pair of a `URLSearchParams` object. */
  datatype Param = Param(name: string, value: string)

  function SerializedParam(p: Param): (r: string)
    ensures '&' !in r
  {
    ComponentHasNoDelimiters(FormUrlEncoded, p.name);
    ComponentHasNoDelimiters(FormUrlEncoded, p.value);
    FormEncode(p.name) + "=" + FormEncode(p.value)
  }

  function SerializedParams(params: seq<Param>): (r: seq<string>)
    ensures |r| == |params|
    ensures forall k :: 0 <= k < |params| ==> r[k] == SerializedParam(params[k])
  {
    if params == [] then [] else [SerializedParam(params[0])] + SerializedParams(params[1..])
  }

  /** `URLSearchParams.toString()`: the serialized pairs in order, joined by '&'. */
  function SerializeQuery(params: seq<Param>): string {
    JoinWith('&', SerializedParams(params))
  }

  /** Splitting a serialized query on '&' gives one "name=value" piece per pair, in order. */
  lemma QuerySplitsIntoPairs(params: seq<Param>)
    requires params != []
    ensures SplitOn(SerializeQuery(params), '&') == SerializedParams(params)
  {
    SplitJoin('&', SerializedParams(params));
  }
}
