/** The script's own `urlencode` (github-upload.rb:71-73), applied to every
    form-field name of a multipart body. */
module UrlEncoding {

  /** The characters the regular expression `[^a-zA-Z0-9_\.\-]` leaves alone. */
  predicate Unreserved(c: char)
  {
    'a' <= c <= 'z' || 'A' <= c <= 'Z' || '0' <= c <= '9' || c == '_' || c == '.' || c == '-'
  }

  predicate AllUnreserved(s: string)
  {
    forall i :: 0 <= i < |s| ==> Unreserved(s[i])
  }

  /** The model covers ASCII names only: with the `/n` flag, what the
      regular expression does to other characters depends on the string's encoding. */
  predicate IsAscii(s: string)
  {
    forall i :: 0 <= i < |s| ==> (s[i] as int) < 128
  }

  /** A form-field name the model can encode. */
  type AsciiString = s: string | IsAscii(s)

  /** `String#to_i` of a one-character string: the digit's value, or 0 for
      anything that is not a digit. */
  function OneCharToI(c: char): (n: nat)
    ensures n < 10
    ensures !('0' <= c <= '9') ==> n == 0
  {
    if '0' <= c <= '9' then c as int - '0' as int else 0
  }

  /** A lowercase hexadecimal digit. */
  predicate IsHexDigit(c: char)
  {
    '0' <= c <= '9' || 'a' <= c <= 'f'
  }

  /** The value a lowercase hexadecimal digit denotes. */
  function HexValue(c: char): (d: nat)
    requires IsHexDigit(c)
    ensures d < 16
  {
    if '0' <= c <= '9' then c as int - '0' as int else c as int - 'a' as int + 10
  }

  function HexDigit(d: nat): (c: char)
    requires d < 16
    ensures IsHexDigit(c) && HexValue(c) == d
    ensures Unreserved(c)
  {
    if d < 10 then ('0' as int + d) as char else ('a' as int + d - 10) as char
  }

  /** `sprintf('%02x', n)` for a byte value: two lowercase hex digits. */
  function Hex2(n: nat): (r: string)
    requires n < 256
    ensures |r| == 2 && IsHexDigit(r[0]) && IsHexDigit(r[1])
    ensures 16 * HexValue(r[0]) + HexValue(r[1]) == n
  {
    [HexDigit(n / 16), HexDigit(n % 16)]
  }

  /** The block given to `gsub`: `sprintf('%%%02x', s[0].to_i)`. Under Ruby
      1.9, which the script insists on (github-upload.rb:8), `s[0]` is a
      one-character String, so `to_i` reads a digit or yields 0; digits are
      never escaped, hence every escape is "%00". */
  function Escape(c: char): (r: string)
    ensures |r| == 3 && r[0] == '%'
    ensures !Unreserved(c) ==> r == "%00"
  {
    "%" + Hex2(OneCharToI(c))
  }

  /** The reading the format string was written for (Ruby 1.8, where `s[0]`
      is the byte's code): `%` and the byte in two lowercase hex digits. */
  function IntendedEscape(c: char): (r: string)
    requires (c as int) < 256
    ensures |r| == 3 && r[0] == '%'
    ensures IsHexDigit(r[1]) && IsHexDigit(r[2])
    ensures 16 * HexValue(r[1]) + HexValue(r[2]) == c as int
  {
    "%" + Hex2(c as int)
  }

  /** The as-written escape agrees with the intended one only on NUL: for
      every other escaped character the byte value is lost. */
  lemma EscapeLosesByte(c: char)
    requires (c as int) < 128 && !Unreserved(c)
    ensures Escape(c) == IntendedEscape(c) <==> c as int == 0
  {
    var n := c as int;
    if Escape(c) == IntendedEscape(c) {
      assert IntendedEscape(c)[1] == '0' && IntendedEscape(c)[2] == '0';
      assert n / 16 == 0 && n % 16 == 0;
    }
  }

  /** What `gsub` substitutes for one character. */
  function EncodeChar(c: char): (r: string)
    ensures Unreserved(c) ==> r == [c]
    ensures !Unreserved(c) ==> |r| == 3 && r[0] == '%'
  {
    if Unreserved(c) then [c] else Escape(c)
  }

  /** How many characters of `s` get escaped. */
  function EscapedCount(s: string): nat
  {
    if s == [] then 0 else (if Unreserved(s[0]) then 0 else 1) + EscapedCount(s[1..])
  }

  /** `urlencode(str)`: each character replaced by its `EncodeChar`. Every
      escape adds two characters, and the output only holds unreserved
      characters and `%`, so it cannot end the quoted `name="..."` it is put in. */
  function Urlencode(s: string): (r: string)
    requires IsAscii(s)
    ensures |r| == |s| + 2 * EscapedCount(s)
    ensures forall i :: 0 <= i < |r| ==> Unreserved(r[i]) || r[i] == '%'
  {
    if s == [] then [] else EncodeChar(s[0]) + Urlencode(s[1..])
  }

  lemma {:induction false} EscapedCountZero(s: string)
    ensures EscapedCount(s) == 0 <==> forall i :: 0 <= i < |s| ==> Unreserved(s[i])
  {
    if s != [] {
      EscapedCountZero(s[1..]);
      assert forall i :: 1 <= i < |s| ==> s[i] == s[1..][i - 1];
    }
  }

  /** `urlencode` leaves a name unchanged exactly when every character of it
      is unreserved. */
  lemma {:induction false} UrlencodeIdentity(s: string)
    requires IsAscii(s)
    ensures Urlencode(s) == s <==> forall i :: 0 <= i < |s| ==> Unreserved(s[i])
  {
    EscapedCountZero(s);
    if forall i :: 0 <= i < |s| ==> Unreserved(s[i]) {
      UrlencodeUnreserved(s);
    }
  }

  lemma {:induction false} UrlencodeUnreserved(s: string)
    requires IsAscii(s)
    requires forall i :: 0 <= i < |s| ==> Unreserved(s[i])
    ensures Urlencode(s) == s
  {
    if s != [] {
      UrlencodeUnreserved(s[1..]);
      assert s == [s[0]] + s[1..];
    }
  }

  /** Encoding works character by character: the encoding of a concatenation
      is the concatenation of the encodings. */
  lemma {:induction false} UrlencodeConcat(a: string, b: string)
    requires IsAscii(a) && IsAscii(b)
    ensures IsAscii(a + b)
    ensures Urlencode(a + b) == Urlencode(a) + Urlencode(b)
  {
    var ab := a + b;
    assert forall i :: 0 <= i < |ab| ==> ab[i] == if i < |a| then a[i] else b[i - |a|];
    if a == [] {
      assert ab == b;
    } else {
      var t := a[1..];
      assert IsAscii(t);
      assert ab[0] == a[0] && ab[1..] == t + b;
      UrlencodeConcat(t, b);
      assert Urlencode(ab) == EncodeChar(a[0]) + (Urlencode(t) + Urlencode(b));
      assert Urlencode(a) == EncodeChar(a[0]) + Urlencode(t);
    }
  }

  /** A space between two unreserved names comes out as "%00" where the
      intended escape is "%20": "a b.txt" is sent as "a%00b.txt", not as
      "a%20b.txt". */
  lemma SpaceEscape(a: string, b: string)
    requires IsAscii(a) && IsAscii(b) && AllUnreserved(a) && AllUnreserved(b)
    ensures IsAscii(a + " " + b)
    ensures Urlencode(a + " " + b) == a + "%00" + b
    ensures IntendedEscape(' ') == "%20"
  {
    UrlencodeUnreserved(a);
    UrlencodeUnreserved(b);
    assert Urlencode(" ") == "%00";
    UrlencodeConcat(a, " ");
    UrlencodeConcat(a + " ", b);
    assert (' ' as int) == 32;
  }
}
