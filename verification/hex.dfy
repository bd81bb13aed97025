/** The hexadecimal text form of byte arrays used by the credential hashes:
    encoding as `b.toString(16).padStart(2, '0')` joined together, and the
    inverse used when a stored hash is read back, `s.match(/.{2}/g)` followed
    by `parseInt(pair, 16)` stored into a `Uint8Array`. */
module Hex {
  import opened Base

  predicate IsLowerHexDigit(c: char) {
    '0' <= c <= '9' || 'a' <= c <= 'f'
  }

  /** The lower-case digit for a value below sixteen, as `toString(16)` writes it. */
  function HexDigit(d: nat): (c: char)
    requires d < 16
    ensures IsLowerHexDigit(c)
  {
    if d < 10 then ('0' as int + d) as char else ('a' as int + d - 10) as char
  }

  /** `Number.prototype.toString(16)` for a non-negative integer: lower-case
      digits, most significant first, no leading zeros ("0" for zero). */
  function ToRadix16(n: nat): (s: string)
    ensures |s| >= 1
    ensures forall i :: 0 <= i < |s| ==> IsLowerHexDigit(s[i])
    ensures s[0] == '0' <==> n == 0
    decreases n
  {
    if n < 16 then [HexDigit(n)] else ToRadix16(n / 16) + [HexDigit(n % 16)]
  }

  /** `String.prototype.padStart(width, fill)` with a one-character filler. */
  function PadStart(s: string, width: nat, fill: char): (r: string)
    ensures |r| == if |s| < width then width else |s|
    ensures r[|r| - |s|..] == s
    ensures forall i :: 0 <= i < |r| - |s| ==> r[i] == fill
  {
    if |s| < width then seq(width - |s|, _ => fill) + s else s
  }

  /** One byte as two digits, high nibble first. */
  function ByteToHex(b: Byte): (r: string)
    ensures |r| == 2 && IsLowerHexDigit(r[0]) && IsLowerHexDigit(r[1])
  {
    [HexDigit(b / 16), HexDigit(b % 16)]
  }

  /** `b.toString(16).padStart(2, '0')` is always the two-digit form. */
  lemma PaddedRadix16(b: Byte)
    ensures PadStart(ToRadix16(b), 2, '0') == ByteToHex(b)
  {
    if b < 16 {
      assert ToRadix16(b) == [HexDigit(b)];
      assert HexDigit(b / 16) == '0';
    } else {
      assert ToRadix16(b / 16) == [HexDigit(b / 16)];
    }
  }

  /** `Array.from(bytes).map(b => b.toString(16).padStart(2, '0')).join('')` */
  function EncodeHex(bs: seq<Byte>): (r: string)
    ensures |r| == 2 * |bs|
    ensures forall i :: 0 <= i < |r| ==> IsLowerHexDigit(r[i])
  {
    if bs == [] then ""
    else
      ByteToHex(bs[0]) + EncodeHex(bs[1..])
  }

  /** The characters that the regular-expression `.` does not match. */
  predicate IsLineTerminator(c: char) {
    c == '\n' || c == '\r' || c == '\U{2028}' || c == '\U{2029}'
  }

  /** `s.match(/.{2}/g)` as a list (empty where JavaScript returns null): the
      scan takes two characters wherever neither is a line terminator and
      otherwise moves on by one. */
  function MatchPairs(s: string): (r: seq<string>)
    ensures forall k :: 0 <= k < |r| ==>
      |r[k]| == 2 && !IsLineTerminator(r[k][0]) && !IsLineTerminator(r[k][1])
    decreases |s|
  {
    if |s| < 2 then []
    else if !IsLineTerminator(s[0]) && !IsLineTerminator(s[1]) then [s[..2]] + MatchPairs(s[2..])
    else MatchPairs(s[1..])
  }

  /** StrWhiteSpaceChar of ECMAScript: the characters `parseInt` skips first. */
  predicate IsStrWhiteSpace(c: char) {
    c == '\t' || c == '\U{000B}' || c == '\U{000C}' || c == ' ' || c == '\U{00A0}'
    || c == '\U{FEFF}' || c == '\U{1680}' || ('\U{2000}' <= c <= '\U{200A}')
    || c == '\U{202F}' || c == '\U{205F}' || c == '\U{3000}' || IsLineTerminator(c)
  }

  /** The value of a digit in radix 16; `parseInt` accepts both cases. */
  function HexValue(c: char): (v: Option<nat>)
    ensures v.Some? ==> v.value < 16
  {
    if '0' <= c <= '9' then Some(c as int - '0' as int)
    else if 'a' <= c <= 'f' then Some(c as int - 'a' as int + 10)
    else if 'A' <= c <= 'F' then Some(c as int - 'A' as int + 10)
    else None
  }

  function TrimStart(s: string): (r: string)
    ensures |r| <= |s| && r == s[|s| - |r|..]
  {
    if s != [] && IsStrWhiteSpace(s[0]) then TrimStart(s[1..]) else s
  }

  /** The number of leading radix-16 digits of `s`. */
  function DigitRun(s: string): (n: nat)
    ensures n <= |s|
    ensures forall i :: 0 <= i < n ==> HexValue(s[i]).Some?
    ensures n < |s| ==> HexValue(s[n]).None?
  {
    if s != [] && HexValue(s[0]).Some? then 1 + DigitRun(s[1..]) else 0
  }

  /** The value of a run of radix-16 digits, most significant first. */
  function DigitsValue(s: string): nat
    requires forall i :: 0 <= i < |s| ==> HexValue(s[i]).Some?
  {
    if s == [] then 0 else 16 * DigitsValue(s[..|s| - 1]) + HexValue(s[|s| - 1]).value
  }

  /** The longest run of leading radix-16 digits read as a number; `None`
      when `s` does not start with a digit. */
  function LeadingValue(s: string): (r: Option<nat>)
    ensures r.None? <==> DigitRun(s) == 0
    ensures r.None? <==> s == [] || HexValue(s[0]).None?
  {
    var n := DigitRun(s);
    if n == 0 then None
    else
      var digits := s[..n];
      assert forall i :: 0 <= i < |digits| ==> HexValue(digits[i]).Some?;
      Some(DigitsValue(digits))
  }

  /** `parseInt(s, 16)`, with `None` for NaN: skip white space, take one sign,
      drop a "0x"/"0X" prefix, then read the longest run of digits. */
  function ParseInt16(s: string): (r: Option<int>)
    ensures TrimStart(s) == [] ==> r.None?
    ensures r.Some? && r.value < 0 ==> TrimStart(s)[0] == '-'
  {
    var t := TrimStart(s);
    var negative := t != [] && t[0] == '-';
    var u := if t != [] && (t[0] == '-' || t[0] == '+') then t[1..] else t;
    var v := if |u| >= 2 && u[0] == '0' && (u[1] == 'x' || u[1] == 'X') then u[2..] else u;
    match LeadingValue(v)
    case None => None
    case Some(value) =>
      var magnitude: int := value;
      Some(if negative then -magnitude else magnitude)
  }

  /** Storing a number into a `Uint8Array`: NaN becomes 0, everything else is
      taken modulo 256. */
  function ToUint8(v: Option<int>): (r: Byte)
    ensures v.Some? ==> (v.value - r) % 256 == 0
    ensures v.Some? && 0 <= v.value < 256 ==> r == v.value
  {
    match v
    case None => 0
    case Some(x) => x % 256
  }

  /** `pairs.map(p => parseInt(p, 16))` stored into a `Uint8Array`. */
  function ParsePairs(pairs: seq<string>): (r: seq<Byte>)
    ensures |r| == |pairs|
  {
    if pairs == [] then [] else [ToUint8(ParseInt16(pairs[0]))] + ParsePairs(pairs[1..])
  }

  /** `new Uint8Array(s.match(/.{2}/g)!.map(p => parseInt(p, 16)))`; `None` is
      the TypeError thrown when the match finds no pair and returns null. */
  function ParseHex(s: string): (r: Option<seq<Byte>>)
    ensures r.Some? <==> MatchPairs(s) != []
    ensures r.Some? ==> |r.value| == |MatchPairs(s)|
  {
    var pairs := MatchPairs(s);
    if pairs == [] then None else Some(ParsePairs(pairs))
  }

  /** A digit written by `toString(16)` is neither white space, a sign nor an `x`. */
  lemma HexDigitIsPlain(d: nat)
    requires d < 16
    ensures HexValue(HexDigit(d)) == Some(d)
    ensures !IsStrWhiteSpace(HexDigit(d))
    ensures HexDigit(d) !in "+-xX"
  {
  }

  /** `parseInt` reads back exactly the byte that `ByteToHex` wrote. */
  lemma ParseByteHex(b: Byte)
    ensures ParseInt16(ByteToHex(b)) == Some(b)
  {
    var hi, lo := HexDigit(b / 16), HexDigit(b % 16);
    var s := [hi, lo];
    HexDigitIsPlain(b / 16);
    HexDigitIsPlain(b % 16);
    assert TrimStart(s) == s;
    assert DigitRun(s) == 2 by {
      assert s[1..] == [lo] && [lo][1..] == [];
    }
    assert DigitsValue([hi]) == b / 16 by {
      assert [hi][..0] == [];
    }
    assert DigitsValue(s) == 16 * (b / 16) + b % 16 by {
      assert s[..1] == [hi];
    }
    assert LeadingValue(s) == Some(b) by {
      assert s[..2] == s;
    }
  }

  lemma ParseByteHexStored(b: Byte)
    ensures ToUint8(ParseInt16(ByteToHex(b))) == b
  {
    ParseByteHex(b);
  }

  /** Parsing the pairs found in an encoding gives back the encoded bytes. */
  lemma {:induction false} ParseOfEncoding(bs: seq<Byte>)
    ensures ParsePairs(MatchPairs(EncodeHex(bs))) == bs
  {
    if bs != [] {
      ParseFirstPair(bs);
      ParseOfEncoding(bs[1..]);
    }
  }

  /** The first pair of an encoding is the first byte's two digits. */
  lemma ParseFirstPair(bs: seq<Byte>)
    requires bs != []
    ensures ParsePairs(MatchPairs(EncodeHex(bs))) == [bs[0]] + ParsePairs(MatchPairs(EncodeHex(bs[1..])))
  {
    var head, rest := ByteToHex(bs[0]), EncodeHex(bs[1..]);
    var s := head + rest;
    assert EncodeHex(bs) == s;
    assert s[..2] == head && s[2..] == rest;
    assert !IsLineTerminator(s[0]) && !IsLineTerminator(s[1]);
    var pairs := [head] + MatchPairs(rest);
    assert MatchPairs(s) == pairs;
    assert pairs[0] == head && pairs[1..] == MatchPairs(rest);
    ParseByteHexStored(bs[0]);
  }

  /** Reading back an encoding gives the original bytes: the parse used by
      `verify-otp` inverts the encoding used by `send-otp`. */
  lemma HexRoundTrip(bs: seq<Byte>)
    requires bs != []
    ensures ParseHex(EncodeHex(bs)) == Some(bs)
  {
    ParseOfEncoding(bs);
  }

  /** Two byte strings with the same encoding are equal. */
  lemma EncodeHexInjective(xs: seq<Byte>, ys: seq<Byte>)
    requires EncodeHex(xs) == EncodeHex(ys)
    ensures xs == ys
  {
    if xs != [] {
      HexRoundTrip(xs);
      HexRoundTrip(ys);
    }
  }
}
