/** `generateOTP` (identical in `send-otp` and `resend-otp`) and the message
    `sendEmail` dispatches. */
module OtpCode {
  import opened Base

  const OtpLength: nat := 6

  /** The random draws behind one code: six values of `Math.floor(Math.random() * 10)`. */
  type OtpDraws = s: seq<Digit> | |s| == OtpLength witness [0, 0, 0, 0, 0, 0]

  predicate IsDecimalDigit(c: char) {
    '0' <= c <= '9'
  }

  /** `d.toString()` for a single decimal digit. */
  function DigitChar(d: Digit): (c: char)
    ensures IsDecimalDigit(c) && c as int - '0' as int == d
  {
    ('0' as int + d) as char
  }

  /** The code built from a sequence of draws, one character per draw. */
  function Code(draws: seq<Digit>): (s: string)
    ensures |s| == |draws|
    ensures forall i :: 0 <= i < |s| ==> IsDecimalDigit(s[i]) && s[i] as int - '0' as int == draws[i]
  {
    if draws == [] then "" else Code(draws[..|draws| - 1]) + [DigitChar(draws[|draws| - 1])]
  }

  /** `generateOTP(length)`: append one random decimal digit per round. */
  method Generate(length: nat, draws: seq<Digit>) returns (otp: string)
    requires |draws| == length
    ensures |otp| == length
    ensures forall i :: 0 <= i < length ==> IsDecimalDigit(otp[i]) && otp[i] as int - '0' as int == draws[i]
    ensures otp == Code(draws)
  {
    otp := "";
    var i := 0;
    while i < length
      invariant 0 <= i <= length
      invariant otp == Code(draws[..i])
    {
      assert draws[..i + 1][..i] == draws[..i];
      otp := otp + [DigitChar(draws[i])];
      i := i + 1;
    }
    assert draws[..length] == draws;
  }

  /** What `sendEmail(to, otp, name)` sends. */
  datatype Mail = Mail(to: string, code: string, name: string)
}
