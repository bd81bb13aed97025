/** The PBKDF2 credential encoding of `send-otp` (`hashPassword`) and the
    check of `verify-otp` (`verifyPassword`): a stored hash is the hex salt, a
    colon, and the hex digest. */
module Credentials {
  import opened Base
  import opened Hex
  import opened Primitives

  /** `${saltHex}:${hashHex}` */
  function HashPassword(c: Crypto, secret: string, salt: Salt): (r: string)
    ensures |r| == 2 * SaltLength + 1 + 2 * DigestLength
  {
    EncodeHex(salt) + ":" + EncodeHex(c.pbkdf2(secret, salt))
  }

  /** The stored text is 32 lower-case hex digits, a colon, and 64 more,
      and its first part reads back as the salt. */
  lemma HashPasswordLayout(c: Crypto, secret: string, salt: Salt)
    ensures var r := HashPassword(c, secret, salt);
      r[2 * SaltLength] == ':'
      && (forall i :: 0 <= i < |r| && i != 2 * SaltLength ==> IsLowerHexDigit(r[i]))
      && ParseHex(r[..2 * SaltLength]) == Some(salt)
  {
    HexRoundTrip(salt);
    ColonJoin(EncodeHex(salt), EncodeHex(c.pbkdf2(secret, salt)));
  }

  /** Two hex texts joined by a colon: hex everywhere except at the colon. */
  lemma ColonJoin(a: string, b: string)
    requires forall i :: 0 <= i < |a| ==> IsLowerHexDigit(a[i])
    requires forall i :: 0 <= i < |b| ==> IsLowerHexDigit(b[i])
    ensures (a + ":" + b)[..|a|] == a && (a + ":" + b)[|a|] == ':'
    ensures forall i :: 0 <= i < |a| + 1 + |b| && i != |a| ==> IsLowerHexDigit((a + ":" + b)[i])
  {
  }

  /** `a.join(sep)`, the inverse of `Split`. */
  function Join(parts: seq<string>, sep: char): string
    requires |parts| >= 1
  {
    if |parts| == 1 then parts[0] else parts[0] + [sep] + Join(parts[1..], sep)
  }

  /** `s.split(sep)` for a one-character separator: the pieces between
      separators, with an empty piece at each end the string starts or ends
      with the separator. */
  function Split(s: string, sep: char): (r: seq<string>)
    ensures |r| >= 1
  {
    if s == [] then [""]
    else
      var rest := Split(s[1..], sep);
      if s[0] == sep then [""] + rest
      else [[s[0]] + rest[0]] + rest[1..]
  }

  /** The pieces hold no separator, and joining them with it gives the
      string back. */
  lemma {:induction false} SplitJoin(s: string, sep: char)
    ensures forall k :: 0 <= k < |Split(s, sep)| ==> sep !in Split(s, sep)[k]
    ensures Join(Split(s, sep), sep) == s
  {
    if s != [] {
      var rest := Split(s[1..], sep);
      SplitJoin(s[1..], sep);
      if s[0] == sep {
        assert ([""] + rest)[1..] == rest;
      } else {
        var first := [s[0]] + rest[0];
        assert sep !in first;
        if |rest| > 1 {
          assert ([first] + rest[1..])[1..] == rest[1..];
        }
      }
    }
  }

  /** Splitting at the first separator. */
  lemma {:induction false} SplitAtFirst(a: string, b: string, sep: char)
    requires sep !in a
    ensures Split(a + [sep] + b, sep) == [a] + Split(b, sep)
  {
    if a == [] {
      assert ([] + [sep] + b)[1..] == b;
    } else {
      assert (a + [sep] + b)[1..] == a[1..] + [sep] + b;
      SplitAtFirst(a[1..], b, sep);
      assert [a[0]] + a[1..] == a;
    }
  }

  /** A string without the separator is a single piece. */
  lemma {:induction false} SplitWithout(s: string, sep: char)
    requires sep !in s
    ensures Split(s, sep) == [s]
  {
    if s != [] {
      SplitWithout(s[1..], sep);
      assert [s[0]] + s[1..] == s;
    }
  }

  /** The reason `verifyPassword` throws: its salt part holds no two
      characters, so `match` returns null and `.map` fails. */
  datatype VerifyError = SaltUnreadable

  /** `verifyPassword(secret, stored)`: split at ':', read the first piece as
      hex-pair salt bytes, recompute the PBKDF2 digest and compare its hex
      with the second piece (absent when there is no colon). */
  function VerifyPassword(c: Crypto, secret: string, stored: string): (r: Result<bool, VerifyError>)
    ensures r == Ok(true) ==> |Split(stored, ':')| >= 2
  {
    var parts := Split(stored, ':');
    match ParseHex(parts[0])
    case None => Err(SaltUnreadable)
    case Some(salt) =>
      if |parts| >= 2 && EncodeHex(c.pbkdf2(secret, salt)) == parts[1] then Ok(true)
      else Ok(false)
  }

  /** `verifyPassword` throws exactly when the text before the first colon
      holds no pair of characters, and accepts only a text with a colon. */
  lemma VerifyPasswordCases(c: Crypto, secret: string, stored: string)
    ensures VerifyPassword(c, secret, stored).Err? <==> MatchPairs(Split(stored, ':')[0]) == []
    ensures VerifyPassword(c, secret, stored) == Ok(true) ==> ':' in stored
  {
    if ':' !in stored {
      SplitWithout(stored, ':');
    }
  }

  /** A candidate checked against a stored PBKDF2 hash is accepted exactly
      when it derives the same digest under the stored salt. */
  lemma VerifyAgainstHash(c: Crypto, candidate: string, secret: string, salt: Salt)
    ensures VerifyPassword(c, candidate, HashPassword(c, secret, salt))
      == Ok(c.pbkdf2(candidate, salt) == c.pbkdf2(secret, salt))
  {
    var stored := HashPassword(c, secret, salt);
    var mine, theirs := c.pbkdf2(candidate, salt), c.pbkdf2(secret, salt);
    SplitHash(c, secret, salt);
    HexRoundTrip(salt);
    assert VerifyPassword(c, candidate, stored) == Ok(EncodeHex(mine) == EncodeHex(theirs));
    if EncodeHex(mine) == EncodeHex(theirs) {
      EncodeHexInjective(mine, theirs);
    }
  }

  /** A stored hash splits at its colon into the salt's hex and the digest's hex. */
  lemma SplitHash(c: Crypto, secret: string, salt: Salt)
    ensures Split(HashPassword(c, secret, salt), ':') == [EncodeHex(salt), EncodeHex(c.pbkdf2(secret, salt))]
  {
    var saltHex, hashHex := EncodeHex(salt), EncodeHex(c.pbkdf2(secret, salt));
    assert ':' !in saltHex;
    assert ':' !in hashHex;
    SplitAtFirst(saltHex, hashHex, ':');
    SplitWithout(hashHex, ':');
  }

  /** Hash round trip: a secret always verifies against its own hash. */
  lemma HashThenVerify(c: Crypto, secret: string, salt: Salt)
    ensures VerifyPassword(c, secret, HashPassword(c, secret, salt)) == Ok(true)
  {
    VerifyAgainstHash(c, secret, secret, salt);
  }

  /** A bcrypt hash, as `resend-otp` stores, is never accepted by
      `verifyPassword`: its text has no colon. */
  lemma BcryptNeverVerifies(c: Crypto, candidate: string, stored: BcryptText)
    ensures VerifyPassword(c, candidate, stored) != Ok(true)
  {
    assert ':' !in stored by {
      forall i | 0 <= i < |stored| ensures stored[i] != ':' {
        assert IsBcryptChar(stored[i]);
      }
    }
    VerifyPasswordCases(c, candidate, stored);
  }
}
