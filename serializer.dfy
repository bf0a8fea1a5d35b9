/**
 * A stand-in for the timed JSON web signature serializer the application signs
 * its tokens with. A token is the signed text, a '.', and the signature:
 *
 *     <iat>,<exp>.<id>.<signature>
 *
 * where the header carries the issue time `iat` and the expiry time `exp`
 * (both in whole seconds), the payload carries the user `id`, and the
 * signature is a deterministic, injective function of the secret key and the
 * signed text. Loading follows the library's order: split off the signature
 * at the last '.', check it, decode the claims, and only then compare the
 * expiry time with the clock.
 */
module Serializer {
  import opened Wrappers
  import opened Decimal

  datatype Claims = Claims(iat: nat, exp: nat, id: nat)

  /** What loading a token gives: its claims, or why it is refused. */
  datatype Loaded = Valid(claims: Claims) | Expired(claims: Claims) | BadSignature

  /** Numbers strings in bijective base CodeBase; every char code is below it. */
  const CodeBase: nat := 0x11_0001

  function Code(s: string): nat {
    if s == [] then 0 else Code(s[..|s| - 1]) * CodeBase + (s[|s| - 1] as int + 1)
  }

  /** The keyed signature of a signed text (the HMAC of the real serializer). */
  function Sign(key: string, signed: string): (sig: string)
    ensures Canonical(sig)
  {
    Digits(Code(key + signed))
  }

  function EncodeClaims(c: Claims): string {
    Digits(c.iat) + "," + Digits(c.exp) + "." + Digits(c.id)
  }

  /** Reads a numeral followed by sep, giving its value and what follows sep. */
  function ReadField(s: string, sep: char): Option<(nat, string)> {
    match ReadNat(s)
    case None => None
    case Some((n, rest)) => if rest != [] && rest[0] == sep then Some((n, rest[1..])) else None
  }

  function DecodeClaims(m: string): Option<Claims> {
    match ReadField(m, ',')
    case None => None
    case Some((iat, r1)) =>
      match ReadField(r1, '.')
      case None => None
      case Some((exp, r2)) =>
        match ReadNat(r2)
        case None => None
        case Some((id, r3)) => if r3 != [] then None else Some(Claims(iat, exp, id))
  }

  /** The token text for the given claims, signed with key. */
  function Dumps(key: string, c: Claims): string {
    var signed := EncodeClaims(c);
    signed + "." + Sign(key, signed)
  }

  /** Splits s at its last '.' into the signed text and the signature. */
  function RSplit(s: string): (r: Option<(string, string)>)
    ensures r.Some? ==> s == r.value.0 + "." + r.value.1 && '.' !in r.value.1
    ensures r.None? ==> '.' !in s
  {
    if s == [] then None
    else if s[|s| - 1] == '.' then Some((s[..|s| - 1], []))
    else match RSplit(s[..|s| - 1])
      case None => None
      case Some((p, g)) => Some((p, g + [s[|s| - 1]]))
  }

  /** Checks and decodes token at time now. */
  function Loads(key: string, token: string, now: nat): Loaded {
    match RSplit(token)
    case None => BadSignature
    case Some((signed, signature)) =>
      if signature != Sign(key, signed) then BadSignature
      else match DecodeClaims(signed)
        case None => BadSignature
        case Some(c) => if c.exp < now then Expired(c) else Valid(c)
  }

  lemma {:induction false} CodeInjective(s: string, t: string)
    requires Code(s) == Code(t)
    ensures s == t
  {
    if s != [] && t != [] {
      var a, b := s[|s| - 1] as int + 1, t[|t| - 1] as int + 1;
      assert Code(s) % CodeBase == a && Code(s) / CodeBase == Code(s[..|s| - 1]);
      assert Code(t) % CodeBase == b && Code(t) / CodeBase == Code(t[..|t| - 1]);
      CodeInjective(s[..|s| - 1], t[..|t| - 1]);
      assert s == s[..|s| - 1] + [s[|s| - 1]];
      assert t == t[..|t| - 1] + [t[|t| - 1]];
    }
  }

  /** Under one key, distinct texts have distinct signatures. */
  lemma SignInjective(key: string, m1: string, m2: string)
    requires Sign(key, m1) == Sign(key, m2)
    ensures m1 == m2
  {
    ValueOfDigits(Code(key + m1));
    ValueOfDigits(Code(key + m2));
    CodeInjective(key + m1, key + m2);
    assert m1 == (key + m1)[|key|..];
    assert m2 == (key + m2)[|key|..];
  }

  lemma {:induction false} RSplitJoin(p: string, g: string)
    requires '.' !in g
    ensures RSplit(p + "." + g) == Some((p, g))
  {
    var s := p + "." + g;
    if g == [] {
      assert s[..|s| - 1] == p;
    } else {
      var g' := g[..|g| - 1];
      assert s[..|s| - 1] == p + "." + g';
      assert '.' !in g' by {
        forall i | 0 <= i < |g'| ensures g'[i] != '.' { assert g'[i] == g[i]; }
      }
      RSplitJoin(p, g');
      assert g' + [g[|g| - 1]] == g;
    }
  }

  lemma ReadFieldOfDigits(n: nat, sep: char, rest: string)
    requires !IsDigit(sep)
    ensures ReadField(Digits(n) + [sep] + rest, sep) == Some((n, rest))
  {
    assert Digits(n) + [sep] + rest == Digits(n) + ([sep] + rest);
    ReadNatOfDigits(n, [sep] + rest);
  }

  lemma ReadFieldSound(s: string, sep: char)
    requires ReadField(s, sep).Some?
    ensures s == Digits(ReadField(s, sep).value.0) + [sep] + ReadField(s, sep).value.1
  {
    ReadNatSound(s);
    var rest := ReadNat(s).value.1;
    assert rest == [sep] + rest[1..];
  }

  lemma DecodeEncode(c: Claims)
    ensures DecodeClaims(EncodeClaims(c)) == Some(c)
  {
    var r2 := Digits(c.id);
    var r1 := Digits(c.exp) + "." + r2;
    assert EncodeClaims(c) == Digits(c.iat) + "," + r1;
    ReadFieldOfDigits(c.iat, ',', r1);
    ReadFieldOfDigits(c.exp, '.', r2);
    assert r2 == Digits(c.id) + [];
    ReadNatOfDigits(c.id, []);
  }

  lemma EncodeDecode(m: string, c: Claims)
    requires DecodeClaims(m) == Some(c)
    ensures m == EncodeClaims(c)
  {
    var (iat, r1) := ReadField(m, ',').value;
    ReadFieldSound(m, ',');
    var (exp, r2) := ReadField(r1, '.').value;
    ReadFieldSound(r1, '.');
    ReadNatSound(r2);
    assert r2 == Digits(c.id) + [];
  }

  /** Loading the dump of claims gives them back, or Expired once exp is past. */
  lemma LoadsDumps(key: string, c: Claims, now: nat)
    ensures Loads(key, Dumps(key, c), now) == if c.exp < now then Expired(c) else Valid(c)
  {
    var signed := EncodeClaims(c);
    assert '.' !in Sign(key, signed) by {
      var g := Sign(key, signed);
      forall i | 0 <= i < |g| ensures g[i] != '.' { assert IsDigit(g[i]); }
    }
    RSplitJoin(signed, Sign(key, signed));
    DecodeEncode(c);
  }

  /** A text that is not the dump of any claims under key is refused as badly signed. */
  lemma LoadsOnlyDumps(key: string, token: string, now: nat)
    requires !Loads(key, token, now).BadSignature?
    ensures token == Dumps(key, Loads(key, token, now).claims)
  {
    var (signed, signature) := RSplit(token).value;
    EncodeDecode(signed, Loads(key, token, now).claims);
  }

  /** A token is accepted with claims c exactly when it is their dump and now <= c.exp. */
  lemma LoadsValidIff(key: string, token: string, now: nat, c: Claims)
    ensures Loads(key, token, now) == Valid(c) <==> token == Dumps(key, c) && now <= c.exp
  {
    if Loads(key, token, now) == Valid(c) {
      LoadsOnlyDumps(key, token, now);
    }
    if token == Dumps(key, c) {
      LoadsDumps(key, c, now);
    }
  }

  /** A token is refused as expired with claims c exactly when it is their dump and c.exp < now. */
  lemma LoadsExpiredIff(key: string, token: string, now: nat, c: Claims)
    ensures Loads(key, token, now) == Expired(c) <==> token == Dumps(key, c) && c.exp < now
  {
    if Loads(key, token, now) == Expired(c) {
      LoadsOnlyDumps(key, token, now);
    }
    if token == Dumps(key, c) {
      LoadsDumps(key, c, now);
    }
  }

  /** A signed text with any signature other than its own is refused as badly signed. */
  lemma LoadsRejectsForgedSignature(key: string, signed: string, forged: string, now: nat)
    requires '.' !in forged && forged != Sign(key, signed)
    ensures Loads(key, signed + "." + forged, now) == BadSignature
  {
    RSplitJoin(signed, forged);
  }
}
