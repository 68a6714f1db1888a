/** Time-based one-time passwords as the handlers configure them (SHA-1,
    6 digits, skew 1, step 30 seconds; RFC 6238), and the `otpauth://`
    provisioning URI. The HOTP code of a key and a counter (HMAC-SHA1 with the
    dynamic truncation of section 5.3 of RFC 4226) is a parameter `hotp`. */
module Totp {
  import opened Wrappers
  import opened Base32

  /** Seconds per time step. */
  const Step: nat := 30
  /** Steps accepted on either side of the current one. */
  const Skew: nat := 1
  /** Digits in a code. */
  const Digits: nat := 6
  /** The shortest key `TOTP::new` accepts, in bytes (128 bits). */
  const MinSecretBytes: nat := 16
    /** The issuer written into the provisioning URI. */
  const Issuer: string := "PSAR"

  /** The HOTP code of a decoded secret at a counter value. */
  type Hotp = (seq<byte>, int) -> string

  /** The time-step counter of an instant (section 4.2 of RFC 6238). */
  function Counter(now: nat): (c: nat)
    ensures c * Step <= now < (c + 1) * Step
  {
    now / Step
  }

  /** The counters `check_current` compares against. */
  predicate InWindow(c: int, now: nat) {
    Counter(now) - Skew <= c <= Counter(now) + Skew
  }

  /** `totp.check_current(token)` at instant `now`. */
  predicate CheckCurrent(hotp: Hotp, key: seq<byte>, token: string, now: nat): (b: bool)
    ensures b <==>
      token == hotp(key, Counter(now) - 1) || token == hotp(key, Counter(now)) || token == hotp(key, Counter(now) + 1)
  {
    exists c | Counter(now) - Skew <= c <= Counter(now) + Skew :: token == hotp(key, c)
  }

  predicate IsDigits(s: string) {
    |s| == Digits && forall i :: 0 <= i < |s| ==> '0' <= s[i] <= '9'
  }

  /** Every code the generator produces is six decimal digits. */
  ghost predicate SixDigitCodes(hotp: Hotp) {
    forall key, c :: IsDigits(hotp(key, c))
  }

  /** The code of the current step is accepted. */
  lemma CurrentCodeAccepted(hotp: Hotp, key: seq<byte>, t: nat)
    ensures CheckCurrent(hotp, key, hotp(key, Counter(t)), t)
  {
    assert InWindow(Counter(t), t);
  }

  /** A code issued at `t` is still accepted 29 seconds later, and also at
      every instant up to the end of the following step. */
  lemma CodeAcceptedWithinBand(hotp: Hotp, key: seq<byte>, t: nat, later: nat)
    requires t <= later < (Counter(t) + 2) * Step
    ensures CheckCurrent(hotp, key, hotp(key, Counter(t)), later)
  {
    assert Counter(t) * Step <= t;
    assert Counter(later) == Counter(t) || Counter(later) == Counter(t) + 1;
    assert InWindow(Counter(t), later);
  }

  lemma CodeAcceptedAfter29Seconds(hotp: Hotp, key: seq<byte>, t: nat)
    ensures CheckCurrent(hotp, key, hotp(key, Counter(t)), t + 29)
  {
    CodeAcceptedWithinBand(hotp, key, t, t + 29);
  }

  /** 61 seconds later the issuing step has left the window; the code is then
      refused unless it coincides with the code of one of the next four
      steps. */
  lemma CodeRefusedAfter61Seconds(hotp: Hotp, key: seq<byte>, t: nat)
    requires forall c :: Counter(t) + 1 <= c <= Counter(t) + 4 ==> hotp(key, c) != hotp(key, Counter(t))
    ensures !InWindow(Counter(t), t + 61)
    ensures !CheckCurrent(hotp, key, hotp(key, Counter(t)), t + 61)
  {
    var k := Counter(t);
    assert k * Step <= t < (k + 1) * Step;
    assert k + 2 <= Counter(t + 61) <= k + 3;
    forall c | InWindow(c, t + 61)
      ensures hotp(key, k) != hotp(key, c)
    {
      assert k + 1 <= c <= k + 4;
    }
  }

  /** A token that is not six digits is never accepted. */
  lemma MalformedTokenRefused(hotp: Hotp, key: seq<byte>, token: string, now: nat)
    requires SixDigitCodes(hotp)
    requires !IsDigits(token)
    ensures !CheckCurrent(hotp, key, token, now)
  {
    forall c | InWindow(c, now)
      ensures token != hotp(key, c)
    {
      assert IsDigits(hotp(key, c));
    }
  }

  /** The provisioning URI
      `otpauth://totp/{issuer}:{email}?secret={secret}&issuer={issuer}`;
      nothing is escaped. */
  function OtpAuthUrl(issuer: string, email: string, secret: string): (url: string)
    ensures |url| == |"otpauth://totp/"| + |issuer| + 1 + |email| + |"?secret="| + |secret| + |"&issuer="| + |issuer|
  {
    "otpauth://totp/" + issuer + ":" + email + "?secret=" + secret + "&issuer=" + issuer
  }

  /** The head part of the URI, before the query. */
  function Label(issuer: string, email: string): string {
    "otpauth://totp/" + issuer + ":" + email
  }

  /** The index of the first `c` in `s`. */
  function IndexOf(s: string, c: char): (r: Option<nat>)
    ensures r.Some? ==> r.value < |s| && s[r.value] == c && c !in s[..r.value]
    ensures r.None? <==> c !in s
  {
    if s == [] then None
    else if s[0] == c then Some(0)
    else match IndexOf(s[1..], c)
      case None => None
      case Some(k) =>
        assert s[..k + 1] == [s[0]] + s[1..][..k];
        Some(k + 1)
  }

  /** The first `c` of `head + rest` is the first of `rest` when `head` has none. */
  lemma IndexOfAfter(head: string, rest: string, c: char)
    requires c !in head && rest != [] && rest[0] == c
    ensures IndexOf(head + rest, c) == Some(|head|)
  {
    var s := head + rest;
    assert s[|head|] == c;
    assert forall j :: 0 <= j < |head| ==> s[j] == head[j];
  }

  /** Without `?` in the issuer or the e-mail, the label has none. */
  lemma LabelHasNoQuery(issuer: string, email: string)
    requires '?' !in issuer && '?' !in email
    ensures '?' !in Label(issuer, email)
  {
    var prefix := "otpauth://totp/" + issuer + ":";
    assert '?' !in prefix;
    assert Label(issuer, email) == prefix + email;
  }

  /** When neither the issuer nor the e-mail contains `?`, a reader who splits
      the URI at its first `?` gets back the head and a query naming exactly
      the secret and the issuer. */
  lemma UrlSplitsAtQuery(issuer: string, email: string, secret: string)
    requires '?' !in issuer && '?' !in email
    ensures var url := OtpAuthUrl(issuer, email, secret);
      var i := IndexOf(url, '?');
      i == Some(|Label(issuer, email)|) &&
      url[..i.value] == Label(issuer, email) &&
      url[i.value + 1..] == "secret=" + secret + "&issuer=" + issuer
  {
    var head := Label(issuer, email);
    var query := "secret=" + secret + "&issuer=" + issuer;
    var rest := ['?'] + query;
    var url := OtpAuthUrl(issuer, email, secret);
    assert "?secret=" == ['?'] + "secret=";
    assert url == head + rest;
    LabelHasNoQuery(issuer, email);
    IndexOfAfter(head, rest, '?');
    assert url[..|head|] == head;
    assert url[|head| + 1..] == query;
  }

  /** Because the e-mail is not escaped, a `?` in it moves the start of the
      query into the account name. */
  lemma UnescapedEmailMovesQuery(issuer: string, email: string, secret: string)
    requires '?' in email
    ensures var i := IndexOf(OtpAuthUrl(issuer, email, secret), '?');
      i.Some? && i.value < |Label(issuer, email)|
  {
    var url := OtpAuthUrl(issuer, email, secret);
    var prefix := "otpauth://totp/" + issuer + ":";
    var j :| 0 <= j < |email| && email[j] == '?';
    assert url[|prefix| + j] == '?';
    assert '?' in url;
  }
}
