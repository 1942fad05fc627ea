/** The pure helpers of the dashboard's service collectors: the uptime text
    (`human_seconds`), the health-probe URL of a service, the recognition of
    TLS trust failures in an error message, and the decision that combines a
    local and a remote health probe into one status. */
module Collectors {

  // ---------------------------------------------------------------------
  // Decimal digits
  // ---------------------------------------------------------------------

  predicate IsDigit(c: char) {
    '0' <= c <= '9'
  }

  predicate AllDigits(s: string) {
    forall i :: 0 <= i < |s| ==> IsDigit(s[i])
  }

  function DigitChar(d: nat): (c: char)
    requires d < 10
    ensures IsDigit(c) && c as int - '0' as int == d
  {
    ('0' as int + d) as char
  }

  /** The value of a string of decimal digits (the inverse of DecimalString). */
  function ParseDecimal(s: string): nat
    requires AllDigits(s)
  {
    if s == [] then 0
    else ParseDecimal(s[..|s| - 1]) * 10 + (s[|s| - 1] as int - '0' as int)
  }

  /** Python's `str(n)` (and `f"{n}"`) for a non-negative integer. */
  function DecimalString(n: nat): (s: string)
    ensures |s| >= 1 && AllDigits(s)
    ensures n > 0 ==> s[0] != '0'
    ensures |s| > 1 ==> s[0] != '0'
  {
    if n < 10 then [DigitChar(n)]
    else DecimalString(n / 10) + [DigitChar(n % 10)]
  }

  /** Reading the digits back gives the number: the text determines the value. */
  lemma {:induction false} ParseDecimalString(n: nat)
    ensures ParseDecimal(DecimalString(n)) == n
  {
    if n >= 10 {
      var s := DecimalString(n);
      ParseDecimalString(n / 10);
      assert s[..|s| - 1] == DecimalString(n / 10);
    }
  }

  lemma DecimalStringInjective(a: nat, b: nat)
    requires DecimalString(a) == DecimalString(b)
    ensures a == b
  {
    ParseDecimalString(a);
    ParseDecimalString(b);
  }

  /** Python's `f"{n:02d}"` for 0 <= n < 100: exactly two digits, zero-padded. */
  function TwoDigits(n: nat): (s: string)
    requires n < 100
    ensures |s| == 2 && AllDigits(s) && ParseDecimal(s) == n
  {
    var s := if n < 10 then ['0', DigitChar(n)] else [DigitChar(n / 10), DigitChar(n % 10)];
    assert s[..1][..0] == [];
    assert ParseDecimal(s[..1]) == s[0] as int - '0' as int;
    assert ParseDecimal(s) == ParseDecimal(s[..1]) * 10 + (s[1] as int - '0' as int);
    s
  }

  // ---------------------------------------------------------------------
  // human_seconds
  // ---------------------------------------------------------------------

  /** `int(max(0, seconds))`: negative inputs clamp to 0, the rest truncate. */
  function WholeSeconds(seconds: real): (t: nat)
    ensures seconds <= 0.0 ==> t == 0
    ensures seconds > 0.0 ==> t as real <= seconds < t as real + 1.0
  {
    if seconds <= 0.0 then 0 else seconds.Floor
  }

  /** The two `divmod` steps: hours, then minutes and seconds of the rest. */
  function SplitClock(total: nat): (c: (nat, nat, nat))
    ensures c.0 * 3600 + c.1 * 60 + c.2 == total
    ensures c.1 < 60 && c.2 < 60
  {
    var h := total / 3600;
    var rem := total % 3600;
    (h, rem / 60, rem % 60)
  }

  function HumanSeconds(seconds: real): (r: string)
    ensures seconds <= 0.0 ==> r == "0m 00s"
  {
    var (h, m, s) := SplitClock(WholeSeconds(seconds));
    if h > 0 then DecimalString(h) + "h " + TwoDigits(m) + "m"
    else DecimalString(m) + "m " + TwoDigits(s) + "s"
  }

  /** From one hour on, the text is "<h>h <mm>m": h is positive, the minutes are
      zero-padded and below 60, and the seconds that are not shown are fewer
      than 60. */
  lemma HumanSecondsHours(seconds: real)
    requires WholeSeconds(seconds) >= 3600
    ensures exists h: nat, m: nat ::
              && 0 < h && m < 60
              && h * 3600 + m * 60 <= WholeSeconds(seconds) < h * 3600 + m * 60 + 60
              && HumanSeconds(seconds) == DecimalString(h) + "h " + TwoDigits(m) + "m"
  {
    var c := SplitClock(WholeSeconds(seconds));
    assert c.0 > 0;
    assert HumanSeconds(seconds) == DecimalString(c.0) + "h " + TwoDigits(c.1) + "m";
  }

  /** Below one hour, the text is "<m>m <ss>s" and shows the whole duration:
      m * 60 + s is exactly the truncated input. */
  lemma HumanSecondsMinutes(seconds: real)
    requires WholeSeconds(seconds) < 3600
    ensures exists m: nat, s: nat ::
              && m < 60 && s < 60
              && m * 60 + s == WholeSeconds(seconds)
              && HumanSeconds(seconds) == DecimalString(m) + "m " + TwoDigits(s) + "s"
  {
    var c := SplitClock(WholeSeconds(seconds));
    assert c.0 == 0;
    assert HumanSeconds(seconds) == DecimalString(c.1) + "m " + TwoDigits(c.2) + "s";
  }

  // ---------------------------------------------------------------------
  // _service_probe_url
  // ---------------------------------------------------------------------

  /** `s.rstrip("/")`. */
  function RStripSlashes(s: string): (r: string)
    ensures r <= s
    ensures r == [] || r[|r| - 1] != '/'
    ensures forall i :: |r| <= i < |s| ==> s[i] == '/'
  {
    if |s| > 0 && s[|s| - 1] == '/' then RStripSlashes(s[..|s| - 1]) else s
  }

  /** The status path each known service answers on; unknown services are
      probed at their base URL. */
  function ProbeSuffix(name: string): string {
    if name == "Sonarr" then "/api/v3/system/status"
    else if name == "Radarr" then "/api/v3/system/status"
    else if name == "Prowlarr" then "/api/v1/system/status"
    else if name == "Plex" then "/identity"
    else if name == "Home Assistant" then "/api/"
    else ""
  }

  /** The probe URL keeps the base URL up to its last character that is not a
      trailing '/', and then carries the service's status path. */
  function ServiceProbeUrl(name: string, baseUrl: string): (url: string)
    ensures var p := |url| - |ProbeSuffix(name)|;
            && 0 <= p <= |baseUrl|
            && url[..p] == baseUrl[..p]
            && url[p..] == ProbeSuffix(name)
            && (p == 0 || baseUrl[p - 1] != '/')
            && forall i :: p <= i < |baseUrl| ==> baseUrl[i] == '/'
  {
    var base := RStripSlashes(baseUrl);
    var suffix := ProbeSuffix(name);
    assert (base + suffix)[..|base|] == base && (base + suffix)[|base|..] == suffix;
    assert base == baseUrl[..|base|];
    base + suffix
  }

  /** Trailing slashes on the configured URL never change the probe URL. */
  lemma ProbeUrlIgnoresTrailingSlashes(name: string, baseUrl: string, k: nat)
    ensures ServiceProbeUrl(name, baseUrl + seq(k, _ => '/')) == ServiceProbeUrl(name, baseUrl)
  {
    RStripIgnoresSlashes(baseUrl, k);
  }

  /** `rstrip("/")` removes any number of extra trailing slashes. */
  lemma {:induction false} RStripIgnoresSlashes(s: string, k: nat)
    ensures RStripSlashes(s + seq(k, _ => '/')) == RStripSlashes(s)
  {
    if k > 0 {
      var longer := s + seq(k, _ => '/');
      assert longer[|longer| - 1] == '/';
      assert longer[..|longer| - 1] == s + seq(k - 1, _ => '/');
      RStripIgnoresSlashes(s, k - 1);
    } else {
      assert s + seq(k, _ => '/') == s;
    }
  }

  // ---------------------------------------------------------------------
  // _is_tls_trust_error
  // ---------------------------------------------------------------------

  /** `str.upper` on one character, for the ASCII letters. */
  function UpperChar(c: char): char {
    if 'a' <= c <= 'z' then (c as int - 32) as char else c
  }

  function Upper(s: string): (u: string)
    ensures |u| == |s|
  {
    seq(|s|, i requires 0 <= i < |s| => UpperChar(s[i]))
  }

  /** `pattern` occurs in `text` starting at index i. */
  predicate OccursAt(text: string, pattern: string, i: int) {
    0 <= i && i + |pattern| <= |text| && text[i..i + |pattern|] == pattern
  }

  /** Python's `pattern in text`, as a left-to-right scan. */
  function Contains(text: string, pattern: string): (b: bool)
    ensures b <==> exists i :: OccursAt(text, pattern, i)
  {
    if |pattern| > |text| then false
    else if text[..|pattern|] == pattern then
      assert OccursAt(text, pattern, 0);
      true
    else
      var rest := Contains(text[1..], pattern);
      assert !OccursAt(text, pattern, 0);
      forall i | 1 <= i && i + |pattern| <= |text|
        ensures OccursAt(text, pattern, i) <==> OccursAt(text[1..], pattern, i - 1)
      {
        var a, b := text[i..i + |pattern|], text[1..][i - 1..i - 1 + |pattern|];
        assert |a| == |b| && forall k :: 0 <= k < |a| ==> a[k] == text[i + k] == b[k];
      }
      assert forall j :: OccursAt(text[1..], pattern, j) ==> OccursAt(text, pattern, j + 1);
      rest
  }

  /** `or` binds looser than `and`: either exact marker, or both words. */
  predicate IsTlsTrustError(message: string) {
    var text := Upper(message);
    || Contains(text, "CERTIFICATE_VERIFY_FAILED")
    || Contains(text, "SEC_E_UNTRUSTED_ROOT")
    || (Contains(text, "CERTIFICATE") && Contains(text, "UNTRUST"))
  }

  lemma UpperConcat(a: string, b: string)
    ensures Upper(a + b) == Upper(a) + Upper(b)
  {
  }

  lemma ContainsInContext(text: string, pattern: string, before: string, after: string)
    requires Contains(text, pattern)
    ensures Contains(before + text + after, pattern)
  {
    var i :| OccursAt(text, pattern, i);
    var whole := before + text + after;
    var j := |before| + i;
    assert whole[j..j + |pattern|] == text[i..i + |pattern|];
    assert OccursAt(whole, pattern, j);
  }

  /** A trust failure stays recognised when the message is wrapped in more text
      (as exception chains do). */
  lemma TlsTrustErrorInContext(message: string, before: string, after: string)
    requires IsTlsTrustError(message)
    ensures IsTlsTrustError(before + message + after)
  {
    UpperConcat(before, message);
    UpperConcat(before + message, after);
    var t := Upper(message);
    if Contains(t, "CERTIFICATE_VERIFY_FAILED") {
      ContainsInContext(t, "CERTIFICATE_VERIFY_FAILED", Upper(before), Upper(after));
    } else if Contains(t, "SEC_E_UNTRUSTED_ROOT") {
      ContainsInContext(t, "SEC_E_UNTRUSTED_ROOT", Upper(before), Upper(after));
    } else {
      ContainsInContext(t, "CERTIFICATE", Upper(before), Upper(after));
      ContainsInContext(t, "UNTRUST", Upper(before), Upper(after));
    }
  }

  /** The OpenSSL verification failure is recognised, in any letter case. */
  lemma TlsVerifyFailedRecognised()
    ensures IsTlsTrustError("certificate_verify_failed")
  {
    assert OccursAt(Upper("certificate_verify_failed"), "CERTIFICATE_VERIFY_FAILED", 0);
  }

  /** The Windows untrusted-root error is recognised. */
  lemma TlsUntrustedRootRecognised()
    ensures IsTlsTrustError("SEC_E_UNTRUSTED_ROOT")
  {
    assert OccursAt(Upper("SEC_E_UNTRUSTED_ROOT"), "SEC_E_UNTRUSTED_ROOT", 0);
  }

  /** The two words together are enough, wherever they stand. */
  lemma TlsCertificateUntrustedRecognised()
    ensures IsTlsTrustError("Certificate untrusted")
  {
    var m := Upper("Certificate untrusted");
    assert OccursAt(m, "CERTIFICATE", 0);
    assert OccursAt(m, "UNTRUST", 12);
  }

  /** A plain timeout is not a trust failure. */
  lemma TimeoutNotTlsTrustError()
    ensures !IsTlsTrustError("timed out")
  {
  }

  /** A pattern that occurs in a text has its first character there. */
  lemma ContainsFirstChar(text: string, pattern: string)
    requires |pattern| > 0 && Contains(text, pattern)
    ensures exists i :: 0 <= i < |text| && text[i] == pattern[0]
  {
    var i :| OccursAt(text, pattern, i);
    assert text[i] == text[i..i + |pattern|][0];
  }

  /** The word CERTIFICATE alone is not enough: a bad certificate is not a
      trust failure. */
  lemma CertificateAloneNotTlsTrustError()
    ensures !IsTlsTrustError("bad certificate")
  {
    var text := Upper("bad certificate");
    assert forall i :: 0 <= i < |text| ==> text[i] != 'U' && text[i] != 'S';
    if Contains(text, "UNTRUST") {
      ContainsFirstChar(text, "UNTRUST");
    }
    if Contains(text, "SEC_E_UNTRUSTED_ROOT") {
      ContainsFirstChar(text, "SEC_E_UNTRUSTED_ROOT");
    }
  }

  // ---------------------------------------------------------------------
  // _probe_service_with_fallback (the decision only)
  // ---------------------------------------------------------------------

  /** What one HTTP probe reports: whether the service answered, and why not. */
  datatype Probe = Probe(up: bool, error: string)

  /** `str.isspace` for one character: the characters `str.strip()` removes. */
  predicate IsSpace(c: char) {
    || c == ' ' || c == '\t' || c == '\n' || c == '\r'
    || c == '\U{0B}' || c == '\U{0C}' || ('\U{1C}' <= c <= '\U{1F}')
    || c == '\U{85}' || c == '\U{A0}' || c == '\U{1680}'
    || ('\U{2000}' <= c <= '\U{200A}')
    || c == '\U{2028}' || c == '\U{2029}' || c == '\U{202F}' || c == '\U{205F}' || c == '\U{3000}'
  }

  /** `not s.strip()`. */
  predicate IsBlank(s: string) {
    forall i :: 0 <= i < |s| ==> IsSpace(s[i])
  }

  /** The remote URL is probed only when the local probe failed and a remote
      URL is configured. */
  predicate NeedsRemoteProbe(primary: Probe, remoteUrl: string) {
    !primary.up && !IsBlank(remoteUrl)
  }

  /** The status reported for a service, from its local probe and (when it is
      performed) its remote probe. */
  function CombineProbes(primary: Probe, remoteUrl: string, remote: Probe): (r: Probe)
    ensures !NeedsRemoteProbe(primary, remoteUrl) ==> r == primary
    ensures r.up <==> primary.up || (NeedsRemoteProbe(primary, remoteUrl) && remote.up)
    ensures NeedsRemoteProbe(primary, remoteUrl) && remote.up ==> r.error == ""
    ensures NeedsRemoteProbe(primary, remoteUrl) && !remote.up ==>
              (r.error == "" <==> primary.error == "" && remote.error == "")
    ensures NeedsRemoteProbe(primary, remoteUrl) && !remote.up && primary.error != "" && remote.error != "" ==>
              r.error == "local=" + primary.error + "; remote=" + remote.error
    ensures NeedsRemoteProbe(primary, remoteUrl) && !remote.up && (primary.error == "" || remote.error == "") ==>
              r.error == primary.error + remote.error
  {
    if primary.up || IsBlank(remoteUrl) then primary
    else if remote.up then Probe(true, "")
    else if primary.error != "" && remote.error != "" then
      Probe(false, "local=" + primary.error + "; remote=" + remote.error)
    else Probe(false, if remote.error != "" then remote.error else primary.error)
  }

  /** The remote outcome matters only when the remote probe is performed. */
  lemma RemoteIgnoredWhenNotProbed(primary: Probe, remoteUrl: string, r1: Probe, r2: Probe)
    requires !NeedsRemoteProbe(primary, remoteUrl)
    ensures CombineProbes(primary, remoteUrl, r1) == CombineProbes(primary, remoteUrl, r2)
  {
  }

  /** When both probes fail, every non-empty error message is kept in the
      reported one, the remote message last. */
  lemma CombinedErrorKeepsMessages(primary: Probe, remoteUrl: string, remote: Probe)
    requires NeedsRemoteProbe(primary, remoteUrl) && !remote.up
    ensures var e := CombineProbes(primary, remoteUrl, remote).error;
            && (remote.error != "" ==> remote.error <= e[|e| - |remote.error|..] && |remote.error| <= |e|)
            && (primary.error != "" ==> Contains(e, primary.error))
  {
    var e := CombineProbes(primary, remoteUrl, remote).error;
    if primary.error != "" {
      if remote.error != "" {
        assert e == "local=" + primary.error + "; remote=" + remote.error;
        ContainsInContext(primary.error, primary.error, "local=", "; remote=" + remote.error);
        assert "local=" + primary.error + ("; remote=" + remote.error) == e;
      } else {
        ContainsInContext(primary.error, primary.error, "", "");
        assert "" + primary.error + "" == e;
      }
    }
  }
}
