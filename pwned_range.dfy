/** The local part of `verificar_senha_pwned` in password_checker.py: the
    k-anonymity range lookup of the Pwned Passwords service.  The SHA-1
    digest of the password and the outcome of the HTTP GET are inputs; what
    is modelled is the prefix/suffix split, the request path, and the scan of
    the `SUFFIX:COUNT` lines of the response. */
module PwnedRange {
  import PythonText

  /** Everything in the request URL before the digest prefix. */
  const RangeEndpoint: string := "https://api.pwnedpasswords.com/range/"

  /** Number of digest characters sent to the service. */
  const PrefixLength: nat := 5

  /** `hash_senha[:5]` (Python slicing: the whole string when it is shorter). */
  function Prefix(digest: string): (p: string)
    ensures p <= digest && |p| <= PrefixLength
    ensures |digest| >= PrefixLength ==> |p| == PrefixLength
  {
    if |digest| < PrefixLength then digest else digest[..PrefixLength]
  }

  /** `hash_senha[5:]` (empty when the string is shorter). */
  function Suffix(digest: string): (s: string)
    ensures Prefix(digest) + s == digest
  {
    if |digest| < PrefixLength then "" else digest[PrefixLength..]
  }

  /** The URL of the range request: the endpoint followed by at most five
      characters, all taken from the start of the digest. */
  function RangeUrl(digest: string): (url: string)
    ensures RangeEndpoint <= url
    ensures |url| <= |RangeEndpoint| + PrefixLength
    ensures url[|RangeEndpoint|..] <= digest
  {
    RangeEndpoint + Prefix(digest)
  }

  /** The outcome of `requests.get(url, timeout=10)`: a response, or an
      exception raised by the HTTP client. */
  datatype HttpOutcome = Response(status: int, body: string) | RequestFailed

  /** What the catch-all handler caught: the HTTP client failed, a line did
      not unpack into two fields (Python reports how many it found), or
      `int()` rejected the count of the matching line. */
  datatype Fault = RequestError | UnpackError(fields: nat) | CountError(literal: string)

  /** The dictionary `verificar_senha_pwned` returns: the `vazada` /
      `vezes_vazada` / `hash` record, the fixed 'Falha na consulta à API'
      error, or the 'Erro na verificação: ...' error. */
  datatype BreachResult =
    | Checked(breached: bool, timesBreached: int, digest: string)
    | ApiFailure
    | VerificationError(fault: Fault)

  /** What one response line says about `suffix`. */
  datatype LineVerdict = Mismatch | Match(count: string) | Malformed(fields: nat)

  /** `hash_sufixo, count = linha.split(':')` followed by `hash_sufixo == sufixo`. */
  function ReadRecord(line: string, suffix: string): (v: LineVerdict)
    ensures v.Match? ==> line == suffix + ":" + v.count && ':' !in v.count
    ensures v.Malformed? ==> v.fields != 2 && v.fields >= 1
  {
    var fields := PythonText.Split(line, ':');
    PythonText.JoinSplit(line, ':');
    assert |fields| == 2 ==> fields[1..] == [fields[1]];
    if |fields| != 2 then Malformed(|fields|)
    else if fields[0] == suffix then Match(fields[1])
    else Mismatch
  }

  /** The result a line that is not a mismatch settles the lookup with. */
  function Decide(verdict: LineVerdict, digest: string): (r: BreachResult)
    requires !verdict.Mismatch?
    ensures r != ApiFailure
    ensures r.Checked? ==>
              r.breached && r.digest == digest && verdict.Match? &&
              PythonText.ParseInt(verdict.count) == PythonText.Some(r.timesBreached)
    ensures r.VerificationError? ==> r.fault != RequestError
  {
    match verdict
    case Malformed(n) => VerificationError(UnpackError(n))
    case Match(count) =>
      match PythonText.ParseInt(count)
      case Some(n) => Checked(true, n, digest)
      case None => VerificationError(CountError(count))
  }

  /** The outcome of scanning `lines` in order: the first line that is not
      a mismatch decides, and a scan that reaches the end finds nothing. */
  function ScanLines(lines: seq<string>, suffix: string, digest: string): (r: BreachResult)
    ensures r != ApiFailure
    ensures r.Checked? ==> r.digest == digest
    ensures r.VerificationError? ==> r.fault != RequestError
    ensures r.Checked? && !r.breached ==> r.timesBreached == 0
  {
    if lines == [] then Checked(false, 0, digest)
    else
      var verdict := ReadRecord(lines[0], suffix);
      if verdict.Mismatch? then ScanLines(lines[1..], suffix, digest)
      else Decide(verdict, digest)
  }

  /** What `verificar_senha_pwned` returns for a password with this digest
      when the range request ends with `http`. */
  function RangeCheck(digest: string, http: HttpOutcome): (r: BreachResult)
    ensures r == VerificationError(RequestError) <==> http.RequestFailed?
    ensures r == ApiFailure <==> http.Response? && http.status != 200
    ensures r.Checked? ==> r.digest == digest && (r.breached || r.timesBreached == 0)
  {
    match http
    case RequestFailed => VerificationError(RequestError)
    case Response(status, body) =>
      if status == 200 then ScanLines(PythonText.SplitLines(body), Suffix(digest), digest)
      else ApiFailure
  }

  /** `verificar_senha_pwned` after hashing: request the range URL from
      `service` (the HTTP GET, as a function from URL to outcome), check the
      status, then scan the response lines for the digest's suffix,
      returning at the first line that matches or cannot be unpacked. */
  method CheckPwned(digest: string, service: string -> HttpOutcome) returns (r: BreachResult)
    ensures r == RangeCheck(digest, service(RangeUrl(digest)))
  {
    var url := RangeUrl(digest);
    var http := service(url);
    if http.RequestFailed? {
      return VerificationError(RequestError);
    }
    if http.status != 200 {
      return ApiFailure;
    }
    var suffix := Suffix(digest);
    var lines := PythonText.SplitLines(http.body);
    for i := 0 to |lines|
      invariant ScanLines(lines[i..], suffix, digest) == ScanLines(lines, suffix, digest)
    {
      assert lines[i..][1..] == lines[i + 1..];
      var fields := PythonText.Split(lines[i], ':');
      if |fields| != 2 {
        return VerificationError(UnpackError(|fields|));
      }
      if fields[0] == suffix {
        var count := PythonText.ParseInt(fields[1]);
        if count.None? {
          return VerificationError(CountError(fields[1]));
        }
        return Checked(true, count.value, digest);
      }
    }
    return Checked(false, 0, digest);
  }

  // ---------------------------------------------------------------------
  // The digest split and the request
  // ---------------------------------------------------------------------

  /** A 40-character digest splits 5 + 35. */
  lemma DigestSplit(digest: string)
    ensures |digest| == 40 ==> |Prefix(digest)| == 5 && |Suffix(digest)| == 35
  {
  }

  /** The URL is all `CheckPwned` hands to the service, and it depends on
      the digest only through its prefix: two digests produce the same URL
      exactly when their prefixes agree. */
  lemma RangeUrlRevealsOnlyPrefix(d1: string, d2: string)
    ensures RangeUrl(d1) == RangeUrl(d2) <==> Prefix(d1) == Prefix(d2)
  {
    if RangeUrl(d1) == RangeUrl(d2) {
      assert RangeUrl(d1)[|RangeEndpoint|..] == Prefix(d1);
      assert RangeUrl(d2)[|RangeEndpoint|..] == Prefix(d2);
    }
  }

  /** Whatever the body, a status other than 200 gives the fixed API error. */
  lemma NonOkStatusIsApiFailure(digest: string, status: int, body: string)
    requires status != 200
    ensures RangeCheck(digest, Response(status, body)) == ApiFailure
  {
  }

  // ---------------------------------------------------------------------
  // The scan
  // ---------------------------------------------------------------------

  /** When lines `0..k-1` are mismatches and line `k` is not (or `k` is the
      end), the scan's result is the one line `k` settles it with (or "not
      found").  Every scan has exactly one such `k`. */
  lemma {:induction false} ScanDecidedByFirstNonMismatch(
    lines: seq<string>, suffix: string, digest: string, k: nat)
    requires k <= |lines|
    requires forall j | 0 <= j < k :: ReadRecord(lines[j], suffix).Mismatch?
    requires k < |lines| ==> !ReadRecord(lines[k], suffix).Mismatch?
    ensures ScanLines(lines, suffix, digest) ==
              if k == |lines| then Checked(false, 0, digest)
              else Decide(ReadRecord(lines[k], suffix), digest)
  {
    if k > 0 {
      assert ReadRecord(lines[0], suffix).Mismatch?;
      ScanDecidedByFirstNonMismatch(lines[1..], suffix, digest, k - 1);
    }
  }

  /** "Not found" exactly when every line unpacks and none carries the suffix. */
  lemma {:induction false} ScanNotFoundIff(lines: seq<string>, suffix: string, digest: string)
    ensures ScanLines(lines, suffix, digest) == Checked(false, 0, digest) <==>
              forall j | 0 <= j < |lines| :: ReadRecord(lines[j], suffix).Mismatch?
  {
    if lines != [] {
      ScanNotFoundIff(lines[1..], suffix, digest);
      if ReadRecord(lines[0], suffix).Mismatch? {
        assert forall j | 1 <= j < |lines| :: lines[j] == lines[1..][j - 1];
      }
    }
  }

  /** A line that does not unpack into two fields, before any match, makes
      the lookup an error and never an escaping exception. */
  lemma MalformedLineIsError(lines: seq<string>, suffix: string, digest: string, k: nat)
    requires k < |lines|
    requires forall j | 0 <= j < k :: ReadRecord(lines[j], suffix).Mismatch?
    requires |PythonText.Split(lines[k], ':')| != 2
    ensures ScanLines(lines, suffix, digest) ==
              VerificationError(UnpackError(|PythonText.Split(lines[k], ':')|))
  {
    ScanDecidedByFirstNonMismatch(lines, suffix, digest, k);
  }

  // ---------------------------------------------------------------------
  // Well-formed range responses
  // ---------------------------------------------------------------------

  /** One record of a range response. */
  datatype Record = Record(suffix: string, count: nat)

  predicate ValidSuffix(s: string)
  {
    ':' !in s && PythonText.NoLineBoundary(s)
  }

  /** `SUFFIX:COUNT`. */
  function FormatRecord(r: Record): string
  {
    r.suffix + ":" + PythonText.NatToString(r.count)
  }

  function FormatLines(records: seq<Record>): (lines: seq<string>)
    ensures |lines| == |records|
    ensures forall k | 0 <= k < |records| :: lines[k] == FormatRecord(records[k])
  {
    if records == [] then [] else [FormatRecord(records[0])] + FormatLines(records[1..])
  }

  /** A response body: one record per line, lines separated by `eol`, and
      the last line ended by `eol` too when `terminated` holds. */
  function FormatResponse(records: seq<Record>, eol: string, terminated: bool): string
  {
    if terminated then PythonText.JoinLines(FormatLines(records), eol)
    else PythonText.JoinLinesOpen(FormatLines(records), eol)
  }

  /** A formatted record reads back as its suffix and count. */
  lemma ReadFormattedRecord(r: Record, suffix: string)
    requires ValidSuffix(r.suffix)
    ensures ReadRecord(FormatRecord(r), suffix) ==
              if r.suffix == suffix then Match(PythonText.NatToString(r.count)) else Mismatch
    ensures PythonText.NoLineBoundary(FormatRecord(r))
  {
    var digits := PythonText.NatToString(r.count);
    assert ':' !in digits;
    var line := FormatRecord(r);
    assert line == PythonText.Join([r.suffix, digits], ':');
    PythonText.SplitJoin([r.suffix, digits], ':');
    forall i | 0 <= i < |line| ensures !PythonText.IsLineBoundary(line[i]) {
      if i > |r.suffix| {
        assert line[i] == digits[i - |r.suffix| - 1];
        assert PythonText.IsDigit(digits[i - |r.suffix| - 1]);
      }
    }
  }

  /** End to end: a 200 response listing the digest's suffix answers
      "breached" with the count of the first record carrying it. */
  lemma ResponseListingSuffixIsBreached(
    digest: string, records: seq<Record>, eol: string, terminated: bool, k: nat)
    requires PythonText.IsLineTerminator(eol)
    requires forall j | 0 <= j < |records| :: ValidSuffix(records[j].suffix)
    requires k < |records| && records[k].suffix == Suffix(digest)
    requires forall j | 0 <= j < k :: records[j].suffix != Suffix(digest)
    ensures RangeCheck(digest, Response(200, FormatResponse(records, eol, terminated))) ==
              Checked(true, records[k].count, digest)
  {
    var lines := ResponseLines(records, eol, terminated);
    var suffix := Suffix(digest);
    var digits := PythonText.NatToString(records[k].count);
    assert ScanLines(lines, suffix, digest) == Decide(Match(digits), digest) by {
      forall j | 0 <= j <= k
        ensures ReadRecord(lines[j], suffix) == if j == k then Match(digits) else Mismatch
      {
        ReadFormattedRecord(records[j], suffix);
      }
      ScanDecidedByFirstNonMismatch(lines, suffix, digest, k);
    }
    PythonText.ParseIntToString(records[k].count);
  }

  /** End to end: a 200 response not listing the digest's suffix answers
      "not breached" with count 0. */
  lemma ResponseWithoutSuffixIsClean(
    digest: string, records: seq<Record>, eol: string, terminated: bool)
    requires PythonText.IsLineTerminator(eol)
    requires forall j | 0 <= j < |records| :: ValidSuffix(records[j].suffix)
    requires forall j | 0 <= j < |records| :: records[j].suffix != Suffix(digest)
    ensures RangeCheck(digest, Response(200, FormatResponse(records, eol, terminated))) ==
              Checked(false, 0, digest)
  {
    var lines := ResponseLines(records, eol, terminated);
    var suffix := Suffix(digest);
    forall j | 0 <= j < |lines| ensures ReadRecord(lines[j], suffix).Mismatch? {
      ReadFormattedRecord(records[j], suffix);
    }
    ScanNotFoundIff(lines, suffix, digest);
  }

  /** The lines `splitlines` finds in a formatted response are its records. */
  lemma ResponseLines(records: seq<Record>, eol: string, terminated: bool) returns (lines: seq<string>)
    requires PythonText.IsLineTerminator(eol)
    requires forall j | 0 <= j < |records| :: ValidSuffix(records[j].suffix)
    ensures lines == FormatLines(records)
    ensures PythonText.SplitLines(FormatResponse(records, eol, terminated)) == lines
  {
    lines := FormatLines(records);
    forall j | 0 <= j < |lines| ensures PythonText.NoLineBoundary(lines[j]) {
      ReadFormattedRecord(records[j], "");
    }
    if terminated {
      PythonText.SplitLinesJoinLines(lines, eol);
    } else {
      PythonText.SplitLinesJoinLinesOpen(lines, eol);
    }
  }

  /** The SHA-1 digest of "password", in upper-case hex. */
  const PasswordDigest: string := "5BAA61E4C9B93F3F0682250B6CF8331B7EE68FD8"

  /** Its range query asks for "5BAA6" and looks for the remaining 35 characters. */
  lemma PasswordDigestSplit()
    ensures Prefix(PasswordDigest) == "5BAA6"
    ensures Suffix(PasswordDigest) == "1E4C9B93F3F0682250B6CF8331B7EE68FD8"
  {
    PasswordDigestPrefix();
  }

  lemma PasswordDigestPrefix()
    ensures PasswordDigest[..5] == "5BAA6"
  {
    var d := PasswordDigest;
    assert d[0] == '5' && d[1] == 'B' && d[2] == 'A' && d[3] == 'A' && d[4] == '6';
  }

  lemma OtherSuffixValid()
    ensures ValidSuffix("1E4BE6EE7D6FE91AA1A2B8A8C0D3E1E1A53")
  {
  }

  lemma PasswordSuffixValid()
    ensures ValidSuffix("1E4C9B93F3F0682250B6CF8331B7EE68FD8")
  {
  }

  lemma SampleSuffixesDiffer()
    ensures "1E4BE6EE7D6FE91AA1A2B8A8C0D3E1E1A53" != "1E4C9B93F3F0682250B6CF8331B7EE68FD8"
  {
    var other := "1E4BE6EE7D6FE91AA1A2B8A8C0D3E1E1A53";
    var mine := "1E4C9B93F3F0682250B6CF8331B7EE68FD8";
    assert other[3] != mine[3];
  }

  /** A CRLF range response without a final line break that lists the
      suffix of "password" after another suffix reports it as breached with
      the listed count. */
  lemma PasswordDigestLookup(count: nat)
    ensures RangeCheck(PasswordDigest, Response(200, FormatResponse(
              [Record("1E4BE6EE7D6FE91AA1A2B8A8C0D3E1E1A53", 2),
               Record("1E4C9B93F3F0682250B6CF8331B7EE68FD8", count)], "\r\n", false))) ==
            Checked(true, count, PasswordDigest)
  {
    PasswordDigestSplit();
    OtherSuffixValid();
    PasswordSuffixValid();
    SampleSuffixesDiffer();
    var records := [Record("1E4BE6EE7D6FE91AA1A2B8A8C0D3E1E1A53", 2),
                    Record("1E4C9B93F3F0682250B6CF8331B7EE68FD8", count)];
    ResponseListingSuffixIsBreached(PasswordDigest, records, "\r\n", false, 1);
  }
}
