/**
 The header families other than Content-Security-Policy. Each family is a small
 value type; its `...Value` function renders the header value exactly as the
 family's `Display` implementation writes it. Every enumerated family also has a
 parser whose contract says that the rendering is a bijection between the
 variants and the listed tokens, and the parametrised families
 (Strict-Transport-Security, X-XSS-Protection, X-Frame-Options) have decoders
 that recover the configuration from the rendered value.
 */
module Families {
  import opened Wrappers
  import opened Text

  // ---------------------------------------------------------------------------
  // Cross-Origin-Embedder-Policy

  datatype CrossOriginEmbedderPolicy = UnsafeNone | RequireCorp | Credentialless

  function CoepValue(v: CrossOriginEmbedderPolicy): string {
    match v
    case UnsafeNone => "unsafe-none"
    case RequireCorp => "require-corp"
    case Credentialless => "credentialless"
  }

  /** The variant whose token is `s`, if any. */
  function ParseCoep(s: string): (r: Option<CrossOriginEmbedderPolicy>)
    ensures forall v :: CoepValue(v) == s <==> r == Some(v)
  {
    if s == "unsafe-none" then Some(CrossOriginEmbedderPolicy.UnsafeNone)
    else if s == "require-corp" then Some(RequireCorp)
    else if s == "credentialless" then Some(Credentialless)
    else Option.None
  }

  // ---------------------------------------------------------------------------
  // Cross-Origin-Opener-Policy

  datatype CrossOriginOpenerPolicy = SameOrigin | SameOriginAllowPopups | UnsafeNone

  function CoopValue(v: CrossOriginOpenerPolicy): string {
    match v
    case SameOrigin => "same-origin"
    case SameOriginAllowPopups => "same-origin-allow-popups"
    case UnsafeNone => "unsafe-none"
  }

  function ParseCoop(s: string): (r: Option<CrossOriginOpenerPolicy>)
    ensures forall v :: CoopValue(v) == s <==> r == Some(v)
  {
    if s == "same-origin" then Some(CrossOriginOpenerPolicy.SameOrigin)
    else if s == "same-origin-allow-popups" then Some(SameOriginAllowPopups)
    else if s == "unsafe-none" then Some(CrossOriginOpenerPolicy.UnsafeNone)
    else Option.None
  }

  // ---------------------------------------------------------------------------
  // Cross-Origin-Resource-Policy

  datatype CrossOriginResourcePolicy = SameOrigin | SameSite | CrossOrigin

  function CorpValue(v: CrossOriginResourcePolicy): string {
    match v
    case SameOrigin => "same-origin"
    case SameSite => "same-site"
    case CrossOrigin => "cross-origin"
  }

  function ParseCorp(s: string): (r: Option<CrossOriginResourcePolicy>)
    ensures forall v :: CorpValue(v) == s <==> r == Some(v)
  {
    if s == "same-origin" then Some(CrossOriginResourcePolicy.SameOrigin)
    else if s == "same-site" then Some(SameSite)
    else if s == "cross-origin" then Some(CrossOrigin)
    else Option.None
  }

  // ---------------------------------------------------------------------------
  // Origin-Agent-Cluster: a structured-header boolean

  datatype OriginAgentCluster = OriginAgentCluster(preferred: bool)

  function OacValue(v: OriginAgentCluster): string {
    if v.preferred then "?1" else "?0"
  }

  function ParseOac(s: string): (r: Option<OriginAgentCluster>)
    ensures forall v :: OacValue(v) == s <==> r == Some(v)
  {
    if s == "?1" then Some(OriginAgentCluster(true))
    else if s == "?0" then Some(OriginAgentCluster(false))
    else Option.None
  }

  // ---------------------------------------------------------------------------
  // Referrer-Policy

  datatype ReferrerPolicy =
    | NoReferrer
    | NoReferrerWhenDowngrade
    | Origin
    | OriginWhenCrossOrigin
    | SameOrigin
    | StrictOrigin
    | StrictOriginWhenCrossOrigin
    | UnsafeUrl

  function ReferrerPolicyValue(v: ReferrerPolicy): string {
    match v
    case NoReferrer => "no-referrer"
    case NoReferrerWhenDowngrade => "no-referrer-when-downgrade"
    case Origin => "origin"
    case OriginWhenCrossOrigin => "origin-when-cross-origin"
    case SameOrigin => "same-origin"
    case StrictOrigin => "strict-origin"
    case StrictOriginWhenCrossOrigin => "strict-origin-when-cross-origin"
    case UnsafeUrl => "unsafe-url"
  }

  function ParseReferrerPolicy(s: string): (r: Option<ReferrerPolicy>)
    ensures forall v :: ReferrerPolicyValue(v) == s <==> r == Some(v)
  {
    if s == "no-referrer" then Some(NoReferrer)
    else if s == "no-referrer-when-downgrade" then Some(NoReferrerWhenDowngrade)
    else if s == "origin" then Some(Origin)
    else if s == "origin-when-cross-origin" then Some(OriginWhenCrossOrigin)
    else if s == "same-origin" then Some(ReferrerPolicy.SameOrigin)
    else if s == "strict-origin" then Some(StrictOrigin)
    else if s == "strict-origin-when-cross-origin" then Some(StrictOriginWhenCrossOrigin)
    else if s == "unsafe-url" then Some(UnsafeUrl)
    else Option.None
  }

  // ---------------------------------------------------------------------------
  // X-Content-Type-Options, X-DNS-Prefetch-Control, X-Download-Options

  datatype XContentTypeOptions = NoSniff

  function ContentTypeOptionsValue(v: XContentTypeOptions): string {
    match v
    case NoSniff => "nosniff"
  }

  function ParseContentTypeOptions(s: string): (r: Option<XContentTypeOptions>)
    ensures forall v :: ContentTypeOptionsValue(v) == s <==> r == Some(v)
  {
    if s == "nosniff" then
      assert forall v :: ContentTypeOptionsValue(v) == s ==> v == NoSniff;
      Some(NoSniff)
    else Option.None
  }

  datatype XDNSPrefetchControl = Off | On

  function DnsPrefetchControlValue(v: XDNSPrefetchControl): string {
    match v
    case Off => "off"
    case On => "on"
  }

  function ParseDnsPrefetchControl(s: string): (r: Option<XDNSPrefetchControl>)
    ensures forall v :: DnsPrefetchControlValue(v) == s <==> r == Some(v)
  {
    if s == "off" then Some(Off) else if s == "on" then Some(On) else Option.None
  }

  datatype XDownloadOptions = NoOpen

  function DownloadOptionsValue(v: XDownloadOptions): string {
    match v
    case NoOpen => "noopen"
  }

  function ParseDownloadOptions(s: string): (r: Option<XDownloadOptions>)
    ensures forall v :: DownloadOptionsValue(v) == s <==> r == Some(v)
  {
    if s == "noopen" then
      assert forall v :: DownloadOptionsValue(v) == s ==> v == NoOpen;
      Some(NoOpen)
    else Option.None
  }

  // ---------------------------------------------------------------------------
  // X-Frame-Options: the only upper-case family; ALLOW-FROM carries a URI verbatim

  datatype XFrameOptions = Deny | SameOrigin | AllowFrom(uri: string)

  const AllowFromPrefix := "ALLOW-FROM "

  function FrameOptionsValue(v: XFrameOptions): string {
    match v
    case Deny => "DENY"
    case SameOrigin => "SAMEORIGIN"
    case AllowFrom(uri) => AllowFromPrefix + uri
  }

  /** Recovers the option, and the URI unchanged, from a rendered value. */
  function ParseFrameOptions(s: string): (r: Option<XFrameOptions>)
    ensures forall v :: FrameOptionsValue(v) == s <==> r == Some(v)
  {
    if s == "DENY" then Some(Deny)
    else if s == "SAMEORIGIN" then Some(XFrameOptions.SameOrigin)
    else if AllowFromPrefix <= s then
      assert s == AllowFromPrefix + s[|AllowFromPrefix|..];
      Some(AllowFrom(s[|AllowFromPrefix|..]))
    else Option.None
  }

  // ---------------------------------------------------------------------------
  // X-Permitted-Cross-Domain-Policies

  datatype XPermittedCrossDomainPolicies = None | MasterOnly | ByContentType | ByFtpFilename | All

  function CrossDomainPoliciesValue(v: XPermittedCrossDomainPolicies): string {
    match v
    case None => "none"
    case MasterOnly => "master-only"
    case ByContentType => "by-content-type"
    case ByFtpFilename => "by-ftp-filename"
    case All => "all"
  }

  function ParseCrossDomainPolicies(s: string): (r: Option<XPermittedCrossDomainPolicies>)
    ensures forall v :: CrossDomainPoliciesValue(v) == s <==> r == Some(v)
  {
    if s == "none" then Some(XPermittedCrossDomainPolicies.None)
    else if s == "master-only" then Some(MasterOnly)
    else if s == "by-content-type" then Some(ByContentType)
    else if s == "by-ftp-filename" then Some(ByFtpFilename)
    else if s == "all" then Some(All)
    else Option.None
  }

  // ---------------------------------------------------------------------------
  // X-Powered-By: an arbitrary comment, emitted unchanged

  datatype XPoweredBy = XPoweredBy(comment: string)

  function PoweredByValue(v: XPoweredBy): (r: string)
    ensures r == v.comment
  {
    v.comment
  }

  // ---------------------------------------------------------------------------
  // Strict-Transport-Security

  datatype StrictTransportSecurity =
    StrictTransportSecurity(maxAge: u32, includeSubDomains: bool, preload: bool)

  /** `StrictTransportSecurity::default()`, which `new()` also returns: one year, no flags. */
  function StsDefault(): StrictTransportSecurity {
    StrictTransportSecurity(31536000, false, false)
  }

  /** Builder: sets `max_age` and leaves both flags as they were. */
  function StsMaxAge(x: StrictTransportSecurity, maxAge: u32): (r: StrictTransportSecurity)
    ensures r.maxAge == maxAge
    ensures r.includeSubDomains == x.includeSubDomains && r.preload == x.preload
  {
    x.(maxAge := maxAge)
  }

  /** Builder: sets `includeSubDomains` and leaves the other fields as they were. */
  function StsIncludeSubDomains(x: StrictTransportSecurity): (r: StrictTransportSecurity)
    ensures r.includeSubDomains
    ensures r.maxAge == x.maxAge && r.preload == x.preload
  {
    x.(includeSubDomains := true)
  }

  /** Builder: sets `preload` and leaves the other fields as they were. */
  function StsPreload(x: StrictTransportSecurity): (r: StrictTransportSecurity)
    ensures r.preload
    ensures r.maxAge == x.maxAge && r.includeSubDomains == x.includeSubDomains
  {
    x.(preload := true)
  }

  const MaxAgePrefix := "max-age="
  const IncludeSubDomainsSuffix := "; includeSubDomains"
  const PreloadSuffix := "; preload"

  /** The directives after the age, always in the order includeSubDomains, preload. */
  function StsFlagsSuffix(includeSubDomains: bool, preload: bool): string {
    (if includeSubDomains then IncludeSubDomainsSuffix else "") + (if preload then PreloadSuffix else "")
  }

  function StsValue(x: StrictTransportSecurity): string {
    MaxAgePrefix + Decimal(x.maxAge) + StsFlagsSuffix(x.includeSubDomains, x.preload)
  }

  /** Reads the flags back from the text after the age. */
  function DecodeStsFlags(tail: string): (r: Option<(bool, bool)>)
    ensures forall i: bool, p: bool :: StsFlagsSuffix(i, p) == tail <==> r == Some((i, p))
  {
    if tail == "" then Some((false, false))
    else if tail == IncludeSubDomainsSuffix then Some((true, false))
    else if tail == PreloadSuffix then Some((false, true))
    else if tail == IncludeSubDomainsSuffix + PreloadSuffix then Some((true, true))
    else Option.None
  }

  /** Reads a configuration back from a rendered Strict-Transport-Security value. */
  function DecodeSts(s: string): Option<StrictTransportSecurity> {
    if !(MaxAgePrefix <= s) then Option.None
    else
      var rest := s[|MaxAgePrefix|..];
      var k := DigitRun(rest);
      if k == 0 then Option.None
      else
        var n := ParseDecimal(rest[..k]);
        if n >= 0x1_0000_0000 then Option.None
        else
          match DecodeStsFlags(rest[k..])
          case None => Option.None
          case Some(flags) => Some(StrictTransportSecurity(n, flags.0, flags.1))
  }

  /** After the prefix, a rendered value is the numeral followed by the flags. */
  lemma StsValueParts(x: StrictTransportSecurity)
    ensures MaxAgePrefix <= StsValue(x)
    ensures StsValue(x)[|MaxAgePrefix|..] == Decimal(x.maxAge) + StsFlagsSuffix(x.includeSubDomains, x.preload)
  {
    var s := StsValue(x);
    assert s == MaxAgePrefix + (Decimal(x.maxAge) + StsFlagsSuffix(x.includeSubDomains, x.preload));
  }

  /** The flags text is empty or starts with a semicolon, never with a digit. */
  lemma StsFlagsLead(includeSubDomains: bool, preload: bool)
    ensures var tail := StsFlagsSuffix(includeSubDomains, preload);
      |tail| > 0 ==> tail[0] == ';'
  {
  }

  /** The rendered value determines the whole configuration. */
  lemma StsRoundTrip(x: StrictTransportSecurity)
    ensures DecodeSts(StsValue(x)) == Some(x)
  {
    var d := Decimal(x.maxAge);
    var tail := StsFlagsSuffix(x.includeSubDomains, x.preload);
    StsValueParts(x);
    var rest := StsValue(x)[|MaxAgePrefix|..];
    StsFlagsLead(x.includeSubDomains, x.preload);
    DigitRunOfNumeral(d, tail);
    var k := DigitRun(rest);
    assert rest[..k] == d && rest[k..] == tail;
    ParseDecimalOfDecimal(x.maxAge);
  }

  /** Two configurations render alike exactly when they are equal. */
  lemma StsValueInjective(a: StrictTransportSecurity, b: StrictTransportSecurity)
    ensures StsValue(a) == StsValue(b) <==> a == b
  {
    if StsValue(a) == StsValue(b) {
      StsRoundTrip(a);
      StsRoundTrip(b);
    }
  }

  /** The rendered prefix of a one-year policy. */
  lemma StsYearPrefix()
    ensures MaxAgePrefix + Decimal(31536000) == "max-age=31536000"
  {
    DecimalExamples();
  }

  // The values the crate's tests expect for Strict-Transport-Security, one lemma per test.

  /** `new()` and `default()` ask for one year without flags. */
  lemma StsExampleDefault()
    ensures StsValue(StsDefault()) == "max-age=31536000"
  {
    StsYearPrefix();
  }

  lemma StsExampleMaxAge()
    ensures StsValue(StsMaxAge(StsDefault(), 31536000)) == "max-age=31536000"
  {
    StsYearPrefix();
  }

  lemma StsExampleIncludeSubDomains()
    ensures StsValue(StsIncludeSubDomains(StsMaxAge(StsDefault(), 31536000)))
         == "max-age=31536000; includeSubDomains"
  {
    StsYearPrefix();
  }

  lemma StsExamplePreload()
    ensures StsValue(StsPreload(StsMaxAge(StsDefault(), 31536000))) == "max-age=31536000; preload"
  {
    StsYearPrefix();
  }

  lemma StsExampleBoth()
    ensures StsValue(StsPreload(StsIncludeSubDomains(StsMaxAge(StsDefault(), 31536000))))
         == "max-age=31536000; includeSubDomains; preload"
  {
    var x := StsPreload(StsIncludeSubDomains(StsMaxAge(StsDefault(), 31536000)));
    StsYearPrefix();
    assert StsFlagsSuffix(true, true) == "; includeSubDomains; preload";
    StsValueFromParts(x, "max-age=31536000", "; includeSubDomains; preload");
    StsBothLiteral();
  }

  /** The rendered prefix of a half-year policy. */
  lemma StsHalfYearPrefix()
    ensures MaxAgePrefix + Decimal(15552000) == "max-age=15552000"
  {
    DecimalExamples();
  }

  lemma StsExampleHalfYear()
    ensures StsValue(StsIncludeSubDomains(StsMaxAge(StsDefault(), 15552000)))
         == "max-age=15552000; includeSubDomains"
  {
    StsHalfYearPrefix();
  }

  /** A literal concatenation, split out because the solver settles it cheaply on its own
      and not inside the larger proof that uses it. */
  lemma StsBothLiteral()
    ensures "max-age=31536000" + "; includeSubDomains; preload" == "max-age=31536000; includeSubDomains; preload"
  {
  }

  /** The value is the age part followed by the flags part. */
  lemma StsValueFromParts(x: StrictTransportSecurity, age: string, flags: string)
    requires MaxAgePrefix + Decimal(x.maxAge) == age
    requires StsFlagsSuffix(x.includeSubDomains, x.preload) == flags
    ensures StsValue(x) == age + flags
  {
  }

  // ---------------------------------------------------------------------------
  // X-XSS-Protection

  datatype XXSSProtection = XXSSProtection(on: bool, modeBlock: bool, report: Option<string>)

  /** `XXSSProtection::off()`: filtering disabled. */
  function XssOff(): XXSSProtection {
    XXSSProtection(false, false, Option.None)
  }

  /** `XXSSProtection::on()`: filtering enabled, no mode, no report URI. */
  function XssOn(): XXSSProtection {
    XXSSProtection(true, false, Option.None)
  }

  /** Builder: sets `mode_block` and leaves the other fields as they were. */
  function XssModeBlock(x: XXSSProtection): (r: XXSSProtection)
    ensures r.modeBlock
    ensures r.on == x.on && r.report == x.report
  {
    x.(modeBlock := true)
  }

  /** Builder: sets the report URI and leaves the other fields as they were. */
  function XssReport(x: XXSSProtection, uri: string): (r: XXSSProtection)
    ensures r.report == Some(uri)
    ensures r.on == x.on && r.modeBlock == x.modeBlock
  {
    x.(report := Some(uri))
  }

  const ModeBlockSuffix := "; mode=block"
  const ReportPrefix := "; report="

  /** The value: "0" when off, otherwise "1" followed by the mode and the report URI. */
  function XssValue(x: XXSSProtection): (r: string)
    ensures r == "0" <==> !x.on
    ensures x.on ==> |r| > 0 && r[0] == '1'
  {
    if x.on then
      var r := "1"
        + (if x.modeBlock then ModeBlockSuffix else "")
        + (match x.report case Some(uri) => ReportPrefix + uri case None => "");
      assert r[0] == '1';
      r
    else "0"
  }

  /** The configuration with the fields that cannot show in the value cleared. */
  function XssCanonical(x: XXSSProtection): XXSSProtection {
    if x.on then x else XssOff()
  }

  /** Reads a configuration back from a rendered X-XSS-Protection value. */
  function DecodeXss(s: string): Option<XXSSProtection> {
    if s == "0" then Some(XssOff())
    else if |s| == 0 || s[0] != '1' then Option.None
    else
      var rest := s[1..];
      var modeBlock := ModeBlockSuffix <= rest;
      var rest' := if modeBlock then rest[|ModeBlockSuffix|..] else rest;
      if rest' == "" then Some(XXSSProtection(true, modeBlock, Option.None))
      else if ReportPrefix <= rest' then Some(XXSSProtection(true, modeBlock, Some(rest'[|ReportPrefix|..])))
      else Option.None
  }

  /** The rendered value determines the configuration up to the ignored fields of an "off" one. */
  lemma XssRoundTrip(x: XXSSProtection)
    ensures DecodeXss(XssValue(x)) == Some(XssCanonical(x))
  {
    if x.on {
      var m := if x.modeBlock then ModeBlockSuffix else "";
      var rep := match x.report case Some(uri) => ReportPrefix + uri case None => "";
      var s := XssValue(x);
      assert s == "1" + (m + rep);
      assert s[1..] == m + rep;
      if x.report.Some? {
        assert rep[2] == 'r';
        assert ModeBlockSuffix[2] == 'm';
      }
      if x.modeBlock {
        assert (m + rep)[|ModeBlockSuffix|..] == rep;
      }
      if x.report.Some? {
        assert rep[|ReportPrefix|..] == x.report.value;
      }
    }
  }

  /** Two configurations render alike exactly when they agree once canonicalised;
      in particular every "off" configuration renders "0". */
  lemma XssValueEqualIff(a: XXSSProtection, b: XXSSProtection)
    ensures XssValue(a) == XssValue(b) <==> XssCanonical(a) == XssCanonical(b)
  {
    XssRoundTrip(a);
    XssRoundTrip(b);
  }

  // The values the crate's tests expect for X-XSS-Protection.

  lemma XssExampleOffOn()
    ensures XssValue(XssOff()) == "0"
    ensures XssValue(XssOn()) == "1"
    ensures XssValue(XssModeBlock(XssOn())) == "1; mode=block"
  {
  }

  lemma XssExampleReport()
    ensures XssValue(XssReport(XssModeBlock(XssOn()), "https://example.com/report-xss-attack"))
         == "1; mode=block; report=https://example.com/report-xss-attack"
  {
    var uri := "https://example.com/report-xss-attack";
    var x := XssReport(XssModeBlock(XssOn()), uri);
    assert XssValue(x) == "1" + ModeBlockSuffix + (ReportPrefix + uri);
    assert "1" + ModeBlockSuffix + (ReportPrefix + uri) == "1; mode=block; report=" + uri;
    XssReportLiteral();
  }

  /** A literal concatenation, split out for the same reason as StsBothLiteral. */
  lemma XssReportLiteral()
    ensures "1; mode=block; report=" + "https://example.com/report-xss-attack"
         == "1; mode=block; report=https://example.com/report-xss-attack"
  {
  }

  // ---------------------------------------------------------------------------
  // Header-value validity: the fixed text of every family is valid header text, so
  // a rendered value is valid exactly when the caller's text in it is.

  lemma CoepValueValid(v: CrossOriginEmbedderPolicy)
    ensures ValidValue(CoepValue(v))
  {
  }

  lemma CoopValueValid(v: CrossOriginOpenerPolicy)
    ensures ValidValue(CoopValue(v))
  {
  }

  lemma CorpValueValid(v: CrossOriginResourcePolicy)
    ensures ValidValue(CorpValue(v))
  {
  }

  lemma OacValueValid(v: OriginAgentCluster)
    ensures ValidValue(OacValue(v))
  {
  }

  lemma ReferrerPolicyValueValid(v: ReferrerPolicy)
    ensures ValidValue(ReferrerPolicyValue(v))
  {
    assert Printable(ReferrerPolicyValue(v));
    PrintableIsValid(ReferrerPolicyValue(v));
  }

  lemma SimpleTokensValid(a: XContentTypeOptions, b: XDNSPrefetchControl, c: XDownloadOptions)
    ensures ValidValue(ContentTypeOptionsValue(a))
    ensures ValidValue(DnsPrefetchControlValue(b))
    ensures ValidValue(DownloadOptionsValue(c))
  {
  }

  lemma CrossDomainPoliciesValueValid(v: XPermittedCrossDomainPolicies)
    ensures ValidValue(CrossDomainPoliciesValue(v))
  {
  }

  /** X-Frame-Options is valid exactly when an ALLOW-FROM URI is. */
  lemma FrameOptionsValueValid(v: XFrameOptions)
    ensures ValidValue(FrameOptionsValue(v)) <==> (v.AllowFrom? ==> ValidValue(v.uri))
  {
    if v.AllowFrom? {
      assert ValidValue(AllowFromPrefix);
      ValidValueConcat(AllowFromPrefix, v.uri);
    }
  }

  /** Strict-Transport-Security is always valid. */
  lemma StsValueValid(x: StrictTransportSecurity)
    ensures ValidValue(StsValue(x))
  {
    assert ValidValue(MaxAgePrefix) && ValidValue(IncludeSubDomainsSuffix) && ValidValue(PreloadSuffix);
    assert ValidValue("");
    ValidValueDecimal(x.maxAge);
    ValidValueConcat(MaxAgePrefix, Decimal(x.maxAge));
    ValidValueConcat(if x.includeSubDomains then IncludeSubDomainsSuffix else "", if x.preload then PreloadSuffix else "");
    ValidValueConcat(MaxAgePrefix + Decimal(x.maxAge), StsFlagsSuffix(x.includeSubDomains, x.preload));
  }

  /** X-XSS-Protection is valid exactly when a report URI that shows in it is. */
  lemma XssValueValid(x: XXSSProtection)
    ensures ValidValue(XssValue(x)) <==> (x.on && x.report.Some? ==> ValidValue(x.report.value))
  {
    assert ValidValue("0") && ValidValue("1") && ValidValue("");
    assert ValidValue(ModeBlockSuffix) && ValidValue(ReportPrefix);
    if x.on {
      var mode := if x.modeBlock then ModeBlockSuffix else "";
      var report := match x.report case Some(uri) => ReportPrefix + uri case None => "";
      if x.report.Some? {
        ValidValueConcat(ReportPrefix, x.report.value);
      }
      ValidValueConcat("1", mode);
      ValidValueConcat("1" + mode, report);
    }
  }
}
