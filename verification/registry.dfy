/**
 The middleware: an ordered registry of headers (`Helmet`), its default, and the
 step that turns the registry into the (name, value) pairs appended to every
 response, validating each name and value on the way.
 */
module Registry {
  import opened Wrappers
  import opened Text
  import opened Families
  import opened ContentSecurity

  // ---------------------------------------------------------------------------
  // Headers

  /** One registered header: a configuration of one of the built-in families, or a
      header of the caller's own that supplies its name and value directly. */
  datatype HeaderSpec =
    | Csp(policy: Policy)
    | Coep(coep: CrossOriginEmbedderPolicy)
    | Coop(coop: CrossOriginOpenerPolicy)
    | Corp(corp: CrossOriginResourcePolicy)
    | Oac(oac: OriginAgentCluster)
    | Referrer(referrer: ReferrerPolicy)
    | Hsts(sts: StrictTransportSecurity)
    | ContentTypeOptions(contentTypeOptions: XContentTypeOptions)
    | DnsPrefetchControl(dnsPrefetchControl: XDNSPrefetchControl)
    | DownloadOptions(downloadOptions: XDownloadOptions)
    | FrameOptions(frameOptions: XFrameOptions)
    | CrossDomainPolicies(crossDomainPolicies: XPermittedCrossDomainPolicies)
    | XssProtection(xss: XXSSProtection)
    | PoweredBy(poweredBy: XPoweredBy)
    | Custom(customName: string, customValue: string)

  // The fixed header names of the built-in families.
  const CoepName := "Cross-Origin-Embedder-Policy"
  const CoopName := "Cross-Origin-Opener-Policy"
  const CorpName := "Cross-Origin-Resource-Policy"
  const OacName := "Origin-Agent-Cluster"
  const ReferrerName := "Referrer-Policy"
  const HstsName := "Strict-Transport-Security"
  const ContentTypeOptionsName := "X-Content-Type-Options"
  const DnsPrefetchControlName := "X-DNS-Prefetch-Control"
  const DownloadOptionsName := "X-Download-Options"
  const FrameOptionsName := "X-Frame-Options"
  const CrossDomainPoliciesName := "X-Permitted-Cross-Domain-Policies"
  const XssProtectionName := "X-XSS-Protection"
  const PoweredByName := "X-Powered-By"

  /** The header name of each family; only Content-Security-Policy depends on the
      configuration. */
  function Name(h: HeaderSpec): (r: string)
    ensures h.Csp? ==> r == PolicyName(h.policy)
    ensures h.Custom? ==> r == h.customName
  {
    match h
    case Csp(p) => PolicyName(p)
    case Coep(_) => CoepName
    case Coop(_) => CoopName
    case Corp(_) => CorpName
    case Oac(_) => OacName
    case Referrer(_) => ReferrerName
    case Hsts(_) => HstsName
    case ContentTypeOptions(_) => ContentTypeOptionsName
    case DnsPrefetchControl(_) => DnsPrefetchControlName
    case DownloadOptions(_) => DownloadOptionsName
    case FrameOptions(_) => FrameOptionsName
    case CrossDomainPolicies(_) => CrossDomainPoliciesName
    case XssProtection(_) => XssProtectionName
    case PoweredBy(_) => PoweredByName
    case Custom(name, _) => name
  }

  /** The header value: each family's own rendering. */
  function Value(h: HeaderSpec): string {
    match h
    case Csp(p) => PolicyValue(p)
    case Coep(v) => CoepValue(v)
    case Coop(v) => CoopValue(v)
    case Corp(v) => CorpValue(v)
    case Oac(v) => OacValue(v)
    case Referrer(v) => ReferrerPolicyValue(v)
    case Hsts(v) => StsValue(v)
    case ContentTypeOptions(v) => ContentTypeOptionsValue(v)
    case DnsPrefetchControl(v) => DnsPrefetchControlValue(v)
    case DownloadOptions(v) => DownloadOptionsValue(v)
    case FrameOptions(v) => FrameOptionsValue(v)
    case CrossDomainPolicies(v) => CrossDomainPoliciesValue(v)
    case XssProtection(v) => XssValue(v)
    case PoweredBy(v) => PoweredByValue(v)
    case Custom(_, value) => value
  }

  // ---------------------------------------------------------------------------
  // The registry

  /** The registered headers, in the order they were added. */
  type Helmet = seq<HeaderSpec>

  /** A registry without any headers. */
  function NewHelmet(): (hs: Helmet)
    ensures |hs| == 0
  {
    []
  }

  /** Registers one more header after the existing ones; nothing is replaced or merged. */
  function Add(hs: Helmet, h: HeaderSpec): (r: Helmet)
    ensures |r| == |hs| + 1
    ensures forall i :: 0 <= i < |hs| ==> r[i] == hs[i]
    ensures r[|hs|] == h
  {
    hs + [h]
  }

  /** Strict-Transport-Security as the default registry configures it: half a year,
      with subdomains. */
  function DefaultSts(): (x: StrictTransportSecurity)
    ensures x.maxAge == 15552000 && x.includeSubDomains && !x.preload
  {
    StsIncludeSubDomains(StsMaxAge(StsDefault(), 15552000))
  }

  /** The default registry: twelve headers. */
  function DefaultHelmet(): (hs: Helmet)
    ensures |hs| == 12
  {
    var hs := NewHelmet();
    var hs := Add(hs, Csp(DefaultPolicy()));
    var hs := Add(hs, Coop(CrossOriginOpenerPolicy.SameOrigin));
    var hs := Add(hs, Corp(CrossOriginResourcePolicy.SameOrigin));
    var hs := Add(hs, Oac(OriginAgentCluster(true)));
    var hs := Add(hs, Referrer(NoReferrer));
    var hs := Add(hs, Hsts(DefaultSts()));
    var hs := Add(hs, ContentTypeOptions(NoSniff));
    var hs := Add(hs, DnsPrefetchControl(Off));
    var hs := Add(hs, DownloadOptions(NoOpen));
    var hs := Add(hs, FrameOptions(XFrameOptions.SameOrigin));
    var hs := Add(hs, CrossDomainPolicies(XPermittedCrossDomainPolicies.None));
    Add(hs, XssProtection(XssOff()))
  }

  // ---------------------------------------------------------------------------
  // Rendering

  /** The (name, value) pairs for a registry, one per header, in registry order. */
  function RenderedPairs(hs: Helmet): (ps: seq<(string, string)>)
    ensures |ps| == |hs|
    ensures forall i :: 0 <= i < |hs| ==> ps[i] == (Name(hs[i]), Value(hs[i]))
  {
    if |hs| == 0 then [] else [(Name(hs[0]), Value(hs[0]))] + RenderedPairs(hs[1..])
  }

  /** Registering a header appends exactly its pair to the rendering. */
  lemma RenderedAdd(hs: Helmet, h: HeaderSpec)
    ensures RenderedPairs(Add(hs, h)) == RenderedPairs(hs) + [(Name(h), Value(h))]
  {
  }

  /** The number of pairs carrying the header name `name`. */
  function CountName(ps: seq<(string, string)>, name: string): (n: nat)
    ensures n <= |ps|
  {
    if |ps| == 0 then 0
    else (if ps[|ps| - 1].0 == name then 1 else 0) + CountName(ps[..|ps| - 1], name)
  }

  /** Registering the same header twice gives two lines with its name: there is no
      de-duplication. */
  lemma AddTwiceTwoLines(hs: Helmet, h: HeaderSpec)
    ensures CountName(RenderedPairs(Add(Add(hs, h), h)), Name(h))
         == CountName(RenderedPairs(hs), Name(h)) + 2
  {
    RenderedAdd(hs, h);
    RenderedAdd(Add(hs, h), h);
    var ps := RenderedPairs(hs);
    var p := (Name(h), Value(h));
    assert (ps + [p] + [p])[..|ps| + 1] == ps + [p];
    assert (ps + [p])[..|ps|] == ps;
  }

  // ---------------------------------------------------------------------------
  // Building the header map

  /** Why a registry cannot be turned into a header map: the position of the first
      offending header, and the offending text. */
  datatype ConfigError =
    | InvalidName(index: nat, name: string)
    | InvalidValue(index: nat, value: string)

  /** A (name, value) pair that passes validation. */
  predicate AcceptablePair(p: (string, string)) {
    ValidName(p.0) && ValidValue(p.1)
  }

  /** A header whose name and value both pass validation. */
  predicate Acceptable(h: HeaderSpec) {
    AcceptablePair((Name(h), Value(h)))
  }

  /** Validates rendered pairs in order, the name of each before its value; the first
      failure ends the build. */
  method BuildHeaderMap(ps: seq<(string, string)>) returns (res: Result<seq<(string, string)>, ConfigError>)
    ensures res.Ok? <==> forall i :: 0 <= i < |ps| ==> AcceptablePair(ps[i])
    ensures res.Ok? ==> res.value == ps
    ensures res.Err? ==>
      var i := res.error.index;
      && i < |ps|
      && !AcceptablePair(ps[i])
      && (forall j :: 0 <= j < i ==> AcceptablePair(ps[j]))
      && (res.error.InvalidName? <==> !ValidName(ps[i].0))
      && (res.error.InvalidName? ==> res.error.name == ps[i].0)
      && (res.error.InvalidValue? ==> res.error.value == ps[i].1)
  {
    var built: seq<(string, string)> := [];
    var k := 0;
    while k < |ps|
      invariant k <= |ps|
      invariant forall j :: 0 <= j < k ==> AcceptablePair(ps[j])
      invariant built == ps[..k]
    {
      var (name, value) := ps[k];
      if !ValidName(name) {
        return Err(InvalidName(k, name));
      }
      if !ValidValue(value) {
        return Err(InvalidValue(k, value));
      }
      built := built + [(name, value)];
      k := k + 1;
    }
    assert ps[..k] == ps;
    return Ok(built);
  }

  /** Renders every registered header and validates the result: the registry becomes a
      header map exactly when every header is acceptable, and otherwise the build stops
      at the first header that is not. */
  method Create(hs: Helmet) returns (res: Result<seq<(string, string)>, ConfigError>)
    ensures res.Ok? <==> forall i :: 0 <= i < |hs| ==> Acceptable(hs[i])
    ensures res.Ok? ==> res.value == RenderedPairs(hs)
    ensures res.Err? ==>
      var i := res.error.index;
      && i < |hs|
      && !Acceptable(hs[i])
      && (forall j :: 0 <= j < i ==> Acceptable(hs[j]))
      && (res.error.InvalidName? <==> !ValidName(Name(hs[i])))
      && (res.error.InvalidName? ==> res.error.name == Name(hs[i]))
      && (res.error.InvalidValue? ==> res.error.value == Value(hs[i]))
  {
    var ps := RenderedPairs(hs);
    res := BuildHeaderMap(ps);
  }

  // ---------------------------------------------------------------------------
  // Which registries build

  /** The text the caller supplies inside a header is valid where it shows in the value:
      directive values, an ALLOW-FROM URI, an XSS report URI (only when protection is on),
      the X-Powered-By comment, and both halves of a custom header. */
  predicate UserTextValid(h: HeaderSpec) {
    match h
    case Csp(p) => PolicyTextValid(p)
    case FrameOptions(v) => v.AllowFrom? ==> ValidValue(v.uri)
    case XssProtection(x) => x.on && x.report.Some? ==> ValidValue(x.report.value)
    case PoweredBy(v) => ValidValue(v.comment)
    case Custom(name, value) => ValidName(name) && ValidValue(value)
    case _ => true
  }

  // FixedNamesValid1..7 check the fixed header names two or three at a time: checking
  // every character of all fifteen literals in one obligation exceeds the solver's
  // resource bound. BuiltinNameValid combines them.

  lemma FixedNamesValid1()
    ensures ValidName(CoepName) && ValidName(CoopName)
  {
  }

  lemma FixedNamesValid2()
    ensures ValidName(CorpName) && ValidName(OacName) && ValidName(ReferrerName)
  {
  }

  lemma FixedNamesValid3()
    ensures ValidName(HstsName) && ValidName(ContentTypeOptionsName)
  {
  }

  lemma FixedNamesValid4()
    ensures ValidName(DnsPrefetchControlName) && ValidName(DownloadOptionsName) && ValidName(FrameOptionsName)
  {
  }

  lemma FixedNamesValid5()
    ensures ValidName(CrossDomainPoliciesName)
  {
  }

  lemma FixedNamesValid6()
    ensures ValidName(XssProtectionName) && ValidName(PoweredByName)
  {
  }

  lemma FixedNamesValid7()
    ensures ValidName(EnforceHeaderName) && ValidName(ReportOnlyHeaderName)
  {
  }

  /** Every built-in family's header name is a valid field name. */
  lemma BuiltinNameValid(h: HeaderSpec)
    requires !h.Custom?
    ensures ValidName(Name(h))
  {
    FixedNamesValid1();
    FixedNamesValid2();
    FixedNamesValid3();
    FixedNamesValid4();
    FixedNamesValid5();
    FixedNamesValid6();
    FixedNamesValid7();
  }

  /** A header passes validation exactly when the caller's text in it is valid: the fixed
      text of every built-in family always passes. */
  lemma AcceptableIff(h: HeaderSpec)
    ensures Acceptable(h) <==> UserTextValid(h)
  {
    if !h.Custom? {
      BuiltinNameValid(h);
    }
    match h
    case Csp(p) => PolicyValueValid(p);
    case Coep(v) => CoepValueValid(v);
    case Coop(v) => CoopValueValid(v);
    case Corp(v) => CorpValueValid(v);
    case Oac(v) => OacValueValid(v);
    case Referrer(v) => ReferrerPolicyValueValid(v);
    case Hsts(v) => StsValueValid(v);
    case ContentTypeOptions(v) => SimpleTokensValid(v, Off, NoOpen);
    case DnsPrefetchControl(v) => SimpleTokensValid(NoSniff, v, NoOpen);
    case DownloadOptions(v) => SimpleTokensValid(NoSniff, Off, v);
    case FrameOptions(v) => FrameOptionsValueValid(v);
    case CrossDomainPolicies(v) => CrossDomainPoliciesValueValid(v);
    case XssProtection(v) => XssValueValid(v);
    case PoweredBy(v) =>
    case Custom(_, _) =>
  }

  // ---------------------------------------------------------------------------
  // The default registry

  /** The default registry holds the twelve headers in the order the default adds them. */
  lemma DefaultHelmetList()
    ensures |DefaultHelmet()| == 12
    ensures DefaultHelmet()[0] == Csp(DefaultPolicy())
    ensures DefaultHelmet()[1] == Coop(CrossOriginOpenerPolicy.SameOrigin)
    ensures DefaultHelmet()[2] == Corp(CrossOriginResourcePolicy.SameOrigin)
    ensures DefaultHelmet()[3] == Oac(OriginAgentCluster(true))
    ensures DefaultHelmet()[4] == Referrer(NoReferrer)
    ensures DefaultHelmet()[5] == Hsts(DefaultSts())
    ensures DefaultHelmet()[6] == ContentTypeOptions(NoSniff)
    ensures DefaultHelmet()[7] == DnsPrefetchControl(Off)
    ensures DefaultHelmet()[8] == DownloadOptions(NoOpen)
    ensures DefaultHelmet()[9] == FrameOptions(XFrameOptions.SameOrigin)
    ensures DefaultHelmet()[10] == CrossDomainPolicies(XPermittedCrossDomainPolicies.None)
    ensures DefaultHelmet()[11] == XssProtection(XssOff())
  {
  }

  lemma TrailingHeaders()
    ensures Name(ContentTypeOptions(NoSniff)) == ContentTypeOptionsName && Value(ContentTypeOptions(NoSniff)) == "nosniff"
    ensures Name(DnsPrefetchControl(Off)) == DnsPrefetchControlName && Value(DnsPrefetchControl(Off)) == "off"
    ensures Name(DownloadOptions(NoOpen)) == DownloadOptionsName && Value(DownloadOptions(NoOpen)) == "noopen"
    ensures Name(FrameOptions(XFrameOptions.SameOrigin)) == FrameOptionsName
    ensures Value(FrameOptions(XFrameOptions.SameOrigin)) == "SAMEORIGIN"
    ensures Name(CrossDomainPolicies(XPermittedCrossDomainPolicies.None)) == CrossDomainPoliciesName
    ensures Value(CrossDomainPolicies(XPermittedCrossDomainPolicies.None)) == "none"
    ensures Name(XssProtection(XssOff())) == XssProtectionName && Value(XssProtection(XssOff())) == "0"
  {
  }

  /** The default registry renders twelve pairs. The first is the default policy under the
      enforcing name; Strict-Transport-Security asks for half a year with subdomains. */
  lemma DefaultHelmetPolicyPairs()
    ensures Name(DefaultHelmet()[0]) == EnforceHeaderName && Value(DefaultHelmet()[0]) == Join(DefaultClauses, "; ")
    ensures Name(DefaultHelmet()[5]) == HstsName && Value(DefaultHelmet()[5]) == "max-age=15552000; includeSubDomains"
  {
    DefaultHelmetList();
    DefaultPolicyValue();
    StsExampleHalfYear();
  }

  /** The cross-origin headers and the referrer policy of the default registry. */
  lemma DefaultHelmetCrossOriginPairs()
    ensures Name(DefaultHelmet()[1]) == CoopName && Value(DefaultHelmet()[1]) == "same-origin"
    ensures Name(DefaultHelmet()[2]) == CorpName && Value(DefaultHelmet()[2]) == "same-origin"
    ensures Name(DefaultHelmet()[3]) == OacName && Value(DefaultHelmet()[3]) == "?1"
    ensures Name(DefaultHelmet()[4]) == ReferrerName && Value(DefaultHelmet()[4]) == "no-referrer"
  {
    DefaultHelmetList();
  }

  /** The content-type, DNS-prefetch and download options of the default registry. */
  lemma DefaultHelmetLegacyPairs()
    ensures Name(DefaultHelmet()[6]) == ContentTypeOptionsName && Value(DefaultHelmet()[6]) == "nosniff"
    ensures Name(DefaultHelmet()[7]) == DnsPrefetchControlName && Value(DefaultHelmet()[7]) == "off"
    ensures Name(DefaultHelmet()[8]) == DownloadOptionsName && Value(DefaultHelmet()[8]) == "noopen"
  {
    DefaultHelmetList();
    TrailingHeaders();
  }

  /** X-Frame-Options in upper case, no cross-domain policies, and X-XSS-Protection
      switched off, last in the default registry. */
  lemma DefaultHelmetFramingPairs()
    ensures Name(DefaultHelmet()[9]) == FrameOptionsName && Value(DefaultHelmet()[9]) == "SAMEORIGIN"
    ensures Name(DefaultHelmet()[10]) == CrossDomainPoliciesName && Value(DefaultHelmet()[10]) == "none"
    ensures Name(DefaultHelmet()[11]) == XssProtectionName && Value(DefaultHelmet()[11]) == "0"
  {
    DefaultHelmetList();
    TrailingHeaders();
  }

  lemma DefaultUserTextValidLeading()
    ensures |DefaultHelmet()| == 12
    ensures UserTextValid(DefaultHelmet()[0])
    ensures UserTextValid(DefaultHelmet()[1])
    ensures UserTextValid(DefaultHelmet()[2])
    ensures UserTextValid(DefaultHelmet()[3])
    ensures UserTextValid(DefaultHelmet()[4])
    ensures UserTextValid(DefaultHelmet()[5])
  {
    DefaultHelmetList();
    DefaultPolicyTextValid();
  }

  lemma DefaultUserTextValidTrailing()
    ensures |DefaultHelmet()| == 12
    ensures UserTextValid(DefaultHelmet()[6])
    ensures UserTextValid(DefaultHelmet()[7])
    ensures UserTextValid(DefaultHelmet()[8])
    ensures UserTextValid(DefaultHelmet()[9])
    ensures UserTextValid(DefaultHelmet()[10])
    ensures UserTextValid(DefaultHelmet()[11])
  {
    DefaultHelmetList();
  }

  /** The first six headers of the default registry pass validation. */
  lemma DefaultHelmetBuildsLeading()
    ensures |DefaultHelmet()| == 12
    ensures Acceptable(DefaultHelmet()[0])
    ensures Acceptable(DefaultHelmet()[1])
    ensures Acceptable(DefaultHelmet()[2])
    ensures Acceptable(DefaultHelmet()[3])
    ensures Acceptable(DefaultHelmet()[4])
    ensures Acceptable(DefaultHelmet()[5])
  {
    var hs := DefaultHelmet();
    DefaultUserTextValidLeading();
    AcceptableIff(hs[0]);
    AcceptableIff(hs[1]);
    AcceptableIff(hs[2]);
    AcceptableIff(hs[3]);
    AcceptableIff(hs[4]);
    AcceptableIff(hs[5]);
  }

  /** The last six headers of the default registry pass validation. */
  lemma DefaultHelmetBuildsTrailing()
    ensures |DefaultHelmet()| == 12
    ensures Acceptable(DefaultHelmet()[6])
    ensures Acceptable(DefaultHelmet()[7])
    ensures Acceptable(DefaultHelmet()[8])
    ensures Acceptable(DefaultHelmet()[9])
    ensures Acceptable(DefaultHelmet()[10])
    ensures Acceptable(DefaultHelmet()[11])
  {
    var hs := DefaultHelmet();
    DefaultUserTextValidTrailing();
    AcceptableIff(hs[6]);
    AcceptableIff(hs[7]);
    AcceptableIff(hs[8]);
    AcceptableIff(hs[9]);
    AcceptableIff(hs[10]);
    AcceptableIff(hs[11]);
  }

  /** Every header of the default registry passes validation. */
  lemma DefaultHelmetBuilds()
    ensures forall i :: 0 <= i < |DefaultHelmet()| ==> Acceptable(DefaultHelmet()[i])
  {
    DefaultHelmetBuildsLeading();
    DefaultHelmetBuildsTrailing();
    AllOfTwelve(DefaultHelmet(), Acceptable);
  }

  /** A property of each of the twelve elements of a sequence holds of all of them. */
  lemma AllOfTwelve<T>(s: seq<T>, P: T -> bool)
    requires |s| == 12
    requires P(s[0]) && P(s[1]) && P(s[2]) && P(s[3]) && P(s[4]) && P(s[5])
    requires P(s[6]) && P(s[7]) && P(s[8]) && P(s[9]) && P(s[10]) && P(s[11])
    ensures forall i :: 0 <= i < |s| ==> P(s[i])
  {
    forall i | 0 <= i < |s|
      ensures P(s[i])
    {
      assert i in {0, 1, 2, 3, 4, 5, 6, 7, 8, 9, 10, 11};
    }
  }

  /** Creating the middleware from the default registry succeeds, with one pair per
      default header in registry order. */
  method CreateDefault() returns (res: Result<seq<(string, string)>, ConfigError>)
    ensures res.Ok? && res.value == RenderedPairs(DefaultHelmet())
  {
    DefaultHelmetBuilds();
    res := Create(DefaultHelmet());
  }
}
