# ntex-helmet header construction, in Dafny

ntex-helmet is a middleware for the ntex web framework. It adds security headers to
every response. This project models how the crate builds those headers. The model
has four parts:

- the fourteen header families (Content-Security-Policy, Cross-Origin-Embedder-Policy,
  Cross-Origin-Opener-Policy, Cross-Origin-Resource-Policy, Origin-Agent-Cluster,
  Referrer-Policy, Strict-Transport-Security, X-Content-Type-Options,
  X-DNS-Prefetch-Control, X-Download-Options, X-Frame-Options,
  X-Permitted-Cross-Domain-Policies, X-XSS-Protection, X-Powered-By). Each family has
  a typed configuration, a header name (fixed except for
  Content-Security-Policy's report-only variant) and a `Display` rendering of its value;
- the Content-Security-Policy assembler. It covers the 24 value-list directives, the
  bare `upgrade-insecure-requests`, the `report-to` directive that repeats its value list
  under `report-uri`, the policy that joins directive texts with `"; "` in insertion
  order, the report-only switch, and the default policy;
- the `Helmet` registry: `new`, `add` and `default` (twelve headers in a fixed order);
- `Middleware::create`. It checks that each header's name parses as a header field
  name and its value as a header field value, in registry order. The model's result is
  the sequence of (name, value) pairs in the order `create` inserts them; the header
  map that holds them in the crate is not modelled.

The code is split into modules:

- `Wrappers` holds `Option` and `Result`.
- `Text` holds `join` and its inverse for a one-character separator, the decimal
  printing of an unsigned integer with its parser, and the header field character
  classes of section 3.2 of RFC 7230.
- `Families` holds the thirteen families other than Content-Security-Policy.
- `ContentSecurity` holds directives and policies.
- `Registry` holds the `Header` trait as a datatype (one constructor per built-in family,
  plus `Custom` for a header type of the caller's own), `Helmet` as a sequence, and
  `Create`.

Each rendering has a partner. Enumerated families have a parser whose contract makes
the rendering a bijection onto the listed tokens. Parametrised families and directives
have decoders, with round-trip lemmas. Builders have frame conditions. The policy value
has an append law and an empty-iff law. `Create` is characterised exactly: it succeeds
precisely when every header is acceptable, and otherwise it names the first header
that is not.

## Model

| member | source | states |
|---|---|---|
| Text.Decimal | src/lib.rs:423-425 | `{}` on an unsigned integer prints a canonical numeral: digits only, no leading zero |
| Text.ParseDecimalOfDecimal | src/lib.rs:423-425 | reading back the printed max-age gives the number |
| Text.DecimalOfParseDecimal | src/lib.rs:423-425 | every canonical numeral is the printing of its value, so printing is a bijection onto canonical numerals |
| Text.Join | src/lib.rs:1364-1369 | definition of `join` on string slices, used for the policy's `"; "` join and for every directive's value list (src/lib.rs:1094-1164); `Text.SplitJoin` inverts it and `Text.JoinAppend` states how it grows |
| Text.SplitJoin | src/lib.rs:1090-1170 | splitting at spaces undoes the space-join of a non-empty value list whose values hold no space |
| Text.JoinAppend | src/lib.rs:1362-1372 | joining one more part adds exactly one separator and that part at the end; a single part is joined without a separator |
| Text.ValidValueJoin | src/lib.rs:1362-1372 | a join with a valid separator is a valid header value exactly when every part is |
| Families.CoepValue | src/lib.rs:87-104 | definition of the rendering: one token per variant; `Families.ParseCoep` is its inverse |
| Families.CoopValue | src/lib.rs:145-162 | definition of the rendering; `Families.ParseCoop` is its inverse |
| Families.CorpValue | src/lib.rs:203-220 | definition of the rendering; `Families.ParseCorp` is its inverse |
| Families.OacValue | src/lib.rs:248-265 | definition of the rendering; `Families.ParseOac` is its inverse |
| Families.ReferrerPolicyValue | src/lib.rs:336-360 | definition of the rendering; `Families.ParseReferrerPolicy` is its inverse |
| Families.ContentTypeOptionsValue | src/lib.rs:472-487 | definition of the rendering; `Families.ParseContentTypeOptions` is its inverse |
| Families.DnsPrefetchControlValue | src/lib.rs:522-538 | definition of the rendering; `Families.ParseDnsPrefetchControl` is its inverse |
| Families.DownloadOptionsValue | src/lib.rs:567-582 | definition of the rendering; `Families.ParseDownloadOptions` is its inverse |
| Families.FrameOptionsValue | src/lib.rs:628-645 | definition of the rendering; `Families.ParseFrameOptions` is its inverse |
| Families.CrossDomainPoliciesValue | src/lib.rs:706-725 | definition of the rendering; `Families.ParseCrossDomainPolicies` is its inverse |
| Families.ParseCoep | src/lib.rs:87-95 | `unsafe-none`, `require-corp`, `credentialless`: each variant renders its own token and distinct variants give distinct tokens |
| Families.ParseCoop | src/lib.rs:145-153 | `same-origin`, `same-origin-allow-popups`, `unsafe-none`, one per variant, distinct |
| Families.ParseCorp | src/lib.rs:203-211 | `same-origin`, `same-site`, `cross-origin`, one per variant, distinct |
| Families.ParseOac | src/lib.rs:248-256 | the value is `?1` exactly when the flag is true and `?0` exactly when it is false |
| Families.ParseReferrerPolicy | src/lib.rs:336-351 | the eight referrer tokens, one per variant, distinct |
| Families.ParseContentTypeOptions | src/lib.rs:472-478 | the only value is `nosniff` |
| Families.ParseDnsPrefetchControl | src/lib.rs:522-529 | `off` and `on`, one per variant |
| Families.ParseDownloadOptions | src/lib.rs:567-573 | the only value is `noopen` |
| Families.ParseFrameOptions | src/lib.rs:628-636 | `DENY`, upper-case `SAMEORIGIN`, or `ALLOW-FROM ` followed by the URI verbatim; the option and the URI are recovered exactly |
| Families.ParseCrossDomainPolicies | src/lib.rs:706-716 | `none`, `master-only`, `by-content-type`, `by-ftp-filename`, `all`, one per variant, distinct |
| Families.PoweredByValue | src/lib.rs:843-848 | X-Powered-By sends the comment unchanged |
| Families.StsDefault | src/lib.rs:413-421 | definition of `default()`, which `new()` returns: one year, no flags; `Families.StsExampleDefault` states its rendering |
| Families.StsExampleDefault | src/lib.rs:393-421 | `new()` renders `max-age=31536000` |
| Families.StsValue | src/lib.rs:423-443 | definition of the rendering; `Families.DecodeSts` with `Families.StsRoundTrip` is its inverse |
| Families.StsMaxAge | src/lib.rs:397-400 | `max_age` sets the age and leaves both flags as they were |
| Families.StsIncludeSubDomains | src/lib.rs:402-405 | `include_sub_domains` sets that flag and leaves the age and preload as they were |
| Families.StsPreload | src/lib.rs:407-410 | `preload` sets that flag and leaves the age and includeSubDomains as they were |
| Families.DecodeStsFlags | src/lib.rs:426-431 | the text after the age is `; includeSubDomains` exactly when that flag is set, followed by `; preload` exactly when that flag is set, in that order |
| Families.StsRoundTrip | src/lib.rs:423-434 | the Strict-Transport-Security value determines age and both flags |
| Families.StsValueInjective | src/lib.rs:423-434 | two configurations render alike exactly when they are equal |
| Families.StsExampleMaxAge | src/lib.rs:1877-1895 | `new().max_age(31536000)` renders `max-age=31536000` |
| Families.StsExampleIncludeSubDomains | src/lib.rs:1898-1920 | adding includeSubDomains renders `max-age=31536000; includeSubDomains` |
| Families.StsExamplePreload | src/lib.rs:1923-1941 | adding preload renders `max-age=31536000; preload` |
| Families.StsExampleBoth | src/lib.rs:1944-1967 | both flags render `max-age=31536000; includeSubDomains; preload` |
| Families.StsExampleHalfYear | src/lib.rs:1495-1499 | the default registry's configuration renders `max-age=15552000; includeSubDomains` |
| Families.XssOff | src/lib.rs:763-770 | definition of `off()`; `Families.XssExampleOffOn` states its rendering |
| Families.XssOn | src/lib.rs:772-778 | definition of `on()`; `Families.XssExampleOffOn` states its rendering |
| Families.XssModeBlock | src/lib.rs:781-784 | `mode_block` sets that flag and leaves `on` and the report URI as they were |
| Families.XssReport | src/lib.rs:787-790 | `report` sets the URI and leaves `on` and mode_block as they were |
| Families.XssValue | src/lib.rs:793-808 | the value is `0` exactly when protection is off; when it is on, the value starts with `1` |
| Families.XssRoundTrip | src/lib.rs:793-808 | when on, the value determines mode_block and the report URI; when off, mode and report are ignored |
| Families.XssValueEqualIff | src/lib.rs:793-808 | two configurations render alike exactly when both are off or they are equal |
| Families.XssExampleOffOn | src/lib.rs:2225-2265 | `off()` renders `0`, `on()` renders `1`, `on().mode_block()` renders `1; mode=block` |
| Families.XssExampleReport | src/lib.rs:2268-2292 | mode_block with a report URI renders `1; mode=block; report=` followed by the URI |
| Families.FrameOptionsValueValid | src/lib.rs:628-636 | X-Frame-Options is a valid header value exactly when an ALLOW-FROM URI is |
| Families.StsValueValid | src/lib.rs:423-434 | every Strict-Transport-Security value is a valid header value |
| Families.XssValueValid | src/lib.rs:793-808 | X-XSS-Protection is a valid header value exactly when a report URI that shows in it is |
| Families.ReferrerPolicyValueValid | src/lib.rs:336-351 | every referrer token is a valid header value |
| ContentSecurity.Keyword | src/lib.rs:1090-1170 | definition of the 24 directive keywords; `ContentSecurity.ParseKeyword` is its inverse |
| ContentSecurity.ParseKeyword | src/lib.rs:1090-1170 | distinct directives have distinct keywords, and the keyword determines the directive |
| ContentSecurity.KeywordIsToken | src/lib.rs:1090-1170 | every keyword is non-empty, holds no space, and is valid header text |
| ContentSecurity.RenderDirective | src/lib.rs:1090-1170 | a directive's text is never empty, and a valued directive's text starts with its keyword and one space |
| ContentSecurity.DirectiveIsItsClauses | src/lib.rs:1090-1170 | a directive's text is its clauses joined by `"; "`: two clauses for report-to, one for every other directive |
| ContentSecurity.ReportToDuplicates | src/lib.rs:1156-1159 | report-to renders `report-to J; report-uri J` with the same joined list J in both places |
| ContentSecurity.ValuesNotEscaped | src/lib.rs:1090-1170 | values are written verbatim: a value holding a space renders exactly like two values |
| ContentSecurity.EmptyValueList | src/lib.rs:1090-1170 | an empty value list renders the keyword and a trailing space (for report-to, `report-to ; report-uri `), the same text as one empty value, for every directive |
| ContentSecurity.PlainDirectiveRoundTrip | src/lib.rs:1090-1170 | a directive other than report-to is recovered from its text when its values are non-empty and hold no space |
| ContentSecurity.ReportToRoundTrip | src/lib.rs:1156-1159 | report-to is recovered from its text, under the same condition on its values |
| ContentSecurity.DirectiveRoundTrip | src/lib.rs:1090-1170 | every directive with such values, and upgrade-insecure-requests, is recovered from its text |
| ContentSecurity.RenderDirectiveInjective | src/lib.rs:1090-1170 | such directives render alike exactly when they are equal |
| ContentSecurity.NewPolicy | src/lib.rs:1210-1215 | a new policy has no directives and is enforcing |
| ContentSecurity.AddDirective | src/lib.rs:1217-1220 | adding puts exactly the new directive at the end, keeps every earlier directive in place, and keeps the mode |
| ContentSecurity.WithValues | src/lib.rs:1223-1343 | each directive builder appends exactly its directive with the given values and changes nothing else |
| ContentSecurity.UpgradeInsecure | src/lib.rs:1345-1347 | the builder appends the bare upgrade-insecure-requests directive and changes nothing else |
| ContentSecurity.ReportOnly | src/lib.rs:1356-1359 | `report_only` sets the mode and keeps the directives |
| ContentSecurity.PolicyName | src/lib.rs:1407-1415 | the name is Content-Security-Policy-Report-Only exactly when the policy is report-only, and Content-Security-Policy exactly when it is not |
| ContentSecurity.PolicyValue | src/lib.rs:1362-1372 | definition of the policy value; `ContentSecurity.PolicyValueAppend`, `ContentSecurity.PolicyValueEmptyIff` and `ContentSecurity.PolicyValueIsClauses` characterise it |
| ContentSecurity.PolicyValueAppend | src/lib.rs:1362-1372 | adding a directive appends its text to the value, after `"; "` unless it is the first; there is no trailing separator |
| ContentSecurity.PolicyValueEmptyIff | src/lib.rs:1362-1372 | the value is empty exactly when the policy has no directives |
| ContentSecurity.ReportOnlyKeepsValue | src/lib.rs:1356-1372 | report-only mode changes the header name and not the value |
| ContentSecurity.PolicyValueIsClauses | src/lib.rs:1362-1372 | the value is the flat list of all clauses joined by `"; "`, so report-to's two clauses read like two directives |
| ContentSecurity.DefaultPolicy | src/lib.rs:1391-1404 | the default policy has eleven directives and is enforcing |
| ContentSecurity.DefaultDirectiveList | src/lib.rs:1391-1404 | the default policy holds exactly the eleven listed directives, in order |
| ContentSecurity.DefaultRendered | src/lib.rs:1391-1404 | the eleven default directives render as the eleven clauses of the expected header, one for one |
| ContentSecurity.DefaultPolicyValue | src/lib.rs:2295-2315 | the default policy is sent as Content-Security-Policy, and its value is the eleven expected clauses joined by `"; "` |
| ContentSecurity.ReportToExample | src/lib.rs:2721-2738 | report-to with `default endpoint group` renders that list under report-to and again under report-uri |
| ContentSecurity.ReportOnlyExample | src/lib.rs:2848-2871 | report-only set before base-uri gives the report-only name and the value `base-uri 'self'` |
| ContentSecurity.RenderDirectiveValid | src/lib.rs:1090-1170 | a directive's text is a valid header value exactly when all its values are |
| ContentSecurity.PolicyValueValid | src/lib.rs:1362-1372 | a policy value is a valid header value exactly when every directive value is |
| ContentSecurity.DefaultPolicyTextValid | src/lib.rs:1391-1404 | every value the default policy lists is valid header text |
| Registry.Name | src/lib.rs:98-1415 | definition of `fn name` for all fourteen families (the impls at lines 98, 156, 214, 259, 354, 437, 481, 532, 576, 639, 719, 811, 851 and 1408) and a custom header's own name; a policy is sent under the name its mode selects (`ContentSecurity.PolicyName`), and every built-in name is a valid field name (`Registry.BuiltinNameValid`) |
| Registry.Value | src/lib.rs:40-43 | definition of `Header::value` for every family: each family's own rendering, and a custom header's own value |
| Registry.NewHelmet | src/lib.rs:1458-1462 | a new registry holds no headers |
| Registry.Add | src/lib.rs:1465-1468 | `add` puts the header at the end and keeps every earlier header in place; the length grows by one |
| Registry.DefaultSts | src/lib.rs:1495-1499 | the default registry asks Strict-Transport-Security for 15552000 seconds with includeSubDomains and without preload |
| Registry.DefaultHelmet | src/lib.rs:1488-1506 | the default registry holds twelve headers |
| Registry.DefaultHelmetList | src/lib.rs:1488-1506 | the twelve default headers in their order: CSP, COOP, CORP, Origin-Agent-Cluster, Referrer-Policy, HSTS, X-Content-Type-Options, X-DNS-Prefetch-Control, X-Download-Options, X-Frame-Options, X-Permitted-Cross-Domain-Policies, X-XSS-Protection |
| Registry.RenderedPairs | src/lib.rs:1540-1545 | one (name, value) pair per registered header, in registry order |
| Registry.RenderedAdd | src/lib.rs:1540-1545 | registering a header appends exactly its pair to the rendering |
| Registry.AddTwiceTwoLines | src/lib.rs:1465-1468 | registering the same header twice gives two lines with its name: there is no de-duplication |
| Registry.BuildHeaderMap | src/lib.rs:1540-1545 | validates pairs in order, name before value; succeeds with all pairs exactly when every pair is valid, and otherwise reports the first invalid pair and which half failed |
| Registry.Create | src/lib.rs:1539-1548 | the registry builds exactly when every header's name and value are valid; the result is the rendered pairs in the order `create` inserts them, and a failure names the first offending header |
| Registry.BuiltinNameValid | src/lib.rs:1540-1542 | every built-in family's header name is a valid field name |
| Registry.AcceptableIff | src/lib.rs:1540-1545 | a header passes validation exactly when the caller's text in it is valid, because the fixed text of every family always passes |
| Registry.DefaultHelmetPolicyPairs | src/lib.rs:2805-2845 | the default registry sends the default policy under Content-Security-Policy and `max-age=15552000; includeSubDomains` as Strict-Transport-Security |
| Registry.DefaultHelmetCrossOriginPairs | src/lib.rs:2805-2845 | COOP and CORP are `same-origin`, Origin-Agent-Cluster is `?1`, Referrer-Policy is `no-referrer` |
| Registry.DefaultHelmetLegacyPairs | src/lib.rs:2805-2845 | `nosniff`, `off` and `noopen` under their names |
| Registry.DefaultHelmetFramingPairs | src/lib.rs:1488-1506 | X-Frame-Options is upper-case `SAMEORIGIN`, cross-domain policies are `none`, X-XSS-Protection is `0` and comes last |
| Registry.DefaultHelmetBuildsLeading | src/lib.rs:1488-1506 | the first six default headers pass validation |
| Registry.DefaultHelmetBuildsTrailing | src/lib.rs:1488-1506 | the last six default headers pass validation |
| Registry.DefaultHelmetBuilds | src/lib.rs:1488-1506 | every one of the twelve default headers passes validation |
| Registry.CreateDefault | src/lib.rs:1539-1548 | creating the middleware from the default registry succeeds, inserting one pair per default header in registry order |

## Left out

- `HelmetMiddleware`'s `Service::call` (src/lib.rs:1509-1534) is left out. It is asynchronous plumbing that appends the prepared pairs to each response, and the model stops at the pairs.
- `Registry.Create`: the model stops at the sequence of pairs in the order of `create`'s loop (src/lib.rs:1541-1545). It does not model the `HeaderMap` that the crate appends them to: its keying by parsed name, its grouping of repeated names, or the order in which `Service::call` (src/lib.rs:1527-1528) iterates it.
- `HeaderName::try_from` and `HeaderValue::from_str` come from `ntex::http` (src/lib.rs:8-13) and are not part of this model. They are stood in for by the character classes of section 3.2 of RFC 7230: a name is a non-empty token, and a value is tab or any character from space upward except DEL.
- The `expect` panics of `Middleware::create` are modelled as an `Err` that names the offending header. This means a registry that would panic produces an error value instead.
- Rust lifetimes, `Clone`, and the `Box<dyn Header>` erasure are left out. They have no behavioural content.
- The test harness (`TestRequest`, `ok_service`, `Pipeline`) is left out.
- The 24 `ContentSecurityPolicyDirective` constructors and the 24 policy builders named after directives are each folded into one member parameterised by the directive name: `Valued(name, values)` and `ContentSecurity.WithValues`. Their bodies differ only in that name.
- `ContentSecurity.DefaultPolicyValue`: states the default value as the eleven expected clauses joined by `"; "` (with `ContentSecurity.DefaultRendered`), not as the single 261-character literal of the test (src/lib.rs:2313). The solver cannot compare a literal of that length within the resource bound.
- `ContentSecurity.DirectiveRoundTrip`: the decoders only recover directives whose values are non-empty and hold no space. An empty list and a list of one empty value render alike, and so do a value holding a space and two values (`ContentSecurity.EmptyValueList`, `ContentSecurity.ValuesNotEscaped`).
- `max_age` is a `u32` in the crate and a natural number below 2^32 here. No arithmetic is done on it, so there is no wrap-around to model.
- The documentation of `Helmet::default` (src/lib.rs:1484) lists `X-Frame-Options: sameorigin`. The code and the test at src/lib.rs:2838 produce `SAMEORIGIN`, and the model follows the code.
