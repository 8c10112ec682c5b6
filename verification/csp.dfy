/**
 Content-Security-Policy: the directive clauses, their rendering, and the
 policy that joins them in insertion order and selects between the enforcing
 and the report-only header name.
 */
module ContentSecurity {
  import opened Wrappers
  import opened Text

  // ---------------------------------------------------------------------------
  // Directives

  /** The 24 directives that carry a value list. */
  datatype DirectiveName =
    | ChildSrc | ConnectSrc | DefaultSrc | FontSrc | FrameSrc | ImgSrc
    | ManifestSrc | MediaSrc | ObjectSrc | PrefetchSrc | ScriptSrc | ScriptSrcElem
    | ScriptSrcAttr | StyleSrc | StyleSrcElem | StyleSrcAttr | WorkerSrc | BaseUri
    | Sandbox | FormAction | FrameAncestors | ReportTo | RequireTrustedTypesFor | TrustedTypes

  function Keyword(n: DirectiveName): string {
    match n
    case ChildSrc => "child-src"
    case ConnectSrc => "connect-src"
    case DefaultSrc => "default-src"
    case FontSrc => "font-src"
    case FrameSrc => "frame-src"
    case ImgSrc => "img-src"
    case ManifestSrc => "manifest-src"
    case MediaSrc => "media-src"
    case ObjectSrc => "object-src"
    case PrefetchSrc => "prefetch-src"
    case ScriptSrc => "script-src"
    case ScriptSrcElem => "script-src-elem"
    case ScriptSrcAttr => "script-src-attr"
    case StyleSrc => "style-src"
    case StyleSrcElem => "style-src-elem"
    case StyleSrcAttr => "style-src-attr"
    case WorkerSrc => "worker-src"
    case BaseUri => "base-uri"
    case Sandbox => "sandbox"
    case FormAction => "form-action"
    case FrameAncestors => "frame-ancestors"
    case ReportTo => "report-to"
    case RequireTrustedTypesFor => "require-trusted-types-for"
    case TrustedTypes => "trusted-types"
  }

  // ParseKeyword compares `s` with the one keyword that can match it, rather than with
  // all 24 in turn: comparing a string against two dozen literals is more than the
  // solver can settle within its resource bound.

  /** Keywords are told apart by their length and their first and last characters:
      the only directive whose keyword could be `s`. */
  function KeywordCandidate(s: string): Option<DirectiveName> {
    if |s| == 0 then None else
    var first, last := s[0], s[|s| - 1];
    match |s|
    case 7 =>
      if first == 'i' && last == 'c' then Some(ImgSrc)
      else if first == 's' && last == 'x' then Some(Sandbox)
      else None
    case 8 =>
      if first == 'f' && last == 'c' then Some(FontSrc)
      else if first == 'b' && last == 'i' then Some(BaseUri)
      else None
    case 9 =>
      if first == 'c' && last == 'c' then Some(ChildSrc)
      else if first == 'f' && last == 'c' then Some(FrameSrc)
      else if first == 'm' && last == 'c' then Some(MediaSrc)
      else if first == 's' && last == 'c' then Some(StyleSrc)
      else if first == 'r' && last == 'o' then Some(ReportTo)
      else None
    case 10 =>
      if first == 'o' && last == 'c' then Some(ObjectSrc)
      else if first == 's' && last == 'c' then Some(ScriptSrc)
      else if first == 'w' && last == 'c' then Some(WorkerSrc)
      else None
    case 11 =>
      if first == 'c' && last == 'c' then Some(ConnectSrc)
      else if first == 'd' && last == 'c' then Some(DefaultSrc)
      else if first == 'f' && last == 'n' then Some(FormAction)
      else None
    case 12 =>
      if first == 'm' && last == 'c' then Some(ManifestSrc)
      else if first == 'p' && last == 'c' then Some(PrefetchSrc)
      else None
    case 13 =>
      if first == 't' && last == 's' then Some(TrustedTypes)
      else None
    case 14 =>
      if first == 's' && last == 'm' then Some(StyleSrcElem)
      else if first == 's' && last == 'r' then Some(StyleSrcAttr)
      else None
    case 15 =>
      if first == 's' && last == 'm' then Some(ScriptSrcElem)
      else if first == 's' && last == 'r' then Some(ScriptSrcAttr)
      else if first == 'f' && last == 's' then Some(FrameAncestors)
      else None
    case 25 =>
      if first == 'r' && last == 'r' then Some(RequireTrustedTypesFor)
      else None
    case _ => None
  }

  lemma KeywordCandidateOfKeyword(n: DirectiveName)
    ensures KeywordCandidate(Keyword(n)) == Some(n)
  {
    match n
    case ChildSrc =>
    case ConnectSrc =>
    case DefaultSrc =>
    case FontSrc =>
    case FrameSrc =>
    case ImgSrc =>
    case ManifestSrc =>
    case MediaSrc =>
    case ObjectSrc =>
    case PrefetchSrc =>
    case ScriptSrc =>
    case ScriptSrcElem =>
    case ScriptSrcAttr =>
    case StyleSrc =>
    case StyleSrcElem =>
    case StyleSrcAttr =>
    case WorkerSrc =>
    case BaseUri =>
    case Sandbox =>
    case FormAction =>
    case FrameAncestors =>
    case ReportTo =>
    case RequireTrustedTypesFor =>
    case TrustedTypes =>
  }

  /** The directive whose keyword is `s`, if any: distinct directives have distinct keywords. */
  function ParseKeyword(s: string): (r: Option<DirectiveName>)
    ensures forall n :: Keyword(n) == s <==> r == Some(n)
  {
    assert forall n :: KeywordCandidate(Keyword(n)) == Some(n) by {
      forall n { KeywordCandidateOfKeyword(n); }
    }
    match KeywordCandidate(s)
    case Some(n) => if Keyword(n) == s then Some(n) else None
    case None => None
  }

  /** The characters keywords are spelled with: lower-case letters and hyphens. */
  predicate KeywordChar(c: char) {
    'a' <= c <= 'z' || c == '-'
  }

  /** A keyword is a non-empty run of lower-case letters and hyphens. */
  predicate Spelled(k: string) {
    |k| > 0 && forall c :: c in k ==> KeywordChar(c)
  }

  // The spelling of all 24 keywords in one obligation exceeds the solver's resource bound,
  // so KeywordSpelling1..4 check six keywords each and KeywordSpelling dispatches to them.

  lemma KeywordSpelling1(n: DirectiveName)
    requires n in {ChildSrc, ConnectSrc, DefaultSrc, FontSrc, FrameSrc, ImgSrc}
    ensures Spelled(Keyword(n))
  {
  }

  lemma KeywordSpelling2(n: DirectiveName)
    requires n in {ManifestSrc, MediaSrc, ObjectSrc, PrefetchSrc, ScriptSrc, ScriptSrcElem}
    ensures Spelled(Keyword(n))
  {
  }

  lemma KeywordSpelling3(n: DirectiveName)
    requires n in {ScriptSrcAttr, StyleSrc, StyleSrcElem, StyleSrcAttr, WorkerSrc, BaseUri}
    ensures Spelled(Keyword(n))
  {
  }

  lemma KeywordSpelling4(n: DirectiveName)
    requires n in {Sandbox, FormAction, FrameAncestors, ReportTo, RequireTrustedTypesFor, TrustedTypes}
    ensures Spelled(Keyword(n))
  {
  }

  /** Every keyword is spelled with lower-case letters and hyphens only. */
  lemma KeywordSpelling(n: DirectiveName)
    ensures Spelled(Keyword(n))
  {
    if n in {ChildSrc, ConnectSrc, DefaultSrc, FontSrc, FrameSrc, ImgSrc} {
      KeywordSpelling1(n);
    } else if n in {ManifestSrc, MediaSrc, ObjectSrc, PrefetchSrc, ScriptSrc, ScriptSrcElem} {
      KeywordSpelling2(n);
    } else if n in {ScriptSrcAttr, StyleSrc, StyleSrcElem, StyleSrcAttr, WorkerSrc, BaseUri} {
      KeywordSpelling3(n);
    } else {
      KeywordSpelling4(n);
    }
  }

  /** Keywords are single tokens, and valid header text. */
  lemma KeywordIsToken(n: DirectiveName)
    ensures |Keyword(n)| > 0 && ' ' !in Keyword(n)
    ensures ValidValue(Keyword(n))
  {
    KeywordSpelling(n);
    var k := Keyword(n);
    forall i | 0 <= i < |k| ensures IsValueChar(k[i]) {
      assert k[i] in k;
    }
  }

  const UpgradeKeyword := "upgrade-insecure-requests"
  const ReportUriKeyword := "report-uri"

  /** A directive: a named value list, or the bare upgrade-insecure-requests. */
  datatype Directive = Valued(name: DirectiveName, values: seq<string>) | UpgradeInsecureRequests

  /** One clause: the keyword, a space, then the values joined by single spaces. */
  function Clause(keyword: string, values: seq<string>): string {
    keyword + " " + Join(values, " ")
  }

  /** The text of one directive. report-to repeats its values under report-uri, for user
      agents that only understand the older directive. */
  function RenderDirective(d: Directive): (r: string)
    ensures |r| > 0
    ensures d.Valued? ==> Keyword(d.name) + " " <= r
  {
    match d
    case UpgradeInsecureRequests => UpgradeKeyword
    case Valued(name, values) =>
      if name == ReportTo then Clause(Keyword(ReportTo), values) + "; " + Clause(ReportUriKeyword, values)
      else Clause(Keyword(name), values)
  }

  /** The clauses a directive stands for: two for report-to, one for every other directive. */
  function Clauses(d: Directive): (cs: seq<string>)
    ensures |cs| > 0
  {
    match d
    case UpgradeInsecureRequests => [UpgradeKeyword]
    case Valued(name, values) =>
      if name == ReportTo then [Clause(Keyword(ReportTo), values), Clause(ReportUriKeyword, values)]
      else [Clause(Keyword(name), values)]
  }

  /** A directive's text is its clauses joined as a policy joins directives. */
  lemma DirectiveIsItsClauses(d: Directive)
    ensures RenderDirective(d) == Join(Clauses(d), "; ")
  {
  }

  /** The report-to text holds the same joined value list twice, once per keyword. */
  lemma ReportToDuplicates(values: seq<string>)
    ensures RenderDirective(Valued(ReportTo, values))
         == "report-to " + Join(values, " ") + "; report-uri " + Join(values, " ")
  {
  }

  /** Values are written verbatim: a value holding a space renders like two values. */
  lemma ValuesNotEscaped(n: DirectiveName, a: string, b: string)
    ensures RenderDirective(Valued(n, [a + " " + b])) == RenderDirective(Valued(n, [a, b]))
  {
    assert [a, b][1..] == [b];
    assert Join([a, b], " ") == a + " " + b;
    assert Join([a + " " + b], " ") == a + " " + b;
  }

  /** An empty value list leaves the keyword followed by a single space; for report-to
      both clauses are left that way. */
  lemma EmptyValueList(n: DirectiveName)
    ensures n != ReportTo ==> RenderDirective(Valued(n, [])) == Keyword(n) + " "
    ensures n == ReportTo ==> RenderDirective(Valued(n, [])) == "report-to ; report-uri "
    ensures RenderDirective(Valued(n, [])) == RenderDirective(Valued(n, [""]))
  {
  }

  /** Value lists whose text can be read back: at least one value, none holding a space. */
  predicate Readable(values: seq<string>) {
    |values| > 0 && forall i :: 0 <= i < |values| ==> ' ' !in values[i]
  }

  const ReportToLead := "report-to "
  const ReportUriLead := "; report-uri "

  /** Reads a directive back from its text. */
  function DecodeDirective(s: string): Option<Directive> {
    if s == UpgradeKeyword then Some(UpgradeInsecureRequests)
    else
      var tokens := Split(s, ' ');
      match ParseKeyword(tokens[0])
      case None => None
      case Some(name) =>
        if name != ReportTo then
          if |tokens| < 2 then None else Some(Valued(name, tokens[1..]))
        else DecodeReportTo(s)
  }

  /** Reads report-to back: its text is the lead, the joined values, the report-uri lead,
      and the joined values again. */
  function DecodeReportTo(s: string): Option<Directive> {
    var fixed := |ReportToLead| + |ReportUriLead|;
    if |s| < fixed then None
    else
      var m := (|s| - fixed) / 2;
      var joined := s[|ReportToLead|..|ReportToLead| + m];
      if s == ReportToLead + joined + ReportUriLead + joined then Some(Valued(ReportTo, Split(joined, ' ')))
      else None
  }

  /** A clause splits at spaces into its keyword followed by its values. */
  lemma SplitClause(keyword: string, values: seq<string>)
    requires ' ' !in keyword && Readable(values)
    ensures Split(keyword + " " + Join(values, " "), ' ') == [keyword] + values
  {
    SplitAtFirst(keyword, Join(values, " "), ' ');
    SplitJoin(values, ' ');
  }

  /** A directive other than report-to is recovered from its text. */
  lemma PlainDirectiveRoundTrip(name: DirectiveName, values: seq<string>)
    requires name != ReportTo && Readable(values)
    ensures DecodeDirective(RenderDirective(Valued(name, values))) == Some(Valued(name, values))
  {
    var s := RenderDirective(Valued(name, values));
    KeywordIsToken(name);
    assert s != UpgradeKeyword by {
      assert s[|Keyword(name)|] == ' ';
      assert ' ' !in UpgradeKeyword;
    }
    SplitClause(Keyword(name), values);
  }

  /** The leads are the keywords with their separators. */
  lemma ReportToLeads()
    ensures ReportToLead == Keyword(ReportTo) + " "
    ensures ReportUriLead == "; " + ReportUriKeyword + " "
  {
  }

  /** The piece that follows a prefix can be sliced back out. */
  lemma SliceAfterPrefix(a: string, b: string, c: string)
    ensures (a + b + c)[|a|..|a| + |b|] == b
  {
  }

  /** The report-to reader finds the value list in any text of the report-to shape. */
  lemma DecodeReportToOfShape(joined: string)
    ensures DecodeReportTo(ReportToLead + joined + ReportUriLead + joined)
         == Some(Valued(ReportTo, Split(joined, ' ')))
  {
    var s := ReportToLead + joined + ReportUriLead + joined;
    var lead := |ReportToLead|;
    assert lead == 10 && |ReportUriLead| == 13;
    assert |s| - (lead + |ReportUriLead|) == 2 * |joined|;
    assert (2 * |joined|) / 2 == |joined|;
    SliceAfterPrefix(ReportToLead, joined, ReportUriLead + joined);
    assert s == ReportToLead + joined + (ReportUriLead + joined);
  }

  /** report-to is recovered from its text: the value list is the first of its two copies. */
  lemma ReportToRoundTrip(values: seq<string>)
    requires Readable(values)
    ensures DecodeDirective(RenderDirective(Valued(ReportTo, values))) == Some(Valued(ReportTo, values))
  {
    var s := RenderDirective(Valued(ReportTo, values));
    var joined := Join(values, " ");
    ReportToLeads();
    assert s == Keyword(ReportTo) + " " + (joined + ReportUriLead + joined);
    assert s == ReportToLead + joined + ReportUriLead + joined;
    assert s != UpgradeKeyword by {
      assert s[9] == ' ';
      assert UpgradeKeyword[9] != ' ';
    }
    SplitAtFirst(Keyword(ReportTo), joined + ReportUriLead + joined, ' ');
    assert ParseKeyword(Split(s, ' ')[0]) == Some(ReportTo);
    DecodeReportToOfShape(joined);
    SplitJoin(values, ' ');
  }

  /** Every directive with a readable value list is recovered from its text. */
  lemma DirectiveRoundTrip(d: Directive)
    requires d.Valued? ==> Readable(d.values)
    ensures DecodeDirective(RenderDirective(d)) == Some(d)
  {
    match d
    case UpgradeInsecureRequests =>
    case Valued(name, values) =>
      if name == ReportTo {
        ReportToRoundTrip(values);
      } else {
        PlainDirectiveRoundTrip(name, values);
      }
  }

  /** Readable directives render alike exactly when they are equal. */
  lemma RenderDirectiveInjective(d: Directive, e: Directive)
    requires d.Valued? ==> Readable(d.values)
    requires e.Valued? ==> Readable(e.values)
    ensures RenderDirective(d) == RenderDirective(e) <==> d == e
  {
    DirectiveRoundTrip(d);
    DirectiveRoundTrip(e);
  }

  // ---------------------------------------------------------------------------
  // Policy

  const EnforceHeaderName := "Content-Security-Policy"
  const ReportOnlyHeaderName := "Content-Security-Policy-Report-Only"

  /** A policy: its directives in the order they were added, and whether violations
      are only reported rather than enforced. */
  datatype Policy = Policy(directives: seq<Directive>, reportOnly: bool)

  /** The empty, enforcing policy. */
  function NewPolicy(): (p: Policy)
    ensures |p.directives| == 0 && !p.reportOnly
  {
    Policy([], false)
  }

  /** Adds one directive after the existing ones; duplicates are kept. */
  function AddDirective(p: Policy, d: Directive): (q: Policy)
    ensures |q.directives| == |p.directives| + 1
    ensures forall i :: 0 <= i < |p.directives| ==> q.directives[i] == p.directives[i]
    ensures q.directives[|p.directives|] == d
    ensures q.reportOnly == p.reportOnly
  {
    Policy(p.directives + [d], p.reportOnly)
  }

  /** The builder named after a directive (`child_src`, `report_to`, ...): adds that
      directive with the given value list. */
  function WithValues(p: Policy, name: DirectiveName, values: seq<string>): (q: Policy)
    ensures q.directives == p.directives + [Valued(name, values)] && q.reportOnly == p.reportOnly
  {
    AddDirective(p, Valued(name, values))
  }

  /** The builder that adds the bare upgrade-insecure-requests directive. */
  function UpgradeInsecure(p: Policy): (q: Policy)
    ensures q.directives == p.directives + [UpgradeInsecureRequests] && q.reportOnly == p.reportOnly
  {
    AddDirective(p, UpgradeInsecureRequests)
  }

  /** Switches to report-only mode; the directives stay as they are. */
  function ReportOnly(p: Policy): (q: Policy)
    ensures q.reportOnly && q.directives == p.directives
  {
    p.(reportOnly := true)
  }

  /** The header the policy is sent under. */
  function PolicyName(p: Policy): (r: string)
    ensures r == ReportOnlyHeaderName <==> p.reportOnly
    ensures r == EnforceHeaderName <==> !p.reportOnly
  {
    if p.reportOnly then ReportOnlyHeaderName else EnforceHeaderName
  }

  /** The text of each directive, in order. */
  function RenderAll(ds: seq<Directive>): seq<string> {
    seq(|ds|, i requires 0 <= i < |ds| => RenderDirective(ds[i]))
  }

  /** The header value: the directive texts joined by "; ". */
  function PolicyValue(p: Policy): string {
    Join(RenderAll(p.directives), "; ")
  }

  /** A policy text with one more directive text at its end. */
  function AppendClause(value: string, text: string): string {
    if value == "" then text else value + "; " + text
  }

  /** Adding a directive appends its text, after a "; " unless it is the first. */
  lemma PolicyValueAppend(p: Policy, d: Directive)
    ensures PolicyValue(AddDirective(p, d))
         == if |p.directives| == 0 then RenderDirective(d)
            else PolicyValue(p) + "; " + RenderDirective(d)
    ensures PolicyValue(AddDirective(p, d)) == AppendClause(PolicyValue(p), RenderDirective(d))
  {
    PolicyValueEmptyIff(p);
    assert RenderAll(p.directives + [d]) == RenderAll(p.directives) + [RenderDirective(d)];
    JoinAppend(RenderAll(p.directives), RenderDirective(d), "; ");
  }

  /** The value is empty exactly when there are no directives. */
  lemma PolicyValueEmptyIff(p: Policy)
    ensures PolicyValue(p) == "" <==> |p.directives| == 0
  {
    if |p.directives| > 0 {
      JoinStartsWithFirst(RenderAll(p.directives), "; ");
    }
  }

  /** Report-only mode changes the header name and nothing in the value. */
  lemma ReportOnlyKeepsValue(p: Policy)
    ensures PolicyValue(ReportOnly(p)) == PolicyValue(p)
    ensures PolicyName(ReportOnly(p)) == ReportOnlyHeaderName
  {
  }

  /** All clauses of a directive list, in order. */
  function AllClauses(ds: seq<Directive>): (cs: seq<string>)
    ensures |cs| == 0 <==> |ds| == 0
  {
    if |ds| == 0 then [] else Clauses(ds[0]) + AllClauses(ds[1..])
  }

  /** The policy value is the flat list of clauses joined by "; ": report-to contributes
      its two clauses as if they were two directives. */
  lemma {:induction false} PolicyValueIsClauses(ds: seq<Directive>)
    ensures Join(RenderAll(ds), "; ") == Join(AllClauses(ds), "; ")
  {
    if |ds| > 0 {
      DirectiveIsItsClauses(ds[0]);
      if |ds| == 1 {
        assert AllClauses(ds) == Clauses(ds[0]) + [];
      } else {
        PolicyValueIsClauses(ds[1..]);
        assert RenderAll(ds) == [RenderDirective(ds[0])] + RenderAll(ds[1..]);
        JoinConcat([RenderDirective(ds[0])], RenderAll(ds[1..]), "; ");
        JoinConcat(Clauses(ds[0]), AllClauses(ds[1..]), "; ");
      }
    }
  }

  /** The default policy: eleven directives, enforcing. */
  function DefaultPolicy(): (p: Policy)
    ensures |p.directives| == 11 && !p.reportOnly
  {
    var p := NewPolicy();
    var p := WithValues(p, DefaultSrc, ["'self'"]);
    var p := WithValues(p, BaseUri, ["'self'"]);
    var p := WithValues(p, FontSrc, ["'self'", "https:", "data:"]);
    var p := WithValues(p, FormAction, ["'self'"]);
    var p := WithValues(p, FrameAncestors, ["'self'"]);
    var p := WithValues(p, ImgSrc, ["'self'", "data:"]);
    var p := WithValues(p, ObjectSrc, ["'none'"]);
    var p := WithValues(p, ScriptSrc, ["'self'"]);
    var p := WithValues(p, ScriptSrcAttr, ["'none'"]);
    var p := WithValues(p, StyleSrc, ["'self'", "https:", "'unsafe-inline'"]);
    UpgradeInsecure(p)
  }

  /** The clauses of the default policy, in the order the default adds them. */
  const DefaultClauses: seq<string> := [
    "default-src 'self'",
    "base-uri 'self'",
    "font-src 'self' https: data:",
    "form-action 'self'",
    "frame-ancestors 'self'",
    "img-src 'self' data:",
    "object-src 'none'",
    "script-src 'self'",
    "script-src-attr 'none'",
    "style-src 'self' https: 'unsafe-inline'",
    "upgrade-insecure-requests"
  ]

  /** The directives of the default policy, in the order the default adds them. */
  const DefaultDirectives: seq<Directive> := [
    Valued(DefaultSrc, ["'self'"]),
    Valued(BaseUri, ["'self'"]),
    Valued(FontSrc, ["'self'", "https:", "data:"]),
    Valued(FormAction, ["'self'"]),
    Valued(FrameAncestors, ["'self'"]),
    Valued(ImgSrc, ["'self'", "data:"]),
    Valued(ObjectSrc, ["'none'"]),
    Valued(ScriptSrc, ["'self'"]),
    Valued(ScriptSrcAttr, ["'none'"]),
    Valued(StyleSrc, ["'self'", "https:", "'unsafe-inline'"]),
    UpgradeInsecureRequests
  ]

  lemma DefaultDirectiveList()
    ensures DefaultPolicy().directives == DefaultDirectives
  {
  }

  // DefaultClause0..10 check the default clauses one literal at a time, because the eleven
  // literal comparisons together exceed the solver's resource bound; DefaultClauseAt
  // dispatches to them. FontSrc... and StyleSrc... split the two longest clauses further.

  lemma DefaultClause0()
    ensures RenderDirective(DefaultDirectives[0]) == DefaultClauses[0]
  {
  }

  lemma DefaultClause1()
    ensures RenderDirective(DefaultDirectives[1]) == DefaultClauses[1]
  {
  }

  lemma DefaultClause2()
    ensures RenderDirective(DefaultDirectives[2]) == DefaultClauses[2]
  {
    FontSrcValues();
    FontSrcText();
  }

  lemma FontSrcValues()
    ensures Join(["'self'", "https:", "data:"], " ") == "'self' https: data:"
  {
  }

  lemma FontSrcText()
    ensures "font-src" + " " + "'self' https: data:" == "font-src 'self' https: data:"
  {
  }

  lemma DefaultClause3()
    ensures RenderDirective(DefaultDirectives[3]) == DefaultClauses[3]
  {
  }

  lemma DefaultClause4()
    ensures RenderDirective(DefaultDirectives[4]) == DefaultClauses[4]
  {
  }

  lemma DefaultClause5()
    ensures RenderDirective(DefaultDirectives[5]) == DefaultClauses[5]
  {
  }

  lemma DefaultClause6()
    ensures RenderDirective(DefaultDirectives[6]) == DefaultClauses[6]
  {
  }

  lemma DefaultClause7()
    ensures RenderDirective(DefaultDirectives[7]) == DefaultClauses[7]
  {
  }

  lemma DefaultClause8()
    ensures RenderDirective(DefaultDirectives[8]) == DefaultClauses[8]
  {
  }

  lemma DefaultClause9()
    ensures RenderDirective(DefaultDirectives[9]) == DefaultClauses[9]
  {
    StyleSrcValues();
    StyleSrcText();
  }

  lemma StyleSrcValues()
    ensures Join(["'self'", "https:", "'unsafe-inline'"], " ") == "'self' https: 'unsafe-inline'"
  {
  }

  lemma StyleSrcText()
    ensures "style-src" + " " + "'self' https: 'unsafe-inline'" == "style-src 'self' https: 'unsafe-inline'"
  {
  }

  lemma DefaultClause10()
    ensures RenderDirective(DefaultDirectives[10]) == DefaultClauses[10]
  {
  }

  lemma DefaultClauseAt(i: nat)
    requires i < 11
    ensures RenderDirective(DefaultDirectives[i]) == DefaultClauses[i]
  {
    if i == 0 {
      DefaultClause0();
    } else if i == 1 {
      DefaultClause1();
    } else if i == 2 {
      DefaultClause2();
    } else if i == 3 {
      DefaultClause3();
    } else if i == 4 {
      DefaultClause4();
    } else if i == 5 {
      DefaultClause5();
    } else if i == 6 {
      DefaultClause6();
    } else if i == 7 {
      DefaultClause7();
    } else if i == 8 {
      DefaultClause8();
    } else if i == 9 {
      DefaultClause9();
    } else {
      DefaultClause10();
    }
  }

  /** The default directives render as the default clauses, one for one. */
  lemma DefaultRendered()
    ensures RenderAll(DefaultDirectives) == DefaultClauses
  {
    var rs := RenderAll(DefaultDirectives);
    forall i | 0 <= i < 11
      ensures rs[i] == DefaultClauses[i]
    {
      DefaultClauseAt(i);
    }
  }

  /** The default policy renders as its eleven clauses joined by "; ". */
  lemma DefaultPolicyValue()
    ensures PolicyValue(DefaultPolicy()) == Join(DefaultClauses, "; ")
    ensures PolicyName(DefaultPolicy()) == EnforceHeaderName
  {
    DefaultDirectiveList();
    DefaultRendered();
  }

  /** A report-to list of three endpoint names appears once under each keyword. */
  lemma ReportToExample()
    ensures PolicyValue(WithValues(NewPolicy(), ReportTo, ["default", "endpoint", "group"]))
         == "report-to " + "default endpoint group" + "; report-uri " + "default endpoint group"
  {
    var vs := ["default", "endpoint", "group"];
    assert Join(vs, " ") == "default endpoint group";
    ReportToDuplicates(vs);
  }

  /** Report-only mode set before a directive is added: the header is the report-only one
      and the value is that directive alone. */
  lemma ReportOnlyExample()
    ensures PolicyName(WithValues(ReportOnly(NewPolicy()), BaseUri, ["'self'"])) == ReportOnlyHeaderName
    ensures PolicyValue(WithValues(ReportOnly(NewPolicy()), BaseUri, ["'self'"])) == "base-uri 'self'"
  {
  }

  // ---------------------------------------------------------------------------
  // Header-value validity

  /** Every value of a directive is valid header text. */
  predicate DirectiveTextValid(d: Directive) {
    d.Valued? ==> forall j :: 0 <= j < |d.values| ==> ValidValue(d.values[j])
  }

  /** Every value of every directive is valid header text. */
  predicate PolicyTextValid(p: Policy) {
    forall i :: 0 <= i < |p.directives| ==> DirectiveTextValid(p.directives[i])
  }

  /** The fixed text a directive adds around its values is valid header text. */
  lemma FixedTextValid()
    ensures ValidValue(" ") && ValidValue("; ")
    ensures ValidValue(UpgradeKeyword) && ValidValue(ReportUriKeyword)
  {
  }

  /** A directive's text is a valid header value exactly when all its values are. */
  lemma RenderDirectiveValid(d: Directive)
    ensures ValidValue(RenderDirective(d)) <==> DirectiveTextValid(d)
  {
    FixedTextValid();
    match d
    case UpgradeInsecureRequests =>
    case Valued(n, vs) =>
      var j := Join(vs, " ");
      KeywordIsToken(n);
      ValidValueJoin(vs, " ");
      ValidValueConcat(Keyword(n), " ");
      ValidValueConcat(Keyword(n) + " ", j);
      if n == ReportTo {
        ValidValueConcat(ReportUriKeyword, " ");
        ValidValueConcat(ReportUriKeyword + " ", j);
        ValidValueConcat(Clause(Keyword(n), vs), "; ");
        ValidValueConcat(Clause(Keyword(n), vs) + "; ", Clause(ReportUriKeyword, vs));
      }
  }

  /** The policy value is a valid header value exactly when every directive value is. */
  lemma PolicyValueValid(p: Policy)
    ensures ValidValue(PolicyValue(p)) <==> PolicyTextValid(p)
  {
    FixedTextValid();
    var rs := RenderAll(p.directives);
    ValidValueJoin(rs, "; ");
    forall i | 0 <= i < |rs|
      ensures ValidValue(rs[i]) <==> DirectiveTextValid(p.directives[i])
    {
      RenderDirectiveValid(p.directives[i]);
    }
  }

  /** The value texts the default policy uses are valid header text. */
  lemma DefaultValueTexts()
    ensures ValidValue("'self'") && ValidValue("https:") && ValidValue("data:")
    ensures ValidValue("'none'") && ValidValue("'unsafe-inline'")
  {
  }

  lemma DefaultDirectiveTextValid(i: nat)
    requires i < |DefaultDirectives|
    ensures DirectiveTextValid(DefaultDirectives[i])
  {
    DefaultValueTexts();
  }

  /** Every value the default policy lists is valid header text. */
  lemma DefaultPolicyTextValid()
    ensures PolicyTextValid(DefaultPolicy())
  {
    DefaultDirectiveList();
    forall i | 0 <= i < |DefaultDirectives|
      ensures DirectiveTextValid(DefaultDirectives[i])
    {
      DefaultDirectiveTextValid(i);
    }
  }
}
