/** Configuration of manifest pruning and of the tools a server exposes. */
module ToolConfig {
  import opened Wrappers
  import opened Ordering
  import opened Text
  import opened JsonText

  // ---- Pruning patterns ----

  /** The trimmed patterns that are not blank. */
  function Trimmed(patterns: seq<string>): seq<string> {
    if patterns == [] then []
    else
      var t := Trim(patterns[|patterns| - 1]);
      Trimmed(patterns[..|patterns| - 1]) + (if t == [] then [] else [t])
  }

  function Canonical(patterns: seq<string>): seq<string> {
    Sort(StringLe, Trimmed(patterns))
  }

  /** `canonical_prune_patterns`. */
  method CanonicalPrunePatterns(patterns: seq<string>) returns (values: seq<string>)
    ensures values == Canonical(patterns)
    ensures IsSorted(StringLe, values)
  {
    values := [];
    var i := 0;
    while i < |patterns|
      invariant 0 <= i <= |patterns|
      invariant values == Trimmed(patterns[..i])
    {
      assert patterns[..i + 1][..i] == patterns[..i];
      var t := Trim(patterns[i]);
      if t != [] {
        values := values + [t];
      }
      i := i + 1;
    }
    assert patterns[..i] == patterns;
    StringLeIsTotalOrder();
    SortSorted(StringLe, values);
    values := Sort(StringLe, values);
  }

  /** Two lists have the same canonical form exactly when their trimmed non-blank patterns agree
      as multisets, so order and padding do not matter but repetitions do. */
  lemma CanonicalAgree(a: seq<string>, b: seq<string>)
    ensures Canonical(a) == Canonical(b) <==> multiset(Trimmed(a)) == multiset(Trimmed(b))
  {
    StringLeIsTotalOrder();
    SortCanonical(StringLe, Trimmed(a), Trimmed(b));
  }

  ghost predicate AllTrimmed(s: seq<string>) {
    forall x :: x in s ==> x != [] && Trim(x) == x
  }

  lemma {:induction false} TrimmedAllTrimmed(patterns: seq<string>)
    ensures AllTrimmed(Trimmed(patterns))
  {
    if patterns != [] {
      TrimmedAllTrimmed(patterns[..|patterns| - 1]);
      TrimIdempotent(patterns[|patterns| - 1]);
    }
  }

  lemma {:induction false} TrimmedFixed(s: seq<string>)
    requires AllTrimmed(s)
    ensures Trimmed(s) == s
  {
    hide Trim;
    if s != [] {
      var init, last := s[..|s| - 1], s[|s| - 1];
      assert last in s;
      forall x | x in init ensures x != [] && Trim(x) == x {
        assert x in s;
      }
      TrimmedFixed(init);
      assert s == init + [last];
    }
  }

  lemma CanonicalIdempotent(patterns: seq<string>)
    ensures Canonical(Canonical(patterns)) == Canonical(patterns)
  {
    var t, c := Trimmed(patterns), Canonical(patterns);
    TrimmedAllTrimmed(patterns);
    SameElements(c, t);
    TrimmedFixed(c);
    StringLeIsTotalOrder();
    SortCanonical(StringLe, c, t);
  }

  /** Padding a pattern changes nothing. */
  lemma {:induction false} PaddingIrrelevant(a: seq<string>, b: seq<string>)
    requires |a| == |b| && forall i :: 0 <= i < |a| ==> Trim(a[i]) == Trim(b[i])
    ensures Canonical(a) == Canonical(b)
  {
    SameTrimmed(a, b);
  }

  lemma {:induction false} SameTrimmed(a: seq<string>, b: seq<string>)
    requires |a| == |b| && forall i :: 0 <= i < |a| ==> Trim(a[i]) == Trim(b[i])
    ensures Trimmed(a) == Trimmed(b)
  {
    if a != [] {
      SameTrimmed(a[..|a| - 1], b[..|b| - 1]);
    }
  }

  predicate PruningEnabled(allow: seq<string>, deny: seq<string>) {
    Canonical(allow) != [] || Canonical(deny) != []
  }

  /** The text that is hashed. */
  function PrunePayload(allow: seq<string>, deny: seq<string>): string {
    TwoLists("allow", allow, "deny", deny)
  }

  /** `manifest_prune_fingerprint`. */
  function Fingerprint(hash: string -> string, allow: seq<string>, deny: seq<string>): string {
    if PruningEnabled(allow, deny) then hash(PrunePayload(Canonical(allow), Canonical(deny))) else ""
  }

  /** Different texts never hash alike, and a hash is never the empty text. */
  ghost predicate CollisionFree(hash: string -> string) {
    (forall s :: hash(s) != "") && (forall s, t :: hash(s) == hash(t) ==> s == t)
  }

  /** Two configurations share a fingerprint exactly when their allow patterns and their deny
      patterns agree as multisets after trimming, and the fingerprint is empty exactly when
      there is nothing to prune by. */
  lemma FingerprintsAgree(hash: string -> string,
                          allow1: seq<string>, deny1: seq<string>, allow2: seq<string>, deny2: seq<string>)
    requires CollisionFree(hash)
    ensures Fingerprint(hash, allow1, deny1) == Fingerprint(hash, allow2, deny2) <==>
            multiset(Trimmed(allow1)) == multiset(Trimmed(allow2)) && multiset(Trimmed(deny1)) == multiset(Trimmed(deny2))
    ensures Fingerprint(hash, allow1, deny1) == "" <==> Trimmed(allow1) == [] && Trimmed(deny1) == []
  {
    hide Canonical, Trimmed, TwoLists;
    CanonicalAgree(allow1, allow2);
    CanonicalAgree(deny1, deny2);
    CanonicalEmpty(allow1);
    CanonicalEmpty(deny1);
    var a, b, c, d := Canonical(allow1), Canonical(deny1), Canonical(allow2), Canonical(deny2);
    if PrunePayload(a, b) == PrunePayload(c, d) {
      TwoListsApart("allow", "deny", a, b, c, d);
    }
  }

  lemma CanonicalEmpty(patterns: seq<string>)
    ensures Canonical(patterns) == [] <==> Trimmed(patterns) == []
  {
    assert |Canonical(patterns)| == |Trimmed(patterns)|;
  }

  // ---- Lists of tool names ----

  /** `parse_csv_values`. */
  function ParseCsv(raw: string): seq<string> {
    Trimmed(Split(raw, ','))
  }

  /** `tool_name_csv`. */
  function PrintCsv(names: seq<string>): string {
    Join(names, ",")
  }

  ghost predicate IsName(n: string) {
    n != [] && ',' !in n && IsTrimmed(n)
  }

  /** Parsing the printed list gives the list back. */
  lemma CsvRoundTrip(names: seq<string>)
    requires forall i :: 0 <= i < |names| ==> IsName(names[i])
    ensures ParseCsv(PrintCsv(names)) == names
  {
    if names == [] {
      var blank: seq<string> := [""];
      assert Split("", ',') == blank && blank[..0] == [];
    } else {
      SplitJoin(names, ',');
      forall x | x in names ensures x != [] && Trim(x) == x {
        var i :| 0 <= i < |names| && names[i] == x;
        TrimFixed(x);
      }
      TrimmedFixed(names);
    }
  }

  lemma {:induction false} TrimmedIsInfix(s: seq<string>, c: char)
    requires forall i :: 0 <= i < |s| ==> c !in s[i]
    ensures forall i :: 0 <= i < |Trimmed(s)| ==> c !in Trimmed(s)[i] && Trimmed(s)[i] != [] && IsTrimmed(Trimmed(s)[i])
  {
    if s != [] {
      TrimmedIsInfix(s[..|s| - 1], c);
      var pre, post := TrimSplits(s[|s| - 1]);
      hide Trim;
    }
  }

  /** Every parsed list consists of names, so printing and parsing it again changes nothing. */
  lemma ParsedAreNames(raw: string)
    ensures forall i :: 0 <= i < |ParseCsv(raw)| ==> IsName(ParseCsv(raw)[i])
    ensures ParseCsv(PrintCsv(ParseCsv(raw))) == ParseCsv(raw)
  {
    JoinSplit(raw, ',');
    TrimmedIsInfix(Split(raw, ','), ',');
    CsvRoundTrip(ParseCsv(raw));
  }

  // ---- Runtime presets ----

  datatype Preset = LocalDev | CiAudit | HostedDiscovery | HostedSqlTrusted

  datatype Transport = Stdio | StreamableHttp

  const CI_AUDIT_DENYLIST: seq<string> := ["execute_sql", "run_recipe"]

  const HOSTED_SQL_TRUSTED_DENYLIST: seq<string> := [
    "run_recipe", "reload_manifest", "warm_manifest", "show_config", "validate_config", "inspect_storage",
    "prune_storage", "cleanup_storage", "run_eval", "init_eval_suite", "run_agent_eval",
    "summarize_tool_trace", "redact_tool_trace", "replay_tool_trace"]

  const HOSTED_DISCOVERY_DENYLIST: seq<string> := ["execute_sql"] + HOSTED_SQL_TRUSTED_DENYLIST

  const DEFAULT_PROFILE: string := "agent"

  /** The denylist a preset installs, if it installs one. */
  function PresetDenylist(preset: Preset): Option<seq<string>> {
    match preset
    case LocalDev => None
    case CiAudit => Some(CI_AUDIT_DENYLIST)
    case HostedDiscovery => Some(HOSTED_DISCOVERY_DENYLIST)
    case HostedSqlTrusted => Some(HOSTED_SQL_TRUSTED_DENYLIST)
  }

  /** The tool catalogue: every tool, and the tools of each known profile. */
  datatype Catalog = Catalog(all: set<string>, profiles: map<string, set<string>>)

  function ProfileTools(catalog: Catalog, profile: string): set<string> {
    if profile in catalog.profiles then catalog.profiles[profile] else catalog.all
  }

  /** The tools eligible before denying: the allowlist, or the profile when it is empty. */
  function EligibleTools(catalog: Catalog, allowlist: string, profile: string): set<string> {
    var names := ParseCsv(allowlist);
    if names == [] then ProfileTools(catalog, profile) else set n | n in names
  }

  /** The configuration fields that presets and tool filters touch. */
  class ServerConfig {
    var preset: Preset
    var vectorSearch: bool
    var sparseSearch: bool
    var reranker: bool
    var transport: Transport
    var profile: string
    var allowlist: string
    var denylist: string

    constructor (profile: string, allowlist: string, denylist: string)
      ensures this.profile == profile && this.allowlist == allowlist && this.denylist == denylist
      ensures preset == LocalDev && transport == Stdio && vectorSearch && sparseSearch && reranker
    {
      preset, transport := LocalDev, Stdio;
      vectorSearch, sparseSearch, reranker := true, true, true;
      this.profile, this.allowlist, this.denylist := profile, allowlist, denylist;
    }

    /** `apply_runtime_preset`. */
    method ApplyRuntimePreset(p: Preset)
      modifies this
      ensures preset == p && allowlist == old(allowlist)
      ensures denylist == match PresetDenylist(p) case Some(d) => PrintCsv(d) case None => old(denylist)
      ensures profile == match p
                         case HostedDiscovery => DEFAULT_PROFILE
                         case HostedSqlTrusted => "analyst"
                         case _ => old(profile)
      ensures transport == if p.HostedDiscovery? || p.HostedSqlTrusted? then StreamableHttp else old(transport)
      ensures if p.CiAudit? then !vectorSearch && !sparseSearch && !reranker
              else vectorSearch == old(vectorSearch) && sparseSearch == old(sparseSearch) && reranker == old(reranker)
    {
      hide PrintCsv;
      preset := p;
      match p
      case LocalDev =>
      case CiAudit =>
        vectorSearch, sparseSearch, reranker := false, false, false;
        denylist := PrintCsv(CI_AUDIT_DENYLIST);
      case HostedDiscovery =>
        transport, profile := StreamableHttp, DEFAULT_PROFILE;
        denylist := PrintCsv(HOSTED_DISCOVERY_DENYLIST);
      case HostedSqlTrusted =>
        transport, profile := StreamableHttp, "analyst";
        denylist := PrintCsv(HOSTED_SQL_TRUSTED_DENYLIST);
    }

    /** `resolved_mcp_tool_names`. */
    method ResolvedToolNames(catalog: Catalog) returns (tools: set<string>)
      ensures tools == EligibleTools(catalog, allowlist, profile) - set n | n in ParseCsv(denylist)
      ensures ParseCsv(allowlist) != [] ==>
        forall n :: n in tools <==> n in ParseCsv(allowlist) && n !in ParseCsv(denylist)
      ensures ParseCsv(allowlist) == [] && profile in catalog.profiles ==>
        forall n :: n in tools <==> n in catalog.profiles[profile] && n !in ParseCsv(denylist)
      ensures ParseCsv(allowlist) == [] && profile !in catalog.profiles ==>
        forall n :: n in tools <==> n in catalog.all && n !in ParseCsv(denylist)
    {
      hide ParseCsv;
      tools := EligibleTools(catalog, allowlist, profile);
      var denied, i := ParseCsv(denylist), 0;
      while i < |denied|
        invariant 0 <= i <= |denied|
        invariant tools == EligibleTools(catalog, allowlist, profile) - set n | n in denied[..i]
      {
        assert denied[..i + 1] == denied[..i] + [denied[i]];
        tools := tools - {denied[i]};
        i := i + 1;
      }
      assert denied[..i] == denied;
    }

    /** After a preset that denies tools, with no later override, exactly the eligible tools that
        are not on the preset's list are exposed. */
    method ExposedAfterPreset(p: Preset, catalog: Catalog) returns (tools: set<string>)
      requires PresetDenylist(p).Some?
      modifies this
      ensures tools == EligibleTools(catalog, old(allowlist),
                         if p.HostedDiscovery? then "agent" else if p.HostedSqlTrusted? then "analyst" else old(profile))
                       - set n | n in PresetDenylist(p).value
      ensures "run_recipe" !in tools && (!p.HostedSqlTrusted? ==> "execute_sql" !in tools)
    {
      ApplyRuntimePreset(p);
      PresetNames(p);
      PresetDenies(p);
      CsvRoundTrip(PresetDenylist(p).value);
      hide ParseCsv, PrintCsv, EligibleTools;
      tools := ResolvedToolNames(catalog);
    }
  }

  /** Every denying preset denies recipes, and all but the trusted one deny SQL; the discovery preset
      denies whatever the trusted one does, and SQL; the trusted one does not deny SQL. */
  lemma PresetDenies(p: Preset)
    requires PresetDenylist(p).Some?
    ensures "run_recipe" in PresetDenylist(p).value
    ensures "execute_sql" in PresetDenylist(p).value <==> !p.HostedSqlTrusted?
    ensures forall n :: n in HOSTED_DISCOVERY_DENYLIST <==> n in HOSTED_SQL_TRUSTED_DENYLIST || n == "execute_sql"
  {
    assert CI_AUDIT_DENYLIST[0] == "execute_sql" && CI_AUDIT_DENYLIST[1] == "run_recipe";
    assert HOSTED_SQL_TRUSTED_DENYLIST[0] == "run_recipe" && HOSTED_DISCOVERY_DENYLIST[0] == "execute_sql";
    assert HOSTED_DISCOVERY_DENYLIST[1] == "run_recipe";
    forall i | 0 <= i < |HOSTED_SQL_TRUSTED_DENYLIST| ensures HOSTED_SQL_TRUSTED_DENYLIST[i] != "execute_sql" {
      assert HOSTED_SQL_TRUSTED_DENYLIST[i][0] != 'e';
    }
  }

  lemma PresetNames(p: Preset)
    requires PresetDenylist(p).Some?
    ensures forall i :: 0 <= i < |PresetDenylist(p).value| ==> IsName(PresetDenylist(p).value[i])
  {
    NamesA();
    NamesB();
    NamesC();
    NamesD();
    NamesE();
    assert IsName("execute_sql");
    hide IsName;
    forall i | 0 <= i < |HOSTED_SQL_TRUSTED_DENYLIST|
      ensures IsName(HOSTED_SQL_TRUSTED_DENYLIST[i])
      ensures HOSTED_DISCOVERY_DENYLIST[i + 1] == HOSTED_SQL_TRUSTED_DENYLIST[i]
    {
    }
    forall i | 0 <= i < |HOSTED_DISCOVERY_DENYLIST| ensures IsName(HOSTED_DISCOVERY_DENYLIST[i]) {
      if i > 0 {
        assert HOSTED_DISCOVERY_DENYLIST[i] == HOSTED_SQL_TRUSTED_DENYLIST[i - 1];
      }
    }
  }

  lemma NamesA()
    ensures forall i :: 0 <= i < 2 ==> IsName(CI_AUDIT_DENYLIST[i])
  {
    assert IsName("execute_sql") && IsName("run_recipe");
  }

  lemma NamesB()
    ensures forall i :: 0 <= i < 3 ==> IsName(HOSTED_SQL_TRUSTED_DENYLIST[i])
  {
    assert IsName("run_recipe") && IsName("reload_manifest") && IsName("warm_manifest");
  }

  lemma NamesC()
    ensures forall i :: 3 <= i < 7 ==> IsName(HOSTED_SQL_TRUSTED_DENYLIST[i])
  {
    assert IsName("show_config") && IsName("validate_config") && IsName("inspect_storage") && IsName("prune_storage");
  }

  lemma NamesD()
    ensures forall i :: 7 <= i < 11 ==> IsName(HOSTED_SQL_TRUSTED_DENYLIST[i])
  {
    assert IsName("cleanup_storage") && IsName("run_eval") && IsName("init_eval_suite") && IsName("run_agent_eval");
  }

  lemma NamesE()
    ensures forall i :: 11 <= i < 14 ==> IsName(HOSTED_SQL_TRUSTED_DENYLIST[i])
  {
    assert IsName("summarize_tool_trace") && IsName("redact_tool_trace") && IsName("replay_tool_trace");
  }
}
