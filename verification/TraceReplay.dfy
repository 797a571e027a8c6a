/** Rebuilding the parameters of a recorded tool call so that it can be replayed: a scan for
    sensitive content gates a step that copies and normalises the parameters a tool takes. */
module TraceReplay {
  import opened Wrappers
  import opened Octets
  import opened Text
  import J = Json

  type Params = map<string, J.Value>

  datatype Kind = RequiredString | OptionalString | OptionalStrings | OptionalBool | OptionalU64 | OptionalF64

  /** What `build_replay_params` copies for each tool, and how. */
  function Fields(tool: string): Option<map<string, Kind>> {
    if tool == "search" then
      Some(map["query" := RequiredString, "resource_types" := OptionalStrings, "persona" := OptionalString,
               "detail" := OptionalString, "min_score" := OptionalF64, "fuzzy" := OptionalBool,
               "include_highlights" := OptionalBool, "include_sql" := OptionalBool, "explain" := OptionalBool,
               "limit" := OptionalU64, "offset" := OptionalU64])
    else if tool == "search_indicator" then
      Some(map["query" := RequiredString, "resource_types" := OptionalStrings, "indicator_types" := OptionalStrings,
               "persona" := OptionalString, "detail" := OptionalString, "group_mode" := OptionalString,
               "max_parent_groups" := OptionalU64, "include_support_signals" := OptionalBool,
               "min_score" := OptionalF64, "explain" := OptionalBool, "limit" := OptionalU64, "offset" := OptionalU64])
    else if tool == "search_columns" then
      Some(map["query" := RequiredString, "resource_types" := OptionalStrings, "roles" := OptionalStrings,
               "semantic_types" := OptionalStrings, "min_score" := OptionalF64, "limit" := OptionalU64,
               "offset" := OptionalU64])
    else if tool == "get_entity" then
      Some(map["id_or_name" := RequiredString, "resource_type" := OptionalString, "detail" := OptionalString])
    else if tool == "get_context" then
      Some(map["id_or_name" := RequiredString, "resource_type" := OptionalString, "include_columns" := OptionalBool,
               "include_upstream" := OptionalBool, "include_downstream" := OptionalBool, "include_tests" := OptionalBool,
               "include_docs" := OptionalBool, "include_sql" := OptionalBool, "context_mode" := OptionalString,
               "lineage_depth" := OptionalU64, "upstream_limit" := OptionalU64, "downstream_limit" := OptionalU64])
    else if tool == "get_lineage" then
      Some(map["id_or_name" := RequiredString, "direction" := RequiredString, "depth" := OptionalU64,
               "resource_types" := OptionalStrings, "detail" := OptionalString])
    else None
  }

  /** Six tools can be replayed, and these parameters they cannot do without. */
  lemma ReplayedTools(tool: string)
    ensures Fields(tool).Some? <==>
      tool in ["search", "search_indicator", "search_columns", "get_entity", "get_context", "get_lineage"]
  {
    assert |"search"| == 6 && |"search_indicator"| == 16 && |"search_columns"| == 14;
    assert |"get_entity"| == 10 && |"get_context"| == 11 && |"get_lineage"| == 11;
  }

  lemma RequiredSearchFields(tool: string, key: string)
    requires tool in ["search", "search_indicator", "search_columns"]
    ensures Fields(tool).Some? && (key in Fields(tool).value && Fields(tool).value[key].RequiredString? <==> key == "query")
  {
  }

  lemma RequiredGetFields(tool: string, key: string)
    requires tool in ["get_entity", "get_context", "get_lineage"]
    ensures Fields(tool).Some?
    ensures key in Fields(tool).value && Fields(tool).value[key].RequiredString? <==>
      key == "id_or_name" || (tool == "get_lineage" && key == "direction")
  {
  }

  // ---- Copying one parameter ----

  /** `safe_replay_string`: the trimmed text, unless it is blank, redacted, or looks like a
      URL or a bearer credential. */
  function SafeString(v: J.Value): Option<string> {
    if !v.Str? then None
    else
      var t := Trim(v.s);
      if t == [] || t == "[REDACTED]" || Contains(t, "://") || Contains(Lower(t), "bearer ") then None else Some(t)
  }

  function SafeStrings(items: seq<J.Value>): Option<seq<J.Value>> {
    if items == [] then Some([])
    else
      var init, last := SafeStrings(items[..|items| - 1]), SafeString(items[|items| - 1]);
      if init.Some? && last.Some? then Some(init.value + [J.Str(last.value)]) else None
  }

  function AsF64(n: J.Num): real {
    match n
    case PosInt(u) => u as real
    case NegInt(i) => i as real
    case Float(r) => r
  }

  /** The copy of a present parameter, or nothing when it has the wrong shape. */
  function CopyValue(kind: Kind, v: J.Value): Option<J.Value> {
    match kind
    case RequiredString => CopyString(v)
    case OptionalString => CopyString(v)
    case OptionalStrings =>
      (match v
       case Arr(items) => (match SafeStrings(items) case Some(s) => Some(J.Arr(s)) case None => None)
       case _ => None)
    case OptionalBool => if v.Bool? then Some(v) else None
    case OptionalU64 => if v.Number? && v.num.PosInt? && v.num.u <= U64_MAX then Some(v) else None
    case OptionalF64 => if v.Number? then Some(J.Number(J.Float(AsF64(v.num)))) else None
  }

  function CopyString(v: J.Value): Option<J.Value> {
    match SafeString(v) case Some(s) => Some(J.Str(s)) case None => None
  }

  /** A text that may be replayed: not blank, not the redaction mark, and without a URL or a bearer
      credential in what trimming leaves. */
  ghost predicate Replayable(v: J.Value) {
    && v.Str? && !AllSpace(v.s) && Trim(v.s) != "[REDACTED]"
    && !Contains(Trim(v.s), "://") && !Contains(Lower(Trim(v.s)), "bearer ")
  }

  lemma SafeExactly(v: J.Value)
    ensures SafeString(v).Some? <==> Replayable(v)
  {
    if v.Str? {
      TrimBlank(v.s);
    }
    hide Contains;
  }

  lemma {:induction false} SafeStringsExactly(items: seq<J.Value>)
    ensures SafeStrings(items).Some? <==> forall i :: 0 <= i < |items| ==> Replayable(items[i])
  {
    hide Replayable, SafeString;
    if items != [] {
      SafeStringsExactly(items[..|items| - 1]);
      SafeExactly(items[|items| - 1]);
    }
  }

  /** Which values of which kind can be copied. */
  lemma CopyableExactly(kind: Kind, v: J.Value)
    ensures kind.RequiredString? || kind.OptionalString? ==> (CopyValue(kind, v).Some? <==> Replayable(v))
    ensures kind.OptionalStrings? ==>
      (CopyValue(kind, v).Some? <==> v.Arr? && forall i :: 0 <= i < |v.items| ==> Replayable(v.items[i]))
    ensures kind.OptionalBool? ==> (CopyValue(kind, v).Some? <==> v.Bool?)
    ensures kind.OptionalU64? ==> (CopyValue(kind, v).Some? <==> exists u: nat :: u <= U64_MAX && v == J.Number(J.PosInt(u)))
    ensures kind.OptionalF64? ==> (CopyValue(kind, v).Some? <==> v.Number?)
  {
    hide Replayable, SafeString, SafeStrings;
    SafeExactly(v);
    if v.Arr? {
      SafeStringsExactly(v.items);
    }
  }

  /** The parameter does not stand in the way of a replay. */
  predicate Copyable(kind: Kind, key: string, input: Params) {
    if key in input then CopyValue(kind, input[key]).Some? else !kind.RequiredString?
  }

  /** The replay parameters of a tool: present exactly when every field can be copied. */
  function Rebuild(fields: map<string, Kind>, input: Params): Option<Params> {
    if forall k | k in fields :: Copyable(fields[k], k, input)
    then Some(map k | k in fields && k in input :: CopyValue(fields[k], input[k]).value)
    else None
  }

  /** `build_replay_params`: the copies are made one after the other, in some order, and the
      first that fails ends the rebuild. */
  method BuildReplayParams(tool: string, input: Params, order: seq<string>) returns (r: Option<Params>)
    requires Fields(tool).Some? ==> forall k :: k in order <==> k in Fields(tool).value
    ensures Fields(tool).None? ==> r == None
    ensures Fields(tool).Some? ==> r == Rebuild(Fields(tool).value, input)
  {
    hide Fields, CopyValue;
    match Fields(tool)
    case None => r := None;
    case Some(fields) =>
      var out: Params, i := map[], 0;
      while i < |order|
        invariant 0 <= i <= |order|
        invariant forall j :: 0 <= j < i ==> Copyable(fields[order[j]], order[j], input)
        invariant forall k :: k in out <==> k in order[..i] && k in input
        invariant forall k :: k in out ==> out[k] == CopyValue(fields[k], input[k]).value
      {
        var k := order[i];
        assert order[..i + 1] == order[..i] + [k];
        if k in input {
          match CopyValue(fields[k], input[k])
          case None => return None;
          case Some(v) => out := out[k := v];
        } else if fields[k].RequiredString? {
          return None;
        }
        i := i + 1;
      }
      assert order[..i] == order;
      r := Some(out);
      assert out == Rebuild(fields, input).value;
  }

  // ---- Rebuilt parameters are a normal form ----

  /** The output value is the input value, with its strings trimmed. */
  ghost predicate TrimmedCopy(v: J.Value, w: J.Value) {
    match v
    case Str(s) => w == J.Str(Trim(s))
    case Arr(items) => w.Arr? && |w.items| == |items|
                       && forall i :: 0 <= i < |items| ==> items[i].Str? && w.items[i] == J.Str(Trim(items[i].s))
    case Number(n) => w.Number? && AsF64(w.num) == AsF64(n)
    case Bool(_) => w == v
    case _ => false
  }

  lemma SafeStringIdempotent(v: J.Value)
    requires SafeString(v).Some?
    ensures SafeString(J.Str(SafeString(v).value)) == SafeString(v)
    ensures v.Str? && SafeString(v).value == Trim(v.s)
  {
    TrimIdempotent(v.s);
  }

  lemma {:induction false} SafeStringsIdempotent(items: seq<J.Value>)
    requires SafeStrings(items).Some?
    ensures SafeStrings(SafeStrings(items).value) == SafeStrings(items)
    ensures TrimmedCopy(J.Arr(items), J.Arr(SafeStrings(items).value))
  {
    hide SafeString, Trim;
    if items != [] {
      var init, last := items[..|items| - 1], items[|items| - 1];
      SafeStringsIdempotent(init);
      SafeStringIdempotent(last);
      var out := SafeStrings(init).value;
      assert (out + [J.Str(SafeString(last).value)])[..|out|] == out;
    }
  }

  lemma CopyValueIdempotent(kind: Kind, v: J.Value)
    requires CopyValue(kind, v).Some?
    ensures CopyValue(kind, CopyValue(kind, v).value) == CopyValue(kind, v)
    ensures TrimmedCopy(v, CopyValue(kind, v).value)
  {
    hide SafeString, SafeStrings;
    match v
    case Str(_) => SafeStringIdempotent(v);
    case Arr(items) =>
      NotString(v);
      if kind.OptionalStrings? {
        SafeStringsIdempotent(items);
      }
    case _ => NotString(v);
  }

  lemma NotString(v: J.Value)
    requires !v.Str?
    ensures SafeString(v) == None
  {
  }

  /** Rebuilding succeeds on its own output and changes nothing; the output has exactly the
      whitelisted parameters of the input; and every value is the input value up to trimming. */
  lemma RebuildIsNormalForm(fields: map<string, Kind>, input: Params)
    requires Rebuild(fields, input).Some?
    ensures var out := Rebuild(fields, input).value;
            && Rebuild(fields, out) == Some(out)
            && out.Keys == fields.Keys * input.Keys
            && forall k :: k in out ==> TrimmedCopy(input[k], out[k])
  {
    hide CopyValue, TrimmedCopy;
    var out := Rebuild(fields, input).value;
    forall k | k in fields && k in input
      ensures CopyValue(fields[k], out[k]) == Some(out[k]) && TrimmedCopy(input[k], out[k])
    {
      assert Copyable(fields[k], k, input);
      CopyValueIdempotent(fields[k], input[k]);
    }
    forall k | k in fields ensures Copyable(fields[k], k, out) {
      assert Copyable(fields[k], k, input);
    }
    assert Rebuild(fields, out).value == out;
  }

  // ---- The scan ----

  const FRAGMENTS: seq<string> := [
    "authorization", "credential", "password", "passwd", "private_key", "secret", "session",
    "token", "access_key", "api_key", "apikey", "proof_key", "raw_output"]

  const URL_NEEDLES: seq<string> := ["token", "secret", "password", "api_key", "apikey"]

  predicate SensitiveFragment(s: string) {
    exists i | 0 <= i < |FRAGMENTS| :: Contains(Lower(s), FRAGMENTS[i])
  }

  predicate SensitiveText(s: string) {
    var lowered := Lower(s);
    || SensitiveFragment(s)
    || lowered == "[redacted]"
    || Contains(lowered, "bearer ")
    || Contains(lowered, "-----begin ")
    || (Contains(lowered, "://") && exists i | 0 <= i < |URL_NEEDLES| :: Contains(lowered, URL_NEEDLES[i]))
  }

  /** `value_contains_sensitive_signal`. */
  predicate Sensitive(v: J.Value) {
    match v
    case Str(s) => SensitiveText(s)
    case Arr(items) => exists i | 0 <= i < |items| :: Sensitive(items[i])
    case Obj(fields) => exists k | k in fields :: SensitiveFragment(k) || Sensitive(fields[k])
    case _ => false
  }

  predicate ParamsSensitive(params: Params) {
    exists k | k in params :: SensitiveFragment(k) || Sensitive(params[k])
  }

  /** `replay_params_for_row`, on the tool of a row and its parameter summary. */
  function ReplayParamsForRow(tool: string, summary: Option<J.Value>): Option<Params> {
    if tool == "execute_sql" || Fields(tool).None? then None
    else
      match summary
      case Some(Obj(params)) => if ParamsSensitive(params) then None else Rebuild(Fields(tool).value, params)
      case _ => None
  }

  /** All texts inside a value, member names included. */
  function Texts(v: J.Value): set<string> {
    match v
    case Str(s) => {s}
    case Arr(items) => set i, s | 0 <= i < |items| && s in Texts(items[i]) :: s
    case Obj(fields) => fields.Keys + set k, s | k in fields && s in Texts(fields[k]) :: s
    case _ => {}
  }

  /** The texts that are values, and the member names, anywhere inside a value. */
  function StringsIn(v: J.Value): set<string> {
    match v
    case Str(s) => {s}
    case Arr(items) => set i, s | 0 <= i < |items| && s in StringsIn(items[i]) :: s
    case Obj(fields) => set k, s | k in fields && s in StringsIn(fields[k]) :: s
    case _ => {}
  }

  function NamesIn(v: J.Value): set<string> {
    match v
    case Arr(items) => set i, s | 0 <= i < |items| && s in NamesIn(items[i]) :: s
    case Obj(fields) => fields.Keys + set k, s | k in fields && s in NamesIn(fields[k]) :: s
    case _ => {}
  }

  lemma {:induction false} TextsAreStringsAndNames(v: J.Value, s: string)
    ensures s in Texts(v) <==> s in StringsIn(v) || s in NamesIn(v)
  {
    match v
    case Arr(items) =>
      forall i | 0 <= i < |items| ensures s in Texts(items[i]) <==> s in StringsIn(items[i]) || s in NamesIn(items[i]) {
        TextsAreStringsAndNames(items[i], s);
      }
    case Obj(fields) =>
      forall k | k in fields ensures s in Texts(fields[k]) <==> s in StringsIn(fields[k]) || s in NamesIn(fields[k]) {
        TextsAreStringsAndNames(fields[k], s);
      }
    case _ =>
  }

  /** Some text in the value is sensitive, or some member name holds a flagged fragment. */
  ghost predicate HoldsSensitive(v: J.Value) {
    (exists s :: s in StringsIn(v) && SensitiveText(s)) || exists k :: k in NamesIn(v) && SensitiveFragment(k)
  }

  /** The recursive scan finds a sensitive signal exactly when there is one, however deep. */
  lemma {:induction false} ScanExactly(v: J.Value)
    ensures Sensitive(v) <==> HoldsSensitive(v)
  {
    hide SensitiveText, SensitiveFragment;
    match v
    case Arr(items) =>
      forall i | 0 <= i < |items| ensures Sensitive(items[i]) <==> HoldsSensitive(items[i]) {
        ScanExactly(items[i]);
      }
      ArrHolds(items);
    case Obj(fields) =>
      forall k | k in fields ensures Sensitive(fields[k]) <==> HoldsSensitive(fields[k]) {
        ScanExactly(fields[k]);
      }
      ObjHolds(fields);
    case Str(s) =>
      assert s in StringsIn(v);
    case _ =>
  }

  lemma ArrHolds(items: seq<J.Value>)
    ensures HoldsSensitive(J.Arr(items)) <==> exists i :: 0 <= i < |items| && HoldsSensitive(items[i])
  {
    hide SensitiveText, SensitiveFragment;
    var v := J.Arr(items);
    forall i, s | 0 <= i < |items| && s in StringsIn(items[i]) ensures s in StringsIn(v) {}
    forall i, s | 0 <= i < |items| && s in NamesIn(items[i]) ensures s in NamesIn(v) {}
  }

  lemma ObjHolds(fields: map<string, J.Value>)
    ensures HoldsSensitive(J.Obj(fields)) <==> exists k :: k in fields && (SensitiveFragment(k) || HoldsSensitive(fields[k]))
  {
    hide SensitiveText, SensitiveFragment;
    var v := J.Obj(fields);
    forall k, s | k in fields && s in StringsIn(fields[k]) ensures s in StringsIn(v) {}
    forall k, s | k in fields && s in NamesIn(fields[k]) ensures s in NamesIn(v) {}
    forall k | k in fields ensures k in NamesIn(v) {}
  }

  /** What the scan looks for in URLs it looks for everywhere: that clause adds nothing. */
  lemma UrlClauseAddsNothing(s: string)
    ensures SensitiveText(s) <==>
      || SensitiveFragment(s) || Lower(s) == "[redacted]"
      || Contains(Lower(s), "bearer ") || Contains(Lower(s), "-----begin ")
  {
    hide Contains;
    assert FRAGMENTS[7] == URL_NEEDLES[0] && FRAGMENTS[5] == URL_NEEDLES[1] && FRAGMENTS[2] == URL_NEEDLES[2];
    assert FRAGMENTS[9] == URL_NEEDLES[3] && FRAGMENTS[10] == URL_NEEDLES[4];
  }

  /** Ignoring ASCII case, the text holds none of the marks of a credential. */
  ghost predicate Clean(s: string) {
    && !SensitiveFragment(s)
    && !Contains(Lower(s), "bearer ")
    && !Contains(Lower(s), "-----begin ")
    && !Contains(Lower(s), "://")
  }

  /** A string that passes the scan stays clean when it is trimmed. */
  lemma SafeStringClean(s: string)
    requires !SensitiveText(s) && SafeString(J.Str(s)).Some?
    ensures Clean(Trim(s))
  {
    var t := Trim(s);
    if SensitiveFragment(t) {
      var i :| 0 <= i < |FRAGMENTS| && Contains(Lower(t), FRAGMENTS[i]);
      LowerTrimContains(s, FRAGMENTS[i]);
    }
    if Contains(Lower(t), "-----begin ") {
      LowerTrimContains(s, "-----begin ");
    }
    if Contains(Lower(t), "://") {
      LowerOfSchemeMark(t);
    }
  }

  lemma LowerOfSchemeMark(t: string)
    requires Contains(Lower(t), "://")
    ensures Contains(t, "://")
  {
    var i :| 0 <= i <= |Lower(t)| && OccursAt(Lower(t), "://", i);
    var w := Lower(t)[i..i + 3];
    assert w[0] == ':' && w[1] == '/' && w[2] == '/';
    assert t[i..i + 3] == "://";
    assert OccursAt(t, "://", i);
  }

  lemma CopyIsClean(kind: Kind, v: J.Value, s: string)
    requires !Sensitive(v) && CopyValue(kind, v).Some? && s in Texts(CopyValue(kind, v).value)
    ensures Clean(s)
  {
    hide SensitiveText, SafeString, SafeStrings;
    CopyValueIdempotent(kind, v);
    match v
    case Str(x) =>
      SafeStringIdempotent(v);
      SafeStringClean(x);
    case Arr(items) =>
      var w := SafeStrings(items).value;
      var i :| 0 <= i < |w| && s in Texts(w[i]);
      SafeStringsMember(items, i);
      assert !Sensitive(items[i]);
      SafeStringClean(items[i].s);
    case _ =>
      NotString(v);
  }

  lemma {:induction false} SafeStringsMember(items: seq<J.Value>, i: nat)
    requires SafeStrings(items).Some? && i < |items|
    ensures SafeString(items[i]).Some?
    ensures |SafeStrings(items).value| == |items| && SafeStrings(items).value[i] == J.Str(SafeString(items[i]).value)
  {
    if i < |items| - 1 {
      SafeStringsMember(items[..|items| - 1], i);
    } else if i > 0 {
      SafeStringsMember(items[..|items| - 1], i - 1);
    }
  }

  /** For every row whose parameters are rebuilt, no text anywhere in them holds a flagged
      fragment, a bearer credential, a key block or a URL, and no parameter name holds a
      flagged fragment. */
  lemma ReplayedParamsClean(tool: string, summary: Option<J.Value>)
    requires ReplayParamsForRow(tool, summary).Some?
    ensures var out := ReplayParamsForRow(tool, summary).value;
            && (forall k, s :: k in out && s in Texts(out[k]) ==> Clean(s))
            && (forall k :: k in out ==> !SensitiveFragment(k))
  {
    hide Fields, CopyValue, Sensitive, SensitiveFragment, Clean, Texts;
    var fields, input := Fields(tool).value, summary.value.fields;
    var out := ReplayParamsForRow(tool, summary).value;
    forall k, s | k in out && s in Texts(out[k]) ensures Clean(s) {
      assert Copyable(fields[k], k, input);
      CopyIsClean(fields[k], input[k], s);
    }
  }

  // ---- Rebuilt parameters need not pass the scan again ----

  /** The rebuild compares a trimmed text with one spelling of the redaction mark only, the
      scan an untrimmed one with all spellings. */
  ghost predicate HidesMark(v: J.Value) {
    match v
    case Str(s) => Lower(Trim(s)) == "[redacted]"
    case Arr(items) => exists i :: 0 <= i < |items| && items[i].Str? && Lower(Trim(items[i].s)) == "[redacted]"
    case _ => false
  }

  lemma CleanSensitive(s: string)
    requires Clean(s)
    ensures SensitiveText(s) <==> Lower(s) == "[redacted]"
  {
    hide SensitiveFragment, Contains;
  }

  lemma CopySensitive(kind: Kind, v: J.Value)
    requires !Sensitive(v) && CopyValue(kind, v).Some?
    ensures Sensitive(CopyValue(kind, v).value) <==> HidesMark(v)
  {
    hide SensitiveText, SafeString, SafeStrings, Clean;
    var w := CopyValue(kind, v).value;
    CopyValueIdempotent(kind, v);
    match v
    case Str(x) =>
      CopyIsClean(kind, v, w.s);
      CleanSensitive(w.s);
    case Arr(items) =>
      forall i | 0 <= i < |items| ensures Sensitive(w.items[i]) <==> Lower(Trim(items[i].s)) == "[redacted]" {
        assert w.items[i] == J.Str(Trim(items[i].s)) && w.items[i].s in Texts(w.items[i]);
        assert w.items[i].s in Texts(w);
        CopyIsClean(kind, v, w.items[i].s);
        CleanSensitive(w.items[i].s);
      }
    case _ =>
      NotString(v);
  }

  /** Rebuilt parameters fail a second scan exactly when some copied input text is, once
      trimmed, a spelling of the redaction mark. */
  lemma RescanFailsExactly(tool: string, input: Params)
    requires ReplayParamsForRow(tool, Some(J.Obj(input))).Some?
    ensures var out := ReplayParamsForRow(tool, Some(J.Obj(input))).value;
            ParamsSensitive(out) <==> exists k :: k in out && HidesMark(input[k])
  {
    ReplayedParamsClean(tool, Some(J.Obj(input)));
    hide Fields, CopyValue, Sensitive, SensitiveFragment, HidesMark, Clean, Texts;
    var fields := Fields(tool).value;
    var out := ReplayParamsForRow(tool, Some(J.Obj(input))).value;
    forall k | k in out ensures Sensitive(out[k]) <==> HidesMark(input[k]) {
      assert Copyable(fields[k], k, input);
      CopySensitive(fields[k], input[k]);
    }
  }

  lemma ContainsChar(s: string, needle: string, i: nat)
    requires Contains(s, needle) && i < |needle|
    ensures needle[i] in s
  {
    var j :| 0 <= j <= |s| && OccursAt(s, needle, j);
    assert s[j..j + |needle|][i] == s[j + i];
  }

  lemma LacksChar(s: string, needle: string, i: nat)
    requires i < |needle| && needle[i] !in s
    ensures !Contains(s, needle)
  {
    if Contains(s, needle) {
      ContainsChar(s, needle, i);
    }
  }

  lemma LowerFixed(s: string)
    requires forall c :: c in s ==> !('A' <= c <= 'Z')
    ensures Lower(s) == s
  {
    forall i | 0 <= i < |s| ensures LowerChar(s[i]) == s[i] {
      assert s[i] in s;
    }
  }

  /** A text without the characters u, p, s, w, c or n holds no fragment that needs one. */
  lemma NoFragment(s: string)
    requires Lower(s) == s
    requires 'u' !in s && 'p' !in s && 's' !in s && 'w' !in s
    requires ('c' !in s && 't' !in s) || ('n' !in s && 'o' !in s)
    ensures !SensitiveFragment(s)
  {
    if SensitiveFragment(s) {
      var i :| 0 <= i < |FRAGMENTS| && Contains(s, FRAGMENTS[i]);
      var f := FRAGMENTS[i];
      var at := if i == 0 || i == 9 || i == 10 then 1 else if i == 12 then 2 else if i == 8 then 4 else 0;
      ContainsChar(s, f, at);
      ContainsChar(s, f, if i == 1 then 5 else if i == 7 then 1 else 0);
    }
  }

  /** An input that shows it: a redaction mark behind a blank is replayed as the bare mark,
      which the scan refuses. */
  lemma RescanCounterexample()
    ensures var input: Params := map["id_or_name" := J.Str(" [redacted]")];
            var out: Params := map["id_or_name" := J.Str("[redacted]")];
            && ReplayParamsForRow("get_entity", Some(J.Obj(input))) == Some(out)
            && ReplayParamsForRow("get_entity", Some(J.Obj(out))) == None
  {
    var input: Params := map["id_or_name" := J.Str(" [redacted]")];
    var out: Params := map["id_or_name" := J.Str("[redacted]")];
    BlankMarkPasses();
    NameIsHarmless();
    hide SensitiveFragment, Contains, SensitiveText, SafeString;
    assert "id_or_name" in input && "id_or_name" in out;
    assert !ParamsSensitive(input);
    assert ParamsSensitive(out) by { assert Sensitive(out["id_or_name"]); }
    assert Rebuild(Fields("get_entity").value, input).value == out;
  }

  /** A text without the characters that every mark needs passes the scan. */
  lemma QuietText(s: string)
    requires Lower(s) == s && !SensitiveFragment(s) && s != "[redacted]"
    requires 'b' !in s && '-' !in s && ':' !in s
    ensures !SensitiveText(s)
  {
    hide Contains, SensitiveFragment, Lower;
    LacksChar(s, "bearer ", 0);
    LacksChar(s, "-----begin ", 0);
    LacksChar(s, "://", 0);
  }

  lemma BlankMarkChars(s: string)
    requires s == " [redacted]"
    ensures |s| == 11 && forall c :: c in s ==> c == ' ' || c == '[' || c == ']' || c in "redact"
  {
  }

  lemma MarkLetters(s: string)
    requires forall c :: c in s ==> c == ' ' || c == '[' || c == ']' || c in "redact"
    ensures 'u' !in s && 'p' !in s && 's' !in s && 'w' !in s && 'n' !in s && 'o' !in s
    ensures 'b' !in s && '-' !in s && ':' !in s
    ensures forall c :: c in s ==> !('A' <= c <= 'Z')
  {
  }

  lemma BlankMarkPasses()
    ensures !SensitiveText(" [redacted]") && SensitiveText("[redacted]")
    ensures SafeString(J.Str(" [redacted]")) == Some("[redacted]")
  {
    hide *;
    MarkIsSafe();
    var s := " [redacted]";
    BlankMarkChars(s);
    MarkLetters(s);
    LowerFixed(s);
    NoFragment(s);
    QuietText(s);
  }

  lemma MarkIsSafe()
    ensures SensitiveText("[redacted]")
    ensures SafeString(J.Str(" [redacted]")) == Some("[redacted]")
  {
    var t := "[redacted]";
    assert Lower(t) == t by { LowerFixed(t); }
    hide Contains, SensitiveFragment, Lower;
    LacksChar(t, "bearer ", 0);
    LacksChar(t, "://", 0);
    assert " [redacted]" == " " + t + [];
    TrimUnique(" ", t, []);
    assert t[1] == 'r' && "[REDACTED]"[1] == 'R';
  }

  lemma NameIsHarmless()
    ensures !SensitiveFragment("id_or_name")
  {
    LowerFixed("id_or_name");
    NoFragment("id_or_name");
  }
}
