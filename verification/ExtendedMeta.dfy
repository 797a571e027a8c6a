/** Extraction of configured metadata values from an entity, capped in number and in bytes. */
module ExtendedMeta {
  import opened Wrappers
  import opened Ordering
  import opened Text
  import opened Utf8
  import J = Json

  datatype Path = Entity(segments: seq<string>) | ColumnWildcard(segments: seq<string>)

  datatype Mode = Keyword | Words | StringArray | Boolean

  datatype MetaValue = MetaValue(column: Option<string>, value: string)

  datatype CappedValues = CappedValues(values: seq<MetaValue>, dropped: nat, truncated: nat)

  /** `ExtendedMetaPath::from_config_path`. */
  function FromConfigPath(path: string): Path {
    var segments := Split(Trim(path), '.');
    if |segments| >= 4 && segments[0] == "columns" && segments[1] == "*" && segments[2] == "meta"
    then ColumnWildcard(segments[3..])
    else Entity(segments[1..])
  }

  /** Printing a path the way the configuration writes it and parsing it again gives the path
      back, except that an entity path must not look like a column wildcard. */
  lemma ConfigPathRoundTrip(head: string, segments: seq<string>)
    requires IsTrimmed(Join([head] + segments, ".")) && '.' !in head
    requires forall i :: 0 <= i < |segments| ==> '.' !in segments[i]
    ensures FromConfigPath(Join([head] + segments, ".")) ==
      if |segments| >= 3 && head == "columns" && segments[0] == "*" && segments[1] == "meta"
      then ColumnWildcard(segments[2..]) else Entity(segments)
  {
    hide Split, Join, Trim;
    var all := [head] + segments;
    assert Trim(Join(all, ".")) == Join(all, ".") by { TrimFixed(Join(all, ".")); }
    assert Split(Join(all, "."), '.') == all by { SplitJoin(all, '.'); }
    assert all[1..] == segments;
    assert |segments| >= 2 ==> all[3..] == segments[2..];
  }

  // ---- Merged metadata ----

  /** `merge_json_value`: the overlay wins, member by member, and null never overwrites. */
  function Merge(target: J.Value, overlay: J.Value): J.Value
    decreases overlay
  {
    if overlay.Null? then target
    else if target.Obj? && overlay.Obj? then
      J.Obj(map k | k in target.fields.Keys + overlay.fields.Keys ::
              if k !in overlay.fields then target.fields[k]
              else if k in target.fields then Merge(target.fields[k], overlay.fields[k])
              else overlay.fields[k])
    else overlay
  }

  /** `normalized_entity_meta_json` and `normalized_column_meta_json`. */
  function NormalizedMeta(v: J.Value): Option<J.Value> {
    var legacy := NonNull(J.Get(v, "meta"));
    var config := match J.Get(v, "config")
                  case Some(c) => NonNull(J.Get(c, "meta"))
                  case None => None;
    if legacy.Some? && legacy.value.Obj? && config.Some? && config.value.Obj? then
      Some(Merge(config.value, legacy.value))
    else if legacy.Some? then legacy
    else config
  }

  function NonNull(v: Option<J.Value>): Option<J.Value> {
    if v.Some? && v.value.Null? then None else v
  }

  /** `value_at_path`: follow object members; null at the end is nothing. */
  function ValueAtPath(root: J.Value, segments: seq<string>): Option<J.Value> {
    if segments == [] then NonNull(Some(root))
    else
      match J.Get(root, segments[0])
      case Some(child) => ValueAtPath(child, segments[1..])
      case None => None
  }

  /** The same walk as the source writes it, replacing one cursor. */
  method WalkPath(root: J.Value, segments: seq<string>) returns (r: Option<J.Value>)
    ensures r == ValueAtPath(root, segments)
  {
    var current, i := root, 0;
    while i < |segments|
      invariant 0 <= i <= |segments|
      invariant ValueAtPath(root, segments) == ValueAtPath(current, segments[i..])
    {
      match J.Get(current, segments[i])
      case None => return None;
      case Some(child) =>
        assert segments[i..][1..] == segments[i + 1..];
        current := child;
      i := i + 1;
    }
    r := if current.Null? then None else Some(current);
  }

  /** The value has nothing to say about the path: it is null, or an object that stops short. */
  predicate Silent(v: J.Value, segments: seq<string>)
    decreases |segments|
  {
    || v.Null?
    || (v.Obj? && segments != [] &&
        (segments[0] !in v.fields || Silent(v.fields[segments[0]], segments[1..])))
  }

  lemma {:induction false} SilentHasNothing(v: J.Value, segments: seq<string>)
    requires Silent(v, segments)
    ensures ValueAtPath(v, segments) == None
    decreases |segments|
  {
    if !v.Null? && segments[0] in v.fields {
      SilentHasNothing(v.fields[segments[0]], segments[1..]);
    }
  }

  /** Looking up a path in merged metadata: where the overlay is silent the target answers;
      where it speaks it answers alone, except that two objects at the path are merged. */
  lemma {:induction false} MergeLookup(target: J.Value, overlay: J.Value, segments: seq<string>)
    ensures ValueAtPath(Merge(target, overlay), segments) ==
      if Silent(overlay, segments) then ValueAtPath(target, segments)
      else
        var o := ValueAtPath(overlay, segments);
        var t := ValueAtPath(target, segments);
        if o.Some? && o.value.Obj? && t.Some? && t.value.Obj? then Some(Merge(t.value, o.value)) else o
    decreases |segments|
  {
    if !overlay.Null? && segments != [] {
      var k := segments[0];
      if overlay.Obj? && k in overlay.fields {
        if target.Obj? && k in target.fields {
          MergeLookup(target.fields[k], overlay.fields[k], segments[1..]);
        } else if Silent(overlay.fields[k], segments[1..]) {
          SilentHasNothing(overlay.fields[k], segments[1..]);
        }
      }
    }
  }

  // ---- Raw values ----

  /** `values_for_mode`; `show` prints a number. */
  function ValuesForMode(v: J.Value, mode: Mode, show: J.Num -> string): seq<string> {
    match mode
    case Keyword => ScalarText(v, show)
    case Words => ScalarText(v, show)
    case StringArray => if v.Arr? then Strings(v.items) else []
    case Boolean => if v.Bool? then [if v.b then "true" else "false"] else []
  }

  function ScalarText(v: J.Value, show: J.Num -> string): seq<string> {
    if v.Str? then [v.s] else if v.Number? then [show(v.num)] else []
  }

  function Strings(items: seq<J.Value>): seq<string> {
    if items == [] then []
    else (if items[0].Str? then [items[0].s] else []) + Strings(items[1..])
  }

  function Tagged(column: Option<string>, values: seq<string>): seq<MetaValue> {
    seq(|values|, i requires 0 <= i < |values| => MetaValue(column, values[i]))
  }

  function MetaValues(owner: J.Value, column: Option<string>, segments: seq<string>, mode: Mode, show: J.Num -> string)
    : seq<MetaValue>
  {
    match NormalizedMeta(owner)
    case None => []
    case Some(meta) =>
      match ValueAtPath(meta, segments)
      case None => []
      case Some(v) => Tagged(column, ValuesForMode(v, mode, show))
  }

  /** The values at a path of one metadata object. */
  function ValuesAt(meta: J.Value, column: Option<string>, segments: seq<string>, mode: Mode, show: J.Num -> string)
    : seq<MetaValue>
  {
    match ValueAtPath(meta, segments)
    case None => []
    case Some(v) => Tagged(column, ValuesForMode(v, mode, show))
  }

  function OwnMeta(owner: J.Value): Option<J.Value> {
    J.Get(owner, "meta")
  }

  function ConfigMeta(owner: J.Value): Option<J.Value> {
    match J.Get(owner, "config")
    case Some(config) => J.Get(config, "meta")
    case None => None
  }

  /** Where the values of an entity or a column come from: from its own metadata, unless that is
      missing or null, or both are objects and its own one is silent about the path; then from the
      metadata of its configuration, if that is there and not null. */
  lemma OwnerValues(owner: J.Value, column: Option<string>, segments: seq<string>, mode: Mode, show: J.Num -> string)
    ensures var own, config := OwnMeta(owner), ConfigMeta(owner);
            MetaValues(owner, column, segments, mode, show) ==
            if own.Some? && !own.value.Null?
               && !(own.value.Obj? && config.Some? && config.value.Obj? && Silent(own.value, segments))
            then ValuesAt(own.value, column, segments, mode, show)
            else if config.Some? && !config.value.Null? then ValuesAt(config.value, column, segments, mode, show)
            else []
  {
    hide Merge, Silent, ValueAtPath;
    var own, config := OwnMeta(owner), ConfigMeta(owner);
    if own.Some? && own.value.Obj? && config.Some? && config.value.Obj? {
      MergeLookup(config.value, own.value, segments);
      var o, t := ValueAtPath(own.value, segments), ValueAtPath(config.value, segments);
      if o.Some? && o.value.Obj? && t.Some? && t.value.Obj? {
        MergeIsObject(t.value, o.value);
        ObjectsHaveNoValues(Merge(t.value, o.value), o.value, mode, show);
      }
    }
  }

  lemma MergeIsObject(target: J.Value, overlay: J.Value)
    requires target.Obj? && overlay.Obj?
    ensures Merge(target, overlay).Obj?
  {
  }

  lemma ObjectsHaveNoValues(v: J.Value, w: J.Value, mode: Mode, show: J.Num -> string)
    requires v.Obj? && w.Obj?
    ensures ValuesForMode(v, mode, show) == [] && ValuesForMode(w, mode, show) == []
  {
  }

  /** The same of the values an entity path collects. */
  lemma EntityValues(entity: J.Value, segments: seq<string>, mode: Mode, show: J.Num -> string, order: seq<string>)
    ensures var own, config := OwnMeta(entity), ConfigMeta(entity);
            Raw(entity, Entity(segments), mode, show, order) ==
            if own.Some? && !own.value.Null?
               && !(own.value.Obj? && config.Some? && config.value.Obj? && Silent(own.value, segments))
            then ValuesAt(own.value, None, segments, mode, show)
            else if config.Some? && !config.value.Null? then ValuesAt(config.value, None, segments, mode, show)
            else []
  {
    hide MetaValues, Silent, ValuesAt;
    OwnerValues(entity, None, segments, mode, show);
  }

  /** What each mode takes: a text or a number; the texts of a list, in order; a truth value. */
  lemma ModesTake(s: string, n: J.Num, items: seq<J.Value>, b: bool, fields: map<string, J.Value>, mode: Mode, show: J.Num -> string)
    ensures ValuesForMode(J.Str(s), mode, show) == if mode.Keyword? || mode.Words? then [s] else []
    ensures ValuesForMode(J.Number(n), mode, show) == if mode.Keyword? || mode.Words? then [show(n)] else []
    ensures mode.StringArray? ==>
      |ValuesForMode(J.Arr(items), mode, show)| <= |items|
      && forall t :: t in ValuesForMode(J.Arr(items), mode, show) <==> J.Str(t) in items
    ensures !mode.StringArray? ==> ValuesForMode(J.Arr(items), mode, show) == []
    ensures ValuesForMode(J.Bool(b), mode, show) == if mode.Boolean? then [if b then "true" else "false"] else []
    ensures ValuesForMode(J.Obj(fields), mode, show) == ValuesForMode(J.Null, mode, show) == []
  {
    if mode.StringArray? {
      StringsMembers(items);
    }
  }

  lemma {:induction false} StringsMembers(items: seq<J.Value>)
    ensures |Strings(items)| <= |items| && forall t :: t in Strings(items) <==> J.Str(t) in items
  {
    if items != [] {
      StringsMembers(items[1..]);
      assert items == [items[0]] + items[1..];
    }
  }

  /** Texts come in the order of the list. */
  lemma {:induction false} StringsAppend(a: seq<J.Value>, b: seq<J.Value>)
    ensures Strings(a + b) == Strings(a) + Strings(b)
  {
    if a == [] {
      assert a + b == b;
    } else {
      StringsAppend(a[1..], b);
      assert (a + b)[1..] == a[1..] + b;
    }
  }

  /** The values of the named columns, column after column. */
  function ColumnValues(columns: map<string, J.Value>, names: seq<string>, segments: seq<string>,
                        mode: Mode, show: J.Num -> string): seq<MetaValue>
  {
    if names == [] then []
    else
      var last := names[|names| - 1];
      ColumnValues(columns, names[..|names| - 1], segments, mode, show)
      + (if last in columns then MetaValues(columns[last], Some(last), segments, mode, show) else [])
  }

  /** One listing of the members of an object, in whatever order the map yields them. */
  ghost predicate Enumerates(order: seq<string>, fields: map<string, J.Value>) {
    multiset(order) == multiset(fields.Keys)
  }

  /** `order` lists the columns a wildcard ranges over, if there are any. */
  ghost predicate ListsColumns(entity: J.Value, path: Path, order: seq<string>) {
    path.ColumnWildcard? ==>
      match J.Get(entity, "columns")
      case Some(Obj(columns)) => Enumerates(order, columns)
      case _ => true
  }

  function Raw(entity: J.Value, path: Path, mode: Mode, show: J.Num -> string, order: seq<string>): seq<MetaValue> {
    match path
    case Entity(segments) => MetaValues(entity, None, segments, mode, show)
    case ColumnWildcard(segments) =>
      match J.Get(entity, "columns")
      case Some(Obj(columns)) => ColumnValues(columns, Sort(StringLe, order), segments, mode, show)
      case _ => []
  }

  /** `collect_extended_meta_values`; `order` is the listing `columns.keys()` happens to give. */
  method CollectValues(entity: J.Value, path: Path, mode: Mode, show: J.Num -> string, order: seq<string>)
    returns (out: seq<MetaValue>)
    requires ListsColumns(entity, path, order)
    ensures out == Raw(entity, path, mode, show, order)
    ensures forall other :: ListsColumns(entity, path, other) ==> out == Raw(entity, path, mode, show, other)
  {
    hide MetaValues, Sort, StringLe, ListsColumns;
    forall other | ListsColumns(entity, path, other)
      ensures Raw(entity, path, mode, show, order) == Raw(entity, path, mode, show, other)
    {
      RawOrderIrrelevant(entity, path, mode, show, order, other);
    }
    match path
    case Entity(segments) =>
      out := MetaValues(entity, None, segments, mode, show);
    case ColumnWildcard(segments) =>
      out := [];
      match J.Get(entity, "columns")
      case Some(Obj(columns)) =>
        var names := Sort(StringLe, order);
        var i := 0;
        while i < |names|
          invariant 0 <= i <= |names|
          invariant out == ColumnValues(columns, names[..i], segments, mode, show)
        {
          assert names[..i + 1][..i] == names[..i];
          if names[i] in columns {
            out := out + MetaValues(columns[names[i]], Some(names[i]), segments, mode, show);
          }
          i := i + 1;
        }
        assert names[..i] == names;
      case _ =>
  }

  /** For column wildcards the collected values do not depend on the order in which the column
      map is iterated, and the columns come in ascending order of their names. */
  lemma ColumnOrderIrrelevant(columns: map<string, J.Value>, a: seq<string>, b: seq<string>)
    requires Enumerates(a, columns) && Enumerates(b, columns)
    ensures Sort(StringLe, a) == Sort(StringLe, b)
    ensures IsSorted(StringLe, Sort(StringLe, a))
    ensures forall k :: k in Sort(StringLe, a) <==> k in columns
  {
    StringLeIsTotalOrder();
    SortCanonical(StringLe, a, b);
    SortSorted(StringLe, a);
    forall k ensures k in Sort(StringLe, a) <==> k in columns {
      assert k in Sort(StringLe, a) <==> k in multiset(Sort(StringLe, a));
      assert k in multiset(columns.Keys) <==> k in columns;
    }
  }

  /** So the collected values are the same for every order in which the columns are listed. */
  lemma RawOrderIrrelevant(entity: J.Value, path: Path, mode: Mode, show: J.Num -> string, a: seq<string>, b: seq<string>)
    requires ListsColumns(entity, path, a) && ListsColumns(entity, path, b)
    ensures Raw(entity, path, mode, show, a) == Raw(entity, path, mode, show, b)
  {
    hide Sort, ColumnValues;
    if path.ColumnWildcard? {
      match J.Get(entity, "columns")
      case Some(Obj(columns)) => ColumnOrderIrrelevant(columns, a, b);
      case _ =>
    }
  }

  lemma {:induction false} ColumnValuesMember(columns: map<string, J.Value>, names: seq<string>, segments: seq<string>,
                                              mode: Mode, show: J.Num -> string, x: MetaValue)
    ensures x in ColumnValues(columns, names, segments, mode, show) <==>
      exists c :: c in names && c in columns && x in MetaValues(columns[c], Some(c), segments, mode, show)
  {
    hide MetaValues;
    if names != [] {
      var init, last := names[..|names| - 1], names[|names| - 1];
      ColumnValuesMember(columns, init, segments, mode, show, x);
      assert forall c :: c in names <==> c in init || c == last;
    }
  }

  lemma MetaValuesColumn(owner: J.Value, column: Option<string>, segments: seq<string>, mode: Mode, show: J.Num -> string, i: nat)
    requires i < |MetaValues(owner, column, segments, mode, show)|
    ensures MetaValues(owner, column, segments, mode, show)[i].column == column
  {
  }

  lemma {:induction false} ColumnValuesAscend(columns: map<string, J.Value>, names: seq<string>, segments: seq<string>,
                                              mode: Mode, show: J.Num -> string, i: nat, j: nat)
    requires IsSorted(StringLe, names) && i < j < |ColumnValues(columns, names, segments, mode, show)|
    ensures var out := ColumnValues(columns, names, segments, mode, show);
            out[i].column.Some? && out[j].column.Some? && StringLe(out[i].column.value, out[j].column.value)
  {
    hide StringLe, MetaValues;
    var init, last := names[..|names| - 1], names[|names| - 1];
    var before := ColumnValues(columns, init, segments, mode, show);
    var out := ColumnValues(columns, names, segments, mode, show);
    if j < |before| {
      ColumnValuesAscend(columns, init, segments, mode, show, i, j);
    } else {
      MetaValuesColumn(columns[last], Some(last), segments, mode, show, j - |before|);
      StringLeTotal(last, last);
      if i < |before| {
        ColumnValuesMember(columns, init, segments, mode, show, before[i]);
        var c :| c in init && c in columns && before[i] in MetaValues(columns[c], Some(c), segments, mode, show);
        var k :| 0 <= k < |MetaValues(columns[c], Some(c), segments, mode, show)|
                 && MetaValues(columns[c], Some(c), segments, mode, show)[k] == before[i];
        MetaValuesColumn(columns[c], Some(c), segments, mode, show, k);
        var n :| 0 <= n < |init| && init[n] == c;
        assert names[n] == c;
      } else {
        MetaValuesColumn(columns[last], Some(last), segments, mode, show, i - |before|);
      }
    }
  }

  lemma RawOfWildcard(entity: J.Value, columns: map<string, J.Value>, segments: seq<string>,
                      mode: Mode, show: J.Num -> string, order: seq<string>)
    requires J.Get(entity, "columns") == Some(J.Obj(columns))
    ensures Raw(entity, ColumnWildcard(segments), mode, show, order)
         == ColumnValues(columns, Sort(StringLe, order), segments, mode, show)
  {
    hide Sort, ColumnValues;
  }

  /** A column wildcard collects exactly the values of every column. */
  lemma WildcardCollects(entity: J.Value, columns: map<string, J.Value>, segments: seq<string>,
                         mode: Mode, show: J.Num -> string, order: seq<string>, x: MetaValue)
    requires J.Get(entity, "columns") == Some(J.Obj(columns)) && Enumerates(order, columns)
    ensures x in Raw(entity, ColumnWildcard(segments), mode, show, order) <==>
      exists c :: c in columns && x in MetaValues(columns[c], Some(c), segments, mode, show)
  {
    hide *;
    RawOfWildcard(entity, columns, segments, mode, show, order);
    ColumnOrderIrrelevant(columns, order, order);
    ColumnValuesMember(columns, Sort(StringLe, order), segments, mode, show, x);
  }

  /** And it collects them in ascending order of the column names. */
  lemma WildcardAscends(entity: J.Value, columns: map<string, J.Value>, segments: seq<string>,
                        mode: Mode, show: J.Num -> string, order: seq<string>, i: nat, j: nat)
    requires J.Get(entity, "columns") == Some(J.Obj(columns)) && Enumerates(order, columns)
    requires i < j < |Raw(entity, ColumnWildcard(segments), mode, show, order)|
    ensures var out := Raw(entity, ColumnWildcard(segments), mode, show, order);
            out[i].column.Some? && out[j].column.Some? && StringLe(out[i].column.value, out[j].column.value)
  {
    hide *;
    RawOfWildcard(entity, columns, segments, mode, show, order);
    ColumnOrderIrrelevant(columns, order, order);
    ColumnValuesAscend(columns, Sort(StringLe, order), segments, mode, show, i, j);
  }

  // ---- Capped values ----

  /** The cappable values in order, each with its truncation flag. */
  function Kept(raw: seq<MetaValue>, maxBytes: nat): seq<(MetaValue, bool)> {
    if raw == [] then []
    else
      var last := raw[|raw| - 1];
      Kept(raw[..|raw| - 1], maxBytes)
      + match Capped(last.value, maxBytes)
        case Some((text, cut)) => [(MetaValue(last.column, text), cut)]
        case None => []
  }

  function Values(kept: seq<(MetaValue, bool)>): seq<MetaValue> {
    seq(|kept|, i requires 0 <= i < |kept| => kept[i].0)
  }

  function CountCut(kept: seq<(MetaValue, bool)>): nat {
    if kept == [] then 0
    else CountCut(kept[..|kept| - 1]) + (if kept[|kept| - 1].1 then 1 else 0)
  }

  function Take<T>(s: seq<T>, n: nat): seq<T> {
    if |s| <= n then s else s[..n]
  }

  /** How many raw values are looked at before the collector is full. */
  function Consumed(raw: seq<MetaValue>, maxValues: nat, maxBytes: nat): (n: nat)
    ensures n <= |raw|
  {
    if raw == [] || |Kept(raw[..|raw| - 1], maxBytes)| < maxValues then |raw|
    else Consumed(raw[..|raw| - 1], maxValues, maxBytes)
  }

  lemma {:induction false} KeptPrefix(raw: seq<MetaValue>, n: nat, maxBytes: nat)
    requires n <= |raw|
    ensures Kept(raw[..n], maxBytes) <= Kept(raw, maxBytes)
    ensures |Kept(raw, maxBytes)| <= |Kept(raw[..n], maxBytes)| + |raw| - n
  {
    if n == |raw| {
      assert raw[..n] == raw;
    } else {
      KeptPrefix(raw[..|raw| - 1], n, maxBytes);
      assert raw[..|raw| - 1][..n] == raw[..n];
    }
  }

  /** The cut-off point is the shortest prefix that fills the collector, if any does. */
  lemma {:induction false} ConsumedIsLeast(raw: seq<MetaValue>, maxValues: nat, maxBytes: nat)
    ensures var n := Consumed(raw, maxValues, maxBytes);
            && |Kept(raw[..n], maxBytes)| <= maxValues
            && (n < |raw| ==> |Kept(raw[..n], maxBytes)| == maxValues)
            && (forall m :: 0 <= m < n ==> |Kept(raw[..m], maxBytes)| < maxValues)
  {
    hide Capped;
    var n := Consumed(raw, maxValues, maxBytes);
    assert raw[..|raw|] == raw;
    if raw != [] {
      var rest := raw[..|raw| - 1];
      KeptPrefix(raw, |raw| - 1, maxBytes);
      hide Kept;
      if n < |raw| {
        ConsumedIsLeast(rest, maxValues, maxBytes);
        assert rest[..|rest|] == rest;
        forall m | 0 <= m <= n ensures rest[..m] == raw[..m] {}
      } else if |Kept(rest, maxBytes)| < maxValues {
        forall m | 0 <= m < n ensures |Kept(raw[..m], maxBytes)| < maxValues {
          KeptPrefix(rest, m, maxBytes);
          assert rest[..m] == raw[..m];
        }
      }
    }
  }

  /** What the collector holds after looking at `i` raw values. */
  ghost predicate Collected(raw: seq<MetaValue>, maxValues: nat, maxBytes: nat, i: nat, out: CappedValues)
    requires i <= |raw|
  {
    var n := Consumed(raw, maxValues, maxBytes);
    var kept := Kept(raw[..if i <= n then i else n], maxBytes);
    && out.values == Values(kept) && out.truncated == CountCut(kept)
    && out.dropped == if i <= n then 0 else i - n
  }

  lemma CollectStart(raw: seq<MetaValue>, maxValues: nat, maxBytes: nat)
    ensures Collected(raw, maxValues, maxBytes, 0, CappedValues([], 0, 0))
  {
    assert raw[..0] == [];
    hide Consumed, Capped;
  }

  lemma CollectStep(raw: seq<MetaValue>, maxValues: nat, maxBytes: nat, i: nat, out: CappedValues)
    requires i < |raw| && Collected(raw, maxValues, maxBytes, i, out)
    ensures if |out.values| >= maxValues then Collected(raw, maxValues, maxBytes, i + 1, out.(dropped := out.dropped + 1))
            else
              match Capped(raw[i].value, maxBytes)
              case None => Collected(raw, maxValues, maxBytes, i + 1, out)
              case Some((text, cut)) =>
                Collected(raw, maxValues, maxBytes, i + 1,
                  CappedValues(out.values + [MetaValue(raw[i].column, text)], out.dropped,
                               if cut then out.truncated + 1 else out.truncated))
  {
    hide Capped, Consumed, Kept, CountCut, Take;
    ConsumedTakes(raw, maxValues, maxBytes);
    KeptStep(raw, i, maxBytes);
  }

  lemma CollectEnds(raw: seq<MetaValue>, maxValues: nat, maxBytes: nat, out: CappedValues)
    requires Collected(raw, maxValues, maxBytes, |raw|, out)
    ensures out.values == Values(Take(Kept(raw, maxBytes), maxValues))
    ensures out.truncated == CountCut(Take(Kept(raw, maxBytes), maxValues))
    ensures out.dropped == |raw| - Consumed(raw, maxValues, maxBytes)
  {
    hide Consumed, Kept, CountCut, Take;
    ConsumedTakes(raw, maxValues, maxBytes);
  }

  /** `collect_capped_extended_meta_values` over the collected values: the first `maxValues`
      cappable values in order, every value after the one that filled the collector dropped,
      and only kept values counted as truncated. */
  method CollectCapped(raw: seq<MetaValue>, maxValues: nat, maxBytes: nat) returns (out: CappedValues)
    ensures out.values == Values(Take(Kept(raw, maxBytes), maxValues))
    ensures out.truncated == CountCut(Take(Kept(raw, maxBytes), maxValues))
    ensures out.dropped == |raw| - Consumed(raw, maxValues, maxBytes)
  {
    hide *;
    out := CappedValues([], 0, 0);
    var i := 0;
    CollectStart(raw, maxValues, maxBytes);
    while i < |raw|
      invariant 0 <= i <= |raw|
      invariant Collected(raw, maxValues, maxBytes, i, out)
    {
      CollectStep(raw, maxValues, maxBytes, i, out);
      if |out.values| >= maxValues {
        out := out.(dropped := out.dropped + 1);
      } else {
        var capped := CappedNonEmptyValue(raw[i].value, maxBytes);
        match capped
        case None =>
        case Some((text, cut)) =>
          out := CappedValues(out.values + [MetaValue(raw[i].column, text)], out.dropped,
                              if cut then out.truncated + 1 else out.truncated);
      }
      i := i + 1;
    }
    CollectEnds(raw, maxValues, maxBytes, out);
  }

  lemma ConsumedTakes(raw: seq<MetaValue>, maxValues: nat, maxBytes: nat)
    ensures var n := Consumed(raw, maxValues, maxBytes);
            && Kept(raw[..n], maxBytes) == Take(Kept(raw, maxBytes), maxValues)
            && (n < |raw| ==> |Kept(raw[..n], maxBytes)| == maxValues)
            && (forall m :: 0 <= m < n ==> |Kept(raw[..m], maxBytes)| < maxValues)
  {
    hide *;
    var n := Consumed(raw, maxValues, maxBytes);
    ConsumedIsLeast(raw, maxValues, maxBytes);
    KeptPrefix(raw, n, maxBytes);
    assert raw[..|raw|] == raw;
    TakePrefix(Kept(raw[..n], maxBytes), Kept(raw, maxBytes), maxValues);
  }

  lemma TakePrefix<T>(s: seq<T>, t: seq<T>, n: nat)
    requires s <= t && |s| <= n && (s == t || |s| == n)
    ensures s == Take(t, n)
  {
  }

  lemma KeptStep(raw: seq<MetaValue>, i: nat, maxBytes: nat)
    requires i < |raw|
    ensures var before, after := Kept(raw[..i], maxBytes), Kept(raw[..i + 1], maxBytes);
            match Capped(raw[i].value, maxBytes)
            case None => after == before
            case Some((text, cut)) =>
              && Values(after) == Values(before) + [MetaValue(raw[i].column, text)]
              && CountCut(after) == CountCut(before) + (if cut then 1 else 0)
  {
    hide Capped;
    assert raw[..i + 1][..i] == raw[..i];
    var before := Kept(raw[..i], maxBytes);
    match Capped(raw[i].value, maxBytes)
    case None =>
    case Some((text, cut)) =>
      var x := (MetaValue(raw[i].column, text), cut);
      assert Kept(raw[..i + 1], maxBytes) == before + [x];
      assert (before + [x])[..|before|] == before;
  }

  /** The number of values with no capped form. */
  function Uncappable(raw: seq<MetaValue>, maxBytes: nat): nat {
    if raw == [] then 0
    else Uncappable(raw[..|raw| - 1], maxBytes) + (if Capped(raw[|raw| - 1].value, maxBytes).None? then 1 else 0)
  }

  lemma {:induction false} KeptOrUncappable(raw: seq<MetaValue>, maxBytes: nat)
    ensures |Kept(raw, maxBytes)| + Uncappable(raw, maxBytes) == |raw|
  {
    if raw != [] {
      KeptOrUncappable(raw[..|raw| - 1], maxBytes);
    }
  }

  /** Nothing is lost: kept, dropped and uncappable-before-full values add up to the raw ones;
      and values are dropped only when the collector is full. */
  lemma CollectorConserves(raw: seq<MetaValue>, maxValues: nat, maxBytes: nat)
    ensures var n := Consumed(raw, maxValues, maxBytes);
            var kept := |Take(Kept(raw, maxBytes), maxValues)|;
            && kept + (|raw| - n) + Uncappable(raw[..n], maxBytes) == |raw|
            && (n < |raw| ==> kept == maxValues)
  {
    ConsumedTakes(raw, maxValues, maxBytes);
    KeptOrUncappable(raw[..Consumed(raw, maxValues, maxBytes)], maxBytes);
  }

  /** `collect_capped_extended_meta_values` on an entity: whatever order its columns are listed in,
      the first `maxValues` cappable values of the raw ones, and counts that leave nothing out. */
  method CollectEntity(entity: J.Value, path: Path, mode: Mode, show: J.Num -> string, order: seq<string>,
                       maxValues: nat, maxBytes: nat) returns (out: CappedValues)
    requires ListsColumns(entity, path, order)
    ensures forall other :: ListsColumns(entity, path, other) ==>
      var raw := Raw(entity, path, mode, show, other);
      && out.values == Values(Take(Kept(raw, maxBytes), maxValues))
      && out.truncated == CountCut(Take(Kept(raw, maxBytes), maxValues))
      && |out.values| + out.dropped + Uncappable(raw[..Consumed(raw, maxValues, maxBytes)], maxBytes) == |raw|
      && (out.dropped > 0 ==> |out.values| == maxValues)
  {
    hide *;
    var raw := CollectValues(entity, path, mode, show, order);
    out := CollectCapped(raw, maxValues, maxBytes);
    CollectorConserves(raw, maxValues, maxBytes);
    ValuesLength(Take(Kept(raw, maxBytes), maxValues));
  }

  lemma ValuesLength(kept: seq<(MetaValue, bool)>)
    ensures |Values(kept)| == |kept|
  {
  }
}
