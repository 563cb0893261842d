/** The in-memory part of `AppConfig` (core/config.js): the default tree,
    dotted-path reads and writes, merging a saved tree over the defaults,
    validation and reset. Storage, change callbacks and the v3 migration are
    not part of this model. */
module Config {
  import opened JsonTree
  import opened JsString
  import Validators

  /** `this.defaults`. */
  function Defaults(): Json {
    JObj(map[
      "app" := AppDefaults(),
      "api" := ApiDefaults(),
      "ui" := UiDefaults(),
      "data" := DataDefaults(),
      "modules" := ModuleDefaults()])
  }

  function AppDefaults(): Json {
    JObj(map[
      "name" := JStr("Virtual Data Poker Logger"),
      "version" := JStr("4.0.0"),
      "language" := JStr("ko"),
      "theme" := JStr("dark"),
      "timezone" := JStr("Asia/Seoul"),
      "debugMode" := JBool(false)])
  }

  function ApiDefaults(): Json {
    JObj(map[
      "appsScriptUrl" := JStr(""),
      "timeout" := JNum(30000),
      "retries" := JNum(3),
      "retryDelay" := JNum(1000)])
  }

  function UiDefaults(): Json {
    JObj(map[
      "autoSave" := JBool(true),
      "showTooltips" := JBool(true),
      "animationSpeed" := JStr("normal"),
      "compactMode" := JBool(false),
      "showDebugInfo" := JBool(false)])
  }

  function DataDefaults(): Json {
    JObj(map[
      "autoBackup" := JBool(true),
      "backupInterval" := JNum(300000),
      "maxBackups" := JNum(10),
      "validateData" := JBool(true)])
  }

  function ModuleDefaults(): Json {
    JObj(map[
      "player" := JObj(map["enabled" := JBool(true), "maxPlayers" := JNum(10)]),
      "table" := JObj(map["enabled" := JBool(true), "maxTables" := JNum(100)]),
      "hand" := JObj(map["enabled" := JBool(true), "autoLog" := JBool(true)]),
      "ui" := JObj(map["enabled" := JBool(true), "responsive" := JBool(true)])])
  }

  /** Reading two keys deep: through the first key's value, when there is one. */
  lemma GetNestedPair(v: Json, a: string, b: string)
    requires v.JObj? && a in v.fields && Truthy(v.fields[a]) && v.fields[a] != JUndefined
    ensures GetNested(v, [a, b]) == GetNested(v.fields[a], [b])
  {
    assert [a, b][1..] == [b];
  }

  /** The default of a numeric setting, read by its two-key path. */
  lemma DefaultAt(section: string, key: string, n: int)
    requires section == "api" || section == "data"
    requires var s := if section == "api" then ApiDefaults() else DataDefaults();
             key in s.fields && s.fields[key] == JNum(n)
    ensures GetNested(Defaults(), [section, key]) == JNum(n)
  {
    var s := if section == "api" then ApiDefaults() else DataDefaults();
    assert Defaults().fields[section] == s;
    GetNestedPair(Defaults(), section, key);
    assert [key][1..] == [];
  }

  /** `path.split('.')`. */
  function Keys(path: string): (keys: seq<string>)
    ensures |keys| >= 1
  {
    Split(path, '.')
  }

  // ---------------------------------------------------------------------------
  // Reading and writing by path
  // ---------------------------------------------------------------------------

  /** `_getNestedValue(obj, path)` on the split path: each step reads the key
      from the value reached so far, and once a step finds nothing the
      result is `undefined` (the source carries `undefined` through the
      remaining steps, which gives the same). A step reads an object's
      fields only; array elements, string characters and `length` read as
      `undefined` here. */
  function GetNested(v: Json, keys: seq<string>): (r: Json)
    ensures |keys| > 0 && Get(v, keys[0]) == JUndefined ==> r == JUndefined
    decreases |keys|
  {
    if |keys| == 0 then v
    else
      var next := if Truthy(v) && Get(v, keys[0]) != JUndefined then Get(v, keys[0]) else JUndefined;
      if next == JUndefined then JUndefined else GetNested(next, keys[1..])
  }

  /** `get(path, defaultValue)`: the value at the path, or the default when
      it is `undefined`. */
  function ConfigGet(config: Json, path: string, default: Json): (r: Json)
    ensures GetNested(config, Keys(path)) == JUndefined ==> r == default
    ensures GetNested(config, Keys(path)) != JUndefined ==> r == GetNested(config, Keys(path))
  {
    var value := GetNested(config, Keys(path));
    if value != JUndefined then value else default
  }

  /** `_setNestedValue(obj, path, value)`: every key before the last is made
      an object when it is falsy or not of type object, then the last key is
      assigned. Only objects are written to; an array met on the path (which
      the source would give a named property) and a non-object root are left
      as they are. */
  function SetNested(v: Json, keys: seq<string>, value: Json): (r: Json)
    ensures v.JObj? && |keys| > 0 ==> r.JObj? && r.fields.Keys == v.fields.Keys + {keys[0]}
    ensures v.JObj? && |keys| > 0 ==> forall k :: k in v.fields && k != keys[0] ==> r.fields[k] == v.fields[k]
    ensures v.JObj? && |keys| > 1 && !Get(v, keys[0]).JArr? ==> r.fields[keys[0]].JObj?
    decreases |keys|
  {
    if |keys| == 0 || !v.JObj? then v
    else if |keys| == 1 then JObj(v.fields[keys[0] := value])
    else
      var current := Get(v, keys[0]);
      var child := if !Truthy(current) || TypeOf(current) != "object" then JObj(map[]) else current;
      JObj(v.fields[keys[0] := SetNested(child, keys[1..], value)])
  }

  /** No array sits where the write has to pass through an existing value. */
  predicate ArrayFree(v: Json, keys: seq<string>)
    decreases |keys|
  {
    |keys| <= 1 || (var current := Get(v, keys[0]); !current.JArr? && ArrayFree(current, keys[1..]))
  }

  /** Reading a path back after writing a defined value to it gives that
      value. */
  lemma {:induction false} GetAfterSet(v: Json, keys: seq<string>, value: Json)
    requires v.JObj? && |keys| >= 1 && value != JUndefined && ArrayFree(v, keys)
    ensures GetNested(SetNested(v, keys, value), keys) == value
    decreases |keys|
  {
    if |keys| > 1 {
      var current := Get(v, keys[0]);
      var child := if !Truthy(current) || TypeOf(current) != "object" then JObj(map[]) else current;
      if !current.JObj? {
        assert ArrayFree(child, keys[1..]) by { ArrayFreeEmpty(keys[1..]); }
      }
      GetAfterSet(child, keys[1..], value);
    }
  }

  /** `set(path, value)` then `get(path)` gives the value back, whatever
      default the read names. */
  lemma SetThenGet(config: Json, path: string, value: Json, default: Json)
    requires config.JObj? && value != JUndefined && ArrayFree(config, Keys(path))
    ensures ConfigGet(SetNested(config, Keys(path), value), path, default) == value
  {
    GetAfterSet(config, Keys(path), value);
  }

  lemma {:induction false} ArrayFreeEmpty(keys: seq<string>)
    ensures ArrayFree(JObj(map[]), keys)
    decreases |keys|
  {
    if |keys| > 1 {
      ArrayFreeUndefined(keys[1..]);
    }
  }

  lemma {:induction false} ArrayFreeUndefined(keys: seq<string>)
    ensures ArrayFree(JUndefined, keys)
    decreases |keys|
  {
    if |keys| > 1 {
      ArrayFreeUndefined(keys[1..]);
    }
  }

  /** Path `p` leaves the path `keys` at some level: it agrees on a prefix
      and then names a different key. */
  predicate Diverges(p: seq<string>, keys: seq<string>)
    decreases |p|
  {
    |p| > 0 && |keys| > 0 && (p[0] != keys[0] || Diverges(p[1..], keys[1..]))
  }

  /** A write leaves every path that branches off it as it was, at every
      level, including below a value that the write replaced by `{}`. */
  lemma {:induction false} SetLeavesOthers(v: Json, keys: seq<string>, value: Json, p: seq<string>)
    requires Diverges(p, keys)
    ensures GetNested(SetNested(v, keys, value), p) == GetNested(v, p)
    decreases |keys|
  {
    var r := SetNested(v, keys, value);
    if v.JObj? {
      assert r.JObj? && Truthy(r);
      if p[0] != keys[0] {
        assert Get(r, p[0]) == Get(v, p[0]);
      } else {
        var current := Get(v, keys[0]);
        var child := if !Truthy(current) || TypeOf(current) != "object" then JObj(map[]) else current;
        var written := SetNested(child, keys[1..], value);
        assert Get(r, p[0]) == written;
        assert written != JUndefined;
        assert GetNested(r, p) == GetNested(written, p[1..]);
        SetLeavesOthers(child, keys[1..], value, p[1..]);
        if child == current {
          assert GetNested(v, p) == GetNested(current, p[1..]);
        } else {
          assert Get(child, p[1]) == JUndefined;
          if current != JUndefined {
            assert GetNested(v, p) == GetNested(current, p[1..]);
            assert Get(current, p[1]) == JUndefined;
          }
        }
      }
    }
  }

  // ---------------------------------------------------------------------------
  // Merging a saved tree over the defaults
  // ---------------------------------------------------------------------------

  /** The `merge(target, source)` closure of `_mergeConfig`: for each key of
      the source, a plain-object value is merged into the target's value
      (made `{}` first when that is not of type object), and any other value
      (array, `null`, scalar) replaces it. A target value that is `null` or
      an array is of type object and is passed on as the target: the source
      then throws on `null` and adds named properties to an array. Neither
      is modelled; such a target is returned as it is. */
  function Merge(target: Json, source: Json): (r: Json)
    ensures !(target.JObj? && source.JObj?) ==> r == target
    ensures target.JObj? && source.JObj? ==>
              && r.JObj? && r.fields.Keys == target.fields.Keys + source.fields.Keys
              && (forall k :: k in target.fields && k !in source.fields ==> r.fields[k] == target.fields[k])
              && (forall k :: k in source.fields && !IsPlainObject(source.fields[k]) ==> r.fields[k] == source.fields[k])
    decreases source, 0
  {
    if target.JObj? && source.JObj? then
      JObj(map k | k in target.fields.Keys + source.fields.Keys ::
             if k in source.fields then MergeValue(Get(target, k), source.fields[k])
             else target.fields[k])
    else target
  }

  /** One key of the merge loop. */
  function MergeValue(current: Json, value: Json): (r: Json)
    ensures !IsPlainObject(value) ==> r == value
    ensures IsPlainObject(value) && !current.JNull? && !current.JArr? ==> r.JObj?
    decreases value, 1
  {
    if IsPlainObject(value) then
      Merge(if TypeOf(current) != "object" then JObj(map[]) else current, value)
    else value
  }

  /** The own enumerable properties `for (const key in source)` visits with
      `hasOwnProperty` true: an object's keys, and the indices of a string
      (each naming a one-character string) or of an array. Other values
      have none. */
  function OwnEntries(source: Json): (m: map<string, Json>)
    ensures source.JObj? ==> m == source.fields
    ensures !source.JObj? && !source.JStr? && !source.JArr? ==> m == map[]
  {
    match source
    case JObj(fields) => fields
    case JStr(text) => TextEntries(text)
    case JArr(items) => ItemEntries(items)
    case _ => map[]
  }

  /** A string's indices, each naming its character as a string. */
  function TextEntries(text: string): (m: map<string, Json>)
    ensures forall i :: 0 <= i < |text| ==> IntToString(i) in m && m[IntToString(i)] == JStr([text[i]])
    ensures forall k :: k in m ==> exists i :: 0 <= i < |text| && k == IntToString(i)
  {
    IndexNamesDistinct();
    map i | 0 <= i < |text| :: IntToString(i) := JStr([text[i]])
  }

  /** An array's indices, each naming its element. */
  function ItemEntries(items: seq<Json>): (m: map<string, Json>)
    ensures forall i :: 0 <= i < |items| ==> IntToString(i) in m && m[IntToString(i)] == items[i]
    ensures forall k :: k in m ==> exists i :: 0 <= i < |items| && k == IntToString(i)
  {
    IndexNamesDistinct();
    map i | 0 <= i < |items| :: IntToString(i) := items[i]
  }

  /** Different indices have different names. */
  lemma IndexNamesDistinct()
    ensures forall i: int, j: int :: IntToString(i) == IntToString(j) ==> i == j
  {
    forall i: int, j: int | IntToString(i) == IntToString(j) ensures i == j {
      ParseIntOfIntToString(i, Radix10);
      ParseIntOfIntToString(j, Radix10);
    }
  }

  /** `_mergeConfig(defaults, saved)`: a fresh copy of the defaults with the
      own properties of the saved value merged in. A saved string or array
      adds its indices as keys. */
  function MergeConfig(defaults: Json, saved: Json): (r: Json)
    ensures defaults.JObj? ==> r.JObj? && r.fields.Keys == defaults.fields.Keys + OwnEntries(saved).Keys
    ensures !saved.JObj? && !saved.JStr? && !saved.JArr? ==> r == defaults
  {
    MergeEntries(DeepClone(defaults), OwnEntries(saved))
  }

  /** `merge(result, saved)` over the saved value's own properties. */
  function MergeEntries(target: Json, entries: map<string, Json>): (r: Json)
    ensures target.JObj? ==> r.JObj? && r.fields.Keys == target.fields.Keys + entries.Keys
    ensures target.JObj? ==> forall k :: k in entries && !IsPlainObject(entries[k]) ==> r.fields[k] == entries[k]
    ensures target.JObj? ==> forall k :: k in target.fields && k !in entries ==> r.fields[k] == target.fields[k]
    ensures entries == map[] ==> r == target
  {
    if entries == map[] then target
    else Merge(target, JObj(entries))
  }

  /** A saved object is merged as `merge(result, saved)` merges it. */
  lemma MergeConfigOfObject(defaults: Json, saved: Json)
    requires saved.JObj?
    ensures MergeConfig(defaults, saved) == Merge(defaults, saved)
  {
    assert DeepClone(defaults) == defaults;
    assert OwnEntries(saved) == saved.fields;
    if saved.fields == map[] && defaults.JObj? {
      assert Merge(defaults, saved).fields == defaults.fields;
    }
  }

  /** A saved string is spread over the defaults one character per index. */
  lemma SavedTextSpreads(defaults: Json, text: string, i: nat)
    requires defaults.JObj? && i < |text|
    ensures var r := MergeConfig(defaults, JStr(text));
            r.JObj? && IntToString(i) in r.fields && r.fields[IntToString(i)] == JStr([text[i]])
  {
    var e := OwnEntries(JStr(text));
    assert e == TextEntries(text);
    assert IntToString(i) in e && !IsPlainObject(e[IntToString(i)]);
  }

  /** The saved tree holds `p` down to a value that is not a plain object
      and not `undefined`, through plain objects only. */
  predicate SavedLeaf(saved: Json, p: seq<string>)
    decreases |p|
  {
    |p| > 0 && saved.JObj? && p[0] in saved.fields &&
      (var s := saved.fields[p[0]];
       if |p| == 1 then !IsPlainObject(s) && s != JUndefined
       else IsPlainObject(s) && SavedLeaf(s, p[1..]))
  }

  /** No `null` or array in the defaults along `p`. */
  predicate Mergeable(defaults: Json, p: seq<string>)
    decreases |p|
  {
    |p| <= 1 || (var d := Get(defaults, p[0]); !d.JNull? && !d.JArr? && Mergeable(d, p[1..]))
  }

  /** A saved value wins over the default at its path. */
  lemma {:induction false} SavedValueWins(defaults: Json, saved: Json, p: seq<string>)
    requires defaults.JObj? && SavedLeaf(saved, p) && Mergeable(defaults, p)
    ensures GetNested(MergeConfig(defaults, saved), p) == GetNested(saved, p)
    decreases |p|
  {
    var r := MergeConfig(defaults, saved);
    var s := saved.fields[p[0]];
    MergeConfigOfObject(defaults, saved);
    assert r.fields[p[0]] == MergeValue(Get(defaults, p[0]), s);
    GetNestedStep(saved, p);
    if |p| > 1 {
      var d := Get(defaults, p[0]);
      var start := if TypeOf(d) != "object" then JObj(map[]) else d;
      assert r.fields[p[0]] == Merge(start, s);
      if start != d {
        MergeableEmpty(p[1..]);
      }
      MergeConfigOfObject(start, s);
      SavedValueWins(start, s, p[1..]);
      GetNestedStep(r, p);
    } else {
      assert r.fields[p[0]] == s;
      GetNestedStep(r, p);
    }
  }

  /** Reading a path through an object goes through its first key's value. */
  lemma GetNestedStep(v: Json, p: seq<string>)
    requires |p| > 0 && v.JObj? && p[0] in v.fields && v.fields[p[0]] != JUndefined
    ensures GetNested(v, p) == GetNested(v.fields[p[0]], p[1..])
  {
  }

  lemma {:induction false} MergeableEmpty(p: seq<string>)
    ensures Mergeable(JObj(map[]), p)
    decreases |p|
  {
    if |p| > 1 {
      MergeableUndefined(p[1..]);
    }
  }

  lemma {:induction false} MergeableUndefined(p: seq<string>)
    ensures Mergeable(JUndefined, p)
    decreases |p|
  {
    if |p| > 1 {
      MergeableUndefined(p[1..]);
    }
  }

  /** The saved tree does not reach `p`: some key along it is missing from a
      plain object of the saved tree. */
  predicate SavedMissing(saved: Json, p: seq<string>)
    decreases |p|
  {
    |p| > 0 && saved.JObj? &&
      (p[0] !in saved.fields || (IsPlainObject(saved.fields[p[0]]) && SavedMissing(saved.fields[p[0]], p[1..])))
  }

  /** Where the saved tree has nothing, the default shows through. */
  lemma {:induction false} DefaultShowsThrough(defaults: Json, saved: Json, p: seq<string>)
    requires SavedMissing(saved, p)
    ensures GetNested(MergeConfig(defaults, saved), p) == GetNested(defaults, p)
    decreases |p|
  {
    if defaults.JObj? && p[0] in saved.fields {
      var r := MergeConfig(defaults, saved);
      var s := saved.fields[p[0]];
      var d := Get(defaults, p[0]);
      var start := if TypeOf(d) != "object" then JObj(map[]) else d;
      MergeConfigOfObject(defaults, saved);
      assert r.fields[p[0]] == MergeValue(d, s);
      assert r.fields[p[0]] == Merge(start, s);
      MergeConfigOfObject(start, s);
      DefaultShowsThrough(start, s, p[1..]);
      if start != d {
        assert |p[1..]| > 0;
        assert Get(d, p[1]) == JUndefined && Get(start, p[1]) == JUndefined;
      }
    }
  }

  // ---------------------------------------------------------------------------
  // Validation
  // ---------------------------------------------------------------------------

  /** `_validateAppsScriptUrl(url)`: a non-empty string whose trimmed text
      is an Apps Script deployment URL. */
  predicate ValidAppsScriptUrl(url: Json) {
    url.JStr? && url.s != "" && Validators.ScriptUrlPattern(Trim(url.s))
  }

  /** A string with one space on each side trims to itself when its own
      ends are not whitespace. */
  lemma TrimPadded(core: string)
    requires |core| > 0 && !IsSpace(core[0]) && !IsSpace(core[|core| - 1])
    ensures Trim(" " + core + " ") == core
  {
    var padded := " " + core + " ";
    assert padded[1..] == core + " ";
    assert TrimStart(padded) == core + " ";
    assert (core + " ")[..|core|] == core;
    assert TrimEnd(core + " ") == TrimEnd(core) == core;
  }

  /** Surrounding whitespace is forgiven: a deployment URL with a space on
      either side is accepted. */
  lemma PaddedUrlAccepted(url: string)
    requires Validators.ScriptUrlPattern(url)
    ensures ValidAppsScriptUrl(JStr(" " + url + " "))
  {
    var id :| Validators.IsScriptId(id) && url == Validators.ScriptPrefix + id + Validators.ScriptSuffix;
    assert url[0] == Validators.ScriptPrefix[0] == 'h';
    assert url[|url| - 1] == Validators.ScriptSuffix[4] == 'c';
    TrimPadded(url);
  }

  /** The dotted paths `_validateConfig` uses name two keys each. */
  lemma SplitAtDot(a: string, b: string)
    requires '.' !in a && '.' !in b
    ensures Keys(a + "." + b) == [a, b]
  {
    var s := a + "." + b;
    assert s[..|a|] == a && s[|a|] == '.';
    assert FirstIndex(s, '.') == |a|;
    assert s[|a| + 1..] == b;
    assert Split(b, '.') == [b];
  }

  /** `'api.appsScriptUrl'` split at its dot (see `SplitAtDot`). */
  const UrlPath: seq<string> := ["api", "appsScriptUrl"]

  /** `numberConfigs`, each path split at its dot into its two keys. */
  const NumberPaths: seq<seq<string>> := [
    ["api", "timeout"], ["api", "retries"], ["api", "retryDelay"],
    ["data", "backupInterval"], ["data", "maxBackups"]]

  /** A usable number: of type number and not negative. */
  predicate GoodNumber(v: Json) {
    v.JNum? && v.n >= 0
  }

  /** One step of `numberConfigs.forEach`: a value that is not a number or
      is negative is replaced by the default at the same path. */
  function FixNumber(config: Json, defaults: Json, path: seq<string>): (r: Json)
    ensures GoodNumber(GetNested(config, path)) ==> r == config
  {
    if !GoodNumber(GetNested(config, path)) then SetNested(config, path, GetNested(defaults, path)) else config
  }

  function FixNumbers(config: Json, defaults: Json, paths: seq<seq<string>>): Json
    decreases |paths|
  {
    if |paths| == 0 then config else FixNumbers(FixNumber(config, defaults, paths[0]), defaults, paths[1..])
  }

  /** The URL step of `_validateConfig`: a truthy URL that does not
      validate is replaced by `''`. */
  function CheckUrl(config: Json): (r: Json)
    ensures ValidAppsScriptUrl(GetNested(config, UrlPath)) || !Truthy(GetNested(config, UrlPath)) ==> r == config
  {
    var url := GetNested(config, UrlPath);
    if Truthy(url) && !ValidAppsScriptUrl(url) then SetNested(config, UrlPath, JStr("")) else config
  }

  /** `_validateConfig()`. */
  function ValidateConfig(config: Json): (r: Json)
    ensures config.JObj? ==> r.JObj?
  {
    FixNumbersKeepObject(CheckUrl(config), Defaults(), NumberPaths);
    FixNumbers(CheckUrl(config), Defaults(), NumberPaths)
  }

  lemma {:induction false} FixNumbersKeepObject(config: Json, defaults: Json, paths: seq<seq<string>>)
    ensures config.JObj? ==> FixNumbers(config, defaults, paths).JObj?
    decreases |paths|
  {
    if |paths| > 0 {
      FixNumbersKeepObject(FixNumber(config, defaults, paths[0]), defaults, paths[1..]);
    }
  }

  /** Two different two-key paths branch off each other. */
  lemma DivergesPair(p: seq<string>, q: seq<string>)
    requires |p| == 2 && |q| == 2 && p != q
    ensures Diverges(p, q)
  {
    if p[0] == q[0] {
      assert p[1] != q[1];
    }
  }

  /** `q` branches off every path of the list. */
  predicate DivergesAll(q: seq<string>, paths: seq<seq<string>>) {
    forall p :: p in paths ==> Diverges(q, p)
  }

  /** What the fold needs of a list of paths: two keys each, no array at the
      first key, a good default, no path twice. */
  predicate Fixable(config: Json, defaults: Json, paths: seq<seq<string>>) {
    && config.JObj?
    && (forall p :: p in paths ==> |p| == 2 && !Get(config, p[0]).JArr? && GoodNumber(GetNested(defaults, p)))
    && (forall i, j :: 0 <= i < j < |paths| ==> paths[i] != paths[j])
  }

  /** A write to a two-key path keeps the first key free of arrays. */
  lemma SetKeepsSections(config: Json, path: seq<string>, value: Json, k: string)
    requires config.JObj? && |path| == 2 && !Get(config, path[0]).JArr? && !Get(config, k).JArr?
    ensures !Get(SetNested(config, path, value), k).JArr?
  {
  }

  /** What a numeric path should hold after validation: its own value when
      that is a good number, else its default. */
  function Repaired(config: Json, defaults: Json, p: seq<string>): Json {
    if GoodNumber(GetNested(config, p)) then GetNested(config, p) else GetNested(defaults, p)
  }

  /** One step of the fold: a good number stays, a bad one is replaced by
      its default, paths that branch off it are untouched, and no section
      becomes an array. */
  lemma FixNumberSpec(config: Json, defaults: Json, p: seq<string>)
    requires config.JObj? && |p| == 2 && !Get(config, p[0]).JArr? && GoodNumber(GetNested(defaults, p))
    ensures FixNumber(config, defaults, p).JObj?
    ensures GoodNumber(GetNested(config, p)) ==> GetNested(FixNumber(config, defaults, p), p) == GetNested(config, p)
    ensures !GoodNumber(GetNested(config, p)) ==> GetNested(FixNumber(config, defaults, p), p) == GetNested(defaults, p)
    ensures GoodNumber(GetNested(FixNumber(config, defaults, p), p))
    ensures forall q :: Diverges(q, p) ==> GetNested(FixNumber(config, defaults, p), q) == GetNested(config, q)
    ensures forall k :: !Get(config, k).JArr? ==> !Get(FixNumber(config, defaults, p), k).JArr?
  {
    var c1 := FixNumber(config, defaults, p);
    if !GoodNumber(GetNested(config, p)) {
      assert ArrayFree(config, p);
      GetAfterSet(config, p, GetNested(defaults, p));
      forall q | Diverges(q, p) ensures GetNested(c1, q) == GetNested(config, q) {
        SetLeavesOthers(config, p, GetNested(defaults, p), q);
      }
      forall k | !Get(config, k).JArr? ensures !Get(c1, k).JArr? {
        SetKeepsSections(config, p, GetNested(defaults, p), k);
      }
    }
  }

  /** After the fold every listed path holds its good number or, failing
      that, its default, and every path that branches off all of them is as
      it was. */
  lemma {:induction false} FixNumbersSpec(config: Json, defaults: Json, paths: seq<seq<string>>)
    requires Fixable(config, defaults, paths)
    ensures forall p :: p in paths ==> GetNested(FixNumbers(config, defaults, paths), p) == Repaired(config, defaults, p)
    ensures forall p :: p in paths ==> GoodNumber(GetNested(FixNumbers(config, defaults, paths), p))
    ensures forall q :: DivergesAll(q, paths) ==> GetNested(FixNumbers(config, defaults, paths), q) == GetNested(config, q)
    decreases |paths|
  {
    if |paths| > 0 {
      var p0 := paths[0];
      var rest := paths[1..];
      assert p0 in paths;
      FixNumberSpec(config, defaults, p0);
      var c1 := FixNumber(config, defaults, p0);
      RestDiverges(paths);
      assert Fixable(c1, defaults, rest);
      FixNumbersSpec(c1, defaults, rest);
      var r := FixNumbers(config, defaults, paths);
      assert r == FixNumbers(c1, defaults, rest);
      forall p | p in paths ensures GetNested(r, p) == Repaired(config, defaults, p) {
        if p == p0 {
          assert DivergesAll(p0, rest);
        } else {
          assert p in rest && Diverges(p, p0);
        }
      }
      forall q | DivergesAll(q, paths) ensures GetNested(r, q) == GetNested(config, q) {
        assert DivergesAll(q, rest) && Diverges(q, p0);
      }
    }
  }

  /** The first of a list of distinct two-key paths branches off the others,
      and they off it. */
  lemma RestDiverges(paths: seq<seq<string>>)
    requires |paths| > 0
    requires forall p :: p in paths ==> |p| == 2
    requires forall i, j :: 0 <= i < j < |paths| ==> paths[i] != paths[j]
    ensures DivergesAll(paths[0], paths[1..])
    ensures forall p :: p in paths[1..] ==> Diverges(p, paths[0])
  {
    var rest := paths[1..];
    forall p | p in rest ensures Diverges(paths[0], p) && Diverges(p, paths[0]) {
      var j :| 0 <= j < |rest| && rest[j] == p;
      assert paths[j + 1] == p;
      DivergesPair(paths[0], p);
      DivergesPair(p, paths[0]);
    }
  }

  /** The defaults hold good numbers at the numeric paths. */
  lemma DefaultNumbers()
    ensures forall p :: p in NumberPaths ==> GoodNumber(GetNested(Defaults(), p))
  {
    DefaultAt("api", "timeout", 30000);
    DefaultAt("api", "retries", 3);
    DefaultAt("api", "retryDelay", 1000);
    DefaultAt("data", "backupInterval", 300000);
    DefaultAt("data", "maxBackups", 10);
    NumberPathsGood(Defaults());
  }

  /** Good numbers at the five paths, one by one, are good numbers at every
      path of `NumberPaths`. */
  lemma NumberPathsGood(d: Json)
    requires GoodNumber(GetNested(d, ["api", "timeout"])) && GoodNumber(GetNested(d, ["api", "retries"]))
    requires GoodNumber(GetNested(d, ["api", "retryDelay"]))
    requires GoodNumber(GetNested(d, ["data", "backupInterval"])) && GoodNumber(GetNested(d, ["data", "maxBackups"]))
    ensures forall p :: p in NumberPaths ==> GoodNumber(GetNested(d, p))
  {
  }

  /** What the URL setting should hold after validation: the URL itself
      when it is falsy or valid, else `''`. */
  function RepairedUrl(url: Json): Json {
    if Truthy(url) && !ValidAppsScriptUrl(url) then JStr("") else url
  }

  /** After `_validateConfig` every numeric setting keeps its value when that
      is a number that is not negative and is back at its default
      otherwise; the URL is kept when it is falsy or valid and is `''`
      otherwise. Arrays standing for the `api` or `data` sections are not
      modelled. */
  lemma ValidatedConfig(config: Json)
    requires config.JObj? && !Get(config, "api").JArr? && !Get(config, "data").JArr?
    ensures forall p :: p in NumberPaths ==> GetNested(ValidateConfig(config), p) == Repaired(config, Defaults(), p)
    ensures forall p :: p in NumberPaths ==> GoodNumber(GetNested(ValidateConfig(config), p))
    ensures GetNested(ValidateConfig(config), UrlPath) == RepairedUrl(GetNested(config, UrlPath))
    ensures var url := GetNested(ValidateConfig(config), UrlPath); !Truthy(url) || ValidAppsScriptUrl(url)
  {
    DefaultNumbers();
    ValidatedWith(config, Defaults());
  }

  /** `ValidatedConfig` for any defaults that are good at the numeric
      paths. */
  lemma ValidatedWith(config: Json, defaults: Json)
    requires config.JObj? && !Get(config, "api").JArr? && !Get(config, "data").JArr?
    requires forall p :: p in NumberPaths ==> GoodNumber(GetNested(defaults, p))
    ensures forall p :: p in NumberPaths ==>
              GetNested(FixNumbers(CheckUrl(config), defaults, NumberPaths), p) == Repaired(config, defaults, p)
    ensures forall p :: p in NumberPaths ==> GoodNumber(GetNested(FixNumbers(CheckUrl(config), defaults, NumberPaths), p))
    ensures GetNested(FixNumbers(CheckUrl(config), defaults, NumberPaths), UrlPath) == RepairedUrl(GetNested(config, UrlPath))
    ensures var url := GetNested(FixNumbers(CheckUrl(config), defaults, NumberPaths), UrlPath); !Truthy(url) || ValidAppsScriptUrl(url)
  {
    ValidatedNumbers(config, defaults);
    ValidatedUrl(config, defaults);
    var r := FixNumbers(CheckUrl(config), defaults, NumberPaths);
    RepairedIsGood(config, defaults, NumberPaths, r);
    RepairedUrlIsClean(GetNested(config, UrlPath));
  }

  /** Repaired numbers are good numbers when the defaults are. */
  lemma RepairedIsGood(config: Json, defaults: Json, paths: seq<seq<string>>, r: Json)
    requires forall p :: p in paths ==> GoodNumber(GetNested(defaults, p))
    requires forall p :: p in paths ==> GetNested(r, p) == Repaired(config, defaults, p)
    ensures forall p :: p in paths ==> GoodNumber(GetNested(r, p))
  {
  }

  /** A repaired URL is falsy or valid. */
  lemma RepairedUrlIsClean(url: Json)
    ensures !Truthy(RepairedUrl(url)) || ValidAppsScriptUrl(RepairedUrl(url))
  {
  }

  /** Paths the URL step left alone are repaired as they would have been
      without it. */
  lemma RepairedAfterUrl(config: Json, c: Json, defaults: Json, paths: seq<seq<string>>, r: Json)
    requires forall p :: p in paths ==> GetNested(c, p) == GetNested(config, p)
    requires forall p :: p in paths ==> GetNested(r, p) == Repaired(c, defaults, p)
    ensures forall p :: p in paths ==> GetNested(r, p) == Repaired(config, defaults, p)
  {
  }

  /** The numeric half of `ValidatedWith`. */
  lemma ValidatedNumbers(config: Json, defaults: Json)
    requires config.JObj? && !Get(config, "api").JArr? && !Get(config, "data").JArr?
    requires forall p :: p in NumberPaths ==> GoodNumber(GetNested(defaults, p))
    ensures forall p :: p in NumberPaths ==>
              GetNested(FixNumbers(CheckUrl(config), defaults, NumberPaths), p) == Repaired(config, defaults, p)
  {
    var c := CheckUrl(config);
    CheckUrlSpec(config);
    CheckUrlKeepsNumbers(config);
    NumberPathsFixable(c, defaults);
    FixNumbersSpec(c, defaults, NumberPaths);
    RepairedAfterUrl(config, c, defaults, NumberPaths, FixNumbers(c, defaults, NumberPaths));
  }

  /** The URL half of `ValidatedWith`: the fold over the numeric paths does
      not touch the URL. */
  lemma ValidatedUrl(config: Json, defaults: Json)
    requires config.JObj? && !Get(config, "api").JArr? && !Get(config, "data").JArr?
    requires forall p :: p in NumberPaths ==> GoodNumber(GetNested(defaults, p))
    ensures GetNested(FixNumbers(CheckUrl(config), defaults, NumberPaths), UrlPath) == RepairedUrl(GetNested(config, UrlPath))
  {
    var c := CheckUrl(config);
    CheckUrlSpec(config);
    NumberPathsFixable(c, defaults);
    NumberPathsShape();
    FixNumbersSpec(c, defaults, NumberPaths);
  }

  /** The URL step does not touch the numeric settings. */
  lemma CheckUrlKeepsNumbers(config: Json)
    ensures forall p :: p in NumberPaths ==> GetNested(CheckUrl(config), p) == GetNested(config, p)
  {
    forall p | p in NumberPaths ensures GetNested(CheckUrl(config), p) == GetNested(config, p) {
      assert |p| == 2 && p[1] != UrlPath[1];
      DivergesPair(p, UrlPath);
      SetLeavesOthers(config, UrlPath, JStr(""), p);
    }
  }

  /** The numeric paths can be folded over any object whose two sections are
      not arrays, given good defaults. */
  lemma NumberPathsFixable(config: Json, defaults: Json)
    requires config.JObj? && !Get(config, "api").JArr? && !Get(config, "data").JArr?
    requires forall p :: p in NumberPaths ==> GoodNumber(GetNested(defaults, p))
    ensures Fixable(config, defaults, NumberPaths)
  {
    NumberPathsShape();
  }

  /** The numeric paths are five different two-key paths under `api` or
      `data`, and all of them branch off the URL path. */
  lemma NumberPathsShape()
    ensures forall p :: p in NumberPaths ==> |p| == 2 && (p[0] == "api" || p[0] == "data")
    ensures forall i, j :: 0 <= i < j < |NumberPaths| ==> NumberPaths[i] != NumberPaths[j]
    ensures DivergesAll(UrlPath, NumberPaths)
  {
    forall i, j | 0 <= i < j < |NumberPaths| ensures NumberPaths[i] != NumberPaths[j] {
      assert NumberPaths[i][1] != NumberPaths[j][1];
    }
    forall p | p in NumberPaths ensures Diverges(UrlPath, p) {
      assert p[1] != UrlPath[1];
      DivergesPair(UrlPath, p);
    }
  }

  /** The URL step leaves a URL that is falsy or valid, and does not turn a
      section into an array. */
  lemma CheckUrlSpec(config: Json)
    requires config.JObj? && !Get(config, "api").JArr? && !Get(config, "data").JArr?
    ensures var c := CheckUrl(config);
            && c.JObj? && !Get(c, "api").JArr? && !Get(c, "data").JArr?
            && (!Truthy(GetNested(c, UrlPath)) || ValidAppsScriptUrl(GetNested(c, UrlPath)))
            && GetNested(c, UrlPath) == RepairedUrl(GetNested(config, UrlPath))
  {
    var url := GetNested(config, UrlPath);
    if Truthy(url) && !ValidAppsScriptUrl(url) {
      GetAfterSet(config, UrlPath, JStr(""));
      SetKeepsSections(config, UrlPath, JStr(""), "data");
      SetKeepsSections(config, UrlPath, JStr(""), "api");
    }
  }

  /** A bad number is put back to its default; for example a negative
      timeout becomes 30000. */
  lemma NegativeTimeoutReset()
    ensures var config := JObj(map["api" := JObj(map["timeout" := JNum(-5)])]);
            GetNested(FixNumber(config, Defaults(), NumberPaths[0]), ["api", "timeout"]) == JNum(30000)
  {
    var config := JObj(map["api" := JObj(map["timeout" := JNum(-5)])]);
    assert GetNested(config, ["api", "timeout"]) == JNum(-5);
    DefaultAt("api", "timeout", 30000);
    GetAfterSet(config, ["api", "timeout"], JNum(30000));
  }

  // ---------------------------------------------------------------------------
  // Reset
  // ---------------------------------------------------------------------------

  /** `reset(section)`; `""` stands for the missing argument, which is just
      as falsy. A named section whose default is truthy is replaced by a
      copy of it; an unknown section changes nothing; no section restores
      everything. */
  function Reset(config: Json, section: string): (r: Json)
    ensures section == "" ==> r == Defaults()
    ensures section != "" && Get(Defaults(), section) == JUndefined ==> r == config
    ensures section != "" && Get(Defaults(), section) != JUndefined && config.JObj? ==>
              r.JObj? && r.fields == config.fields[section := Get(Defaults(), section)]
  {
    if section == "" then DeepClone(Defaults())
    else if Truthy(Get(Defaults(), section)) && config.JObj? then
      JObj(config.fields[section := DeepClone(Get(Defaults(), section))])
    else config
  }
}
