/** The translation lookup of the web client's i18n provider
    (`providers/i18n-provider.tsx`): dotted-path lookup in a translation
    table, `{{name}}` interpolation, the `_one`/`_other` plural rule, and the
    locale read back from the `ilenia-locale` cookie. */
module I18nProvider {
  import opened Common

  const Locales: seq<string> := ["es", "eu", "gl", "va"]
  const DefaultLocale := "es"
  const CookieName := "ilenia-locale"
  const OneSuffix := "_one"
  const OtherSuffix := "_other"

  /** The names every plain JavaScript object inherits from
      `Object.prototype`; indexing the translations record with one of them
      yields a truthy value (a function, or the prototype itself). */
  const InheritedNames: seq<string> := [
    "constructor", "hasOwnProperty", "isPrototypeOf", "propertyIsEnumerable",
    "toLocaleString", "toString", "valueOf", "__defineGetter__",
    "__defineSetter__", "__lookupGetter__", "__lookupSetter__", "__proto__"]

  // ---------------------------------------------------------------------------
  // Translation tables and getNestedValue

  /** A translation table: strings nested in objects. `Scalar` stands for
      any other value (a number, `null`, a function). */
  datatype Json = Str(value: string) | Obj(fields: map<string, Json>) | Scalar

  /** The value reached by following `keys` from `node`, if every step finds
      its key in an object. */
  function Follow(node: Json, keys: seq<string>): Option<Json>
    decreases |keys|
  {
    if keys == [] then Some(node)
    else if node.Obj? && keys[0] in node.fields then Follow(node.fields[keys[0]], keys[1..])
    else None
  }

  /** `getNestedValue`: the string at the dotted `path`, or the path itself
      when a segment is missing or the value reached is not a string. */
  function GetNestedValue(table: Json, path: string): (r: string)
    ensures r != path ==> Follow(table, Split(path, '.')) == Some(Str(r))
  {
    match Follow(table, Split(path, '.'))
    case Some(Str(s)) => s
    case _ => path
  }

  /** A reference writer: the table with the string `v` stored at `keys`,
      creating objects on the way and replacing whatever was there. */
  function SetPath(node: Json, keys: seq<string>, v: string): Json
    decreases |keys|
  {
    if keys == [] then Str(v)
    else
      var fields := if node.Obj? then node.fields else map[];
      var child := if keys[0] in fields then fields[keys[0]] else Obj(map[]);
      Obj(fields[keys[0] := SetPath(child, keys[1..], v)])
  }

  lemma {:induction false} FollowSetPath(node: Json, keys: seq<string>, v: string)
    ensures Follow(SetPath(node, keys, v), keys) == Some(Str(v))
    decreases |keys|
  {
    if keys != [] {
      var fields := if node.Obj? then node.fields else map[];
      var child := if keys[0] in fields then fields[keys[0]] else Obj(map[]);
      FollowSetPath(child, keys[1..], v);
    }
  }

  /** Looking up a path after storing a string there gives that string. */
  lemma GetAfterSet(table: Json, path: string, v: string)
    ensures GetNestedValue(SetPath(table, Split(path, '.'), v), path) == v
  {
    FollowSetPath(table, Split(path, '.'), v);
  }

  /** Storing under one top-level key leaves every path under another
      top-level key as it was. */
  lemma SetPathKeepsOthers(table: Json, path: string, other: string, v: string)
    requires table.Obj?
    requires Split(path, '.')[0] != Split(other, '.')[0]
    ensures GetNestedValue(SetPath(table, Split(path, '.'), v), other) == GetNestedValue(table, other)
  {
  }

  /** A path whose first segment the table lacks resolves to itself. */
  lemma MissingSegmentGivesPath(table: Json, path: string)
    requires !table.Obj? || Split(path, '.')[0] !in table.fields
    ensures GetNestedValue(table, path) == path
  {
  }

  // ---------------------------------------------------------------------------
  // interpolate

  /** An interpolation parameter; `Undefined` is an explicit `undefined`. */
  datatype Param = Text(s: string) | Number(n: int) | Undefined

  /** `String(value)` */
  function StringForm(p: Param): string {
    match p
    case Text(s) => s
    case Number(n) => IntToString(n)
    case Undefined => "undefined"
  }

  /** A `\w` character. */
  predicate IsWordChar(c: char) {
    ('a' <= c <= 'z') || ('A' <= c <= 'Z') || ('0' <= c <= '9') || c == '_'
  }

  /** The length of the run of word characters `s` starts with. */
  function WordLength(s: string): (n: nat)
    ensures n <= |s|
    ensures forall i :: 0 <= i < n ==> IsWordChar(s[i])
    ensures n < |s| ==> !IsWordChar(s[n])
  {
    if s != [] && IsWordChar(s[0]) then 1 + WordLength(s[1..]) else 0
  }

  /** The length of the key when `t` starts with a `{{key}}` placeholder, and
      0 otherwise; `\w+` is greedy and `}` is not a word character, so the
      key is the whole run of word characters after `{{`. */
  function HoleAt(t: string): (n: nat)
    ensures n > 0 ==> |t| >= n + 4 && t[..2] == "{{" && t[n + 2..n + 4] == "}}"
    ensures n > 0 ==> forall i :: 2 <= i < n + 2 ==> IsWordChar(t[i])
  {
    if |t| >= 2 && t[..2] == "{{" then
      var n := WordLength(t[2..]);
      if n > 0 && |t| >= n + 4 && t[n + 2..n + 4] == "}}" then n else 0
    else 0
  }

  /** What a placeholder becomes: the string form of a defined parameter,
      or the placeholder itself. */
  function Fill(params: map<string, Param>, key: string): string {
    if key in params && !params[key].Undefined? then StringForm(params[key]) else "{{" + key + "}}"
  }

  /** The global `replace`: a left-to-right scan in which each replacement is
      emitted and the scan resumes after the placeholder, so replacements are
      never rescanned. */
  function Substitute(t: string, params: map<string, Param>): string
    decreases |t|
  {
    if t == [] then []
    else
      var n := HoleAt(t);
      if n > 0 then Fill(params, t[2..n + 2]) + Substitute(t[n + 4..], params)
      else [t[0]] + Substitute(t[1..], params)
  }

  /** `interpolate`: no parameters, no change. */
  function Interpolate(template: string, params: Option<map<string, Param>>): (r: string)
    ensures params.None? ==> r == template
  {
    match params
    case None => template
    case Some(p) => Substitute(template, p)
  }

  /** A template without `{` is left as it is. */
  lemma {:induction false} NoBracesUnchanged(t: string, params: map<string, Param>)
    requires '{' !in t
    ensures Substitute(t, params) == t
    decreases |t|
  {
    if t != [] {
      assert HoleAt(t) == 0 by {
        if |t| >= 2 {
          assert t[..2][0] == t[0];
        }
      }
      assert '{' !in t[1..] by {
        forall i | 0 <= i < |t[1..]| ensures t[1..][i] != '{' {
          assert t[1..][i] == t[i + 1];
        }
      }
      NoBracesUnchanged(t[1..], params);
      assert t == [t[0]] + t[1..];
    }
  }

  /** Placeholders whose parameter is missing or undefined are left
      literally, so with no defined parameter the template is unchanged. */
  lemma {:induction false} UndefinedLeavesTemplate(t: string, params: map<string, Param>)
    requires forall k :: k in params ==> params[k].Undefined?
    ensures Substitute(t, params) == t
    decreases |t|
  {
    if t != [] {
      var n := HoleAt(t);
      if n > 0 {
        UndefinedLeavesTemplate(t[n + 4..], params);
        HoleSplit(t);
      } else {
        UndefinedLeavesTemplate(t[1..], params);
        assert t == [t[0]] + t[1..];
      }
    }
  }

  /** A template starting with a placeholder is `{{`, the key, `}}` and the
      rest. */
  lemma HoleSplit(t: string)
    requires HoleAt(t) > 0
    ensures var n := HoleAt(t);
      t == "{{" + t[2..n + 2] + "}}" + t[n + 4..]
  {
    var n := HoleAt(t);
    assert t == t[..2] + t[2..n + 2] + t[n + 2..n + 4] + t[n + 4..];
  }

  /** A placeholder at the front is replaced by the parameter's string form
      verbatim, and the scan resumes after it. */
  lemma HoleReplaced(key: string, rest: string, params: map<string, Param>)
    requires key != [] && forall i :: 0 <= i < |key| ==> IsWordChar(key[i])
    requires key in params && !params[key].Undefined?
    ensures Substitute("{{" + key + "}}" + rest, params) == StringForm(params[key]) + Substitute(rest, params)
  {
    var t := "{{" + key + "}}" + rest;
    assert t[2..] == key + "}}" + rest;
    WordRun(key, "}}" + rest);
    assert t[..2] == "{{";
    assert t[|key| + 2..|key| + 4] == "}}";
    assert HoleAt(t) == |key|;
    assert t[2..|key| + 2] == key;
    assert t[|key| + 4..] == rest;
  }

  lemma {:induction false} WordRun(key: string, rest: string)
    requires forall i :: 0 <= i < |key| ==> IsWordChar(key[i])
    requires rest == [] || !IsWordChar(rest[0])
    ensures WordLength(key + rest) == |key|
    decreases |key|
  {
    if key == [] {
      assert key + rest == rest;
    } else {
      assert (key + rest)[1..] == key[1..] + rest;
      WordRun(key[1..], rest);
    }
  }

  // ---------------------------------------------------------------------------
  // t and the plural rule

  /** `Number(count) === 1`, for the integer and decimal-string forms a
      count takes. */
  predicate CountIsOne(count: Param) {
    match count
    case Number(n) => n == 1
    case Text(s) => s == "1"
    case Undefined => false
  }

  /** The plural key tried when a `count` parameter is defined. */
  function PluralKey(key: string, count: Param): string {
    key + (if CountIsOne(count) then OneSuffix else OtherSuffix)
  }

  predicate HasCount(params: Option<map<string, Param>>) {
    params.Some? && "count" in params.value && !params.value["count"].Undefined?
  }

  /** The key looked up: the plural key when there is a count and the plural
      key resolves, and the key itself otherwise. */
  function ResolveKey(table: Json, key: string, params: Option<map<string, Param>>): (r: string)
    ensures r == key || (HasCount(params) && r == PluralKey(key, params.value["count"]))
    ensures r != key ==> GetNestedValue(table, r) != r
  {
    if HasCount(params) then
      var plural := PluralKey(key, params.value["count"]);
      if GetNestedValue(table, plural) != plural then plural else key
    else key
  }

  /** `t` over one table. */
  function Translate(table: Json, key: string, params: Option<map<string, Param>>): string {
    Interpolate(GetNestedValue(table, ResolveKey(table, key, params)), params)
  }

  /** With a count, a plural entry that is present is used; the `_one` form
      is chosen exactly when the count is one. */
  lemma PluralUsedWhenPresent(table: Json, key: string, params: map<string, Param>, v: string)
    requires "count" in params && !params["count"].Undefined?
    requires v != PluralKey(key, params["count"])
    ensures var plural := PluralKey(key, params["count"]);
      Translate(SetPath(table, Split(plural, '.'), v), key, Some(params)) == Substitute(v, params)
  {
    var plural := PluralKey(key, params["count"]);
    GetAfterSet(table, plural, v);
  }

  /** Without a resolvable plural entry, or without a count, the key itself
      is translated. */
  lemma SingularOtherwise(table: Json, key: string, params: Option<map<string, Param>>)
    requires !HasCount(params) || GetNestedValue(table, PluralKey(key, params.value["count"])) == PluralKey(key, params.value["count"])
    ensures Translate(table, key, params) == Interpolate(GetNestedValue(table, key), params)
  {
  }

  // ---------------------------------------------------------------------------
  // The cookie and the provider

  /** The four locale tables, and what the record yields for other names. */
  datatype Tables = Tables(es: Json, eu: Json, gl: Json, va: Json)

  function TableOf(tables: Tables, locale: string): Json {
    if locale == "es" then tables.es
    else if locale == "eu" then tables.eu
    else if locale == "gl" then tables.gl
    else if locale == "va" then tables.va
    else Scalar
  }

  /** `cookie.split("; ")`, scanning for the two-character separator; `cur`
      is the row read so far. */
  function SplitRows(s: string, cur: string): (r: seq<string>)
    ensures |r| >= 1
    decreases |s|
  {
    if s == [] then [cur]
    else if |s| >= 2 && s[0] == ';' && s[1] == ' ' then [cur] + SplitRows(s[2..], [])
    else SplitRows(s[1..], cur + [s[0]])
  }

  /** `rows.join("; ")`, the reference the splitter is checked against. */
  function JoinRows(rows: seq<string>): string
    requires |rows| >= 1
  {
    if |rows| == 1 then rows[0] else rows[0] + "; " + JoinRows(rows[1..])
  }

  /** No `"; "` occurs in `row`. */
  predicate NoSeparator(row: string) {
    |row| < 2 || (!(row[0] == ';' && row[1] == ' ') && NoSeparator(row[1..]))
  }

  /** Every row is free of the separator. */
  predicate CleanRows(rows: seq<string>) {
    rows == [] || (NoSeparator(rows[0]) && CleanRows(rows[1..]))
  }

  lemma {:induction false} CleanRowsAppend(a: seq<string>, b: seq<string>)
    requires CleanRows(a) && CleanRows(b)
    ensures CleanRows(a + b)
    decreases |a|
  {
    if a == [] {
      assert a + b == b;
    } else {
      assert (a + b)[1..] == a[1..] + b;
      CleanRowsAppend(a[1..], b);
    }
  }

  /** Splitting reads a separator-free row up to the next separator or the
      end. */
  lemma {:induction false} SplitRowsStep(row: string, rest: string, cur: string, last: bool)
    requires NoSeparator(row)
    requires last ==> rest == []
    ensures last ==> SplitRows(row, cur) == [cur + row]
    ensures !last ==> SplitRows(row + "; " + rest, cur) == [cur + row] + SplitRows(rest, [])
    decreases |row|
  {
    var s := if last then row else row + "; " + rest;
    if row == [] {
      assert cur + row == cur;
      if !last {
        assert s == "; " + rest;
        assert s[0] == ';' && s[1] == ' ';
        assert s[2..] == rest;
      }
    } else {
      assert s[0] == row[0];
      assert s[1..] == if last then row[1..] else row[1..] + "; " + rest;
      assert !(|s| >= 2 && s[0] == ';' && s[1] == ' ') by {
        if |row| >= 2 {
          assert s[1] == row[1];
        } else if !last {
          assert s[1] == ';';
        }
      }
      SplitRowsStep(row[1..], rest, cur + [row[0]], last);
      assert cur + [row[0]] + row[1..] == cur + row;
    }
  }

  /** Splitting undoes joining when no row holds the separator. */
  lemma {:induction false} SplitJoinRows(rows: seq<string>)
    requires |rows| >= 1
    requires CleanRows(rows)
    ensures SplitRows(JoinRows(rows), []) == rows
    decreases |rows|
  {
    if |rows| == 1 {
      SplitRowsStep(rows[0], [], [], true);
    } else {
      SplitJoinRows(rows[1..]);
      SplitRowsStep(rows[0], JoinRows(rows[1..]), [], false);
      assert [] + rows[0] == rows[0];
      assert rows == [rows[0]] + rows[1..];
    }
  }

  /** `find`: the first row starting with `prefix`. */
  function FindRow(rows: seq<string>, prefix: string): (r: Option<string>)
    ensures r.Some? ==> r.value in rows && StartsWith(r.value, prefix)
    ensures r.None? ==> forall i :: 0 <= i < |rows| ==> !StartsWith(rows[i], prefix)
  {
    if rows == [] then None
    else if StartsWith(rows[0], prefix) then Some(rows[0])
    else FindRow(rows[1..], prefix)
  }

  lemma {:induction false} FindRowFirst(before: seq<string>, row: string, after: seq<string>, prefix: string)
    requires forall i :: 0 <= i < |before| ==> !StartsWith(before[i], prefix)
    requires StartsWith(row, prefix)
    ensures FindRow(before + [row] + after, prefix) == Some(row)
    decreases |before|
  {
    if before == [] {
      assert (before + [row] + after)[0] == row;
    } else {
      assert (before + [row] + after)[1..] == before[1..] + [row] + after;
      FindRowFirst(before[1..], row, after, prefix);
    }
  }

  /** The value of the `ilenia-locale` cookie: `row.split("=")[1]` of the
      first row starting with `ilenia-locale=`. */
  function CookieValue(cookie: string): Option<string> {
    match FindRow(SplitRows(cookie, []), CookieName + "=")
    case None => None
    case Some(row) =>
      var rest := row[|CookieName| + 1..];
      assert row == CookieName + ['='] + rest;
      SplitAtFirst(CookieName, rest, '=');
      Some(Split(row, '=')[1])
  }

  /** `cookieValue && translations[cookieValue]`, as written: an own
      property or one inherited from `Object.prototype` passes. */
  predicate AcceptedAsWritten(v: string) {
    Truthy(v) && (v in Locales || v in InheritedNames)
  }

  /** The locale adopted on mount, as written. */
  function MountLocaleAsWritten(cookie: string): string {
    match CookieValue(cookie)
    case Some(v) => if AcceptedAsWritten(v) then v else DefaultLocale
    case None => DefaultLocale
  }

  /** The locale adopted on mount when only the four locales are accepted. */
  function MountLocale(cookie: string): (l: string)
    ensures l in Locales
    ensures CookieValue(cookie).Some? && CookieValue(cookie).value in Locales ==> l == CookieValue(cookie).value
    ensures !(CookieValue(cookie).Some? && CookieValue(cookie).value in Locales) ==> l == DefaultLocale
  {
    match CookieValue(cookie)
    case Some(v) => if v in Locales then v else DefaultLocale
    case None => DefaultLocale
  }

  /** The cookie row `setLocale` writes. */
  function LocaleRow(locale: string): string {
    CookieName + "=" + locale
  }

  /** A row without `;` holds no separator. */
  lemma {:induction false} NoSemicolonNoSeparator(row: string)
    requires ';' !in row
    ensures NoSeparator(row)
    decreases |row|
  {
    if |row| >= 2 {
      assert ';' !in row[1..] by {
        forall i | 0 <= i < |row[1..]| ensures row[1..][i] != ';' {
          assert row[1..][i] == row[i + 1];
        }
      }
      NoSemicolonNoSeparator(row[1..]);
    }
  }

  /** The rows around one more separator-free row split back apart. */
  lemma JoinedRowsSplit(before: seq<string>, row: string, after: seq<string>)
    requires CleanRows(before) && CleanRows(after)
    requires NoSeparator(row)
    ensures SplitRows(JoinRows(before + [row] + after), []) == before + [row] + after
  {
    assert CleanRows([row]) by {
      assert [row][1..] == [];
    }
    CleanRowsAppend(before, [row]);
    CleanRowsAppend(before + [row], after);
    SplitJoinRows(before + [row] + after);
  }

  /** The row `setLocale` writes holds no separator, is found by its name,
      and its value is what was written. */
  lemma LocaleRowParts(value: string)
    requires ';' !in value && '=' !in value
    ensures NoSeparator(LocaleRow(value))
    ensures StartsWith(LocaleRow(value), CookieName + "=")
    ensures |Split(LocaleRow(value), '=')| >= 2 && Split(LocaleRow(value), '=')[1] == value
  {
    var row := LocaleRow(value);
    assert ';' !in CookieName && '=' !in CookieName;
    assert row == CookieName + ['='] + value;
    assert ';' !in row;
    NoSemicolonNoSeparator(row);
    assert row[..|CookieName + "="|] == CookieName + "=";
    SplitAtFirst(CookieName, value, '=');
    SplitNoSeparator(value, '=');
  }

  /** The value of an `ilenia-locale` row is read from a cookie string made
      of separator-free rows, when no earlier row has that name. */
  lemma CookieValueRead(before: seq<string>, value: string, after: seq<string>)
    requires forall i :: 0 <= i < |before| ==> !StartsWith(before[i], CookieName + "=")
    requires CleanRows(before) && CleanRows(after)
    requires ';' !in value && '=' !in value
    ensures CookieValue(JoinRows(before + [LocaleRow(value)] + after)) == Some(value)
  {
    LocaleRowParts(value);
    JoinedRowsSplit(before, LocaleRow(value), after);
    FindRowFirst(before, LocaleRow(value), after, CookieName + "=");
  }

  /** A locale written by `setLocale` is read back on the next mount,
      whatever other cookies surround it. */
  lemma LocaleReadBack(before: seq<string>, locale: string, after: seq<string>)
    requires locale in Locales
    requires forall i :: 0 <= i < |before| ==> !StartsWith(before[i], CookieName + "=")
    requires CleanRows(before) && CleanRows(after)
    ensures MountLocale(JoinRows(before + [LocaleRow(locale)] + after)) == locale
  {
    assert locale == "es" || locale == "eu" || locale == "gl" || locale == "va";
    CookieValueRead(before, locale, after);
  }

  /** The provider's state: the locale, and whether the mount effect has
      run. */
  datatype Provider = Provider(locale: string, mounted: bool)

  /** Before mount: Spanish, whatever the cookie says. */
  function Initial(): Provider {
    Provider(DefaultLocale, false)
  }

  function MountAsWritten(cookie: string): Provider {
    Provider(MountLocaleAsWritten(cookie), true)
  }

  function Mount(cookie: string): Provider {
    Provider(MountLocale(cookie), true)
  }

  /** `t` as the provider serves it: the fallback over the Spanish table
      before mount, the current locale's table after. */
  function T(tables: Tables, p: Provider, key: string, params: Option<map<string, Param>>): string {
    if p.mounted then Translate(TableOf(tables, p.locale), key, params)
    else Translate(tables.es, key, params)
  }

  /** Before mount, translation follows the Spanish table with the same
      plural and interpolation rules, whatever locale is recorded. */
  lemma FallbackIsSpanish(tables: Tables, locale: string, key: string, params: Option<map<string, Param>>)
    ensures T(tables, Provider(locale, false), key, params) == T(tables, Mount(LocaleRow("es")), key, params)
  {
    LocaleReadBack([], "es", []);
    assert [] + [LocaleRow("es")] + [] == [LocaleRow("es")];
  }

  /** As written, a cookie naming an inherited property is adopted as the
      locale, and from then on every key translates to itself. */
  lemma InheritedNameAdoptedAsWritten(tables: Tables, key: string)
    ensures MountLocaleAsWritten(LocaleRow("constructor")) == "constructor"
    ensures "constructor" !in Locales
    ensures T(tables, MountAsWritten(LocaleRow("constructor")), key, None) == key
  {
    ConstructorCookieRead();
    assert "constructor" in InheritedNames;
    assert TableOf(tables, "constructor") == Scalar;
    ScalarTranslatesToKey(key);
  }

  /** The lone row `ilenia-locale=constructor` reads as `constructor`. */
  lemma ConstructorCookieRead()
    ensures CookieValue(LocaleRow("constructor")) == Some("constructor")
  {
    CookieValueRead([], "constructor", []);
    assert [] + [LocaleRow("constructor")] + [] == [LocaleRow("constructor")];
  }

  /** A table that is not an object resolves every key to the key itself. */
  lemma ScalarTranslatesToKey(key: string)
    ensures Translate(Scalar, key, None) == key
  {
    assert GetNestedValue(Scalar, key) == key;
  }

  /** The locale adopted on mount is always one of the four. */
  lemma MountedLocaleIsKnown(cookie: string)
    ensures Mount(cookie).locale in Locales
  {
  }
}
