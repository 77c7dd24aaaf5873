/**
 * Configuration assembly: the .env loader that fills the process environment
 * without overriding it, and load_config, which fills a user's YAML mapping
 * with the defaults (missing keys, missing sub-keys of a dict default, missing
 * items of a list default), reports whether anything was added, and then
 * applies the connection-string and recursive-crawl rules.
 */
module Config {
  import opened Wrappers
  import opened Strings

  /** A YAML value as safe_load gives it. Floats are kept as their text. */
  datatype YValue =
    | YNull
    | YBool(b: bool)
    | YInt(i: int)
    | YFloat(repr: string)
    | YStr(s: string)
    | YList(items: seq<YValue>)
    | YDict(fields: map<string, YValue>)

  /** A default value, as the merge treats it: a dict and a list are filled item by item. */
  datatype Default =
    | Scalar(v: YValue)
    | DictOf(entries: seq<(string, YValue)>)
    | ListOf(strs: seq<string>)

  type Defaults = seq<(string, Default)>

  // ---------------------------------------------------------------- .env

  /** One .env line: stripped; blank and "#" lines and lines without "=" give nothing. */
  function ParseLine(line: string): (r: Option<(string, string)>)
    ensures r.Some? ==> IsTrimmed(r.value.0) && IsTrimmed(r.value.1)
    ensures var l := Strip(line); (l == "" || StartsWith(l, "#") || '=' !in l) ==> r.None?
  {
    var l := Strip(line);
    if l == "" || StartsWith(l, "#") then None
    else match IndexOf(l, '=')
      case None => None
      case Some(i) =>
        StripTrims(l[..i]);
        StripTrims(l[i + 1..]);
        Some((Strip(l[..i]), Strip(l[i + 1..])))
  }

  /** A parsed key has no "=" and does not start with "#". */
  lemma ParseLineKey(line: string)
    requires ParseLine(line).Some?
    ensures var k := ParseLine(line).value.0; '=' !in k && (|k| > 0 ==> k[0] != '#')
  {
    var l := Strip(line);
    StripTrims(line);
    var i := IndexOf(l, '=').value;
    var key := l[..i];
    StripChars(key);
    var k := Strip(key);
    assert '=' !in k;
    if |k| > 0 {
      assert key[0] == l[0];
      assert l[..1] != "#";
    }
  }

  /** A character absent from the line is absent from the parsed key and value. */
  lemma ParseLineAvoids(line: string, c: char)
    requires ParseLine(line).Some?
    requires c !in line
    ensures c !in ParseLine(line).value.0 && c !in ParseLine(line).value.1
  {
    var l := Strip(line);
    StripChars(line);
    var i := IndexOf(l, '=').value;
    var key := l[..i];
    var value := l[i + 1..];
    assert c !in key && c !in value;
    StripChars(key);
    StripChars(value);
  }

  /** The environment after load_dotenv: each parsed line is a setdefault. */
  function Dotenv(env: map<string, string>, lines: seq<string>): map<string, string>
  {
    if |lines| == 0 then env
    else
      var e := Dotenv(env, lines[..|lines| - 1]);
      match ParseLine(lines[|lines| - 1])
      case None => e
      case Some((k, v)) => if k in e then e else e[k := v]
  }

  /** load_dotenv never replaces a variable: what was set stays, and only parsed keys are added. */
  lemma DotenvKeepsExisting(env: map<string, string>, lines: seq<string>)
    ensures forall k :: k in env ==> k in Dotenv(env, lines) && Dotenv(env, lines)[k] == env[k]
    ensures forall k :: k in Dotenv(env, lines) && k !in env ==>
      exists i :: 0 <= i < |lines| && ParseLine(lines[i]).Some? && ParseLine(lines[i]).value.0 == k
  {
    DotenvKeeps(env, lines);
    DotenvOnlyParsed(env, lines);
  }

  lemma {:induction false} DotenvKeeps(env: map<string, string>, lines: seq<string>)
    ensures forall k :: k in env ==> k in Dotenv(env, lines) && Dotenv(env, lines)[k] == env[k]
  {
    if |lines| > 0 {
      DotenvKeeps(env, lines[..|lines| - 1]);
    }
  }

  /** Some line of `lines` parses to an assignment of `k`. */
  ghost predicate Defines(lines: seq<string>, k: string) {
    exists i :: 0 <= i < |lines| && ParseLine(lines[i]).Some? && ParseLine(lines[i]).value.0 == k
  }

  lemma {:induction false} DotenvOnlyParsed(env: map<string, string>, lines: seq<string>)
    ensures forall k :: k in Dotenv(env, lines) && k !in env ==> Defines(lines, k)
  {
    if |lines| > 0 {
      var pre := lines[..|lines| - 1];
      DotenvOnlyParsed(env, pre);
      forall k | k in Dotenv(env, lines) && k !in env ensures Defines(lines, k) {
        if k in Dotenv(env, pre) {
          DefinesPrefix(lines, k);
        } else {
          DotenvNewKey(env, lines, k);
          DefinedAt(lines, |lines| - 1, k);
        }
      }
    }
  }

  lemma DefinesPrefix(lines: seq<string>, k: string)
    requires |lines| > 0 && Defines(lines[..|lines| - 1], k)
    ensures Defines(lines, k)
  {
    var pre := lines[..|lines| - 1];
    var i :| 0 <= i < |pre| && ParseLine(pre[i]).Some? && ParseLine(pre[i]).value.0 == k;
    assert pre[i] == lines[i];
    DefinedAt(lines, i, k);
  }

  lemma DefinedAt(lines: seq<string>, i: nat, k: string)
    requires i < |lines| && ParseLine(lines[i]).Some? && ParseLine(lines[i]).value.0 == k
    ensures Defines(lines, k)
  {
  }

  /** A key the last line adds is the key that line defines. */
  lemma DotenvNewKey(env: map<string, string>, lines: seq<string>, k: string)
    requires |lines| > 0 && k in Dotenv(env, lines) && k !in Dotenv(env, lines[..|lines| - 1])
    ensures ParseLine(lines[|lines| - 1]).Some? && ParseLine(lines[|lines| - 1]).value.0 == k
  {
  }

  /** For a key not yet set, the first line that defines it wins over every later one. */
  lemma {:induction false} DotenvFirstLineWins(env: map<string, string>, before: seq<string>, line: string, after: seq<string>)
    requires ParseLine(line).Some? && ParseLine(line).value.0 !in Dotenv(env, before)
    ensures var (k, v) := ParseLine(line).value;
      k in Dotenv(env, before + [line] + after) && Dotenv(env, before + [line] + after)[k] == v
  {
    var (k, v) := ParseLine(line).value;
    var mid := Dotenv(env, before + [line]);
    assert (before + [line])[..|before|] == before;
    assert mid == Dotenv(env, before)[k := v];
    DotenvKeepsExisting(mid, after);
    DotenvAppend(env, before + [line], after);
  }

  /** load_dotenv over two pieces of a file is load_dotenv of the first, then of the second. */
  lemma {:induction false} DotenvAppend(env: map<string, string>, a: seq<string>, b: seq<string>)
    ensures Dotenv(env, a + b) == Dotenv(Dotenv(env, a), b)
  {
    if |b| > 0 {
      var b' := b[..|b| - 1];
      assert (a + b)[..|a + b| - 1] == a + b';
      DotenvAppend(env, a, b');
    } else {
      assert a + b == a;
    }
  }

  /** One more line of load_dotenv: a parsed line sets its key unless the key is set. */
  lemma DotenvStep(env: map<string, string>, lines: seq<string>, i: nat)
    requires i < |lines|
    ensures var e := Dotenv(env, lines[..i]);
      Dotenv(env, lines[..i + 1]) == match ParseLine(lines[i])
        case None => e
        case Some((k, v)) => if k in e then e else e[k := v]
  {
    PrefixStep(lines, i);
  }

  lemma PrefixStep<T>(s: seq<T>, i: nat)
    requires i < |s|
    ensures |s[..i + 1]| == i + 1 && s[..i + 1][..i] == s[..i] && s[..i + 1][i] == s[i]
  {
  }

  /** The three ways a line is read: blank or comment, no "=", or split at the first "=". */
  lemma ParseLineCases(line: string)
    ensures var l := Strip(line);
      && (l == "" || StartsWith(l, "#") ==> ParseLine(line).None?)
      && (l != "" && !StartsWith(l, "#") && IndexOf(l, '=').None? ==> ParseLine(line).None?)
      && (l != "" && !StartsWith(l, "#") && IndexOf(l, '=').Some? ==>
            var e := IndexOf(l, '=').value; ParseLine(line) == Some((Strip(l[..e]), Strip(l[e + 1..]))))
  {
  }

  /** The process environment, which load_dotenv changes in place. */
  class Environment {
    var vars: map<string, string>

    constructor (vars: map<string, string>)
      ensures this.vars == vars
    {
      this.vars := vars;
    }

    /** load_dotenv over the lines of the .env file. */
    method LoadDotenv(lines: seq<string>)
      modifies this
      ensures vars == Dotenv(old(vars), lines)
    {
      var i := 0;
      while i < |lines|
        invariant 0 <= i <= |lines|
        invariant vars == Dotenv(old(vars), lines[..i])
      {
        DotenvStep(old(vars), lines, i);
        LoadLine(lines[i]);
        i := i + 1;
      }
      assert lines[..i] == lines;
    }

    /** One line of load_dotenv: strip, skip blanks and comments, split at the first "=", setdefault. */
    method LoadLine(line: string)
      modifies this
      ensures vars == match ParseLine(line)
        case None => old(vars)
        case Some((k, v)) => if k in old(vars) then old(vars) else old(vars)[k := v]
    {
      ParseLineCases(line);
      var l := Strip(line);
      if l != "" && !StartsWith(l, "#") {
        var eq := IndexOf(l, '=');
        if eq.Some? {
          var key, value := Strip(l[..eq.value]), Strip(l[eq.value + 1..]);
          if key !in vars {
            vars := vars[key := value];
          }
        }
      }
    }
  }

  // ---------------------------------------------------------------- the default merge

  /** `item in value`: a dict has the key, a list has the string, a string has the substring; anything else raises. */
  function Membership(v: YValue, k: string): Option<bool> {
    match v
    case YDict(m) => Some(k in m)
    case YList(items) => Some(YStr(k) in items)
    case YStr(s) => Some(Contains(s, k))
    case _ => None
  }

  /** The container a default fills in place: a dict for a dict default, a list for a list default. */
  predicate RightKind(isDict: bool, v: YValue) {
    if isDict then v.YDict? else v.YList?
  }

  /** Every item's key is already in the value. */
  ghost predicate HasAll(v: YValue, items: seq<(string, YValue)>) {
    forall i :: 0 <= i < |items| ==> Membership(v, items[i].0) == Some(true)
  }

  /** The items a list default is filled with: each string, with itself as the value to append. */
  function ListItems(strs: seq<string>): (r: seq<(string, YValue)>)
    ensures |r| == |strs| && forall i :: 0 <= i < |strs| ==> r[i] == (strs[i], YStr(strs[i]))
  {
    if |strs| == 0 then [] else ListItems(strs[..|strs| - 1]) + [(strs[|strs| - 1], YStr(strs[|strs| - 1]))]
  }

  /** One item of the inner loop: skip if present, add if the container allows it, otherwise the exception. */
  function FillStep(isDict: bool, v: YValue, item: (string, YValue)): Option<(YValue, bool)> {
    match Membership(v, item.0)
    case None => None
    case Some(present) =>
      if present then Some((v, false))
      else match v
        case YDict(m) => if isDict then Some((YDict(m[item.0 := item.1]), true)) else None
        case YList(xs) => if !isDict then Some((YList(xs + [YStr(item.0)]), true)) else None
        case _ => None
  }

  /** The inner loop over a dict or list default: the filled value and whether anything was added, or None. */
  function Fill(isDict: bool, v: YValue, items: seq<(string, YValue)>): Option<(YValue, bool)> {
    if |items| == 0 then Some((v, false))
    else match Fill(isDict, v, items[..|items| - 1])
      case None => None
      case Some((w, u)) =>
        match FillStep(isDict, w, items[|items| - 1])
        case None => None
        case Some((w', u')) => Some((w', u || u'))
  }

  lemma {:induction false} FillPrefixFails(isDict: bool, v: YValue, items: seq<(string, YValue)>, i: nat)
    requires i <= |items| && Fill(isDict, v, items[..i]).None?
    ensures Fill(isDict, v, items).None?
    decreases |items| - i
  {
    if i < |items| {
      assert items[..i + 1][..i] == items[..i];
      FillPrefixFails(isDict, v, items, i + 1);
    } else {
      assert items[..i] == items;
    }
  }

  /** One item: afterwards it is present, what was present stays, the kind is kept, and it was added iff missing. */
  lemma FillStepFacts(isDict: bool, v: YValue, item: (string, YValue))
    requires FillStep(isDict, v, item).Some?
    ensures var (w, u) := FillStep(isDict, v, item).value;
      && Membership(w, item.0) == Some(true)
      && (u <==> Membership(v, item.0) == Some(false))
      && (!u ==> w == v)
      && (forall k :: Membership(v, k) == Some(true) ==> Membership(w, k) == Some(true))
      && w.YDict? == v.YDict? && w.YList? == v.YList? && w.YStr? == v.YStr?
  {
    var (w, u) := FillStep(isDict, v, item).value;
    if u {
      match v {
        case YDict(m) =>
          assert w.fields == m[item.0 := item.1];
        case YList(xs) =>
          assert w.items == xs + [YStr(item.0)];
      }
    }
  }

  /**
   * After a fill every item is present, a key present before is still
   * present, the value keeps its kind, and something was added iff some item
   * was missing.
   */
  lemma {:induction false} FillCompletes(isDict: bool, v: YValue, items: seq<(string, YValue)>)
    requires Fill(isDict, v, items).Some?
    ensures var (w, u) := Fill(isDict, v, items).value;
      && HasAll(w, items)
      && (u <==> !HasAll(v, items))
      && (!u ==> w == v)
      && (forall k :: Membership(v, k) == Some(true) ==> Membership(w, k) == Some(true))
      && w.YDict? == v.YDict? && w.YList? == v.YList? && w.YStr? == v.YStr?
  {
    if |items| > 0 {
      var pre := items[..|items| - 1];
      var last := items[|items| - 1];
      FillCompletes(isDict, v, pre);
      var (w0, u0) := Fill(isDict, v, pre).value;
      FillStepFacts(isDict, w0, last);
      var (w, u) := Fill(isDict, v, items).value;
      assert forall i :: 0 <= i < |pre| ==> pre[i] == items[i];
      assert HasAll(w, items) by {
        forall i | 0 <= i < |items| ensures Membership(w, items[i].0) == Some(true) {
          if i < |pre| {
            assert Membership(w0, pre[i].0) == Some(true);
          }
        }
      }
      if !u0 {
        assert w0 == v;
        if Membership(v, last.0) != Some(true) {
          assert !HasAll(v, items);
        }
      } else {
        var i :| 0 <= i < |pre| && Membership(v, pre[i].0) != Some(true);
        assert Membership(v, items[i].0) != Some(true);
      }
    }
  }

  /** Filling a value that already has every item changes nothing. */
  lemma {:induction false} FillIdle(isDict: bool, v: YValue, items: seq<(string, YValue)>)
    requires HasAll(v, items)
    ensures Fill(isDict, v, items) == Some((v, false))
  {
    if |items| > 0 {
      var pre := items[..|items| - 1];
      assert forall i :: 0 <= i < |pre| ==> pre[i] == items[i];
      FillIdle(isDict, v, pre);
      assert Membership(v, items[|items| - 1].0) == Some(true);
    }
  }

  /** The fill raises exactly when the user's value is not the container and some item is not already in it. */
  lemma {:induction false} FillFails(isDict: bool, v: YValue, items: seq<(string, YValue)>)
    ensures Fill(isDict, v, items).None? <==> !RightKind(isDict, v) && !HasAll(v, items)
  {
    if |items| > 0 {
      var pre := items[..|items| - 1];
      var last := items[|items| - 1];
      FillFails(isDict, v, pre);
      assert forall i :: 0 <= i < |pre| ==> pre[i] == items[i];
      if Fill(isDict, v, pre).Some? {
        FillCompletes(isDict, v, pre);
        var (w0, u0) := Fill(isDict, v, pre).value;
        if !RightKind(isDict, v) {
          assert HasAll(v, pre);
          assert w0 == v;
        } else {
          assert RightKind(isDict, w0);
        }
      }
    }
  }

  /** The keys of a sequence of items. */
  ghost function ItemKeys(items: seq<(string, YValue)>): set<string> {
    set i | 0 <= i < |items| :: items[i].0
  }

  /** A dict default never raises on a user's dict, and the result is a dict. */
  lemma FillDictShape(m: map<string, YValue>, entries: seq<(string, YValue)>)
    ensures Fill(true, YDict(m), entries).Some? && Fill(true, YDict(m), entries).value.0.YDict?
  {
    FillFails(true, YDict(m), entries);
    FillCompletes(true, YDict(m), entries);
  }

  /** The last entry of a dict default is added iff its key is still missing. */
  lemma FillDictLast(m: map<string, YValue>, entries: seq<(string, YValue)>)
    requires |entries| > 0
    ensures Fill(true, YDict(m), entries).Some? && Fill(true, YDict(m), entries[..|entries| - 1]).Some?
    ensures var w0 := Fill(true, YDict(m), entries[..|entries| - 1]).value.0;
      var w := Fill(true, YDict(m), entries).value.0;
      var last := entries[|entries| - 1];
      w0.YDict? && w == if last.0 in w0.fields then w0 else YDict(w0.fields[last.0 := last.1])
  {
    FillDictShape(m, entries[..|entries| - 1]);
    FillDictShape(m, entries);
  }

  /** A dict default fills a user's dict: the keys become the user's and the default's, and the user's values stay. */
  lemma {:induction false} FillDictKeys(m: map<string, YValue>, entries: seq<(string, YValue)>)
    ensures Fill(true, YDict(m), entries).Some? && Fill(true, YDict(m), entries).value.0.YDict?
    ensures var w := Fill(true, YDict(m), entries).value.0.fields;
      w.Keys == m.Keys + ItemKeys(entries) && forall k :: k in m ==> w[k] == m[k]
  {
    FillDictShape(m, entries);
    if |entries| > 0 {
      var pre := entries[..|entries| - 1];
      FillDictKeys(m, pre);
      FillDictLast(m, entries);
      assert ItemKeys(entries) == ItemKeys(pre) + {entries[|entries| - 1].0} by {
        assert forall i :: 0 <= i < |pre| ==> pre[i] == entries[i];
      }
    }
  }

  /** Each key missing from the user's dict gets the value of its first entry in the default. */
  lemma {:induction false} FillDictFirstWins(m: map<string, YValue>, entries: seq<(string, YValue)>, i: nat)
    requires i < |entries| && entries[i].0 !in m
    requires forall j :: 0 <= j < i ==> entries[j].0 != entries[i].0
    ensures Fill(true, YDict(m), entries).Some? && Fill(true, YDict(m), entries).value.0.YDict?
    ensures var w := Fill(true, YDict(m), entries).value.0.fields;
      entries[i].0 in w && w[entries[i].0] == entries[i].1
  {
    FillDictShape(m, entries);
    var pre := entries[..|entries| - 1];
    FillDictLast(m, entries);
    var w0 := Fill(true, YDict(m), pre).value.0.fields;
    if i < |pre| {
      FillDictFirstWins(m, pre, i);
    } else {
      FillDictKeys(m, pre);
      assert entries[i].0 !in ItemKeys(pre);
    }
  }

  /**
   * A list default fills a user's list: the user's items come first,
   * unchanged and in their order; after them come only default strings the
   * user did not list, each once; and every default string is then present.
   */
  lemma {:induction false} FillListContents(xs: seq<YValue>, strs: seq<string>)
    ensures Fill(false, YList(xs), ListItems(strs)).Some?
    ensures var w := Fill(false, YList(xs), ListItems(strs)).value.0;
      && w.YList? && |xs| <= |w.items| && w.items[..|xs|] == xs
      && (forall j :: |xs| <= j < |w.items| ==> w.items[j] !in xs && w.items[j] in ListItemsValues(strs))
      && (forall a, b :: |xs| <= a < b < |w.items| ==> w.items[a] != w.items[b])
      && (forall i :: 0 <= i < |strs| ==> YStr(strs[i]) in w.items)
  {
    FillFails(false, YList(xs), ListItems(strs));
    FillCompletes(false, YList(xs), ListItems(strs));
    var w := Fill(false, YList(xs), ListItems(strs)).value.0;
    if |strs| == 0 {
      assert w.items[..|xs|] == xs;
    } else {
      var pre := strs[..|strs| - 1];
      var last := strs[|strs| - 1];
      assert ListItems(strs)[..|strs| - 1] == ListItems(pre);
      FillListContents(xs, pre);
      var w0 := Fill(false, YList(xs), ListItems(pre)).value.0;
      assert ListFilled(xs, pre, w0.items);
      assert w == if YStr(last) in w0.items then w0 else YList(w0.items + [YStr(last)]);
      ListFilledStep(xs, strs, w0.items);
    }
    assert ListFilled(xs, strs, w.items);
  }

  /** The shape FillListContents states of the filled items. */
  ghost predicate ListFilled(xs: seq<YValue>, strs: seq<string>, items: seq<YValue>) {
    && |xs| <= |items| && items[..|xs|] == xs
    && (forall j :: |xs| <= j < |items| ==> items[j] !in xs && items[j] in ListItemsValues(strs))
    && (forall a, b :: |xs| <= a < b < |items| ==> items[a] != items[b])
    && (forall i :: 0 <= i < |strs| ==> YStr(strs[i]) in items)
  }

  lemma ListFilledStep(xs: seq<YValue>, strs: seq<string>, items0: seq<YValue>)
    requires |strs| > 0 && ListFilled(xs, strs[..|strs| - 1], items0)
    ensures var last := YStr(strs[|strs| - 1]);
      ListFilled(xs, strs, if last in items0 then items0 else items0 + [last])
  {
    var pre := strs[..|strs| - 1];
    var last := YStr(strs[|strs| - 1]);
    var items := if last in items0 then items0 else items0 + [last];
    assert forall v :: v in ListItemsValues(pre) ==> v in ListItemsValues(strs);
    assert last == ListItemsValues(strs)[|strs| - 1];
    if last !in items0 {
      assert items[..|items0|] == items0;
      assert items[..|xs|] == items0[..|xs|];
      forall j | |xs| <= j < |items| ensures items[j] !in xs {
        if j == |items0| {
          assert xs == items0[..|xs|];
        }
      }
    }
    assert forall i :: 0 <= i < |pre| ==> strs[i] == pre[i];
  }

  /** The values a list default appends. */
  function ListItemsValues(strs: seq<string>): (r: seq<YValue>)
    ensures |r| == |strs| && forall i :: 0 <= i < |strs| ==> r[i] == YStr(strs[i])
  {
    if |strs| == 0 then [] else ListItemsValues(strs[..|strs| - 1]) + [YStr(strs[|strs| - 1])]
  }

  /** A default as it is stored when its key is missing altogether. */
  function AsValue(d: Default): YValue {
    match d
    case Scalar(v) => v
    case DictOf(entries) => YDict(EntriesMap(entries))
    case ListOf(strs) => YList(ListItemsValues(strs))
  }

  /** A dict literal: for a repeated key the last entry wins. */
  function EntriesMap(entries: seq<(string, YValue)>): (m: map<string, YValue>)
    ensures forall k :: k in m <==> exists i :: 0 <= i < |entries| && entries[i].0 == k
  {
    if |entries| == 0 then map[]
    else
      var pre := entries[..|entries| - 1];
      var m := EntriesMap(pre);
      assert forall i :: 0 <= i < |pre| ==> pre[i] == entries[i];
      m[entries[|entries| - 1].0 := entries[|entries| - 1].1]
  }

  /** The items a non-scalar default is filled item by item with. */
  function ItemsOf(d: Default): seq<(string, YValue)> {
    match d
    case Scalar(_) => []
    case DictOf(entries) => entries
    case ListOf(strs) => ListItems(strs)
  }

  /** One key of the outer loop: a missing key gets the default, a dict or list default is filled item by item. */
  function MergeEntry(config: map<string, YValue>, e: (string, Default)): Option<(map<string, YValue>, bool)> {
    var (key, d) := e;
    if key !in config then Some((config[key := AsValue(d)], true))
    else if d.Scalar? then Some((config, false))
    else match Fill(d.DictOf?, config[key], ItemsOf(d))
      case None => None
      case Some((w, u)) => Some((config[key := w], u))
  }

  /** The outer loop of load_config over DEFAULT_CONFIG: the filled mapping and `updated`, or None if it raises. */
  function Merge(config: map<string, YValue>, defaults: Defaults): Option<(map<string, YValue>, bool)> {
    if |defaults| == 0 then Some((config, false))
    else match Merge(config, defaults[..|defaults| - 1])
      case None => None
      case Some((c, u)) =>
        match MergeEntry(c, defaults[|defaults| - 1])
        case None => None
        case Some((c', u')) => Some((c', u || u'))
  }

  lemma {:induction false} MergePrefixFails(config: map<string, YValue>, defaults: Defaults, i: nat)
    requires i <= |defaults| && Merge(config, defaults[..i]).None?
    ensures Merge(config, defaults).None?
    decreases |defaults| - i
  {
    if i < |defaults| {
      assert defaults[..i + 1][..i] == defaults[..i];
      MergePrefixFails(config, defaults, i + 1);
    } else {
      assert defaults[..i] == defaults;
    }
  }

  ghost predicate DistinctKeys(defaults: Defaults) {
    forall i, j :: 0 <= i < j < |defaults| ==> defaults[i].0 != defaults[j].0
  }

  /** The key is present and, for a dict or list default, so is every item. */
  ghost predicate EntryComplete(config: map<string, YValue>, e: (string, Default)) {
    e.0 in config && (e.1.Scalar? || HasAll(config[e.0], ItemsOf(e.1)))
  }

  ghost predicate Complete(config: map<string, YValue>, defaults: Defaults) {
    forall i :: 0 <= i < |defaults| ==> EntryComplete(config, defaults[i])
  }

  /** The key is present with a value that is not the default's container and lacks some item: the fill raises. */
  ghost predicate EntryFails(config: map<string, YValue>, e: (string, Default)) {
    e.0 in config && !e.1.Scalar? && !RightKind(e.1.DictOf?, config[e.0]) && !HasAll(config[e.0], ItemsOf(e.1))
  }

  lemma MergeEntryFacts(config: map<string, YValue>, e: (string, Default))
    ensures MergeEntry(config, e).None? <==> EntryFails(config, e)
    ensures MergeEntry(config, e).Some? ==>
      var (c, u) := MergeEntry(config, e).value;
      && c.Keys == config.Keys + {e.0}
      && (forall k :: k in config && k != e.0 ==> c[k] == config[k])
      && EntryComplete(c, e)
      && (u <==> !EntryComplete(config, e))
      && (!u ==> c == config)
      && (e.0 !in config ==> c[e.0] == AsValue(e.1))
      && (e.0 in config && e.1.Scalar? ==> c[e.0] == config[e.0])
  {
    var (key, d) := e;
    if key in config && !d.Scalar? {
      FillFails(d.DictOf?, config[key], ItemsOf(d));
      if Fill(d.DictOf?, config[key], ItemsOf(d)).Some? {
        FillCompletes(d.DictOf?, config[key], ItemsOf(d));
      }
    } else if key !in config && !d.Scalar? {
      AsValueComplete(d);
    }
  }

  /** A default stored whole has every one of its items. */
  lemma AsValueComplete(d: Default)
    ensures HasAll(AsValue(d), ItemsOf(d))
  {
    match d {
      case Scalar(_) =>
      case DictOf(entries) =>
        forall i | 0 <= i < |entries| ensures entries[i].0 in EntriesMap(entries) {
        }
      case ListOf(strs) =>
        forall i | 0 <= i < |strs| ensures YStr(strs[i]) in ListItemsValues(strs) {
          assert ListItemsValues(strs)[i] == YStr(strs[i]);
        }
    }
  }

  /** The keys DEFAULT_CONFIG-like defaults fill. */
  ghost function KeysOf(defaults: Defaults): set<string> {
    set i | 0 <= i < |defaults| :: defaults[i].0
  }

  /** One entry only looks at its own key: two mappings that agree there give the same outcome there. */
  lemma MergeEntryLocal(c1: map<string, YValue>, c2: map<string, YValue>, e: (string, Default))
    requires e.0 in c1 <==> e.0 in c2
    requires e.0 in c1 ==> c1[e.0] == c2[e.0]
    ensures MergeEntry(c1, e).Some? <==> MergeEntry(c2, e).Some?
    ensures MergeEntry(c1, e).Some? ==>
      && e.0 in MergeEntry(c1, e).value.0 && e.0 in MergeEntry(c2, e).value.0
      && MergeEntry(c1, e).value.0[e.0] == MergeEntry(c2, e).value.0[e.0]
      && MergeEntry(c1, e).value.1 == MergeEntry(c2, e).value.1
    ensures EntryComplete(c1, e) <==> EntryComplete(c2, e)
  {
  }

  /** The merge adds exactly the default keys and leaves every other key alone. */
  lemma {:induction false} MergeKeys(config: map<string, YValue>, defaults: Defaults)
    requires DistinctKeys(defaults)
    requires Merge(config, defaults).Some?
    ensures var c := Merge(config, defaults).value.0;
      && c.Keys == config.Keys + KeysOf(defaults)
      && (forall k :: k in config && k !in KeysOf(defaults) ==> c[k] == config[k])
  {
    if |defaults| > 0 {
      var pre := defaults[..|defaults| - 1];
      var e := defaults[|defaults| - 1];
      assert forall i :: 0 <= i < |pre| ==> pre[i] == defaults[i];
      assert DistinctKeys(pre);
      MergeKeys(config, pre);
      MergeEntryFacts(Merge(config, pre).value.0, e);
      assert KeysOf(defaults) == KeysOf(pre) + {e.0};
    }
  }

  /** Each default key ends up as its own entry makes it from the input, whatever the other entries do. */
  lemma {:induction false} MergePerKey(config: map<string, YValue>, defaults: Defaults)
    requires DistinctKeys(defaults)
    requires Merge(config, defaults).Some?
    ensures forall i :: 0 <= i < |defaults| ==>
      var c := Merge(config, defaults).value.0;
      MergeEntry(config, defaults[i]).Some? && defaults[i].0 in MergeEntry(config, defaults[i]).value.0 &&
      defaults[i].0 in c && c[defaults[i].0] == MergeEntry(config, defaults[i]).value.0[defaults[i].0]
  {
    if |defaults| > 0 {
      var pre := defaults[..|defaults| - 1];
      var e := defaults[|defaults| - 1];
      assert forall i :: 0 <= i < |pre| ==> pre[i] == defaults[i];
      assert DistinctKeys(pre);
      MergePerKey(config, pre);
      MergeKeys(config, pre);
      var c0 := Merge(config, pre).value.0;
      assert e.0 !in KeysOf(pre);
      MergeEntryFacts(c0, e);
      MergeEntryLocal(c0, config, e);
      forall i | 0 <= i < |defaults|
        ensures var c := Merge(config, defaults).value.0;
          MergeEntry(config, defaults[i]).Some? && defaults[i].0 in MergeEntry(config, defaults[i]).value.0 &&
          defaults[i].0 in c && c[defaults[i].0] == MergeEntry(config, defaults[i]).value.0[defaults[i].0]
      {
        if i < |pre| {
          assert pre[i].0 != e.0;
        }
      }
    }
  }

  /** `updated` is true iff some default entry was incomplete in the input. */
  lemma {:induction false} MergeUpdated(config: map<string, YValue>, defaults: Defaults)
    requires DistinctKeys(defaults)
    requires Merge(config, defaults).Some?
    ensures Merge(config, defaults).value.1 <==> exists i :: 0 <= i < |defaults| && !EntryComplete(config, defaults[i])
  {
    if |defaults| > 0 {
      var pre := defaults[..|defaults| - 1];
      var e := defaults[|defaults| - 1];
      assert forall i :: 0 <= i < |pre| ==> pre[i] == defaults[i];
      assert DistinctKeys(pre);
      MergeUpdated(config, pre);
      MergeKeys(config, pre);
      var (c0, u0) := Merge(config, pre).value;
      assert e.0 !in KeysOf(pre);
      MergeEntryFacts(c0, e);
      MergeEntryLocal(c0, config, e);
      if u0 {
        var i :| 0 <= i < |pre| && !EntryComplete(config, pre[i]);
        assert !EntryComplete(config, defaults[i]);
      }
    }
  }

  /**
   * The merge of load_config, when it does not raise: every default key is
   * present and complete, keys outside the defaults and keys with a scalar
   * default keep their values, a missing key gets its default, and `updated`
   * is true iff the input was not already complete.
   */
  lemma MergeFacts(config: map<string, YValue>, defaults: Defaults)
    requires DistinctKeys(defaults)
    requires Merge(config, defaults).Some?
    ensures var (c, u) := Merge(config, defaults).value;
      && c.Keys == config.Keys + KeysOf(defaults)
      && Complete(c, defaults)
      && (u <==> !Complete(config, defaults))
      && (!u ==> c == config)
      && (forall k :: k in config && k !in KeysOf(defaults) ==> c[k] == config[k])
      && (forall i :: 0 <= i < |defaults| && defaults[i].0 !in config ==> c[defaults[i].0] == AsValue(defaults[i].1))
      && (forall i :: 0 <= i < |defaults| && defaults[i].0 in config && defaults[i].1.Scalar? ==>
            c[defaults[i].0] == config[defaults[i].0])
  {
    MergeKeys(config, defaults);
    MergePerKey(config, defaults);
    MergeUpdated(config, defaults);
    var (c, u) := Merge(config, defaults).value;
    forall i | 0 <= i < |defaults|
      ensures EntryComplete(c, defaults[i])
      ensures defaults[i].0 !in config ==> c[defaults[i].0] == AsValue(defaults[i].1)
      ensures defaults[i].0 in config && defaults[i].1.Scalar? ==> c[defaults[i].0] == config[defaults[i].0]
      ensures EntryComplete(config, defaults[i]) ==> c[defaults[i].0] == config[defaults[i].0]
    {
      MergeEntryFacts(config, defaults[i]);
      MergeEntryLocal(c, MergeEntry(config, defaults[i]).value.0, defaults[i]);
    }
    if !u {
      assert forall k :: k in KeysOf(defaults) ==> k in config;
      assert forall k :: k in c ==> c[k] == config[k];
    }
  }

  /** A complete mapping is merged without any change. */
  lemma {:induction false} MergeIdle(config: map<string, YValue>, defaults: Defaults)
    requires Complete(config, defaults)
    ensures Merge(config, defaults) == Some((config, false))
  {
    if |defaults| > 0 {
      var pre := defaults[..|defaults| - 1];
      var e := defaults[|defaults| - 1];
      forall i | 0 <= i < |pre| ensures EntryComplete(config, pre[i]) {
        assert pre[i] == defaults[i];
      }
      MergeIdle(config, pre);
      assert EntryComplete(config, e);
      if !e.1.Scalar? {
        FillIdle(e.1.DictOf?, config[e.0], ItemsOf(e.1));
        assert config[e.0 := config[e.0]] == config;
      }
    }
  }

  /** A second merge of the merged mapping adds nothing: it gives the same mapping and `updated` false. */
  lemma MergeIdempotent(config: map<string, YValue>, defaults: Defaults)
    requires DistinctKeys(defaults)
    requires Merge(config, defaults).Some?
    ensures var c := Merge(config, defaults).value.0; Merge(c, defaults) == Some((c, false))
  {
    MergeFacts(config, defaults);
    MergeIdle(Merge(config, defaults).value.0, defaults);
  }

  /** load_config raises in the merge exactly when some default's fill raises on the user's value. */
  lemma {:induction false} MergeFails(config: map<string, YValue>, defaults: Defaults)
    requires DistinctKeys(defaults)
    ensures Merge(config, defaults).None? <==> exists i :: 0 <= i < |defaults| && EntryFails(config, defaults[i])
  {
    if |defaults| > 0 {
      var pre := defaults[..|defaults| - 1];
      var e := defaults[|defaults| - 1];
      assert forall i :: 0 <= i < |pre| ==> pre[i] == defaults[i];
      assert DistinctKeys(pre);
      MergeFails(config, pre);
      if Merge(config, pre).Some? {
        MergeLastFails(config, defaults);
      } else {
        var i :| 0 <= i < |pre| && EntryFails(config, pre[i]);
        assert EntryFails(config, defaults[i]);
      }
    }
  }

  /** After a merge of the earlier entries that succeeded, the last entry fails on the merged mapping iff it fails on the file's. */
  lemma MergeLastFails(config: map<string, YValue>, defaults: Defaults)
    requires |defaults| > 0 && DistinctKeys(defaults)
    requires Merge(config, defaults[..|defaults| - 1]).Some?
    ensures Merge(config, defaults).None? <==> EntryFails(config, defaults[|defaults| - 1])
  {
    var pre := defaults[..|defaults| - 1];
    var e := defaults[|defaults| - 1];
    assert forall i :: 0 <= i < |pre| ==> pre[i] == defaults[i];
    MergeKeys(config, pre);
    var (c0, u0) := Merge(config, pre).value;
    MergeEntryFacts(c0, e);
    MergeEntryFacts(config, e);
    assert e.0 !in KeysOf(pre);
    MergeEntryLocal(c0, config, e);
  }

  // ---------------------------------------------------------------- DEFAULT_CONFIG and the rules after the merge

  const ConnectionStringKey := "connection_string"
  const DbConnectionVar := "DB_CONNECTION_STRING"
  const DefaultConnectionString := "sqlite:///python.db"
  const MaxDepthKey := "max_depth"
  const RecursiveCrawlKey := "recursive_crawl"

  const DefaultConfig: Defaults := [
    ("base_url", Scalar(YStr("https://www.techbend.io"))),
    ("max_depth", Scalar(YInt(2))),
    ("delay", Scalar(YInt(1))),
    ("db_path", Scalar(YStr("python.db"))),
    ("verbose", Scalar(YBool(true))),
    ("save", Scalar(YBool(true))),
    ("log_file", Scalar(YStr("techbend.log"))),
    ("generate_sitemap", Scalar(YBool(true))),
    ("recursive_crawl", Scalar(YBool(true))),
    ("download_binaries", Scalar(YBool(false))),
    ("download_specific_binaries", ListOf([])),
    ("find_images", Scalar(YBool(false))),
    ("respect_robots", Scalar(YBool(true))),
    ("exclude_url_patterns", ListOf([])),
    ("exclude_content_patterns", ListOf([])),
    ("depth_settings", DictOf([])),
    ("url_settings", DictOf([])),
    ("binary_extensions", ListOf([".pdf", ".zip", ".exe", ".tar", ".tar.gz", ".tgz", ".rar",
                                  ".iso", ".bin", ".7z", ".dmg", ".tar.xz", ".pkg", ".bz2"])),
    ("accepted_content_types", ListOf(["text/html", "application/xhtml+xml", "text/plain",
                                       "text/xml", "application/xml", "application/json"])),
    ("llm", DictOf([
      ("endpoint", YStr("http://localhost:1234/v1/chat/completions")),
      ("model", YStr("jinaai.readerlm-v2@q4_k_m")),
      ("max_tokens", YInt(16529)),
      ("temperature", YFloat("0.7")),
      ("llm_prompt_template", YStr("Please summarize the following webpage content and extract a list of relevant tags. "
                                   + "Return your answer as JSON with keys 'summary' and 'tags'.")),
      ("system_prompt", YStr("You are a helpful assistant that summarizes webpages and extracts tags."))])),
    (ConnectionStringKey, Scalar(YNull))
  ]

  /** Python's `v == 0` for the YAML values it can hold: 0 and False. */
  predicate IsPyZero(v: YValue) {
    v == YInt(0) || v == YBool(false)
  }

  /** The connection string load_config always sets: the variable when it is set and non-empty, else the sqlite default. */
  function ConnectionString(env: map<string, string>): string {
    if DbConnectionVar in env && env[DbConnectionVar] != "" then env[DbConnectionVar] else DefaultConnectionString
  }

  /** The two rules applied after the merge. */
  function PostRules(config: map<string, YValue>, env: map<string, string>): (r: map<string, YValue>)
    ensures ConnectionStringKey in r && r[ConnectionStringKey] == YStr(ConnectionString(env))
    ensures var zero := IsPyZero(if MaxDepthKey in config then config[MaxDepthKey] else YInt(2));
      && r.Keys == config.Keys + {ConnectionStringKey} + (if zero then {RecursiveCrawlKey} else {})
      && (zero ==> r[RecursiveCrawlKey] == YBool(false))
      && (!zero && RecursiveCrawlKey in config ==> r[RecursiveCrawlKey] == config[RecursiveCrawlKey])
    ensures forall k :: k in config && k != ConnectionStringKey && k != RecursiveCrawlKey ==> r[k] == config[k]
  {
    var c := config[ConnectionStringKey := YStr(ConnectionString(env))];
    if IsPyZero(if MaxDepthKey in c then c[MaxDepthKey] else YInt(2)) then c[RecursiveCrawlKey := YBool(false)] else c
  }

  /**
   * load_config: .env loaded into the environment, the defaults merged into
   * the file's mapping (`file` is `{}` when there is no file or it is empty),
   * then the post rules. `r` is None when the merge raises; `updated` says
   * the file is written back.
   */
  method LoadConfig(env: Environment, dotenvLines: seq<string>, file: map<string, YValue>)
    returns (r: Option<map<string, YValue>>, updated: bool)
    modifies env
    ensures env.vars == Dotenv(old(env.vars), dotenvLines)
    ensures r.None? <==> Merge(file, DefaultConfig).None?
    ensures r.Some? ==> r.value == PostRules(Merge(file, DefaultConfig).value.0, env.vars) &&
                        updated == Merge(file, DefaultConfig).value.1
  {
    env.LoadDotenv(dotenvLines);
    var merged;
    merged, updated := MergeDefaults(file, DefaultConfig);
    if merged.None? {
      return None, updated;
    }
    var config := merged.value;
    var db := if DbConnectionVar in env.vars then env.vars[DbConnectionVar] else "";
    if db != "" {
      config := config[ConnectionStringKey := YStr(db)];
    } else {
      config := config[ConnectionStringKey := YStr(DefaultConnectionString)];
    }
    if IsPyZero(if MaxDepthKey in config then config[MaxDepthKey] else YInt(2)) {
      config := config[RecursiveCrawlKey := YBool(false)];
    }
    return Some(config), updated;
  }

  /** The outer for-loop of load_config. */
  method MergeDefaults(file: map<string, YValue>, defaults: Defaults) returns (r: Option<map<string, YValue>>, updated: bool)
    ensures r.None? <==> Merge(file, defaults).None?
    ensures r.Some? ==> Merge(file, defaults) == Some((r.value, updated))
  {
    var config := file;
    updated := false;
    var i := 0;
    while i < |defaults|
      invariant 0 <= i <= |defaults|
      invariant Merge(file, defaults[..i]) == Some((config, updated))
    {
      assert defaults[..i + 1][..i] == defaults[..i];
      var (key, d) := defaults[i];
      if key !in config {
        config := config[key := AsValue(d)];
        updated := true;
      } else if !d.Scalar? {
        var w, u := FillValue(d.DictOf?, config[key], ItemsOf(d));
        if w.None? {
          MergePrefixFails(file, defaults, i + 1);
          return None, updated;
        }
        config := config[key := w.value];
        updated := updated || u;
      }
      i := i + 1;
    }
    assert defaults[..i] == defaults;
    return Some(config), updated;
  }

  /** The inner for-loop over the items of a dict or list default. */
  method FillValue(isDict: bool, v: YValue, items: seq<(string, YValue)>) returns (r: Option<YValue>, updated: bool)
    ensures r.None? <==> Fill(isDict, v, items).None?
    ensures r.Some? ==> Fill(isDict, v, items) == Some((r.value, updated))
  {
    var cur := v;
    updated := false;
    var i := 0;
    while i < |items|
      invariant 0 <= i <= |items|
      invariant Fill(isDict, v, items[..i]) == Some((cur, updated))
    {
      assert items[..i + 1][..i] == items[..i];
      var (k, dv) := items[i];
      var present := Membership(cur, k);
      if present.None? || (!present.value && !RightKind(isDict, cur)) {
        FillPrefixFails(isDict, v, items, i + 1);
        return None, updated;
      }
      if !present.value {
        cur := if isDict then YDict(cur.fields[k := dv]) else YList(cur.items + [YStr(k)]);
        updated := true;
      }
      i := i + 1;
    }
    assert items[..i] == items;
    return Some(cur), updated;
  }

  /** The keys of DEFAULT_CONFIG are distinct, so the merge facts apply to it. */
  lemma DefaultKeysDistinct()
    ensures DistinctKeys(DefaultConfig)
  {
    forall i, j | 0 <= i < j < |DefaultConfig| ensures DefaultConfig[i].0 != DefaultConfig[j].0 {
      if |DefaultConfig[i].0| == |DefaultConfig[j].0| {
        assert DefaultConfig[i].0[0] != DefaultConfig[j].0[0];
      }
    }
  }

  /** A file without a connection_string always gets the rules' string and is written back. */
  lemma MissingConnectionStringRewritesFile(file: map<string, YValue>, env: map<string, string>)
    requires ConnectionStringKey !in file
    requires Merge(file, DefaultConfig).Some?
    ensures Merge(file, DefaultConfig).value.1
    ensures PostRules(Merge(file, DefaultConfig).value.0, env)[ConnectionStringKey] == YStr(ConnectionString(env))
  {
    DefaultKeysDistinct();
    MergeFacts(file, DefaultConfig);
    assert DefaultConfig[|DefaultConfig| - 1].0 == ConnectionStringKey;
    assert !EntryComplete(file, DefaultConfig[|DefaultConfig| - 1]);
  }
}
