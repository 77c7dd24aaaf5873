/**
 * The single-file crawler that predates the package: its .env reader and
 * writer, its load_config with the LLM_API_KEY override, the learning of
 * binary extensions into the config file, and its crawl loop.
 */
module Legacy {
  import opened Wrappers
  import opened Strings
  import opened Frontier
  import opened Config
  import Policy
  import Summarizer
  import Crawler

  // ---------------------------------------------------------------- load_env and update_env

  /** A Python dict of environment variables: keys in insertion order, each once. */
  type EnvDict = seq<(string, string)>

  function KeyIndex(d: EnvDict, k: string): (r: Option<nat>)
    ensures r.Some? ==> r.value < |d| && d[r.value].0 == k
    ensures r.None? <==> forall j :: 0 <= j < |d| ==> d[j].0 != k
  {
    if |d| == 0 then None
    else if d[|d| - 1].0 == k then Some(|d| - 1)
    else KeyIndex(d[..|d| - 1], k)
  }

  function Lookup(d: EnvDict, k: string): Option<string> {
    match KeyIndex(d, k)
    case None => None
    case Some(i) => Some(d[i].1)
  }

  /** `d[k] = v`: an existing key keeps its place, a new key goes last. */
  function Assign(d: EnvDict, k: string, v: string): EnvDict {
    match KeyIndex(d, k)
    case None => d + [(k, v)]
    case Some(i) => d[i := (k, v)]
  }

  ghost predicate DistinctEnvKeys(d: EnvDict) {
    forall i, j :: 0 <= i < j < |d| ==> d[i].0 != d[j].0
  }

  lemma LookupAt(d: EnvDict, j: nat)
    requires DistinctEnvKeys(d) && j < |d|
    ensures Lookup(d, d[j].0) == Some(d[j].1)
  {
    var i := KeyIndex(d, d[j].0).value;
    assert i == j;
  }

  /** An assignment is read back, every other key keeps its value, and keys stay distinct. */
  lemma AssignFacts(d: EnvDict, k: string, v: string)
    requires DistinctEnvKeys(d)
    ensures DistinctEnvKeys(Assign(d, k, v))
    ensures Lookup(Assign(d, k, v), k) == Some(v)
    ensures forall k' :: k' != k ==> Lookup(Assign(d, k, v), k') == Lookup(d, k')
  {
    AssignDistinct(d, k, v);
    var a := Assign(d, k, v);
    var i := KeyIndex(d, k);
    assert |a| > 0 && (i.Some? ==> a[i.value] == (k, v)) && (i.None? ==> a[|d|] == (k, v));
    LookupAt(a, if i.Some? then i.value else |d|);
    forall k' | k' != k ensures Lookup(a, k') == Lookup(d, k') {
      AssignOther(d, k, v, k');
    }
  }

  lemma AssignDistinct(d: EnvDict, k: string, v: string)
    requires DistinctEnvKeys(d)
    ensures DistinctEnvKeys(Assign(d, k, v))
  {
    var a := Assign(d, k, v);
    if KeyIndex(d, k).None? {
      assert forall j :: 0 <= j < |d| ==> a[j] == d[j];
    }
  }

  lemma AssignOther(d: EnvDict, k: string, v: string, k': string)
    requires DistinctEnvKeys(d) && k' != k
    ensures Lookup(Assign(d, k, v), k') == Lookup(d, k')
  {
    AssignDistinct(d, k, v);
    var a := Assign(d, k, v);
    var j := KeyIndex(d, k');
    if j.Some? {
      LookupAt(d, j.value);
      assert a[j.value] == d[j.value];
      LookupAt(a, j.value);
    } else {
      assert forall j :: 0 <= j < |a| ==> a[j].0 != k';
    }
  }

  /** What each line of a file parses to. */
  function ParsedLines(lines: seq<string>): (r: seq<Option<(string, string)>>)
    ensures |r| == |lines| && forall i :: 0 <= i < |lines| ==> r[i] == ParseLine(lines[i])
  {
    seq(|lines|, i requires 0 <= i < |lines| => ParseLine(lines[i]))
  }

  /** The assignments of the parsed lines, in order. */
  function AssignAll(d: EnvDict, ps: seq<Option<(string, string)>>): EnvDict {
    if |ps| == 0 then d
    else
      var d' := AssignAll(d, ps[..|ps| - 1]);
      match ps[|ps| - 1]
      case None => d'
      case Some((k, v)) => Assign(d', k, v)
  }

  /** load_env over the lines of the file: like load_dotenv, but a later line overwrites an earlier one. */
  function ParseEnv(lines: seq<string>): EnvDict {
    AssignAll([], ParsedLines(lines))
  }

  lemma {:induction false} AssignAllDistinct(d: EnvDict, ps: seq<Option<(string, string)>>)
    requires DistinctEnvKeys(d)
    ensures DistinctEnvKeys(AssignAll(d, ps))
  {
    if |ps| > 0 {
      AssignAllDistinct(d, ps[..|ps| - 1]);
      match ps[|ps| - 1] {
        case None =>
        case Some((k, v)) => AssignFacts(AssignAll(d, ps[..|ps| - 1]), k, v);
      }
    }
  }

  lemma AssignAllLast(d: EnvDict, ps: seq<Option<(string, string)>>, k: string, v: string)
    requires DistinctEnvKeys(d)
    ensures Lookup(AssignAll(d, ps + [Some((k, v))]), k) == Some(v)
  {
    assert (ps + [Some((k, v))])[..|ps|] == ps;
    AssignAllDistinct(d, ps);
    AssignFacts(AssignAll(d, ps), k, v);
  }

  lemma ParsedLinesAppend(a: seq<string>, b: seq<string>)
    ensures ParsedLines(a + b) == ParsedLines(a) + ParsedLines(b)
  {
  }

  lemma ParsedSingle(line: string)
    ensures ParsedLines([line]) == [ParseLine(line)]
  {
  }

  /** One more line of load_env. */
  lemma ParseEnvStep(lines: seq<string>, i: nat)
    requires i < |lines|
    ensures ParseEnv(lines[..i + 1]) == match ParseLine(lines[i])
      case None => ParseEnv(lines[..i])
      case Some((k, v)) => Assign(ParseEnv(lines[..i]), k, v)
  {
    assert lines[..i + 1] == lines[..i] + [lines[i]];
    ParsedLinesAppend(lines[..i], [lines[i]]);
    assert ParsedLines(lines[..i + 1])[..i] == ParsedLines(lines[..i]);
  }

  /** A line that does not assign the key leaves its value alone. */
  lemma AssignAllOther(d: EnvDict, ps: seq<Option<(string, string)>>, q: Option<(string, string)>, k: string)
    requires DistinctEnvKeys(d)
    requires q.None? || q.value.0 != k
    ensures Lookup(AssignAll(d, ps + [q]), k) == Lookup(AssignAll(d, ps), k)
  {
    assert (ps + [q])[..|ps|] == ps;
    if q.Some? {
      AssignAllDistinct(d, ps);
      AssignFacts(AssignAll(d, ps), q.value.0, q.value.1);
    }
  }

  /** The last assignment of a key decides its value. */
  lemma {:induction false} AssignAllLastWins(d: EnvDict, ps: seq<Option<(string, string)>>, k: string, v: string, qs: seq<Option<(string, string)>>)
    requires DistinctEnvKeys(d)
    requires forall j :: 0 <= j < |qs| ==> qs[j].None? || qs[j].value.0 != k
    ensures Lookup(AssignAll(d, ps + [Some((k, v))] + qs), k) == Some(v)
    decreases |qs|
  {
    if |qs| == 0 {
      AssignAllLast(d, ps, k, v);
      assert ps + [Some((k, v))] + qs == ps + [Some((k, v))];
    } else {
      var qs' := qs[..|qs| - 1];
      AssignAllLastWins(d, ps, k, v, qs');
      AssignAllOther(d, ps + [Some((k, v))] + qs', qs[|qs| - 1], k);
      assert ps + [Some((k, v))] + qs == (ps + [Some((k, v))] + qs') + [qs[|qs| - 1]];
    }
  }

  /** In load_env the last line defining a key wins. */
  lemma LoadEnvLastLineWins(before: seq<string>, line: string, after: seq<string>)
    requires ParseLine(line).Some?
    requires forall j :: 0 <= j < |after| ==> ParseLine(after[j]).None? || ParseLine(after[j]).value.0 != ParseLine(line).value.0
    ensures Lookup(ParseEnv(before + [line] + after), ParseLine(line).value.0) == Some(ParseLine(line).value.1)
  {
    var (k, v) := ParseLine(line).value;
    ParsedLinesAppend(before, [line]);
    ParsedLinesAppend(before + [line], after);
    ParsedSingle(line);
    AssignAllLastWins([], ParsedLines(before), k, v, ParsedLines(after));
  }

  /** The two readers disagree on a repeated key: load_dotenv keeps the first value, load_env the last. */
  lemma DotenvFirstLoadEnvLast(env: map<string, string>, first: string, second: string)
    requires ParseLine(first).Some? && ParseLine(second).Some?
    requires ParseLine(first).value.0 == ParseLine(second).value.0 && ParseLine(first).value.0 !in env
    ensures var k := ParseLine(first).value.0;
      && Dotenv(env, [first, second])[k] == ParseLine(first).value.1
      && Lookup(ParseEnv([first, second]), k) == Some(ParseLine(second).value.1)
  {
    DotenvFirstOfTwo(env, first, second);
    LoadEnvLastOfTwo(first, second);
  }

  lemma DotenvFirstOfTwo(env: map<string, string>, first: string, second: string)
    requires ParseLine(first).Some? && ParseLine(first).value.0 !in env
    ensures var k := ParseLine(first).value.0; k in Dotenv(env, [first, second]) && Dotenv(env, [first, second])[k] == ParseLine(first).value.1
  {
    var e1 := Dotenv(env, [first]);
    DotenvOne(env, first);
    DotenvKeepsExisting(e1, [second]);
    DotenvAfterOne(env, first, second);
  }

  lemma DotenvOne(env: map<string, string>, first: string)
    requires ParseLine(first).Some? && ParseLine(first).value.0 !in env
    ensures Dotenv(env, [first]) == env[ParseLine(first).value.0 := ParseLine(first).value.1]
  {
    DotenvNone(env, first);
    assert [first][0] == first;
  }

  lemma DotenvNone(env: map<string, string>, first: string)
    ensures Dotenv(env, [first][..0]) == env
  {
    assert [first][..0] == [];
  }

  lemma DotenvAfterOne(env: map<string, string>, first: string, second: string)
    ensures Dotenv(env, [first, second]) == Dotenv(Dotenv(env, [first]), [second])
  {
    DotenvNone(Dotenv(env, [first]), second);
    PairPrefix(first, second);
  }

  lemma PairPrefix<T>(a: T, b: T)
    ensures [a, b][..1] == [a] && [a, b][1] == b && [b][0] == b
  {
  }

  lemma LoadEnvLastOfTwo(first: string, second: string)
    requires ParseLine(second).Some?
    ensures Lookup(ParseEnv([first, second]), ParseLine(second).value.0) == Some(ParseLine(second).value.1)
  {
    var p := ParseLine(second).value;
    ParsedLinesTwo(first, second);
    PairAsSnoc(ParseLine(first), Some(p));
    AssignAllLast([], [ParseLine(first)], p.0, p.1);
  }

  lemma PairAsSnoc<T>(a: T, b: T)
    ensures [a, b] == [a] + [b]
  {
  }

  lemma ParsedLinesTwo(first: string, second: string)
    ensures ParsedLines([first, second]) == [ParseLine(first), ParseLine(second)]
  {
  }

  /** The line update_env writes for one entry. */
  function EnvLine(e: (string, string)): string {
    e.0 + "=" + e.1
  }

  function EnvLines(d: EnvDict): (r: seq<string>)
    ensures |r| == |d| && forall i :: 0 <= i < |d| ==> r[i] == EnvLine(d[i])
  {
    if |d| == 0 then [] else [EnvLine(d[0])] + EnvLines(d[1..])
  }

  /** The file update_env writes: each entry's line followed by a newline, in the dict's order. */
  function Serialise(d: EnvDict): string {
    if |d| == 0 then "" else EnvLine(d[0]) + "\n" + Serialise(d[1..])
  }

  lemma {:induction false} SerialiseIsJoin(d: EnvDict)
    ensures Serialise(d) == Join("\n", EnvLines(d) + [""])
  {
    if |d| > 0 {
      SerialiseIsJoin(d[1..]);
      assert (EnvLines(d) + [""])[1..] == EnvLines(d[1..]) + [""];
    }
  }

  /** An entry update_env can write and load_env read back unchanged. */
  predicate Writable(e: (string, string)) {
    && IsTrimmed(e.0) && IsTrimmed(e.1)
    && '=' !in e.0 && '\n' !in e.0 && '\n' !in e.1
    && (|e.0| > 0 ==> e.0[0] != '#')
  }

  lemma WrittenLineShape(e: (string, string))
    requires Writable(e)
    ensures var l := EnvLine(e);
      && l == e.0 + ['='] + e.1 && IsTrimmed(l) && Strip(l) == l && l != "" && !StartsWith(l, "#")
      && '\n' !in l
  {
    var (k, v) := e;
    var l := EnvLine(e);
    assert l == k + ['='] + v;
    if |k| > 0 { assert l[0] == k[0]; } else { assert l[0] == '='; }
    if |v| > 0 { assert l[|l| - 1] == v[|v| - 1]; } else { assert l[|l| - 1] == '='; }
    StripTrims(l);
  }

  lemma ParseWrittenLine(e: (string, string))
    requires Writable(e)
    ensures ParseLine(EnvLine(e)) == Some(e)
  {
    var (k, v) := e;
    WrittenLineShape(e);
    IndexOfAfter(k, '=', v);
    SplitAround(k, '=', v);
    StripTrims(k);
    StripTrims(v);
    ParseLineAt(EnvLine(e), |k|);
  }

  /** A stripped, non-comment line splits at its first "=". */
  lemma ParseLineAt(l: string, i: nat)
    requires Strip(l) == l && l != "" && !StartsWith(l, "#") && IndexOf(l, '=') == Some(i)
    ensures ParseLine(l) == Some((Strip(l[..i]), Strip(l[i + 1..])))
  {
  }

  lemma SplitAround(a: string, c: char, b: string)
    ensures (a + [c] + b)[..|a|] == a && (a + [c] + b)[|a| + 1..] == b
  {
  }

  /** A line without a newline parses, if at all, to a writable entry. */
  lemma ParsedLineWritable(line: string)
    requires '\n' !in line && ParseLine(line).Some?
    ensures Writable(ParseLine(line).value)
  {
    ParseLineKey(line);
    ParseLineAvoids(line, '\n');
  }

  lemma AssignWritable(d: EnvDict, k: string, v: string)
    requires forall i :: 0 <= i < |d| ==> Writable(d[i])
    requires Writable((k, v))
    ensures forall i :: 0 <= i < |Assign(d, k, v)| ==> Writable(Assign(d, k, v)[i])
  {
    forall i | 0 <= i < |Assign(d, k, v)| ensures Writable(Assign(d, k, v)[i]) {
      if i < |d| && Assign(d, k, v)[i] != (k, v) {
        assert Assign(d, k, v)[i] == d[i];
      }
    }
  }

  lemma {:induction false} AssignAllWritable(d: EnvDict, ps: seq<Option<(string, string)>>)
    requires forall i :: 0 <= i < |d| ==> Writable(d[i])
    requires forall i :: 0 <= i < |ps| && ps[i].Some? ==> Writable(ps[i].value)
    ensures forall i :: 0 <= i < |AssignAll(d, ps)| ==> Writable(AssignAll(d, ps)[i])
  {
    if |ps| > 0 {
      var pre := ps[..|ps| - 1];
      AssignAllWritable(d, pre);
      var d' := AssignAll(d, pre);
      match ps[|ps| - 1] {
        case None =>
        case Some((k, v)) =>
          assert Writable((k, v));
          AssignWritable(d', k, v);
      }
    }
  }

  /** Every entry load_env produces from newline-free lines can be written back. */
  lemma ParsedWritable(lines: seq<string>)
    requires forall i :: 0 <= i < |lines| ==> '\n' !in lines[i]
    ensures DistinctEnvKeys(ParseEnv(lines))
    ensures forall i :: 0 <= i < |ParseEnv(lines)| ==> Writable(ParseEnv(lines)[i])
  {
    var ps := ParsedLines(lines);
    forall i | 0 <= i < |ps| && ps[i].Some? ensures Writable(ps[i].value) {
      ParsedLineWritable(lines[i]);
    }
    AssignAllWritable([], ps);
    AssignAllDistinct([], ps);
  }

  /** Fresh keys are appended in order. */
  lemma {:induction false} AssignAllFresh(d: EnvDict)
    requires DistinctEnvKeys(d)
    ensures AssignAll([], seq(|d|, i requires 0 <= i < |d| => Some(d[i]))) == d
  {
    if |d| > 0 {
      var pre := d[..|d| - 1];
      var ps := seq(|d|, i requires 0 <= i < |d| => Some(d[i]));
      assert ps[..|d| - 1] == seq(|pre|, i requires 0 <= i < |pre| => Some(pre[i]));
      AssignAllFresh(pre);
      assert KeyIndex(pre, d[|d| - 1].0).None?;
      assert pre + [d[|d| - 1]] == d;
    }
  }

  lemma EnvLinesNoNewline(d: EnvDict)
    requires forall i :: 0 <= i < |d| ==> Writable(d[i])
    ensures forall i :: 0 <= i < |EnvLines(d) + [""]| ==> '\n' !in (EnvLines(d) + [""])[i]
  {
    forall i | 0 <= i < |d| ensures '\n' !in EnvLines(d)[i] {
      WrittenLineShape(d[i]);
    }
  }

  lemma ParseEmptyLine()
    ensures ParseLine("") == None
  {
  }

  lemma ParsedWrittenLines(d: EnvDict)
    requires forall i :: 0 <= i < |d| ==> Writable(d[i])
    ensures ParsedLines(EnvLines(d) + [""]) == seq(|d|, i requires 0 <= i < |d| => Some(d[i])) + [None]
  {
    ParsedLinesAppend(EnvLines(d), [""]);
    ParsedEnvLines(d);
    ParsedEmptyPiece();
  }

  /** Each written line parses back to its entry. */
  lemma {:induction false} ParsedEnvLines(d: EnvDict)
    requires forall i :: 0 <= i < |d| ==> Writable(d[i])
    ensures ParsedLines(EnvLines(d)) == seq(|d|, i requires 0 <= i < |d| => Some(d[i]))
  {
    if |d| == 0 {
      assert EnvLines(d) == [];
    } else {
      assert EnvLines(d) == [EnvLine(d[0])] + EnvLines(d[1..]);
      ParsedLinesAppend([EnvLine(d[0])], EnvLines(d[1..]));
      ParsedWrittenSingle(d[0]);
      ParsedEnvLines(d[1..]);
      SomesCons(d);
    }
  }

  lemma ParsedWrittenSingle(e: (string, string))
    requires Writable(e)
    ensures ParsedLines([EnvLine(e)]) == [Some(e)]
  {
    ParseWrittenLine(e);
  }

  lemma SomesCons(d: EnvDict)
    requires |d| > 0
    ensures seq(|d|, i requires 0 <= i < |d| => Some(d[i]))
      == [Some(d[0])] + seq(|d[1..]|, i requires 0 <= i < |d[1..]| => Some(d[1..][i]))
  {
  }

  /** The empty piece after the last newline parses to nothing. */
  lemma ParsedEmptyPiece()
    ensures ParsedLines([""]) == [None]
  {
    ParseEmptyLine();
  }

  /** The written file splits into the written lines and an empty last piece. */
  lemma SplitSerialised(d: EnvDict)
    requires forall i :: 0 <= i < |d| ==> Writable(d[i])
    ensures Split(Serialise(d), '\n') == EnvLines(d) + [""]
  {
    SerialiseIsJoin(d);
    EnvLinesNoNewline(d);
    SplitJoin(EnvLines(d) + [""], '\n');
  }

  /** A line that parses to nothing leaves the dict as it was. */
  lemma AssignAllNone(d: EnvDict, ps: seq<Option<(string, string)>>)
    ensures AssignAll(d, ps + [None]) == AssignAll(d, ps)
  {
    assert (ps + [None])[..|ps|] == ps;
  }

  /** The entries of a dict, assigned in order to an empty one, rebuild it. */
  lemma AssignWrittenDict(d: EnvDict)
    requires DistinctEnvKeys(d)
    ensures AssignAll([], seq(|d|, i requires 0 <= i < |d| => Some(d[i])) + [None]) == d
  {
    var somes := seq(|d|, i requires 0 <= i < |d| => Some(d[i]));
    AssignAllNone([], somes);
    AssignAllFresh(d);
  }

  /** The written lines parse back to the dict. */
  lemma ParseWrittenDict(d: EnvDict)
    requires DistinctEnvKeys(d)
    requires forall i :: 0 <= i < |d| ==> Writable(d[i])
    ensures ParseEnv(EnvLines(d) + [""]) == d
  {
    ParsedWrittenLines(d);
    AssignWrittenDict(d);
  }

  /** update_env's file read back with load_env gives the dict it wrote. */
  lemma SerialiseRoundTrip(d: EnvDict)
    requires DistinctEnvKeys(d)
    requires forall i :: 0 <= i < |d| ==> Writable(d[i])
    ensures ParseEnv(Split(Serialise(d), '\n')) == d
  {
    SplitSerialised(d);
    ParseWrittenDict(d);
  }

  /** The .env file, as its text. A missing file reads like an empty one. */
  class DotenvFile {
    var text: string

    constructor (text: string)
      ensures this.text == text
    {
      this.text := text;
    }
  }

  /** load_env: the file split into lines, each parsed and assigned. */
  method LoadEnv(file: DotenvFile) returns (d: EnvDict)
    ensures d == ParseEnv(Split(file.text, '\n'))
  {
    var lines := Split(file.text, '\n');
    d := [];
    var i := 0;
    while i < |lines|
      invariant 0 <= i <= |lines|
      invariant d == ParseEnv(lines[..i])
    {
      ParseEnvStep(lines, i);
      var parsed := ParseLine(lines[i]);
      if parsed.Some? {
        d := Assign(d, parsed.value.0, parsed.value.1);
      }
      i := i + 1;
    }
    assert lines[..i] == lines;
  }

  /** The writing half of update_env: one line per entry, in the dict's order. */
  method WriteEnv(file: DotenvFile, d: EnvDict)
    modifies file
    ensures file.text == Serialise(d)
  {
    var text := "";
    var i := 0;
    while i < |d|
      invariant 0 <= i <= |d|
      invariant text + Serialise(d[i..]) == Serialise(d)
    {
      SerialiseFrom(d, i, text);
      text := text + (EnvLine(d[i]) + "\n");
      i := i + 1;
    }
    assert text + "" == text;
    file.text := text;
  }

  /** Writing entry i next and then the rest writes all entries from i. */
  lemma SerialiseFrom(d: EnvDict, i: nat, text: string)
    requires i < |d|
    ensures text + Serialise(d[i..]) == (text + (EnvLine(d[i]) + "\n")) + Serialise(d[i + 1..])
  {
    assert d[i..][1..] == d[i + 1..];
  }

  /** update_env: the file is rewritten with `key` set to `value`, and the variable is set in the environment. */
  method UpdateEnv(file: DotenvFile, env: Environment, key: string, value: string)
    modifies file, env
    ensures file.text == Serialise(Assign(ParseEnv(Split(old(file.text), '\n')), key, value))
    ensures env.vars == old(env.vars)[key := value]
  {
    var d := LoadEnv(file);
    WriteEnv(file, Assign(d, key, value));
    env.vars := env.vars[key := value];
  }

  /**
   * After update_env(key, value) with a writable pair, reading the file again
   * gives `value` for `key` and every other key its earlier value.
   */
  lemma UpdateEnvReadBack(text: string, key: string, value: string)
    requires Writable((key, value))
    ensures var before := ParseEnv(Split(text, '\n'));
      var after := ParseEnv(Split(Serialise(Assign(before, key, value)), '\n'));
      && Lookup(after, key) == Some(value)
      && forall k :: k != key ==> Lookup(after, k) == Lookup(before, k)
  {
    var before := ParseEnv(Split(text, '\n'));
    ParsedWritable(Split(text, '\n'));
    AssignFacts(before, key, value);
    var d := Assign(before, key, value);
    AssignWritable(before, key, value);
    SerialiseRoundTrip(d);
  }

  // ---------------------------------------------------------------- load_config with the LLM_API_KEY override

  const ApiKeyVar := "LLM_API_KEY"
  const LlmKey := "llm"
  const ApiKeyField := "api_key"
  const BinaryExtensionsKey := "binary_extensions"

  const LegacyBinaryExtensions := [".pdf", ".zip", ".exe", ".tar", ".tar.gz", ".tgz", ".rar",
                                   ".iso", ".bin", ".7z", ".dmg", ".tar.xz", ".pkg", ".bz2"]

  /** DEFAULT_CONFIG of the single-file crawler. */
  const LegacyDefaults: Defaults := [
    ("base_url", Scalar(YStr("https://www.techbend.io"))),
    ("max_depth", Scalar(YInt(2))),
    ("delay", Scalar(YInt(1))),
    ("db_path", Scalar(YStr("techbend.db"))),
    ("verbose", Scalar(YBool(true))),
    ("save", Scalar(YBool(true))),
    ("log_file", Scalar(YStr("techbend.log"))),
    ("generate_sitemap", Scalar(YBool(true))),
    (BinaryExtensionsKey, ListOf(LegacyBinaryExtensions)),
    ("accepted_content_types", ListOf(["text/html", "application/xhtml+xml", "text/plain",
                                       "text/xml", "application/xml", "application/json"])),
    (LlmKey, DictOf([
      ("endpoint", YStr("http://localhost:1234/v1/chat/completions")),
      ("model", YStr("jinaai.readerlm-v2@q4_k_m")),
      ("max_tokens", YInt(16529)),
      ("temperature", YFloat("0.7"))]))
  ]

  lemma LegacyKeysDistinct()
    ensures DistinctKeys(LegacyDefaults)
  {
  }

  /**
   * The override after the merge: a non-empty LLM_API_KEY becomes
   * config["llm"]["api_key"]; None when that item assignment raises, because
   * "llm" holds something other than a mapping.
   */
  function ApiKeyOverride(config: map<string, YValue>, env: map<string, string>): (r: Option<map<string, YValue>>)
    ensures r.Some? ==> r.value.Keys == config.Keys && forall k :: k in config && k != LlmKey ==> r.value[k] == config[k]
  {
    if ApiKeyVar in env && env[ApiKeyVar] != "" then
      if LlmKey in config && config[LlmKey].YDict? then
        Some(config[LlmKey := YDict(config[LlmKey].fields[ApiKeyField := YStr(env[ApiKeyVar])])])
      else None
    else Some(config)
  }

  /** load_config of the single-file crawler: the merged and overridden mapping and `updated`, or None when it raises. */
  function LoadLegacy(file: map<string, YValue>, env: map<string, string>): Option<(map<string, YValue>, bool)> {
    match Merge(file, LegacyDefaults)
    case None => None
    case Some((c, u)) =>
      match ApiKeyOverride(c, env)
      case None => None
      case Some(c') => Some((c', u))
  }

  /** The mapping the file holds after one load_config: the returned mapping if it was updated. */
  function AfterLoad(file: map<string, YValue>, env: map<string, string>): map<string, YValue> {
    match LoadLegacy(file, env)
    case Some((c, true)) => c
    case _ => file
  }

  /** A filled value keeps its kind: a dict stays a dict, anything else is not turned into one. */
  lemma {:induction false} FillKeepsDict(isDict: bool, v: YValue, items: seq<(string, YValue)>)
    requires Fill(isDict, v, items).Some?
    ensures Fill(isDict, v, items).value.0.YDict? <==> v.YDict?
  {
    if |items| > 0 {
      FillKeepsDict(isDict, v, items[..|items| - 1]);
    }
  }

  /** After a merge that does not raise, "llm" is a mapping iff the file had none or had a mapping there. */
  lemma LlmAfterMerge(file: map<string, YValue>)
    requires Merge(file, LegacyDefaults).Some?
    ensures var c := Merge(file, LegacyDefaults).value.0;
      LlmKey in c && (c[LlmKey].YDict? <==> LlmKey !in file || file[LlmKey].YDict?)
  {
    LegacyKeysDistinct();
    MergePerKey(file, LegacyDefaults);
    var e := LegacyDefaults[10];
    assert e.0 == LlmKey;
    if LlmKey in file {
      FillKeepsDict(true, file[LlmKey], ItemsOf(e.1));
    }
  }

  /**
   * The legacy load_config raises exactly when the merge raises, or when an
   * API key is set and the file's "llm" is something other than a mapping.
   */
  lemma LoadLegacyFails(file: map<string, YValue>, env: map<string, string>)
    ensures LoadLegacy(file, env).None? <==>
      (exists i :: 0 <= i < |LegacyDefaults| && EntryFails(file, LegacyDefaults[i])) ||
      (ApiKeyVar in env && env[ApiKeyVar] != "" && LlmKey in file && !file[LlmKey].YDict?)
  {
    LegacyKeysDistinct();
    MergeFails(file, LegacyDefaults);
    if Merge(file, LegacyDefaults).Some? {
      LlmAfterMerge(file);
    }
  }

  /**
   * What the legacy load_config returns: every default key present and
   * complete, the other keys of the file kept, `updated` iff the file was
   * incomplete, and a set API key stored under "llm".
   */
  lemma LoadLegacyFacts(file: map<string, YValue>, env: map<string, string>)
    requires LoadLegacy(file, env).Some?
    ensures var (c, u) := LoadLegacy(file, env).value;
      && c.Keys == file.Keys + KeysOf(LegacyDefaults)
      && Complete(c, LegacyDefaults)
      && (u <==> !Complete(file, LegacyDefaults))
      && (forall k :: k in file && k !in KeysOf(LegacyDefaults) ==> c[k] == file[k])
      && (ApiKeyVar in env && env[ApiKeyVar] != "" ==>
            c[LlmKey].YDict? && ApiKeyField in c[LlmKey].fields && c[LlmKey].fields[ApiKeyField] == YStr(env[ApiKeyVar]))
      && (!(ApiKeyVar in env && env[ApiKeyVar] != "") ==> c == Merge(file, LegacyDefaults).value.0)
  {
    LegacyKeysDistinct();
    MergeFacts(file, LegacyDefaults);
    OverrideFacts(Merge(file, LegacyDefaults).value.0, env);
  }

  /** The override keeps the keys, the completeness of the mapping, and everything outside "llm". */
  lemma OverrideFacts(m: map<string, YValue>, env: map<string, string>)
    requires ApiKeyOverride(m, env).Some?
    ensures var c := ApiKeyOverride(m, env).value;
      && (Complete(m, LegacyDefaults) ==> Complete(c, LegacyDefaults))
      && (ApiKeyVar in env && env[ApiKeyVar] != "" ==>
            c[LlmKey].YDict? && ApiKeyField in c[LlmKey].fields && c[LlmKey].fields[ApiKeyField] == YStr(env[ApiKeyVar]))
      && (!(ApiKeyVar in env && env[ApiKeyVar] != "") ==> c == m)
  {
    var c := ApiKeyOverride(m, env).value;
    if Complete(m, LegacyDefaults) {
      forall i | 0 <= i < |LegacyDefaults| ensures EntryComplete(c, LegacyDefaults[i]) {
        assert EntryComplete(m, LegacyDefaults[i]);
        if LegacyDefaults[i].0 == LlmKey {
          var items := ItemsOf(LegacyDefaults[i].1);
          forall j | 0 <= j < |items| ensures Membership(c[LlmKey], items[j].0) == Some(true) {
            assert Membership(m[LlmKey], items[j].0) == Some(true);
          }
        }
      }
    }
  }

  /**
   * A second load_config of what the first returned changes nothing and
   * writes nothing: the result is already complete and carries the key.
   */
  lemma LoadLegacyIdempotent(file: map<string, YValue>, env: map<string, string>)
    requires LoadLegacy(file, env).Some?
    ensures var c := LoadLegacy(file, env).value.0; LoadLegacy(c, env) == Some((c, false))
  {
    LoadLegacyFacts(file, env);
    var c := LoadLegacy(file, env).value.0;
    MergeIdle(c, LegacyDefaults);
    OverrideIdle(c, env);
  }

  /** The override of a mapping that already carries the key returns it as it is. */
  lemma OverrideIdle(c: map<string, YValue>, env: map<string, string>)
    requires ApiKeyVar in env && env[ApiKeyVar] != "" ==>
      LlmKey in c && c[LlmKey].YDict? && ApiKeyField in c[LlmKey].fields && c[LlmKey].fields[ApiKeyField] == YStr(env[ApiKeyVar])
    ensures ApiKeyOverride(c, env) == Some(c)
  {
    if ApiKeyVar in env && env[ApiKeyVar] != "" {
      var f := c[LlmKey].fields;
      assert f[ApiKeyField := YStr(env[ApiKeyVar])] == f;
      assert YDict(f) == c[LlmKey];
      assert c[LlmKey := c[LlmKey]] == c;
    }
  }

  /**
   * The API key from the environment reaches the YAML file: when the file
   * lacks a default key or setting and LLM_API_KEY is set, load_config
   * writes the mapping with config["llm"]["api_key"] in it.
   */
  lemma ApiKeyReachesFile(file: map<string, YValue>, env: map<string, string>)
    requires ApiKeyVar in env && env[ApiKeyVar] != ""
    requires !Complete(file, LegacyDefaults)
    requires LoadLegacy(file, env).Some?
    ensures var written := AfterLoad(file, env);
      LlmKey in written && written[LlmKey].YDict? && ApiKeyField in written[LlmKey].fields &&
      written[LlmKey].fields[ApiKeyField] == YStr(env[ApiKeyVar])
  {
    LoadLegacyFacts(file, env);
  }

  /** The YAML configuration file, as its top-level mapping; a missing or empty file reads as {}. */
  class ConfigFile {
    var contents: map<string, YValue>

    constructor (contents: map<string, YValue>)
      ensures this.contents == contents
    {
      this.contents := contents;
    }
  }

  /** load_config: merge, override, and write the mapping back when the merge added something. */
  method LoadConfigFile(file: ConfigFile, env: map<string, string>) returns (r: Option<map<string, YValue>>)
    modifies file
    ensures r.None? <==> LoadLegacy(old(file.contents), env).None?
    ensures r.Some? ==> r.value == LoadLegacy(old(file.contents), env).value.0
    ensures file.contents == AfterLoad(old(file.contents), env)
  {
    var merged, updated := MergeDefaults(file.contents, LegacyDefaults);
    if merged.None? {
      return None;
    }
    var config := merged.value;
    var key := if ApiKeyVar in env then env[ApiKeyVar] else "";
    if key != "" {
      if LlmKey !in config || !config[LlmKey].YDict? {
        return None;
      }
      config := config[LlmKey := YDict(config[LlmKey].fields[ApiKeyField := YStr(key)])];
    }
    if updated {
      file.contents := config;
    }
    return Some(config);
  }

  // ---------------------------------------------------------------- update_config_binary_extension

  /**
   * The list step of update_config_binary_extension on a loaded mapping: a
   * missing list is the default copy, a present extension changes nothing, an
   * absent one is appended. The new mapping and whether the file is written,
   * or None where `in` or append raises.
   */
  function AddExtension(config: map<string, YValue>, ext: string): (r: Option<(map<string, YValue>, bool)>)
    ensures r.Some? ==> r.value.0.Keys == config.Keys + {BinaryExtensionsKey}
    ensures r.Some? ==> forall k :: k in config && k != BinaryExtensionsKey ==> r.value.0[k] == config[k]
  {
    var list := if BinaryExtensionsKey in config then config[BinaryExtensionsKey] else AsValue(ListOf(LegacyBinaryExtensions));
    match Membership(list, ext)
    case None => None
    case Some(true) => Some((config[BinaryExtensionsKey := list], false))
    case Some(false) =>
      if list.YList? then Some((config[BinaryExtensionsKey := YList(list.items + [YStr(ext)])], true)) else None
  }

  /**
   * After the list step the extension is in the list; the file is written
   * exactly when it was absent, and then the list is the old one with the
   * extension appended once.
   */
  lemma AddExtensionFacts(config: map<string, YValue>, ext: string)
    requires BinaryExtensionsKey in config
    requires AddExtension(config, ext).Some?
    ensures var (c, written) := AddExtension(config, ext).value;
      var old_ := config[BinaryExtensionsKey];
      && Membership(c[BinaryExtensionsKey], ext) == Some(true)
      && (written <==> Membership(old_, ext) == Some(false))
      && (written ==> old_.YList? && YStr(ext) !in old_.items && c[BinaryExtensionsKey] == YList(old_.items + [YStr(ext)]))
      && (!written ==> c == config)
  {
    var (c, written) := AddExtension(config, ext).value;
    if !written {
      assert config[BinaryExtensionsKey := config[BinaryExtensionsKey]] == config;
    } else {
      assert YStr(ext) in c[BinaryExtensionsKey].items;
    }
  }

  /** A second list step with the same extension writes nothing and changes nothing. */
  lemma AddExtensionIdempotent(config: map<string, YValue>, ext: string)
    requires BinaryExtensionsKey in config
    requires AddExtension(config, ext).Some?
    ensures var c := AddExtension(config, ext).value.0; AddExtension(c, ext) == Some((c, false))
  {
    AddExtensionFacts(config, ext);
    var c := AddExtension(config, ext).value.0;
    assert c[BinaryExtensionsKey := c[BinaryExtensionsKey]] == c;
  }

  /**
   * update_config_binary_extension as a function of the file's mapping: the
   * returned list (None when it raises) and the mapping the file holds after it.
   */
  function UpdateBinaryExtension(contents: map<string, YValue>, env: map<string, string>, newExt: string)
    : (Option<YValue>, map<string, YValue>)
  {
    match LoadLegacy(contents, env)
    case None => (None, contents)
    case Some((c, _)) =>
      match AddExtension(c, Lower(newExt))
      case None => (None, AfterLoad(contents, env))
      case Some((c', written)) => (Some(c'[BinaryExtensionsKey]), if written then c' else AfterLoad(contents, env))
  }

  /** update_config_binary_extension: lower-case the extension, load the config, add it if absent and write the file. */
  method UpdateConfigBinaryExtension(file: ConfigFile, env: map<string, string>, newExt: string) returns (r: Option<YValue>)
    modifies file
    ensures (r, file.contents) == UpdateBinaryExtension(old(file.contents), env, newExt)
  {
    var ext := Lower(newExt);
    var loaded := LoadConfigFile(file, env);
    if loaded.None? {
      return None;
    }
    var config := loaded.value;
    ghost var step := AddExtension(config, ext);
    ghost var config0 := config;
    if BinaryExtensionsKey !in config {
      config := config[BinaryExtensionsKey := AsValue(ListOf(LegacyBinaryExtensions))];
    }
    var list := config[BinaryExtensionsKey];
    var present := Membership(list, ext);
    assert list == if BinaryExtensionsKey in config0 then config0[BinaryExtensionsKey] else AsValue(ListOf(LegacyBinaryExtensions));
    assert config == config0[BinaryExtensionsKey := list];
    if present.None? {
      return None;
    }
    if !present.value {
      if !list.YList? {
        return None;
      }
      config := config[BinaryExtensionsKey := YList(list.items + [YStr(ext)])];
      assert config == config0[BinaryExtensionsKey := YList(list.items + [YStr(ext)])];
      assert step == Some((config, true));
      file.contents := config;
    } else {
      assert step == Some((config, false));
    }
    return Some(config[BinaryExtensionsKey]);
  }

  /**
   * The returned list holds the lower-cased extension; the file then holds
   * the returned list under "binary_extensions", and a second call with the
   * same extension returns the same list and leaves the file as it is.
   */
  lemma UpdateBinaryExtensionFacts(contents: map<string, YValue>, env: map<string, string>, newExt: string)
    requires UpdateBinaryExtension(contents, env, newExt).0.Some?
    ensures var (r, after) := UpdateBinaryExtension(contents, env, newExt);
      && Membership(r.value, Lower(newExt)) == Some(true)
      && BinaryExtensionsKey in after && after[BinaryExtensionsKey] == r.value
      && UpdateBinaryExtension(after, env, newExt) == (r, after)
      && LoadLegacy(after, env).Some? && !LoadLegacy(after, env).value.1
      && BinaryExtensionsKey in LoadLegacy(after, env).value.0 && LoadLegacy(after, env).value.0[BinaryExtensionsKey] == r.value
  {
    var c := LoadLegacy(contents, env).value.0;
    LoadLegacyFacts(contents, env);
    assert LegacyDefaults[8].0 == BinaryExtensionsKey;
    AddExtensionFacts(c, Lower(newExt));
    if AddExtension(c, Lower(newExt)).value.1 {
      UpdateWritten(contents, env, newExt);
    } else {
      UpdateNotWritten(contents, env, newExt);
    }
  }

  lemma UpdateWritten(contents: map<string, YValue>, env: map<string, string>, newExt: string)
    requires LoadLegacy(contents, env).Some?
    requires var c := LoadLegacy(contents, env).value.0;
      BinaryExtensionsKey in c && AddExtension(c, Lower(newExt)).Some? && AddExtension(c, Lower(newExt)).value.1
    ensures var (r, after) := UpdateBinaryExtension(contents, env, newExt);
      && Membership(r.value, Lower(newExt)) == Some(true)
      && BinaryExtensionsKey in after && after[BinaryExtensionsKey] == r.value
      && UpdateBinaryExtension(after, env, newExt) == (r, after)
      && LoadLegacy(after, env).Some? && !LoadLegacy(after, env).value.1
      && BinaryExtensionsKey in LoadLegacy(after, env).value.0 && LoadLegacy(after, env).value.0[BinaryExtensionsKey] == r.value
  {
    var c := LoadLegacy(contents, env).value.0;
    AddExtensionFacts(c, Lower(newExt));
    AddExtensionIdempotent(c, Lower(newExt));
    GrownListLoadsBack(contents, env, Lower(newExt));
  }

  lemma UpdateNotWritten(contents: map<string, YValue>, env: map<string, string>, newExt: string)
    requires LoadLegacy(contents, env).Some?
    requires var c := LoadLegacy(contents, env).value.0;
      BinaryExtensionsKey in c && AddExtension(c, Lower(newExt)).Some? && !AddExtension(c, Lower(newExt)).value.1
    ensures var (r, after) := UpdateBinaryExtension(contents, env, newExt);
      && Membership(r.value, Lower(newExt)) == Some(true)
      && BinaryExtensionsKey in after && after[BinaryExtensionsKey] == r.value
      && UpdateBinaryExtension(after, env, newExt) == (r, after)
      && LoadLegacy(after, env).Some? && !LoadLegacy(after, env).value.1
      && BinaryExtensionsKey in LoadLegacy(after, env).value.0 && LoadLegacy(after, env).value.0[BinaryExtensionsKey] == r.value
  {
    var c := LoadLegacy(contents, env).value.0;
    AddExtensionFacts(c, Lower(newExt));
    AfterLoadIsLoaded(contents, env);
    AfterLoadKeepsBinary(contents, env);
  }

  /** The file after one load_config holds the loaded "binary_extensions". */
  lemma AfterLoadKeepsBinary(contents: map<string, YValue>, env: map<string, string>)
    requires LoadLegacy(contents, env).Some? && BinaryExtensionsKey in LoadLegacy(contents, env).value.0
    ensures BinaryExtensionsKey in AfterLoad(contents, env)
    ensures AfterLoad(contents, env)[BinaryExtensionsKey] == LoadLegacy(contents, env).value.0[BinaryExtensionsKey]
  {
    var (c, u) := LoadLegacy(contents, env).value;
    if !u {
      var m := Merge(contents, LegacyDefaults).value.0;
      LegacyKeysDistinct();
      MergeFacts(contents, LegacyDefaults);
      assert m == contents;
      assert LlmKey != BinaryExtensionsKey;
      assert c == ApiKeyOverride(m, env).value;
    }
  }

  /** After one load_config the file reads back as what that load returned. */
  lemma AfterLoadIsLoaded(contents: map<string, YValue>, env: map<string, string>)
    requires LoadLegacy(contents, env).Some?
    ensures LoadLegacy(AfterLoad(contents, env), env) == Some((LoadLegacy(contents, env).value.0, false))
  {
    var (c, u) := LoadLegacy(contents, env).value;
    LoadLegacyIdempotent(contents, env);
    if !u {
      LoadLegacyFacts(contents, env);
      MergeIdle(contents, LegacyDefaults);
    }
  }

  /** A loaded mapping whose list has grown by one extension loads back as itself and writes nothing. */
  lemma GrownListLoadsBack(contents: map<string, YValue>, env: map<string, string>, ext: string)
    requires LoadLegacy(contents, env).Some?
    requires var c := LoadLegacy(contents, env).value.0; BinaryExtensionsKey in c && c[BinaryExtensionsKey].YList?
    ensures var c := LoadLegacy(contents, env).value.0;
      var c' := c[BinaryExtensionsKey := YList(c[BinaryExtensionsKey].items + [YStr(ext)])];
      LoadLegacy(c', env) == Some((c', false))
  {
    var c := LoadLegacy(contents, env).value.0;
    var c' := c[BinaryExtensionsKey := YList(c[BinaryExtensionsKey].items + [YStr(ext)])];
    LoadLegacyFacts(contents, env);
    forall i | 0 <= i < |LegacyDefaults| ensures EntryComplete(c', LegacyDefaults[i]) {
      assert EntryComplete(c, LegacyDefaults[i]);
      if LegacyDefaults[i].0 == BinaryExtensionsKey {
        var items := ItemsOf(LegacyDefaults[i].1);
        forall j | 0 <= j < |items| ensures Membership(c'[BinaryExtensionsKey], items[j].0) == Some(true) {
          assert Membership(c[BinaryExtensionsKey], items[j].0) == Some(true);
        }
      }
    }
    MergeIdle(c', LegacyDefaults);
    assert LlmKey != BinaryExtensionsKey;
    OverrideIdle(c', env);
  }

  // ---------------------------------------------------------------- the legacy SiteCrawler

  /** config.get("binary_extensions", []) as the crawler uses it: a list of strings, or None for anything else. */
  function StrItems(items: seq<YValue>): (r: Option<seq<string>>)
    ensures r.Some? ==> |r.value| == |items| && forall i :: 0 <= i < |items| ==> items[i] == YStr(r.value[i])
    ensures r.None? ==> exists i :: 0 <= i < |items| && !items[i].YStr?
  {
    if |items| == 0 then Some([])
    else match StrItems(items[..|items| - 1])
      case None => None
      case Some(p) => if items[|items| - 1].YStr? then Some(p + [items[|items| - 1].s]) else None
  }

  /** The list update_config_binary_extension returns, as the crawler's field holds it; None when it holds something else. */
  function ReturnedList(v: YValue): Option<seq<string>> {
    if v.YList? then StrItems(v.items) else None
  }

  function ExtensionsOf(config: map<string, YValue>): Option<seq<string>> {
    var v := if BinaryExtensionsKey in config then config[BinaryExtensionsKey] else YList([]);
    if v.YList? then StrItems(v.items) else None
  }

  /** The reload after a learned extension: load_config again and take its list; None when either raises. */
  function Reload(contents: map<string, YValue>, env: map<string, string>): Option<(map<string, YValue>, seq<string>)> {
    match LoadLegacy(contents, env)
    case None => None
    case Some((c, _)) =>
      match ExtensionsOf(c)
      case None => None
      case Some(exts) => Some((c, exts))
  }

  /**
   * A learned extension sticks: after update_config_binary_extension the
   * reload writes nothing and its list holds the lower-cased extension.
   */
  lemma LearnedExtensionKept(contents: map<string, YValue>, env: map<string, string>, newExt: string)
    requires UpdateBinaryExtension(contents, env, newExt).0.Some?
    requires Reload(UpdateBinaryExtension(contents, env, newExt).1, env).Some?
    ensures var after := UpdateBinaryExtension(contents, env, newExt).1;
      AfterLoad(after, env) == after && Lower(newExt) in Reload(after, env).value.1
  {
    UpdateBinaryExtensionFacts(contents, env, newExt);
    var (r, after) := UpdateBinaryExtension(contents, env, newExt);
    var c := LoadLegacy(after, env).value.0;
    var exts := Reload(after, env).value.1;
    assert YStr(Lower(newExt)) in c[BinaryExtensionsKey].items;
    var i :| 0 <= i < |c[BinaryExtensionsKey].items| && c[BinaryExtensionsKey].items[i] == YStr(Lower(newExt));
    assert exts[i] == Lower(newExt);
  }

  /** The legacy crawler's collaborators, as functions of their inputs. */
  datatype LegacyWeb = LegacyWeb(
    allowed: string -> bool,              // robots can_fetch("*", url)
    fetch: string -> Crawler.Fetch,
    anchors: string -> seq<string>,       // href of every <a href> in a body
    clean: string -> string,              // clean_html with svg and base64 removal
    llm: (string, nat) -> Summarizer.Attempt,        // the i-th POST made for a cleaned text
    parse: string -> Summarizer.Parsed)   // json.loads

  /** How one dequeued URL is classified by the legacy crawl loop. */
  datatype LegacyOutcome =
    | BinarySkipped
    | Disallowed
    | FetchFailed
    | Unsupported(contentType: string)
    | Fetched(contentType: string, body: string)

  const OctetStream := "application/octet-stream"
  const BinaryType := "binary"

  /** The checks of one iteration, in the order crawl makes them: binary suffix, robots, fetch, content type. */
  function LegacyClassify(exts: seq<string>, accepted: seq<string>, web: LegacyWeb, url: string): LegacyOutcome {
    if Policy.IsBinaryUrl(exts, url) then BinarySkipped
    else if !web.allowed(url) then Disallowed
    else match web.fetch(url)
      case FetchError => FetchFailed
      case Page(header, body) =>
        var ct := Crawler.MediaType(header);
        if ct !in accepted then Unsupported(ct) else Fetched(ct, body)
  }

  /** The update_url_status call each outcome makes. */
  function LegacyMark(t: Table, url: string, o: LegacyOutcome): Table {
    var (status, ct) := MarkedAs(o);
    WithStatus(t, url, status, ct)
  }

  /** The status and content type each outcome stores: only a fetched page is visited. */
  function MarkedAs(o: LegacyOutcome): (Status, Option<string>) {
    match o
    case BinarySkipped => (Ignored, Some(BinaryType))
    case Disallowed => (Ignored, None)
    case FetchFailed => (Ignored, None)
    case Unsupported(ct) => (Ignored, Some(ct))
    case Fetched(ct, _) => (Visited, Some(ct))
  }

  /** The extension an octet-stream response teaches: the path's last extension, if non-empty and not yet known. */
  function LearnedExtension(lib: Policy.UrlLib, exts: seq<string>, url: string, o: LegacyOutcome): Option<string> {
    if o == Unsupported(OctetStream) then
      var ext := Policy.Extension(lib.path(url));
      if ext != "" && ext !in exts then Some(ext) else None
    else None
  }

  /**
   * Every outcome moves the dequeued row out of `to_visit`, a binary URL
   * included, so the dequeue never returns it again; no other row changes.
   */
  lemma LegacyMarkLeavesFrontier(t: Table, order: seq<string>, url: string, o: LegacyOutcome, maxDepth: int)
    requires url in t
    ensures LegacyMark(t, url, o).Keys == t.Keys
    ensures LegacyMark(t, url, o)[url].status != ToVisit
    ensures forall u :: u in t && u != url ==> LegacyMark(t, url, o)[u] == t[u]
    ensures var n := Scan(LegacyMark(t, url, o), order, maxDepth); n.Some? ==> n.value.0 != url
  {
    var (status, ct) := MarkedAs(o);
    MarkedRowLeavesFrontier(t, order, url, status, ct, maxDepth);
  }

  /**
   * A binary URL next in line is marked ignored with content type "binary",
   * and the next dequeue moves on to another row.
   */
  lemma LegacyBinaryRowLeaves(exts: seq<string>, accepted: seq<string>, web: LegacyWeb, t: Table, order: seq<string>, maxDepth: int)
    requires Scan(t, order, maxDepth).Some? && Policy.IsBinaryUrl(exts, Scan(t, order, maxDepth).value.0)
    ensures var u := Scan(t, order, maxDepth).value.0;
      var t' := LegacyMark(t, u, LegacyClassify(exts, accepted, web, u));
      && LegacyClassify(exts, accepted, web, u) == BinarySkipped
      && u in t && u in t' && t'[u] == t[u].(status := Ignored, contentType := Some(BinaryType))
      && (Scan(t', order, maxDepth).Some? ==> Scan(t', order, maxDepth).value.0 != u)
  {
    ScanCorrect(t, order, maxDepth);
    var u := Scan(t, order, maxDepth).value.0;
    LegacyMarkLeavesFrontier(t, order, u, BinarySkipped, maxDepth);
  }

  /** A row after a link loop: unchanged, or a binary URL's row marked ignored with "binary". */
  predicate RowKept(exts: seq<string>, u: string, before: UrlRec, after: UrlRec) {
    after == before || (Policy.IsBinaryUrl(exts, u) && after == before.(status := Ignored, contentType := Some(BinaryType)))
  }

  /** Rows are never removed, and a row that has left `to_visit` never returns to it. */
  ghost predicate NoneReturn(before: Table, after: Table) {
    before.Keys <= after.Keys &&
    forall u :: u in before && before[u].status != ToVisit ==> after[u].status != ToVisit
  }

  /** Every URL of `urls` has a row that has left `to_visit`. */
  ghost predicate Settled(t: Table, urls: set<string>) {
    forall u :: u in urls ==> u in t && t[u].status != ToVisit
  }

  lemma SettledKept(before: Table, after: Table, urls: set<string>)
    requires Settled(before, urls) && NoneReturn(before, after)
    ensures Settled(after, urls)
  {
  }

  /** Processing a dequeued row takes it out of `to_visit`, and no settled row comes back. */
  lemma ProcessedRowSettles(before: Table, after: Table, url: string, o: LegacyOutcome,
                            info: Option<(string, seq<Summarizer.Tag>)>, exts: seq<string>)
    requires url in before && before.Keys <= after.Keys
    requires !o.Fetched? ==> after == LegacyMark(before, url, o)
    requires o.Fetched? ==> url in after && after[url] == PageRow(before[url], o.contentType, info)
    requires forall u :: u in before && u != url ==> RowKept(exts, u, before[u], after[u])
    ensures NoneReturn(before, after) && url in after && after[url].status != ToVisit
  {
    if !o.Fetched? {
      var (status, ct) := MarkedAs(o);
      assert status != ToVisit;
    }
  }

  /**
   * What a legacy crawl changes: the frontier table and its order (this
   * crawler downloads nothing, so the frontier's downloads stay empty), the
   * extension list, the loaded config and the config file's mapping.
   */
  datatype LegacyState = LegacyState(frontier: Crawler.CrawlState, exts: seq<string>,
                                     config: map<string, YValue>, contents: map<string, YValue>)

  /** The legacy add_url's decision: a binary URL only has its row marked, any other is inserted. */
  function LegacyAction(exts: seq<string>): string -> Policy.AddAction {
    u => if Policy.IsBinaryUrl(exts, u) then Policy.SkipBinary else Policy.Insert
  }

  /** A run of legacy add_url calls leaves each existing row as it was, or marks a binary one ignored with "binary". */
  lemma {:induction false} LinksMarked(f: Crawler.CrawlState, links: seq<string>, exts: seq<string>, rec: UrlRec)
    ensures var r := Crawler.ApplyAll(f, links, LegacyAction(exts), rec).urls;
      forall v :: v in f.urls ==> v in r && RowKept(exts, v, f.urls[v], r[v])
  {
    if |links| > 0 {
      var pre := links[..|links| - 1];
      var u := links[|links| - 1];
      var m := Crawler.ApplyAll(f, pre, LegacyAction(exts), rec);
      LinksMarked(f, pre, exts, rec);
      Crawler.ApplyFacts(m, u, LegacyAction(exts)(u), rec);
    }
  }

  /** The summary and tags get_summary_and_tags gives a cleaned text: the first of three POSTs that does not time out. */
  function LegacySummary(web: LegacyWeb, text: string): (string, seq<Summarizer.Tag>) {
    Summarizer.FirstAnswer([web.llm(text, 0), web.llm(text, 1), web.llm(text, 2)], web.parse)
  }

  /**
   * The legacy crawl loop run for at most `fuel` iterations from `s`, each
   * iteration being `step` on the pair get_next_url returns: the dequeued
   * URLs with the extension list each was checked against, the state left,
   * and false when a step raised, which ends the crawl.
   */
  ghost function LegacyRun(step: (LegacyState, string, int) -> (LegacyState, bool), maxDepth: int, s: LegacyState, fuel: nat)
    : (r: (seq<(string, seq<string>)>, LegacyState, bool))
    ensures |r.0| <= fuel
    ensures r.2 && |r.0| < fuel ==> Crawler.Stops(r.1.frontier, maxDepth)
    decreases fuel
  {
    if fuel == 0 || Crawler.Stops(s.frontier, maxDepth) then ([], s, true)
    else
      var n := Scan(s.frontier.urls, s.frontier.order, maxDepth).value;
      var after := step(s, n.0, n.1);
      if !after.1 then ([(n.0, s.exts)], after.0, false)
      else
        var rest := LegacyRun(step, maxDepth, after.0, fuel - 1);
        ([(n.0, s.exts)] + rest.0, rest.1, rest.2)
  }

  /** A run with no fuel left, or from a state where get_next_url gives nothing to process, does nothing. */
  lemma LegacyRunStops(step: (LegacyState, string, int) -> (LegacyState, bool), maxDepth: int, s: LegacyState, fuel: nat)
    requires fuel == 0 || Crawler.Stops(s.frontier, maxDepth)
    ensures LegacyRun(step, maxDepth, s, fuel) == ([], s, true)
  {
  }

  /** The rest of the run from `s` after `prior`, while no step has raised. */
  ghost predicate LegacyAccounted(step: (LegacyState, string, int) -> (LegacyState, bool), maxDepth: int, s0: LegacyState, fuel: nat,
                                  steps: nat, prior: seq<(string, seq<string>)>, s: LegacyState)
    requires steps <= fuel
  {
    var run, rest := LegacyRun(step, maxDepth, s0, fuel), LegacyRun(step, maxDepth, s, fuel - steps);
    run == (prior + rest.0, rest.1, rest.2)
  }

  /** The loop's account of the run is kept by one more turn, whether it processes a URL, stops, or raises. */
  lemma LegacyRunAdvance(step: (LegacyState, string, int) -> (LegacyState, bool), maxDepth: int, s0: LegacyState, fuel: nat, steps: nat,
                         prior: seq<(string, seq<string>)>, before: LegacyState, after: LegacyState, next: Option<string>, ok: bool)
    requires steps < fuel && LegacyAccounted(step, maxDepth, s0, fuel, steps, prior, before)
    requires if Crawler.Stops(before.frontier, maxDepth) then next.None? && after == before && ok
      else var n := Scan(before.frontier.urls, before.frontier.order, maxDepth).value;
        next == Some(n.0) && (after, ok) == step(before, n.0, n.1)
    ensures var prior' := prior + if next.Some? then [(next.value, before.exts)] else [];
      if ok then LegacyAccounted(step, maxDepth, s0, fuel, steps + (if next.Some? then 1 else 0), prior', after)
      else LegacyRun(step, maxDepth, s0, fuel) == (prior', after, false)
    ensures next.None? ==> Crawler.Stops(after.frontier, maxDepth)
  {
    if next.Some? {
      if ok {
        var rest := LegacyRun(step, maxDepth, after, fuel - steps - 1);
        assert LegacyRun(step, maxDepth, before, fuel - steps) == ([(next.value, before.exts)] + rest.0, rest.1, rest.2);
        assert prior + ([(next.value, before.exts)] + rest.0) == (prior + [(next.value, before.exts)]) + rest.0;
      }
    } else {
      assert prior + [] == prior;
    }
  }

  class LegacyCrawler {
    const baseUrl: string
    const maxDepth: int
    const accepted: seq<string>
    const lib: Policy.UrlLib
    const env: map<string, string>     // os.environ, as load_config reads it
    const db: FrontierDb
    const store: ConfigFile
    var binaryExtensions: seq<string>
    var config: map<string, YValue>

    ghost predicate Valid()
      reads this, db
    {
      db.Valid()
    }

    ghost function State(): LegacyState
      reads this, db, store
    {
      LegacyState(Crawler.CrawlState(db.urls, db.order, []), binaryExtensions, config, store.contents)
    }

    /** __init__: the settings it reads from the config, the database and the config file. */
    constructor (config: map<string, YValue>, baseUrl: string, maxDepth: int, accepted: seq<string>,
                 binaryExtensions: seq<string>, lib: Policy.UrlLib, env: map<string, string>, db: FrontierDb, store: ConfigFile)
      requires db.Valid()
      ensures Valid() && this.config == config && this.baseUrl == baseUrl && this.maxDepth == maxDepth
      ensures this.accepted == accepted && this.binaryExtensions == binaryExtensions && this.lib == lib
      ensures this.env == env && this.db == db && this.store == store
    {
      this.config := config;
      this.baseUrl := baseUrl;
      this.maxDepth := maxDepth;
      this.accepted := accepted;
      this.binaryExtensions := binaryExtensions;
      this.lib := lib;
      this.env := env;
      this.db := db;
      this.store := store;
    }

    /** is_binary_url: the loop over the configured extensions. */
    method IsBinaryUrl(url: string) returns (r: bool)
      ensures r <==> exists i :: 0 <= i < |binaryExtensions| && EndsWith(Lower(url), binaryExtensions[i])
      ensures r == Policy.IsBinaryUrl(binaryExtensions, url)
    {
      var lowered := Lower(url);
      var i := 0;
      while i < |binaryExtensions|
        invariant 0 <= i <= |binaryExtensions|
        invariant forall j :: 0 <= j < i ==> !EndsWith(lowered, binaryExtensions[j])
      {
        if EndsWith(lowered, binaryExtensions[i]) {
          return true;
        }
        i := i + 1;
      }
      return false;
    }

    /** add_url: a binary URL only updates an existing row to ignored/"binary"; any other is inserted if absent. */
    method AddUrl(url: string, depth: int, status: Status, contentType: Option<string>)
      requires Valid()
      modifies db
      ensures Valid()
      ensures Policy.IsBinaryUrl(binaryExtensions, url) ==>
        db.urls == WithStatus(old(db.urls), url, Ignored, Some(BinaryType)) && db.order == old(db.order)
      ensures !Policy.IsBinaryUrl(binaryExtensions, url) ==>
        db.urls == InsertIfAbsent(old(db.urls), url, UrlRec(depth, status, contentType, None, None)) &&
        db.order == if url in old(db.urls) then old(db.order) else old(db.order) + [url]
      ensures State() == old(State()).(frontier := Crawler.Apply(old(State()).frontier, url, LegacyAction(binaryExtensions)(url),
                                                                 UrlRec(depth, status, contentType, None, None)))
    {
      var binary := IsBinaryUrl(url);
      if binary {
        db.UpdateUrlStatus(url, Ignored, Some(BinaryType));
        return;
      }
      db.InsertUrl(url, depth, status, contentType);
    }

    /** New rows are same-host, non-binary children of a page at `depth`, to be visited. */
    ghost predicate Children(before: Table, after: Table, depth: int)
      reads this
    {
      forall u :: u in after && u !in before ==>
        lib.netloc(u) == lib.netloc(baseUrl) && !Policy.IsBinaryUrl(binaryExtensions, u) &&
        after[u] == UrlRec(depth + 1, ToVisit, None, None, None)
    }

    /** The state after the legacy add_url(u, depth, to_visit) for each u of `links` in turn. */
    ghost function Enqueued(s: LegacyState, links: seq<string>, depth: int): LegacyState {
      s.(frontier := Crawler.ApplyAll(s.frontier, links, LegacyAction(s.exts), UrlRec(depth, ToVisit, None, None, None)))
    }

    /** The link loop: skipped hrefs ignored, the rest resolved, same-host ones added at depth + 1. */
    method EnqueueLinks(page: string, depth: int, hrefs: seq<string>)
      requires Valid()
      modifies db
      ensures Valid()
      ensures State() == Enqueued(old(State()), Crawler.Links(lib, lib.netloc(baseUrl), page, hrefs), depth + 1)
      ensures var links := Crawler.Links(lib, lib.netloc(baseUrl), page, hrefs);
        forall k :: 0 <= k < |links| && !Policy.IsBinaryUrl(binaryExtensions, links[k]) ==>
          links[k] in db.urls && (links[k] !in old(db.urls) ==> db.urls[links[k]] == UrlRec(depth + 1, ToVisit, None, None, None))
      ensures old(db.urls).Keys <= db.urls.Keys && Children(old(db.urls), db.urls, depth)
      ensures forall u :: u in old(db.urls) ==> RowKept(binaryExtensions, u, old(db.urls)[u], db.urls[u])
    {
      var i := 0;
      while i < |hrefs|
        invariant 0 <= i <= |hrefs|
        invariant Valid()
        invariant State() == Enqueued(old(State()), Crawler.Links(lib, lib.netloc(baseUrl), page, hrefs[..i]), depth + 1)
      {
        assert hrefs[..i + 1] == hrefs[..i] + [hrefs[i]];
        EnqueueHref(page, depth, hrefs[i], old(State()), hrefs[..i]);
        i := i + 1;
      }
      assert hrefs[..i] == hrefs;
      LinksInserted(old(State()), Crawler.Links(lib, lib.netloc(baseUrl), page, hrefs), depth + 1);
      LinksKept(old(State()), Crawler.Links(lib, lib.netloc(baseUrl), page, hrefs), depth + 1);
    }

    /** One pass of the link loop, for the href after `prior`. */
    method EnqueueHref(page: string, depth: int, href: string, ghost s0: LegacyState, ghost prior: seq<string>)
      requires Valid() && State() == Enqueued(s0, Crawler.Links(lib, lib.netloc(baseUrl), page, prior), depth + 1)
      modifies db
      ensures Valid() && State() == Enqueued(s0, Crawler.Links(lib, lib.netloc(baseUrl), page, prior + [href]), depth + 1)
    {
      assert (prior + [href])[..|prior|] == prior;
      ghost var links := Crawler.Links(lib, lib.netloc(baseUrl), page, prior);
      if !Crawler.SkippedHref(href) {
        var absolute := lib.join(page, href);
        if lib.netloc(absolute) == lib.netloc(baseUrl) {
          AddUrl(absolute, depth + 1, ToVisit, None);
          assert Crawler.Links(lib, lib.netloc(baseUrl), page, prior + [href]) == links + [absolute];
          Crawler.ApplyAllSnoc(s0.frontier, links, absolute, LegacyAction(s0.exts), UrlRec(depth + 1, ToVisit, None, None, None));
        } else {
          assert Crawler.Links(lib, lib.netloc(baseUrl), page, prior + [href]) == links;
        }
      } else {
        assert Crawler.Links(lib, lib.netloc(baseUrl), page, prior + [href]) == links;
      }
    }

    /** The non-binary links are in the table afterwards, and the rows created are fresh same-host children. */
    lemma LinksInserted(s: LegacyState, links: seq<string>, depth: int)
      requires s.exts == binaryExtensions
      requires forall k :: 0 <= k < |links| ==> lib.netloc(links[k]) == lib.netloc(baseUrl)
      ensures var r := Enqueued(s, links, depth).frontier.urls;
        && (forall k :: 0 <= k < |links| && !Policy.IsBinaryUrl(s.exts, links[k]) ==>
             links[k] in r && (links[k] !in s.frontier.urls ==> r[links[k]] == UrlRec(depth, ToVisit, None, None, None)))
        && Children(s.frontier.urls, r, depth - 1)
    {
      var act, rec := LegacyAction(s.exts), UrlRec(depth, ToVisit, None, None, None);
      Crawler.ApplyAllNewRows(s.frontier, links, act, rec);
      forall k | 0 <= k < |links| && act(links[k]) == Policy.Insert
        ensures links[k] in Enqueued(s, links, depth).frontier.urls
      {
        Crawler.ApplyAllInserts(s.frontier, links, act, rec, k);
      }
    }

    /** A link loop keeps every row but marks binary ones ignored, and never removes one. */
    lemma LinksKept(s: LegacyState, links: seq<string>, depth: int)
      ensures var r := Enqueued(s, links, depth).frontier.urls;
        && s.frontier.urls.Keys <= r.Keys
        && forall u :: u in s.frontier.urls ==> RowKept(s.exts, u, s.frontier.urls[u], r[u])
    {
      var rec := UrlRec(depth, ToVisit, None, None, None);
      Crawler.ApplyAllDownloads(s.frontier, links, LegacyAction(s.exts), rec);
      LinksMarked(s.frontier, links, s.exts, rec);
    }

    /**
     * The learning branch: update_config_binary_extension(ext), whose returned
     * list becomes the crawler's, then a fresh load_config whose list replaces
     * it. `ok` is false when either raises.
     */
    method Learn(ext: string) returns (ok: bool)
      modifies store, this`binaryExtensions, this`config
      ensures LearnResult(env, ext, old(store.contents), old(binaryExtensions), old(config), store.contents, binaryExtensions, config, ok)
    {
      var res := UpdateConfigBinaryExtension(store, env, ext);
      if res.None? {
        return false;
      }
      var returned := ReturnedList(res.value);
      if returned.Some? {
        binaryExtensions := returned.value;
      }
      var loaded := LoadConfigFile(store, env);
      if loaded.None? {
        return false;
      }
      config := loaded.value;
      var exts := ExtensionsOf(loaded.value);
      if exts.None? {
        return false;
      }
      binaryExtensions := exts.value;
      return true;
    }

    /** The checks of one iteration and the update_url_status call each makes. */
    method ClassifyAndMark(web: LegacyWeb, url: string) returns (o: LegacyOutcome)
      requires Valid()
      modifies db
      ensures Valid()
      ensures o == LegacyClassify(binaryExtensions, accepted, web, url)
      ensures db.urls == LegacyMark(old(db.urls), url, o) && db.order == old(db.order)
    {
      o := Classify(web, url);
      var (status, ct) := MarkedAs(o);
      db.UpdateUrlStatus(url, status, ct);
    }

    /** The checks of one dequeued URL, in the order crawl makes them: binary, robots, fetch, content type. */
    method Classify(web: LegacyWeb, url: string) returns (o: LegacyOutcome)
      ensures o == LegacyClassify(binaryExtensions, accepted, web, url)
    {
      var binary := IsBinaryUrl(url);
      if binary {
        return BinarySkipped;
      }
      if !web.allowed(url) {
        return Disallowed;
      }
      var response := web.fetch(url);
      if response.FetchError? {
        return FetchFailed;
      }
      var ct := Crawler.MediaType(response.contentTypeHeader);
      if ct !in accepted {
        return Unsupported(ct);
      }
      o := Fetched(ct, response.body);
    }

    /** The state the HTML branch leaves: page info stored, then same-host links enqueued. */
    ghost function HtmlAfter(web: LegacyWeb, s: LegacyState, url: string, depth: int, body: string): LegacyState {
      var info := LegacySummary(web, web.clean(body));
      var f := s.frontier.(urls := WithPageInfo(s.frontier.urls, url, info.0, Summarizer.TagString(info.1)));
      Enqueued(s.(frontier := f), Crawler.Links(lib, lib.netloc(baseUrl), url, web.anchors(body)), depth + 1)
    }

    /**
     * The state one iteration of the crawl loop leaves for the dequeued
     * (url, depth), and false when learning raised.
     */
    ghost function StepAfter(web: LegacyWeb, s: LegacyState, url: string, depth: int): (LegacyState, bool) {
      var o := LegacyClassify(s.exts, accepted, web, url);
      var s' := s.(frontier := s.frontier.(urls := LegacyMark(s.frontier.urls, url, o)));
      match LearnedExtension(lib, s.exts, url, o)
      case Some(ext) => LearnAfter(env, ext, s')
      case None => (if o.Fetched? && Contains(Lower(o.contentType), "html") then HtmlAfter(web, s', url, depth, o.body) else s', true)
    }

    /** One iteration of the crawl loop as a function of the state and the dequeued pair. */
    ghost function Step(web: LegacyWeb): (LegacyState, string, int) -> (LegacyState, bool) {
      (s, u, d) => StepAfter(web, s, u, d)
    }

    /** The HTML branch: summary and tags stored with the page, then its same-host links enqueued. */
    method HandleHtml(web: LegacyWeb, url: string, depth: int, body: string) returns (summary: string, tags: seq<Summarizer.Tag>)
      requires Valid() && !Policy.IsBinaryUrl(binaryExtensions, url)
      modifies db
      ensures Valid()
      ensures old(db.urls).Keys <= db.urls.Keys && Children(old(db.urls), db.urls, depth)
      ensures url in old(db.urls) ==>
        db.urls[url] == old(db.urls)[url].(summary := Some(summary), tags := Some(Summarizer.TagString(tags)))
      ensures forall u :: u in old(db.urls) && u != url ==> RowKept(binaryExtensions, u, old(db.urls)[u], db.urls[u])
      ensures (summary, tags) == LegacySummary(web, web.clean(body))
      ensures State() == HtmlAfter(web, old(State()), url, depth, body)
    {
      var text := web.clean(body);
      var posts;
      summary, tags, posts := Summarizer.GetSummaryAndTags((i: nat) => web.llm(text, i), web.parse);
      db.UpdatePageInfo(url, summary, Summarizer.TagString(tags));
      EnqueueLinks(url, depth, web.anchors(body));
    }

    /**
     * One dequeued URL: classified and marked; an unsupported octet-stream
     * response may teach its extension; a fetched HTML page gets its summary,
     * tags and links. `ok` is false when learning raises.
     */
    method ProcessUrl(web: LegacyWeb, url: string, depth: int) returns (o: LegacyOutcome, info: Option<(string, seq<Summarizer.Tag>)>, ok: bool)
      requires Valid()
      modifies db, store, this`binaryExtensions, this`config
      ensures Valid()
      ensures o == LegacyClassify(old(binaryExtensions), accepted, web, url)
      ensures !o.Fetched? ==> db.urls == LegacyMark(old(db.urls), url, o) && db.order == old(db.order)
      ensures info.Some? <==> o.Fetched? && Contains(Lower(o.contentType), "html")
      ensures o.Fetched? && url in old(db.urls) ==> url in db.urls && db.urls[url] == PageRow(old(db.urls)[url], o.contentType, info)
      ensures old(db.urls).Keys <= db.urls.Keys && Children(old(db.urls), db.urls, depth)
      ensures forall u :: u in old(db.urls) && u != url ==> RowKept(binaryExtensions, u, old(db.urls)[u], db.urls[u])
      ensures match LearnedExtension(lib, old(binaryExtensions), url, o)
        case None => ok && store.contents == old(store.contents) && binaryExtensions == old(binaryExtensions) && config == old(config)
        case Some(ext) =>
          LearnResult(env, ext, old(store.contents), old(binaryExtensions), old(config), store.contents, binaryExtensions, config, ok)
      ensures (State(), ok) == StepAfter(web, old(State()), url, depth)
      ensures info == if o.Fetched? && Contains(Lower(o.contentType), "html") then Some(LegacySummary(web, web.clean(o.body))) else None
    {
      o := ClassifyAndMark(web, url);
      info, ok := AfterMark(web, url, depth, o);
    }

    /** What follows the marking of a dequeued URL: learning after an unsupported type, or the HTML branch. */
    method AfterMark(web: LegacyWeb, url: string, depth: int, o: LegacyOutcome) returns (info: Option<(string, seq<Summarizer.Tag>)>, ok: bool)
      requires Valid() && (o.Fetched? ==> !Policy.IsBinaryUrl(binaryExtensions, url))
      modifies db, store, this`binaryExtensions, this`config
      ensures Valid()
      ensures info == if o.Fetched? && Contains(Lower(o.contentType), "html") then Some(LegacySummary(web, web.clean(o.body))) else None
      ensures (State(), ok) == match LearnedExtension(lib, old(binaryExtensions), url, o)
        case Some(ext) => LearnAfter(env, ext, old(State()))
        case None => (if o.Fetched? && Contains(Lower(o.contentType), "html") then HtmlAfter(web, old(State()), url, depth, o.body) else old(State()), true)
      ensures !o.Fetched? ==> db.urls == old(db.urls) && db.order == old(db.order)
      ensures o.Fetched? && url in old(db.urls) ==>
                url in db.urls &&
                db.urls[url] == (if info.Some? then old(db.urls)[url].(summary := Some(info.value.0), tags := Some(Summarizer.TagString(info.value.1)))
                                 else old(db.urls)[url])
      ensures old(db.urls).Keys <= db.urls.Keys && Children(old(db.urls), db.urls, depth)
      ensures forall u :: u in old(db.urls) && u != url ==> RowKept(binaryExtensions, u, old(db.urls)[u], db.urls[u])
      ensures match LearnedExtension(lib, old(binaryExtensions), url, o)
        case None => ok && store.contents == old(store.contents) && binaryExtensions == old(binaryExtensions) && config == old(config)
        case Some(ext) =>
          LearnResult(env, ext, old(store.contents), old(binaryExtensions), old(config), store.contents, binaryExtensions, config, ok)
    {
      info, ok := None, true;
      if o.Unsupported? {
        ok := MaybeLearn(url, o);
      } else if o.Fetched? && Contains(Lower(o.contentType), "html") {
        var summary, tags := HandleHtml(web, url, depth, o.body);
        info := Some((summary, tags));
      }
    }

    /** The octet-stream check after an unsupported content type. */
    method MaybeLearn(url: string, o: LegacyOutcome) returns (ok: bool)
      modifies store, this`binaryExtensions, this`config
      ensures match LearnedExtension(lib, old(binaryExtensions), url, o)
        case None => ok && store.contents == old(store.contents) && binaryExtensions == old(binaryExtensions) && config == old(config)
        case Some(ext) =>
          LearnResult(env, ext, old(store.contents), old(binaryExtensions), old(config), store.contents, binaryExtensions, config, ok)
      ensures (State(), ok) == match LearnedExtension(lib, old(binaryExtensions), url, o)
        case None => (old(State()), true)
        case Some(ext) => LearnAfter(env, ext, old(State()))
    {
      ok := true;
      if o == Unsupported(OctetStream) {
        var ext := Policy.Extension(lib.path(url));
        if ext != "" && ext !in binaryExtensions {
          ok := Learn(ext);
          LearnAfterIs(env, ext, old(State()), store.contents, binaryExtensions, config, ok);
        }
      }
    }

    /** New rows are the base URL or same-host URLs. */
    ghost predicate Grown(before: Table, after: Table)
      reads this
    {
      before.Keys <= after.Keys &&
      forall u :: u in after && u !in before ==> u == baseUrl || lib.netloc(u) == lib.netloc(baseUrl)
    }

    /** The URLs of `trace` (each dequeued URL with the extension list it was checked against) whose page was fetched. */
    ghost function FetchedIn(web: LegacyWeb, trace: seq<(string, seq<string>)>): set<string>
    {
      if |trace| == 0 then {}
      else
        var last := trace[|trace| - 1];
        FetchedIn(web, trace[..|trace| - 1]) + if LegacyClassify(last.1, accepted, web, last.0).Fetched? then {last.0} else {}
    }

    /** A step that processed `url` extends the trace, and the visited set by `url` exactly when its page was fetched. */
    lemma TraceGrows(web: LegacyWeb, trace: seq<(string, seq<string>)>, visited: set<string>, visited': set<string>,
                     url: string, exts: seq<string>)
      requires visited' == if LegacyClassify(exts, accepted, web, url).Fetched? then visited + {url} else visited
      ensures visited == FetchedIn(web, trace) ==> visited' == FetchedIn(web, trace + [(url, exts)])
    {
      assert (trace + [(url, exts)])[..|trace|] == trace;
    }

    /**
     * One turn of the crawl loop: dequeue, stop on no URL, else process it;
     * the URL joins the visited set exactly when its page was fetched. A
     * dequeued URL is never one dequeued before, since every processed row
     * has left `to_visit` for good. `trace` records the dequeued URL with the
     * extension list it was checked against.
     */
    method CrawlStep(web: LegacyWeb, visited: set<string>, ghost trace: seq<(string, seq<string>)>)
      returns (visited': set<string>, next: Option<string>, ok: bool, ghost trace': seq<(string, seq<string>)>)
      requires Valid() && Settled(db.urls, Dequeued(trace)) && visited <= Dequeued(trace) && Distinct(trace)
      modifies db, store, this`binaryExtensions, this`config
      ensures Valid() && NoneReturn(old(db.urls), db.urls) && Grown(old(db.urls), db.urls)
      ensures var n := Scan(old(db.urls), old(db.order), maxDepth);
        if n.None? || n.value.0 == "" then next.None? else next == Some(n.value.0)
      ensures next.None? ==> (db.urls == old(db.urls) && visited' == visited && ok &&
                              var n := Scan(db.urls, db.order, maxDepth); n.None? || n.value.0 == "")
      ensures next.Some? ==> next.value !in Dequeued(trace) && visited <= visited' <= visited + {next.value}
      ensures Settled(db.urls, Dequeued(trace')) && visited' <= Dequeued(trace') && Distinct(trace')
      ensures next.Some? ==> var o := LegacyClassify(old(binaryExtensions), accepted, web, next.value);
        && visited' == (if o.Fetched? then visited + {next.value} else visited)
        && (!o.Fetched? ==> db.urls == LegacyMark(old(db.urls), next.value, o))
        && (o.Fetched? ==> next.value in db.urls && db.urls[next.value].status == Visited && db.urls[next.value].contentType == Some(o.contentType))
      ensures trace' == trace + if next.Some? then [(next.value, old(binaryExtensions))] else []
      ensures visited == FetchedIn(web, trace) ==> visited' == FetchedIn(web, trace')
      ensures if Crawler.Stops(old(State()).frontier, maxDepth) then next.None? && State() == old(State()) && ok
        else var n := Scan(old(db.urls), old(db.order), maxDepth).value;
          next == Some(n.0) && (State(), ok) == StepAfter(web, old(State()), n.0, n.1)
    {
      var n := db.GetNextUrl(maxDepth);
      if n.None? || n.value.0 == "" {
        return visited, None, true, trace;
      }
      var (url, depth) := n.value;
      ghost var before, exts := db.urls, binaryExtensions;
      var o, info, ok' := ProcessUrl(web, url, depth);
      ProcessedRowSettles(before, db.urls, url, o, info, binaryExtensions);
      SettledKept(before, db.urls, Dequeued(trace));
      visited' := if o.Fetched? then visited + {url} else visited;
      trace' := trace + [(url, exts)];
      DistinctSnoc(trace, url, exts);
      TraceGrows(web, trace, visited, visited', url, exts);
      return visited', Some(url), ok', trace';
    }

    /**
     * crawl: the base URL is added at depth 0, then rows are dequeued and
     * processed until the dequeue gives no URL or a step raises. `fuel` bounds
     * the number of iterations; `done` says the loop ended as the Python loop
     * does, and `ok` is false when learning an extension raised. `trace` is
     * the URLs dequeued, in order, each once, with the extension list each was
     * checked against; it is the run of `Step(web)` from the state after the
     * base URL was added, and the returned set is those of its URLs whose page
     * was fetched.
     */
    method Crawl(web: LegacyWeb, fuel: nat) returns (visited: set<string>, done: bool, ok: bool, ghost trace: seq<(string, seq<string>)>)
      requires Valid()
      modifies db, store, this`binaryExtensions, this`config
      ensures Valid() && NoneReturn(old(db.urls), db.urls) && Grown(old(db.urls), db.urls)
      ensures (trace, State(), ok) ==
              LegacyRun(Step(web), maxDepth, old(State()).(frontier := Crawler.Apply(old(State()).frontier, baseUrl,
                                                                                   LegacyAction(old(binaryExtensions))(baseUrl),
                                                                                   UrlRec(0, ToVisit, None, None, None))), fuel)
      ensures Settled(db.urls, visited)
      ensures visited == FetchedIn(web, trace) && Distinct(trace) && |trace| <= fuel
      ensures ok && !done ==> |trace| == fuel
      ensures done ==> ok && Crawler.Stops(State().frontier, maxDepth)
    {
      AddUrl(baseUrl, 0, ToVisit, None);
      visited, done, ok, trace := CrawlLoop(web, fuel);
    }

    /** One turn of the while-loop: a crawl step, and the run so far accounted for. */
    method Turn(web: LegacyWeb, visited: set<string>, ghost trace: seq<(string, seq<string>)>,
                ghost s0: LegacyState, ghost fuel: nat, ghost steps: nat)
      returns (visited': set<string>, next: Option<string>, ok: bool, ghost trace': seq<(string, seq<string>)>)
      requires Valid() && Settled(db.urls, Dequeued(trace)) && visited <= Dequeued(trace) && Distinct(trace)
      requires steps < fuel && |trace| == steps && LegacyAccounted(Step(web), maxDepth, s0, fuel, steps, trace, State())
      modifies db, store, this`binaryExtensions, this`config
      ensures Valid() && NoneReturn(old(db.urls), db.urls) && Grown(old(db.urls), db.urls)
      ensures Settled(db.urls, Dequeued(trace')) && visited' <= Dequeued(trace') && Distinct(trace')
      ensures visited == FetchedIn(web, trace) ==> visited' == FetchedIn(web, trace')
      ensures var steps' := steps + if next.Some? then 1 else 0;
        && |trace'| == steps'
        && if ok then LegacyAccounted(Step(web), maxDepth, s0, fuel, steps', trace', State())
           else LegacyRun(Step(web), maxDepth, s0, fuel) == (trace', State(), false)
      ensures next.None? ==> ok && Crawler.Stops(State().frontier, maxDepth)
    {
      ghost var before := State();
      visited', next, ok, trace' := CrawlStep(web, visited, trace);
      LegacyRunAdvance(Step(web), maxDepth, s0, fuel, steps, trace, before, State(), next, ok);
    }

    /** The while-loop of crawl, from the table the base URL was added to. */
    method CrawlLoop(web: LegacyWeb, fuel: nat) returns (visited: set<string>, done: bool, ok: bool, ghost trace: seq<(string, seq<string>)>)
      requires Valid()
      modifies db, store, this`binaryExtensions, this`config
      ensures Valid() && NoneReturn(old(db.urls), db.urls) && Grown(old(db.urls), db.urls)
      ensures (trace, State(), ok) == LegacyRun(Step(web), maxDepth, old(State()), fuel)
      ensures Settled(db.urls, visited)
      ensures visited == FetchedIn(web, trace) && Distinct(trace) && |trace| <= fuel
      ensures ok && !done ==> |trace| == fuel
      ensures done ==> ok && Crawler.Stops(State().frontier, maxDepth)
    {
      visited, done, ok, trace := {}, false, true, [];
      var steps := 0;
      assert [] + LegacyRun(Step(web), maxDepth, State(), fuel).0 == LegacyRun(Step(web), maxDepth, State(), fuel).0;
      while !done && ok && steps < fuel
        invariant Valid() && NoneReturn(old(db.urls), db.urls) && Grown(old(db.urls), db.urls)
        invariant Settled(db.urls, Dequeued(trace)) && visited <= Dequeued(trace)
        invariant visited == FetchedIn(web, trace) && Distinct(trace)
        invariant |trace| == steps <= fuel
        invariant if ok then LegacyAccounted(Step(web), maxDepth, old(State()), fuel, steps, trace, State())
                  else LegacyRun(Step(web), maxDepth, old(State()), fuel) == (trace, State(), false)
        invariant done ==> ok && Crawler.Stops(State().frontier, maxDepth) && steps < fuel
        decreases fuel - steps, if done then 0 else 1
      {
        var next;
        visited, next, ok, trace := Turn(web, visited, trace, old(State()), fuel, steps);
        if next.None? {
          done := true;
        } else {
          steps := steps + 1;
        }
      }
      if ok {
        LegacyRunStops(Step(web), maxDepth, State(), fuel - steps);
        assert trace + [] == trace;
      }
    }
  }

  /** The URLs of a trace. */
  ghost function Dequeued(trace: seq<(string, seq<string>)>): set<string> {
    set i | 0 <= i < |trace| :: trace[i].0
  }

  /** No URL occurs twice in a trace. */
  ghost predicate Distinct(trace: seq<(string, seq<string>)>) {
    forall i, j :: 0 <= i < j < |trace| ==> trace[i].0 != trace[j].0
  }

  /** A trace extended by a URL not in it stays duplicate-free and gains exactly that URL. */
  lemma DistinctSnoc(trace: seq<(string, seq<string>)>, url: string, exts: seq<string>)
    requires Distinct(trace) && url !in Dequeued(trace)
    ensures Distinct(trace + [(url, exts)]) && Dequeued(trace + [(url, exts)]) == Dequeued(trace) + {url}
  {
    var t := trace + [(url, exts)];
    forall i | 0 <= i < |trace|
      ensures t[i].0 != url
    {
      assert trace[i].0 in Dequeued(trace);
    }
    forall u | u in Dequeued(trace) + {url}
      ensures u in Dequeued(t)
    {
      if u == url {
        assert t[|trace|].0 == url;
      } else {
        var i :| 0 <= i < |trace| && trace[i].0 == u;
        assert t[i].0 == u;
      }
    }
  }

  /** The row of a fetched page: visited with its content type, and with its summary and tags when it is HTML. */
  function PageRow(r0: UrlRec, ct: string, info: Option<(string, seq<Summarizer.Tag>)>): UrlRec {
    var r := r0.(status := Visited, contentType := Some(ct));
    if info.Some? then r.(summary := Some(info.value.0), tags := Some(Summarizer.TagString(info.value.1))) else r
  }

  /** The state after the learning branch, as update_config_binary_extension and the reload leave it. */
  predicate LearnResult(env: map<string, string>, ext: string,
                        contents0: map<string, YValue>, exts0: seq<string>, config0: map<string, YValue>,
                        contents1: map<string, YValue>, exts1: seq<string>, config1: map<string, YValue>, ok: bool)
  {
    var (res, after) := UpdateBinaryExtension(contents0, env, ext);
    && contents1 == (if res.Some? then AfterLoad(after, env) else after)
    && (ok <==> res.Some? && Reload(after, env).Some?)
    && (ok ==> (config1, exts1) == Reload(after, env).value)
    && (!ok ==> (exts1 == (if res.Some? && ReturnedList(res.value).Some? then ReturnedList(res.value).value else exts0) &&
                 config1 == if res.Some? && LoadLegacy(after, env).Some? then LoadLegacy(after, env).value.0 else config0))
  }

  /** The learning branch as a function of the state: the state it leaves and whether it completed without raising. */
  function LearnAfter(env: map<string, string>, ext: string, s: LegacyState): (LegacyState, bool) {
    var (res, after) := UpdateBinaryExtension(s.contents, env, ext);
    var contents := if res.Some? then AfterLoad(after, env) else after;
    if res.Some? && Reload(after, env).Some? then
      (s.(config := Reload(after, env).value.0, exts := Reload(after, env).value.1, contents := contents), true)
    else
      var exts := if res.Some? && ReturnedList(res.value).Some? then ReturnedList(res.value).value else s.exts;
      var config := if res.Some? && LoadLegacy(after, env).Some? then LoadLegacy(after, env).value.0 else s.config;
      (s.(config := config, exts := exts, contents := contents), false)
  }

  /** LearnResult holds of exactly one outcome, the one LearnAfter computes. */
  lemma LearnAfterIs(env: map<string, string>, ext: string, s: LegacyState,
                     contents1: map<string, YValue>, exts1: seq<string>, config1: map<string, YValue>, ok: bool)
    ensures LearnResult(env, ext, s.contents, s.exts, s.config, contents1, exts1, config1, ok) <==>
      (s.(exts := exts1, config := config1, contents := contents1), ok) == LearnAfter(env, ext, s)
  {
  }
}
