/**
 * The environment-variable expansion applied to the YAML configuration before it is validated
 * (`Settings._expand_env_vars`): every string value of the form `${VAR}` or `${VAR:-default}`,
 * at any depth of mappings and lists, is replaced by the variable's value, or by the default
 * (or "") when the variable is unset. The process environment is passed in as a map.
 */
module Settings {
  import opened Wrappers
  import opened Text

  /** A value of the parsed YAML document. Mappings keep their keys in order, as Python dicts do. */
  datatype ConfigValue =
    | Mapping(entries: seq<(string, ConfigValue)>)
    | Sequence(items: seq<ConfigValue>)
    | Str(s: string)
    | Int(i: int)
    | Float(r: real)
    | Bool(b: bool)
    | Null

  /** The two groups of the placeholder pattern: the variable name and the default, if written. */
  datatype Placeholder = Placeholder(name: string, default: Option<string>)

  /** Where the run `[^:}]+` that starts at `i` ends: the first ':' or '}' at or after `i`, or the end. */
  function NameEnd(s: string, i: nat): (e: nat)
    requires i <= |s|
    ensures i <= e <= |s|
    ensures forall x :: i <= x < e ==> s[x] != ':' && s[x] != '}'
    ensures e == |s| || s[e] == ':' || s[e] == '}'
    decreases |s| - i
  {
    if i == |s| || s[i] == ':' || s[i] == '}' then i else NameEnd(s, i + 1)
  }

  /** The last '}' in `s[lo..hi]`, if there is one. */
  function LastClose(s: string, lo: nat, hi: nat): (r: Option<nat>)
    requires lo <= hi <= |s|
    ensures r.Some? ==> lo <= r.value < hi && s[r.value] == '}' && forall x :: r.value < x < hi ==> s[x] != '}'
    ensures r.None? ==> forall x :: lo <= x < hi ==> s[x] != '}'
    decreases hi
  {
    if hi == lo then None
    else if s[hi - 1] == '}' then Some(hi - 1)
    else LastClose(s, lo, hi - 1)
  }

  /**
   * `re.match(r"\$\{([^:}]+)(?::-(.*))?\}", s)`, anchored at the start of `s` only. The name is
   * the longest run without ':' or '}'; a default follows ":-" and runs, greedily, to the last '}'
   * before the next line feed (`.` does not cross one); without ":-" the name must be closed by '}'.
   */
  function MatchPlaceholder(s: string): Option<Placeholder> {
    if |s| < 2 || s[0] != '$' || s[1] != '{' then None
    else
      var e := NameEnd(s, 2);
      if e == 2 || e == |s| then None
      else if s[e] == '}' then Some(Placeholder(s[2..e], None))
      else if e + 1 < |s| && s[e + 1] == '-' then
        match LastClose(s, e + 2, FirstIndex(s, '\n', e + 2))
        case Some(j) => Some(Placeholder(s[2..e], Some(s[e + 2..j])))
        case None => None
      else None
  }

  /** `s.startswith("${") and s.endswith("}")`. */
  predicate LooksLikePlaceholder(s: string) {
    |s| >= 3 && s[0] == '$' && s[1] == '{' && s[|s| - 1] == '}'
  }

  /** The expansion of one string value: `os.getenv(name, default or "")` when the pattern matches. */
  function ExpandString(s: string, env: map<string, string>): string {
    if LooksLikePlaceholder(s) then
      match MatchPlaceholder(s)
      case Some(p) => if p.name in env then env[p.name] else p.default.GetOr("")
      case None => s
    else s
  }

  /** `Settings._expand_env_vars`. */
  function ExpandEnvVars(data: ConfigValue, env: map<string, string>): ConfigValue
    decreases data
  {
    match data
    case Mapping(entries) =>
      Mapping(seq(|entries|, i requires 0 <= i < |entries| => (entries[i].0, ExpandEnvVars(entries[i].1, env))))
    case Sequence(items) =>
      Sequence(seq(|items|, i requires 0 <= i < |items| => ExpandEnvVars(items[i], env)))
    case Str(s) => Str(ExpandString(s, env))
    case _ => data
  }

  // ---------------------------------------------------------------------------------------------
  // The placeholder pattern

  /** A placeholder the pattern reads back whole: a non-empty name without ':' or '}', a default without a line feed. */
  predicate WellFormed(p: Placeholder) {
    |p.name| >= 1 && (forall i :: 0 <= i < |p.name| ==> p.name[i] != ':' && p.name[i] != '}') &&
    (p.default.Some? ==> forall i :: 0 <= i < |p.default.value| ==> p.default.value[i] != '\n')
  }

  /** What follows the name: "}" alone, or ":-", the default and "}". */
  function Closing(default: Option<string>): string {
    match default
    case None => "}"
    case Some(d) => ":-" + d + "}"
  }

  /** The text `${name}` or `${name:-default}` of a placeholder. */
  function PlaceholderText(p: Placeholder): string {
    "${" + p.name + Closing(p.default)
  }

  lemma NameEndIs(s: string, i: nat, e: nat)
    requires i <= e <= |s|
    requires forall x :: i <= x < e ==> s[x] != ':' && s[x] != '}'
    requires e == |s| || s[e] == ':' || s[e] == '}'
    ensures NameEnd(s, i) == e
  {
  }

  /** The name of "${" + name + tail ends where the tail starts, when the tail starts with ':' or '}'. */
  lemma NameEndOf(name: string, tail: string)
    requires forall i :: 0 <= i < |name| ==> name[i] != ':' && name[i] != '}'
    requires |tail| >= 1 && (tail[0] == ':' || tail[0] == '}')
    ensures NameEnd("${" + name + tail, 2) == 2 + |name|
    ensures ("${" + name + tail)[2..2 + |name|] == name && ("${" + name + tail)[2 + |name|..] == tail
  {
    var s := "${" + name + tail;
    assert forall x :: 2 <= x < 2 + |name| ==> s[x] == name[x - 2];
    assert s[2 + |name|] == tail[0];
    NameEndIs(s, 2, 2 + |name|);
    assert s[2 + |name|..] == tail;
  }

  /** Where the default starts at `b` and the line ends with the string, the default runs to the final '}'. */
  lemma DefaultRunsToEnd(s: string, b: nat)
    requires b < |s| && s[|s| - 1] == '}'
    requires forall j :: b <= j < |s| ==> s[j] != '\n'
    ensures LastClose(s, b, FirstIndex(s, '\n', b)) == Some(|s| - 1)
  {
    assert FirstIndex(s, '\n', b) == |s|;
  }

  /** A match reads the name up to `e` and the closing that follows it. */
  lemma MatchedText(s: string, e: nat, p: Placeholder)
    requires 2 < e < |s| && s[0] == '$' && s[1] == '{' && p.name == s[2..e]
    requires p.default.None? ==> s[e] == '}'
    requires p.default.Some? ==> exists j :: e + 2 <= j < |s| && s[e] == ':' && s[e + 1] == '-' &&
                                   s[j] == '}' && p.default.value == s[e + 2..j]
    ensures PlaceholderText(p) <= s
  {
    if p.default.None? {
      assert PlaceholderText(p) == s[..e + 1];
    } else {
      var j :| e + 2 <= j < |s| && s[e] == ':' && s[e + 1] == '-' && s[j] == '}' && p.default.value == s[e + 2..j];
      assert PlaceholderText(p) == s[..j + 1];
    }
  }

  /** A match reads a well-formed placeholder written at the start of the string. */
  lemma MatchPlaceholderSound(s: string)
    requires MatchPlaceholder(s).Some?
    ensures WellFormed(MatchPlaceholder(s).value)
    ensures PlaceholderText(MatchPlaceholder(s).value) <= s
  {
    var e := NameEnd(s, 2);
    var p := MatchPlaceholder(s).value;
    if s[e] != '}' {
      var j := LastClose(s, e + 2, FirstIndex(s, '\n', e + 2)).value;
      assert p.default.value == s[e + 2..j];
    }
    MatchedText(s, e, p);
  }

  /** The default of `${name:-d}` is read back whole. */
  lemma DefaultReadBack(s: string, e: nat, d: string)
    requires e + 3 <= |s| && s[e + 2..] == d + "}"
    requires forall i :: 0 <= i < |d| ==> d[i] != '\n'
    ensures LastClose(s, e + 2, FirstIndex(s, '\n', e + 2)) == Some(|s| - 1)
    ensures s[e + 2..|s| - 1] == d
  {
    assert forall j :: e + 2 <= j < |s| ==> s[j] == (d + "}")[j - e - 2];
    DefaultRunsToEnd(s, e + 2);
    assert s[e + 2..|s| - 1] == (d + "}")[..|d|];
  }

  /** Every well-formed placeholder is read back from its own text. */
  lemma MatchPlaceholderText(p: Placeholder)
    requires WellFormed(p)
    ensures MatchPlaceholder(PlaceholderText(p)) == Some(p)
  {
    var s := PlaceholderText(p);
    var c := Closing(p.default);
    var e := 2 + |p.name|;
    NameEndOf(p.name, c);
    if p.default.Some? {
      assert s[e + 2..] == c[2..] == p.default.value + "}";
      DefaultReadBack(s, e, p.default.value);
    }
  }

  /**
   * A string holding exactly one placeholder expands to the variable's value when it is set, even
   * to an empty value, and otherwise to the default, or to "" when none is written.
   */
  lemma ExpandPlaceholder(p: Placeholder, env: map<string, string>)
    requires WellFormed(p)
    ensures ExpandString(PlaceholderText(p), env) ==
      if p.name in env then env[p.name] else p.default.GetOr("")
  {
    MatchPlaceholderText(p);
  }

  /** Only a string that starts with "${" and ends with "}" and matches the pattern is replaced. */
  lemma ExpandStringKeeps(s: string, env: map<string, string>)
    ensures ExpandString(s, env) != s ==> LooksLikePlaceholder(s) && MatchPlaceholder(s).Some?
    ensures !LooksLikePlaceholder(s) || MatchPlaceholder(s).None? ==> ExpandString(s, env) == s
  {
  }

  // ---------------------------------------------------------------------------------------------
  // The whole configuration

  /**
   * `b` has the structure of `a`: mappings with the same keys in the same order, lists of the
   * same length, every string of `a` expanded under `env` at its own place, and every other
   * scalar unchanged.
   */
  predicate SameShape(a: ConfigValue, b: ConfigValue, env: map<string, string>)
    decreases a
  {
    match a
    case Mapping(entries) =>
      b.Mapping? && |b.entries| == |entries| &&
      forall i :: 0 <= i < |entries| ==> b.entries[i].0 == entries[i].0 && SameShape(entries[i].1, b.entries[i].1, env)
    case Sequence(items) =>
      b.Sequence? && |b.items| == |items| &&
      forall i :: 0 <= i < |items| ==> SameShape(items[i], b.items[i], env)
    case Str(s) => b == Str(ExpandString(s, env))
    case _ => b == a
  }

  /** Expansion keeps the structure of the configuration and expands every string, however deeply nested. */
  lemma {:induction false} ExpandKeepsShape(data: ConfigValue, env: map<string, string>)
    ensures SameShape(data, ExpandEnvVars(data, env), env)
    decreases data
  {
    match data
    case Mapping(entries) =>
      forall i | 0 <= i < |entries|
        ensures SameShape(entries[i].1, ExpandEnvVars(entries[i].1, env), env)
      {
        ExpandKeepsShape(entries[i].1, env);
      }
    case Sequence(items) =>
      forall i | 0 <= i < |items|
        ensures SameShape(items[i], ExpandEnvVars(items[i], env), env)
      {
        ExpandKeepsShape(items[i], env);
      }
    case _ =>
  }

  // ---------------------------------------------------------------------------------------------
  // Strings the pattern treats unexpectedly

  /** Only the first placeholder of "${A}-${B}" is read, and it replaces the whole string. */
  lemma ExampleTwoPlaceholders(env: map<string, string>)
    ensures ExpandString("${A}-${B}", env) == if "A" in env then env["A"] else ""
  {
    NameEndOf("A", "}-${B}");
    assert "${" + "A" + "}-${B}" == "${A}-${B}";
  }

  /** The default runs to the last '}' of the line: in "${A:-x}${B}" it is "x}${B". */
  lemma ExampleGreedyDefault(env: map<string, string>)
    requires "A" !in env
    ensures ExpandString("${A:-x}${B}", env) == "x}${B"
  {
    var s := "${A:-x}${B}";
    NameEndOf("A", ":-x}${B}");
    assert "${" + "A" + ":-x}${B}" == s;
    DefaultRunsToEnd(s, 5);
    assert s[5..10] == "x}${B";
  }

  /** An empty name, or a ':' not followed by '-', leaves the string as written. */
  lemma ExampleUnmatched(env: map<string, string>)
    ensures ExpandString("${}", env) == "${}"
    ensures ExpandString("${:-x}", env) == "${:-x}"
    ensures ExpandString("${A:x}", env) == "${A:x}"
  {
    assert NameEnd("${}", 2) == 2;
    assert NameEnd("${:-x}", 2) == 2;
    assert NameEnd("${A:x}", 2) == 3;
  }
}
