/** Helpers for request values and for reading a service's external
    configuration: the credentials file, the environment and the Cloud Foundry
    VCAP_SERVICES document. Reading files, the environment and parsing JSON are
    outside the model: the readers receive the lines, the variables and the
    parsed document. */
module Utils {
  import opened Values

  // ---------------------------------------------------------------------------
  // String checks and value clean-up

  predicate StartsWith(s: string, prefix: string) {
    prefix <= s
  }

  predicate EndsWith(s: string, suffix: string) {
    |suffix| <= |s| && s[|s| - |suffix|..] == suffix
  }

  /** `has_bad_first_or_last_char`: a string that starts with `{` or `"`, or
      ends with `}` or `"`. None and the empty string are not bad. */
  function HasBadFirstOrLastChar(s: Option<string>): (bad: bool)
    ensures s.None? ==> !bad
    ensures s == Some("") ==> !bad
    ensures bad <==> s.Some? && |s.value| > 0 &&
                     (s.value[0] == '{' || s.value[0] == '\"' ||
                      s.value[|s.value| - 1] == '}' || s.value[|s.value| - 1] == '\"')
  {
    match s
    case None => false
    case Some(str) =>
      StartsWith(str, "{") || StartsWith(str, "\"") || EndsWith(str, "}") || EndsWith(str, "\"")
  }

  /** `remove_null_values`: the dict without its None-valued entries; any
      other value is returned as it is. */
  function RemoveNullValues(v: Value): (r: Value)
    ensures !v.Dict? ==> r == v
    ensures v.Dict? ==>
              && r.Dict?
              && (forall k :: k in r.entries <==> k in v.entries && v.entries[k] != Null)
              && (forall k :: k in r.entries ==> r.entries[k] == v.entries[k])
  {
    match v
    case Dict(entries) => Dict(map k | k in entries && entries[k] != Null :: entries[k])
    case _ => v
  }

  /** Removing None values twice is removing them once. */
  lemma RemoveNullValuesIdempotent(v: Value)
    ensures RemoveNullValues(RemoveNullValues(v)) == RemoveNullValues(v)
  {
  }

  /** `cleanup_value`: booleans become the strings 'true' and 'false'. */
  function CleanupValue(v: Value): (r: Value)
    ensures v == Bool(true) ==> r == Str("true")
    ensures v == Bool(false) ==> r == Str("false")
    ensures !v.Bool? ==> r == v
    ensures !r.Bool?
  {
    match v
    case Bool(b) => if b then Str("true") else Str("false")
    case _ => v
  }

  /** `cleanup_values`: a dict with the same keys, each value cleaned up; any
      other value is returned as it is. */
  function CleanupValues(v: Value): (r: Value)
    ensures !v.Dict? ==> r == v
    ensures v.Dict? ==>
              && r.Dict? && r.entries.Keys == v.entries.Keys
              && (forall k :: k in r.entries ==> r.entries[k] == CleanupValue(v.entries[k]))
              && (forall k :: k in r.entries ==> !r.entries[k].Bool?)
  {
    match v
    case Dict(entries) => Dict(map k | k in entries :: CleanupValue(entries[k]))
    case _ => v
  }

  /** Cleaning up twice is cleaning up once. */
  lemma CleanupValuesIdempotent(v: Value)
    ensures CleanupValues(CleanupValues(v)) == CleanupValues(v)
  {
  }

  // ---------------------------------------------------------------------------
  // Service names and configuration keys

  /** `str.upper()` on one character, for the ASCII letters. */
  function UpperChar(c: char): char {
    if 'a' <= c <= 'z' then (c as int - 'a' as int + 'A' as int) as char else c
  }

  /** `str.upper()`, for the ASCII letters. */
  function Upper(s: string): (r: string)
    ensures |r| == |s| && forall i :: 0 <= i < |s| ==> r[i] == UpperChar(s[i])
  {
    if s == [] then [] else [UpperChar(s[0])] + Upper(s[1..])
  }

  /** `str.replace(old, new)` for one-character arguments. */
  function ReplaceChar(s: string, from: char, to: char): (r: string)
    ensures |r| == |s| && forall i :: 0 <= i < |s| ==> r[i] == if s[i] == from then to else s[i]
  {
    if s == [] then [] else [if s[0] == from then to else s[0]] + ReplaceChar(s[1..], from, to)
  }

  /** The service name as it prefixes configuration keys: spaces and dashes
      become underscores, letters become upper case. */
  function NormalizeServiceName(serviceName: string): (name: string)
    ensures |name| == |serviceName|
    ensures forall i :: 0 <= i < |name| ==>
              name[i] == if serviceName[i] == ' ' || serviceName[i] == '-' then '_' else UpperChar(serviceName[i])
    ensures ' ' !in name && '-' !in name
    ensures forall i :: 0 <= i < |name| ==> !('a' <= name[i] <= 'z')
  {
    Upper(ReplaceChar(ReplaceChar(serviceName, ' ', '_'), '-', '_'))
  }

  /** The configuration key that `key` stands for, when it starts with the
      normalised service name: the rest of `key` after dropping one more
      character, whatever it is (empty when nothing is left). */
  function ConfigKey(serviceName: string, key: string): (k: Option<string>)
    ensures k.Some? <==> StartsWith(key, NormalizeServiceName(serviceName))
    ensures k.Some? && |key| > |serviceName| ==> k.value == key[|serviceName| + 1..]
    ensures k.Some? && |key| == |serviceName| ==> k.value == ""
  {
    var name := NormalizeServiceName(serviceName);
    if StartsWith(key, name) then Some(if |name| + 1 <= |key| then key[|name| + 1..] else "") else None
  }

  /** `_parse_key_and_update_config`: store `value` under the configuration key
      of `key`; no other entry changes, and nothing does when `key` does not
      start with the service name. */
  function ParseKeyAndUpdateConfig(config: map<string, string>, serviceName: string, key: string, value: string)
    : (r: map<string, string>)
    ensures ConfigKey(serviceName, key).None? ==> r == config
    ensures ConfigKey(serviceName, key).Some? ==>
              var k := ConfigKey(serviceName, key).value;
              r.Keys == config.Keys + {k} && r[k] == value &&
              forall other :: other in config && other != k ==> r[other] == config[other]
  {
    match ConfigKey(serviceName, key)
    case None => config
    case Some(k) => config[k := value]
  }

  /** The configuration built from key/value pairs in order: later pairs
      overwrite earlier ones. */
  function ConfigFromPairs(serviceName: string, pairs: seq<(string, string)>): (config: map<string, string>)
    ensures |config| <= |pairs|
    decreases |pairs|
  {
    if pairs == [] then map[]
    else
      var last := pairs[|pairs| - 1];
      ParseKeyAndUpdateConfig(ConfigFromPairs(serviceName, pairs[..|pairs| - 1]), serviceName, last.0, last.1)
  }

  /** One more pair: the configuration of `pairs[..i + 1]` is that of
      `pairs[..i]` updated with pair `i`. */
  lemma ConfigFromPairsSnoc(serviceName: string, pairs: seq<(string, string)>, i: nat)
    requires i < |pairs|
    ensures ConfigFromPairs(serviceName, pairs[..i + 1]) ==
            ParseKeyAndUpdateConfig(ConfigFromPairs(serviceName, pairs[..i]), serviceName, pairs[i].0, pairs[i].1)
  {
    assert pairs[..i + 1][..i] == pairs[..i];
  }

  /** A pair whose key stands for `k` puts `k` in the configuration. */
  lemma {:induction false} ConfigFromPairsHasKey(serviceName: string, pairs: seq<(string, string)>, i: nat, k: string)
    requires i < |pairs| && ConfigKey(serviceName, pairs[i].0) == Some(k)
    ensures k in ConfigFromPairs(serviceName, pairs)
    decreases |pairs|
  {
    var n := |pairs| - 1;
    if i < n {
      assert pairs[..n][i] == pairs[i];
      ConfigFromPairsHasKey(serviceName, pairs[..n], i, k);
    }
  }

  /** Every key of the configuration comes from some pair's key. */
  lemma {:induction false} ConfigFromPairsKeySource(serviceName: string, pairs: seq<(string, string)>, k: string)
    requires k in ConfigFromPairs(serviceName, pairs)
    ensures exists i :: 0 <= i < |pairs| && ConfigKey(serviceName, pairs[i].0) == Some(k)
    decreases |pairs|
  {
    var n := |pairs| - 1;
    if ConfigKey(serviceName, pairs[n].0) != Some(k) {
      ConfigFromPairsKeySource(serviceName, pairs[..n], k);
      var i :| 0 <= i < n && ConfigKey(serviceName, pairs[..n][i].0) == Some(k);
      assert pairs[..n][i] == pairs[i];
    }
  }

  /** A key is in the configuration exactly when some pair's key stands for
      it. */
  lemma {:induction false} ConfigFromPairsKeys(serviceName: string, pairs: seq<(string, string)>, k: string)
    ensures k in ConfigFromPairs(serviceName, pairs) <==>
              exists i :: 0 <= i < |pairs| && ConfigKey(serviceName, pairs[i].0) == Some(k)
  {
    if k in ConfigFromPairs(serviceName, pairs) {
      ConfigFromPairsKeySource(serviceName, pairs, k);
    } else {
      forall i | 0 <= i < |pairs| ensures ConfigKey(serviceName, pairs[i].0) != Some(k) {
        if ConfigKey(serviceName, pairs[i].0) == Some(k) {
          ConfigFromPairsHasKey(serviceName, pairs, i, k);
        }
      }
    }
  }

  /** The last pair whose key stands for `k` decides the value kept under
      `k`: later pairs overwrite earlier ones. */
  lemma {:induction false} ConfigFromPairsLastWins(serviceName: string, pairs: seq<(string, string)>, i: nat, k: string)
    requires i < |pairs| && ConfigKey(serviceName, pairs[i].0) == Some(k)
    requires forall j :: i < j < |pairs| ==> ConfigKey(serviceName, pairs[j].0) != Some(k)
    ensures k in ConfigFromPairs(serviceName, pairs) && ConfigFromPairs(serviceName, pairs)[k] == pairs[i].1
    decreases |pairs|
  {
    var n := |pairs| - 1;
    var init := pairs[..n];
    var prev := ConfigFromPairs(serviceName, init);
    assert ConfigFromPairs(serviceName, pairs) == ParseKeyAndUpdateConfig(prev, serviceName, pairs[n].0, pairs[n].1);
    if i < n {
      assert init[i] == pairs[i];
      assert forall j :: i < j < n ==> init[j] == pairs[j];
      ConfigFromPairsLastWins(serviceName, init, i, k);
      assert ConfigKey(serviceName, pairs[n].0) != Some(k);
    }
  }

  // ---------------------------------------------------------------------------
  // The credentials file

  /** The characters `str.strip()` removes (Python's whitespace). */
  predicate IsSpace(c: char) {
    || c == ' ' || '\t' <= c <= '\r' || '\U{1c}' <= c <= '\U{1f}'
    || c == '\U{85}' || c == '\U{a0}' || c == '\U{1680}' || '\U{2000}' <= c <= '\U{200a}'
    || c == '\U{2028}' || c == '\U{2029}' || c == '\U{202f}' || c == '\U{205f}' || c == '\U{3000}'
  }

  function TrimLeft(s: string): (r: string)
    ensures |r| <= |s| && r == s[|s| - |r|..]
    ensures r != [] ==> !IsSpace(r[0])
    ensures forall i :: 0 <= i < |s| - |r| ==> IsSpace(s[i])
  {
    if s != [] && IsSpace(s[0]) then TrimLeft(s[1..]) else s
  }

  function TrimRight(s: string): (r: string)
    ensures |r| <= |s| && r == s[..|r|]
    ensures r != [] ==> !IsSpace(r[|r| - 1])
    ensures forall i :: |r| <= i < |s| ==> IsSpace(s[i])
  {
    if s != [] && IsSpace(s[|s| - 1]) then TrimRight(s[..|s| - 1]) else s
  }

  /** `r` is the slice of `s` at offset `a`, and every character of `s`
      before or after that slice is whitespace. */
  predicate StrippedAt(s: string, r: string, a: int) {
    && 0 <= a <= |s| - |r|
    && r == s[a..a + |r|]
    && (forall i :: 0 <= i < a ==> IsSpace(s[i]))
    && (forall i :: a + |r| <= i < |s| ==> IsSpace(s[i]))
  }

  /** What stripping needs of its two halves: `left` is `s` without leading
      whitespace and `r` is `left` without trailing whitespace. */
  predicate StripHalves(s: string, left: string, r: string) {
    && |left| <= |s| && left == s[|s| - |left|..]
    && (forall i :: 0 <= i < |s| - |left| ==> IsSpace(s[i]))
    && (left != [] ==> !IsSpace(left[0]))
    && |r| <= |left| && r == left[..|r|]
    && (forall i :: |r| <= i < |left| ==> IsSpace(left[i]))
    && (r != [] ==> !IsSpace(r[|r| - 1]))
  }

  /** `TrimLeft` then `TrimRight` give the two halves of stripping. */
  lemma TrimHalves(s: string)
    ensures StripHalves(s, TrimLeft(s), TrimRight(TrimLeft(s)))
  {
  }

  /** The stripped line sits in the line at the offset where the leading
      whitespace ends. */
  lemma StripSlice(s: string, left: string, r: string)
    requires StripHalves(s, left, r)
    ensures StrippedAt(s, r, |s| - |left|)
  {
    var a := |s| - |left|;
    assert s[a..][..|r|] == s[a..a + |r|];
    forall i | a + |r| <= i < |s| ensures IsSpace(s[i]) {
      var j := i - a;
      assert |r| <= j < |left| && left[j] == s[i];
    }
  }

  /** The stripped line is empty exactly when the line is all whitespace, and
      otherwise neither starts nor ends with whitespace. */
  lemma StripEnds(s: string, left: string, r: string)
    requires StripHalves(s, left, r)
    ensures r == [] <==> forall i :: 0 <= i < |s| ==> IsSpace(s[i])
    ensures r != [] ==> !IsSpace(r[0]) && !IsSpace(r[|r| - 1])
  {
    if left != [] {
      assert s[|s| - |left|] == left[0];
      if r != [] {
        assert r[0] == left[0];
      }
    }
  }

  /** The two halves of stripping give everything `strip()` promises. */
  lemma StripFromHalves(s: string, left: string, r: string)
    requires StripHalves(s, left, r)
    ensures r != [] ==> !IsSpace(r[0]) && !IsSpace(r[|r| - 1])
    ensures r == [] <==> forall i :: 0 <= i < |s| ==> IsSpace(s[i])
    ensures |r| <= |s|
    ensures exists a :: StrippedAt(s, r, a)
  {
    StripSlice(s, left, r);
    StripEnds(s, left, r);
  }

  /** `r` is `s` stripped: a slice of `s` with only whitespace around it,
      neither starting nor ending with whitespace, and empty exactly when `s`
      is all whitespace. */
  ghost predicate IsStripOf(s: string, r: string) {
    && |r| <= |s|
    && (exists a :: StrippedAt(s, r, a))
    && (r != [] ==> !IsSpace(r[0]) && !IsSpace(r[|r| - 1]))
    && (r == [] <==> forall i :: 0 <= i < |s| ==> IsSpace(s[i]))
  }

  /** `TrimLeft` then `TrimRight` strip the line. */
  lemma StripFacts(s: string)
    ensures IsStripOf(s, TrimRight(TrimLeft(s)))
  {
    TrimHalves(s);
    StripFromHalves(s, TrimLeft(s), TrimRight(TrimLeft(s)));
  }

  /** `str.strip()`: the line without leading and trailing whitespace. */
  function Strip(s: string): (r: string)
    ensures IsStripOf(s, r)
  {
    StripFacts(s);
    TrimRight(TrimLeft(s))
  }

  /** The number of occurrences of `c` in `s`. */
  function Count(s: string, c: char): nat {
    if s == [] then 0 else (if s[0] == c then 1 else 0) + Count(s[1..], c)
  }

  /** The parts joined back with the separator between them. */
  function Join(parts: seq<string>, sep: char): string
    requires |parts| >= 1
  {
    if |parts| == 1 then parts[0] else parts[0] + [sep] + Join(parts[1..], sep)
  }

  /** `str.split(sep)`: the pieces between occurrences of the separator,
      empty pieces included; there is always one more piece than separators. */
  function Split(s: string, sep: char): (parts: seq<string>)
    ensures |parts| == Count(s, sep) + 1
    ensures forall p :: p in parts ==> sep !in p
    ensures Join(parts, sep) == s
  {
    if s == [] then [""]
    else
      var rest := Split(s[1..], sep);
      if s[0] == sep then
        assert Join([""] + rest, sep) == [sep] + Join(rest, sep) by {
          assert ([""] + rest)[1..] == rest;
        }
        [""] + rest
      else
        var r := [[s[0]] + rest[0]] + rest[1..];
        assert Join(r, sep) == [s[0]] + Join(rest, sep) by {
          if |rest| > 1 {
            assert r[1..] == rest[1..];
          }
        }
        assert forall p :: p in r ==> p == [s[0]] + rest[0] || p in rest;
        r
  }

  /** What one line of the credentials file contributes: a key and a value
      when the stripped line holds exactly one separator, nothing otherwise. */
  function CredentialLine(line: string, separator: char): (entry: Option<(string, string)>)
    ensures entry.Some? <==> Count(Strip(line), separator) == 1
    ensures entry.Some? ==>
              entry.value.0 + [separator] + entry.value.1 == Strip(line) &&
              separator !in entry.value.0 && separator !in entry.value.1
  {
    var keyVal := Split(Strip(line), separator);
    if |keyVal| == 2 then
      assert keyVal[0] in keyVal && keyVal[1] in keyVal;
      assert keyVal[1..] == [keyVal[1]];
      assert Join(keyVal, separator) == keyVal[0] + [separator] + keyVal[1];
      Some((keyVal[0], keyVal[1]))
    else None
  }

  /** The key/value pairs of a credentials file, in line order. */
  function CredentialPairs(lines: seq<string>, separator: char): (pairs: seq<(string, string)>)
    ensures |pairs| <= |lines|
    ensures forall p :: p in pairs ==> separator !in p.0 && separator !in p.1
    decreases |lines|
  {
    if lines == [] then []
    else
      var init := CredentialPairs(lines[..|lines| - 1], separator);
      match CredentialLine(lines[|lines| - 1], separator)
      case None => init
      case Some(p) => init + [p]
  }

  /** One more line of the file: the configuration of `lines[..i + 1]` is
      that of `lines[..i]`, updated with the pair line `i` contributes, if any. */
  lemma ConfigFromLinesSnoc(serviceName: string, lines: seq<string>, i: nat, separator: char)
    requires i < |lines|
    ensures ConfigFromPairs(serviceName, CredentialPairs(lines[..i + 1], separator)) ==
            match CredentialLine(lines[i], separator)
            case None => ConfigFromPairs(serviceName, CredentialPairs(lines[..i], separator))
            case Some(p) =>
              ParseKeyAndUpdateConfig(ConfigFromPairs(serviceName, CredentialPairs(lines[..i], separator)),
                                      serviceName, p.0, p.1)
  {
    assert lines[..i + 1][..i] == lines[..i];
    var pairs := CredentialPairs(lines[..i], separator);
    match CredentialLine(lines[i], separator)
    case None =>
    case Some(p) =>
      assert CredentialPairs(lines[..i + 1], separator) == pairs + [p];
      assert (pairs + [p])[..|pairs|] == pairs;
  }

  /** The credentials-file loop of `__read_from_credential_file`, over the
      lines of the file (none when there is no file); each line is stripped
      and split as `CredentialLine` does, and only a line of exactly two
      parts updates the configuration. */
  method ReadFromCredentialLines(lines: seq<string>, serviceName: string, separator: char)
    returns (config: map<string, string>)
    ensures config == ConfigFromPairs(serviceName, CredentialPairs(lines, separator))
  {
    config := map[];
    var i := 0;
    while i < |lines|
      invariant 0 <= i <= |lines|
      invariant config == ConfigFromPairs(serviceName, CredentialPairs(lines[..i], separator))
    {
      ConfigFromLinesSnoc(serviceName, lines, i, separator);
      match CredentialLine(lines[i], separator) {
        case Some((key, value)) =>
          config := ParseKeyAndUpdateConfig(config, serviceName, key, value);
        case None =>
      }
      i := i + 1;
    }
    assert lines[..i] == lines;
  }

  /** `__read_from_env_variables`, over the environment's variables in order. */
  method ReadFromEnvVariables(environ: seq<(string, string)>, serviceName: string)
    returns (config: map<string, string>)
    ensures config == ConfigFromPairs(serviceName, environ)
  {
    config := map[];
    var i := 0;
    while i < |environ|
      invariant 0 <= i <= |environ|
      invariant config == ConfigFromPairs(serviceName, environ[..i])
    {
      ConfigFromPairsSnoc(serviceName, environ, i);
      var (key, value) := environ[i];
      config := ParseKeyAndUpdateConfig(config, serviceName, key, value);
      i := i + 1;
    }
    assert environ[..i] == environ;
  }

  // ---------------------------------------------------------------------------
  // VCAP_SERVICES

  /** Indexing into the VCAP document raised (a missing key, an empty list, a
      value of the wrong type). */
  datatype ConfigError = MalformedVcap

  /** Both `username` and `password` are present and truthy. */
  predicate HasBasicAuth(credentials: map<string, Value>): (b: bool)
    ensures b <==> "username" in credentials && Truthy(credentials["username"]) &&
                   "password" in credentials && Truthy(credentials["password"])
  {
    Truthy(Get(credentials, Some("username"))) && Truthy(Get(credentials, Some("password")))
  }

  /** `apikey` is present and truthy. */
  predicate HasApiKey(credentials: map<string, Value>): (b: bool)
    ensures b <==> "apikey" in credentials && Truthy(credentials["apikey"])
  {
    Truthy(Get(credentials, Some("apikey")))
  }

  /** The classification of `__read_from_vcap_services`: username and
      password mean basic authentication, an API key means IAM, anything else
      yields an empty configuration; a credentials value that is not a dict is
      returned as it is. The original entries are kept. */
  function ClassifyVcapCredentials(credentials: Value): (r: Value)
    ensures !credentials.Dict? ==> r == credentials
    ensures credentials.Dict? ==> r.Dict?
    ensures credentials.Dict? && HasBasicAuth(credentials.entries) ==>
              var c := credentials.entries;
              r.entries.Keys == c.Keys + {"AUTH_TYPE", "USERNAME", "PASSWORD"} &&
              r.entries["AUTH_TYPE"] == Str("basic") &&
              r.entries["USERNAME"] == c["username"] && r.entries["PASSWORD"] == c["password"] &&
              forall k :: k in c && k != "AUTH_TYPE" && k != "USERNAME" && k != "PASSWORD" ==> r.entries[k] == c[k]
    ensures credentials.Dict? && !HasBasicAuth(credentials.entries) && HasApiKey(credentials.entries) ==>
              var c := credentials.entries;
              r.entries.Keys == c.Keys + {"AUTH_TYPE", "APIKEY"} &&
              r.entries["AUTH_TYPE"] == Str("iam") && r.entries["APIKEY"] == c["apikey"] &&
              forall k :: k in c && k != "AUTH_TYPE" && k != "APIKEY" ==> r.entries[k] == c[k]
    ensures credentials.Dict? && !HasBasicAuth(credentials.entries) && !HasApiKey(credentials.entries) ==>
              r == Dict(map[])
  {
    match credentials
    case Dict(c) =>
      if HasBasicAuth(c) then
        Dict(c["AUTH_TYPE" := Str("basic")]["USERNAME" := Get(c, Some("username"))]["PASSWORD" := Get(c, Some("password"))])
      else if HasApiKey(c) then
        Dict(c["AUTH_TYPE" := Str("iam")]["APIKEY" := Get(c, Some("apikey"))])
      else Dict(map[])
    case _ => credentials
  }

  /** `__read_from_vcap_services` over the parsed VCAP_SERVICES document
      (None when the variable is unset or empty): the credentials of the first
      instance of the named service, classified. */
  function ReadFromVcapServices(vcapServices: Option<Value>, serviceName: string): (r: Result<Value, ConfigError>)
    ensures vcapServices.None? ==> r == Ok(Dict(map[]))
    ensures vcapServices.Some? && vcapServices.value.Dict? && serviceName !in vcapServices.value.entries ==>
              r == Ok(Dict(map[]))
    ensures vcapServices.Some? && vcapServices.value.Dict? && serviceName in vcapServices.value.entries ==>
              var instances := vcapServices.value.entries[serviceName];
              if instances.List? && |instances.items| > 0 && instances.items[0].Dict? &&
                 "credentials" in instances.items[0].entries
              then r == Ok(ClassifyVcapCredentials(instances.items[0].entries["credentials"]))
              else r == Err(MalformedVcap)
    ensures vcapServices.Some? && !vcapServices.value.Dict? ==> r == Err(MalformedVcap)
  {
    match vcapServices
    case None => Ok(Dict(map[]))
    case Some(Dict(services)) =>
      if serviceName !in services then Ok(Dict(map[]))
      else
        var instances := services[serviceName];
        if !instances.List? || |instances.items| == 0 then Err(MalformedVcap)
        else
          var first := instances.items[0];
          if !first.Dict? || "credentials" !in first.entries then Err(MalformedVcap)
          else Ok(ClassifyVcapCredentials(first.entries["credentials"]))
    case Some(_) => Err(MalformedVcap)
  }

  // ---------------------------------------------------------------------------
  // All sources

  /** A configuration of strings as a dict value. */
  function StrDict(config: map<string, string>): (v: Value)
    ensures v.Dict? && v.entries.Keys == config.Keys
    ensures forall k :: k in config ==> v.entries[k] == Str(config[k])
  {
    Dict(map k | k in config :: Str(config[k]))
  }

  /** `read_external_sources`: the credentials file, else the environment,
      else VCAP_SERVICES — the first source that yields a non-empty
      configuration. */
  method ReadExternalSources(serviceName: string, credentialLines: seq<string>,
                             environ: seq<(string, string)>, vcapServices: Option<Value>)
    returns (config: Result<Value, ConfigError>)
    ensures var fromFile := ConfigFromPairs(serviceName, CredentialPairs(credentialLines, '='));
            fromFile != map[] ==> config == Ok(StrDict(fromFile))
    ensures var fromFile := ConfigFromPairs(serviceName, CredentialPairs(credentialLines, '='));
            var fromEnv := ConfigFromPairs(serviceName, environ);
            fromFile == map[] && fromEnv != map[] ==> config == Ok(StrDict(fromEnv))
    ensures var fromFile := ConfigFromPairs(serviceName, CredentialPairs(credentialLines, '='));
            var fromEnv := ConfigFromPairs(serviceName, environ);
            fromFile == map[] && fromEnv == map[] ==> config == ReadFromVcapServices(vcapServices, serviceName)
  {
    var fromFile := ReadFromCredentialLines(credentialLines, serviceName, '=');
    if fromFile != map[] {
      return Ok(StrDict(fromFile));
    }
    var fromEnv := ReadFromEnvVariables(environ, serviceName);
    if fromEnv != map[] {
      return Ok(StrDict(fromEnv));
    }
    config := ReadFromVcapServices(vcapServices, serviceName);
  }
}
