/** Connection settings: the `SnowflakeConfig` record, its conversion into
    connector keyword arguments, the environment and secrets loaders, and
    the precedence merge `resolve_config`. */
module Config {
  import opened Values

  /** The named fields of `SnowflakeConfig`, in declaration order. */
  const FieldOrder: seq<string> := [
    "account", "user", "password", "private_key", "private_key_file",
    "private_key_passphrase", "token", "authenticator", "warehouse", "role",
    "database", "schema", "client_session_keepalive", "login_timeout",
    "network_timeout", "retries", "retry_delay"]

  const FieldNames: set<string> := set f | f in FieldOrder

  /** The attributes of a `SnowflakeConfig` instance in iteration order:
      the named fields, then the `extra` dictionary. */
  const Attributes: seq<string> := FieldOrder + ["extra"]

  const Keepalive: string := "client_session_keepalive"
  const DefaultPrefix: string := "SNOWFLAKE_"
  const SecretsSection: string := "snowflake"

  /** The secrets store: absent (no UI framework, no `secrets` attribute), or
      a mapping from section names to the items of each section. */
  type Secrets = Option<map<string, seq<(string, Value)>>>

  lemma FieldNameFacts()
    ensures "extra" !in FieldNames
    ensures Keepalive in FieldNames
    ensures forall k :: k in FieldNames <==> k in FieldOrder
    ensures forall k :: k in FieldNames ==> k in Attributes
  {
  }

  lemma AttributesCoverFields(m: map<string, Value>)
    requires m.Keys == FieldNames
    ensures Among(m, Attributes) == m
    ensures NonNullAmong(m, Attributes) == NonNullFields(m)
  {
    FieldNameFacts();
  }

  /** Each attribute is a named field, except the last, which is `extra`. */
  lemma AttributeKind(i: int)
    requires 0 <= i < |Attributes|
    ensures Attributes[i] == "extra" <==> i == |Attributes| - 1
    ensures Attributes[i] != "extra" ==> Attributes[i] in FieldNames
  {
    FieldNameFacts();
    if i < |FieldOrder| {
      assert Attributes[i] == FieldOrder[i];
    }
  }

  /** The field values of `SnowflakeConfig()` with no arguments. */
  function Defaults(): (d: map<string, Value>)
    ensures d.Keys == FieldNames
    ensures forall f :: f in d ==> (d[f] == Null <==> f != Keepalive)
    ensures d[Keepalive] == Flag(true)
  {
    FieldNameFacts();
    map f | f in FieldNames :: if f == Keepalive then Flag(true) else Null
  }

  // ---------------------------------------------------------------------
  // to_dict

  function NonNullFields(fields: map<string, Value>): map<string, Value>
  {
    map k | k in fields && fields[k] != Null :: fields[k]
  }

  /** The non-`None` fields among the attributes `names`. */
  function NonNullAmong(fields: map<string, Value>, names: seq<string>): map<string, Value>
  {
    map k | k in fields && k in names && fields[k] != Null :: fields[k]
  }

  lemma NonNullAmongSnoc(fields: map<string, Value>, names: seq<string>, n: string)
    ensures NonNullAmong(fields, names + [n]) ==
      if n in fields && fields[n] != Null then NonNullAmong(fields, names)[n := fields[n]]
      else NonNullAmong(fields, names)
  {
  }

  /** The keyword arguments `to_dict` hands to the connector. */
  function ConnectorParams(fields: map<string, Value>, extra: map<string, Value>): map<string, Value>
  {
    var merged := NonNullFields(fields) + extra;
    if Keepalive in merged then merged else merged[Keepalive := Flag(true)]
  }

  /** What each key of the connector arguments holds: extras win over named
      fields, `None` fields are omitted, and the keep-alive flag is always
      present, defaulting to true. */
  lemma ConnectorParamsContents(fields: map<string, Value>, extra: map<string, Value>, k: string)
    ensures var p := ConnectorParams(fields, extra);
      && (k in p <==> k in extra || (k in fields && fields[k] != Null) || k == Keepalive)
      && (k in extra ==> p[k] == extra[k])
      && (k !in extra && k in fields && fields[k] != Null ==> p[k] == fields[k])
      && (k == Keepalive && k !in extra && (k !in fields || fields[k] == Null) ==> p[k] == Flag(true))
  {
  }

  /** A field whose value is `None` never reaches the connector unless an
      extra of the same name supplies it, and the key `extra` appears only
      when the extras themselves carry it. */
  lemma ConnectorParamsOmitNone(fields: map<string, Value>, extra: map<string, Value>)
    requires fields.Keys == FieldNames
    ensures var p := ConnectorParams(fields, extra);
      && (forall k :: k in p && k !in extra && k != Keepalive ==> k in fields && p[k] == fields[k] != Null)
      && ("extra" in p <==> "extra" in extra)
      && Keepalive in p
  {
    FieldNameFacts();
  }

  /** The keep-alive argument is the extra of that name if there is one,
      else the field if it is not `None`, else true. */
  lemma KeepaliveDefault(fields: map<string, Value>, extra: map<string, Value>)
    ensures var p := ConnectorParams(fields, extra);
      p[Keepalive] == (if Keepalive in extra then extra[Keepalive]
                       else if Keepalive in fields && fields[Keepalive] != Null then fields[Keepalive]
                       else Flag(true))
  {
  }

  /** A config built from keyword arguments that are all non-`None`, with
      no extras, hands the connector exactly those arguments and the
      keep-alive default. */
  lemma ConstructedParams(kwargs: map<string, Value>)
    requires kwargs.Keys <= FieldNames
    requires forall k :: k in kwargs ==> kwargs[k] != Null
    ensures ConnectorParams(Defaults() + kwargs, map[]) ==
      if Keepalive in kwargs then kwargs else kwargs[Keepalive := Flag(true)]
  {
    var fields := Defaults() + kwargs;
    var expected := if Keepalive in kwargs then kwargs else kwargs[Keepalive := Flag(true)];
    assert NonNullFields(fields).Keys == expected.Keys;
    assert ConnectorParams(fields, map[]) == NonNullFields(fields);
  }

  // ---------------------------------------------------------------------
  // Key partitioning shared by the two loaders

  /** Entries whose key names a field; they become constructor arguments. */
  function KnownPart(m: map<string, Value>): map<string, Value>
  {
    map k | k in m && k in FieldNames :: m[k]
  }

  /** Entries whose key names no field; they become `extra`. */
  function UnknownPart(m: map<string, Value>): map<string, Value>
  {
    map k | k in m && k !in FieldNames :: m[k]
  }

  /** Nothing is dropped and nothing lands in both parts; `extra` itself is
      not a field name, so an entry called `extra` goes to the extras. */
  lemma PartitionExact(m: map<string, Value>)
    ensures KnownPart(m).Keys <= FieldNames && UnknownPart(m).Keys !! FieldNames
    ensures KnownPart(m).Keys !! UnknownPart(m).Keys
    ensures KnownPart(m) + UnknownPart(m) == m
    ensures "extra" in m ==> "extra" in UnknownPart(m)
  {
    FieldNameFacts();
    assert (KnownPart(m) + UnknownPart(m)).Keys == m.Keys;
  }

  lemma FromPairsSnoc<V>(ps: seq<(string, V)>, p: (string, V))
    ensures FromPairs(ps + [p]) == FromPairs(ps)[p.0 := p.1]
  {
    assert (ps + [p])[..|ps|] == ps;
  }

  lemma PartsUpdate(m: map<string, Value>, k: string, v: Value)
    ensures KnownPart(m[k := v]) == if k in FieldNames then KnownPart(m)[k := v] else KnownPart(m)
    ensures UnknownPart(m[k := v]) == if k in FieldNames then UnknownPart(m) else UnknownPart(m)[k := v]
  {
  }

  lemma PartsSnoc(ps: seq<(string, Value)>, k: string, v: Value)
    ensures KnownPart(FromPairs(ps + [(k, v)])) ==
      if k in FieldNames then KnownPart(FromPairs(ps))[k := v] else KnownPart(FromPairs(ps))
    ensures UnknownPart(FromPairs(ps + [(k, v)])) ==
      if k in FieldNames then UnknownPart(FromPairs(ps)) else UnknownPart(FromPairs(ps))[k := v]
  {
    FromPairsSnoc(ps, (k, v));
  }

  // ---------------------------------------------------------------------
  // load_from_env

  /** Environment variable `j` is prefixed and its lowercased suffix is `k`. */
  ghost predicate Contributes(environ: seq<(string, string)>, prefix: string, j: int, k: string)
  {
    0 <= j < |environ| && StartsWith(environ[j].0, prefix) && Lower(environ[j].0[|prefix|..]) == k
  }

  /** The (key, value) assignments the environment loop performs, in order. */
  function EnvPairs(environ: seq<(string, string)>, prefix: string): seq<(string, Value)>
    decreases |environ|
  {
    if environ == [] then []
    else
      var last := environ[|environ| - 1];
      EnvPairs(environ[..|environ| - 1], prefix)
        + (if StartsWith(last.0, prefix) then [(Lower(last.0[|prefix|..]), Text(last.1))] else [])
  }

  /** The environment's contribution as one dictionary, before partitioning. */
  function EnvEntries(environ: seq<(string, string)>, prefix: string): map<string, Value>
  {
    FromPairs(EnvPairs(environ, prefix))
  }

  /** Only prefixed variables contribute; a key is present exactly when some
      prefixed variable's lowercased suffix is that key, and it holds the
      text of the last such variable. */
  lemma {:induction false} EnvEntriesSpec(environ: seq<(string, string)>, prefix: string, k: string)
    ensures k in EnvEntries(environ, prefix) <==> exists j :: Contributes(environ, prefix, j, k)
    ensures k in EnvEntries(environ, prefix) ==>
      exists j :: Contributes(environ, prefix, j, k)
        && EnvEntries(environ, prefix)[k] == Text(environ[j].1)
        && forall j' :: j < j' < |environ| ==> !Contributes(environ, prefix, j', k)
    decreases |environ|
  {
    if environ != [] {
      var n := |environ| - 1;
      var init := environ[..n];
      EnvEntriesSpec(init, prefix, k);
      EnvEntriesSnoc(environ, prefix);
      if Contributes(environ, prefix, n, k) {
        assert EnvEntries(environ, prefix)[k] == Text(environ[n].1);
      } else {
        assert (k in EnvEntries(environ, prefix)) == (k in EnvEntries(init, prefix));
        if k in EnvEntries(init, prefix) {
          var j :| Contributes(init, prefix, j, k)
            && EnvEntries(init, prefix)[k] == Text(init[j].1)
            && forall j' :: j < j' < n ==> !Contributes(init, prefix, j', k);
          ContributesInit(environ, prefix, j, k);
          forall j' | j < j' < |environ|
            ensures !Contributes(environ, prefix, j', k)
          {
            if j' < n {
              ContributesInit(environ, prefix, j', k);
            }
          }
          assert EnvEntries(environ, prefix)[k] == Text(environ[j].1);
        }
        if exists j :: Contributes(environ, prefix, j, k) {
          var j :| Contributes(environ, prefix, j, k);
          ContributesInit(environ, prefix, j, k);
        }
      }
    }
  }

  lemma ContributesInit(environ: seq<(string, string)>, prefix: string, j: int, k: string)
    requires 0 <= j < |environ| - 1
    ensures Contributes(environ[..|environ| - 1], prefix, j, k) <==> Contributes(environ, prefix, j, k)
  {
    assert environ[..|environ| - 1][j] == environ[j];
  }

  /** The last variable, if prefixed, assigns its key after all the others. */
  lemma EnvEntriesSnoc(environ: seq<(string, string)>, prefix: string)
    requires environ != []
    ensures var init, last := environ[..|environ| - 1], environ[|environ| - 1];
      EnvEntries(environ, prefix) ==
        if StartsWith(last.0, prefix) then EnvEntries(init, prefix)[Lower(last.0[|prefix|..]) := Text(last.1)]
        else EnvEntries(init, prefix)
  {
    var init, last := environ[..|environ| - 1], environ[|environ| - 1];
    if StartsWith(last.0, prefix) {
      FromPairsSnoc(EnvPairs(init, prefix), (Lower(last.0[|prefix|..]), Text(last.1)));
    } else {
      assert EnvPairs(environ, prefix) == EnvPairs(init, prefix);
    }
  }

  /** Every value the environment contributes is a string, never `None`. */
  lemma EnvEntriesNonNull(environ: seq<(string, string)>, prefix: string, k: string)
    requires k in EnvEntries(environ, prefix)
    ensures EnvEntries(environ, prefix)[k] != Null
  {
    EnvEntriesSpec(environ, prefix, k);
  }

  /** What one variable of the loading loop does to the two parts. */
  lemma EnvStep(environ: seq<(string, string)>, prefix: string, i: int)
    requires 0 <= i < |environ|
    ensures var e, e' := EnvEntries(environ[..i], prefix), EnvEntries(environ[..i + 1], prefix);
      var name := environ[i].0;
      if !StartsWith(name, prefix) then e' == e
      else
        var k, v := Lower(name[|prefix|..]), Text(environ[i].1);
        && KnownPart(e') == (if k in FieldNames then KnownPart(e)[k := v] else KnownPart(e))
        && UnknownPart(e') == (if k in FieldNames then UnknownPart(e) else UnknownPart(e)[k := v])
  {
    var prefixEnv := environ[..i + 1];
    assert prefixEnv[..i] == environ[..i] && prefixEnv[i] == environ[i];
    EnvEntriesSnoc(prefixEnv, prefix);
    if StartsWith(environ[i].0, prefix) {
      PartsUpdate(EnvEntries(environ[..i], prefix), Lower(environ[i].0[|prefix|..]), Text(environ[i].1));
    }
  }

  method LoadFromEnv(environ: seq<(string, string)>, prefix: string) returns (config: SnowflakeConfig)
    ensures fresh(config) && config.Valid()
    ensures config.fields == Defaults() + KnownPart(EnvEntries(environ, prefix))
    ensures config.extra == UnknownPart(EnvEntries(environ, prefix))
  {
    var kwargs: map<string, Value> := map[];
    var extra: map<string, Value> := map[];
    for i := 0 to |environ|
      invariant kwargs == KnownPart(EnvEntries(environ[..i], prefix))
      invariant extra == UnknownPart(EnvEntries(environ[..i], prefix))
    {
      var (name, value) := environ[i];
      EnvStep(environ, prefix, i);
      if !StartsWith(name, prefix) {
        continue;
      }
      var key := Lower(name[|prefix|..]);
      if key in FieldNames {
        kwargs := kwargs[key := Text(value)];
      } else {
        extra := extra[key := Text(value)];
      }
    }
    assert environ[..|environ|] == environ;
    PartitionExact(EnvEntries(environ, prefix));
    config := new SnowflakeConfig(kwargs);
    config.extra := config.extra + extra;
  }

  // ---------------------------------------------------------------------
  // load_from_secrets

  function LowerKeys(section: seq<(string, Value)>): seq<(string, Value)>
  {
    seq(|section|, i requires 0 <= i < |section| => (Lower(section[i].0), section[i].1))
  }

  /** The secrets section's contribution as one dictionary, before partitioning. */
  function SecretsEntries(section: seq<(string, Value)>): map<string, Value>
  {
    FromPairs(LowerKeys(section))
  }

  /** A key is present exactly when some section key lowercases to it, and
      it holds the value of the last such key. */
  lemma SecretsEntriesSpec(section: seq<(string, Value)>, k: string)
    ensures k in SecretsEntries(section) <==> exists j :: 0 <= j < |section| && Lower(section[j].0) == k
    ensures k in SecretsEntries(section) ==>
      exists j :: 0 <= j < |section| && Lower(section[j].0) == k
        && SecretsEntries(section)[k] == section[j].1
        && forall j' :: j < j' < |section| ==> Lower(section[j'].0) != k
  {
    var ps := LowerKeys(section);
    assert forall i :: 0 <= i < |ps| ==> ps[i] == (Lower(section[i].0), section[i].1);
    FromPairsDomain(ps, k);
    if k in SecretsEntries(section) {
      FromPairsLookup(ps, k);
      var j :| 0 <= j < |ps| && ps[j].0 == k && FromPairs(ps)[k] == ps[j].1
        && forall j' :: j < j' < |ps| ==> ps[j'].0 != k;
      assert Lower(section[j].0) == k;
    }
    if exists j :: 0 <= j < |section| && Lower(section[j].0) == k {
      var j :| 0 <= j < |section| && Lower(section[j].0) == k;
      assert ps[j].0 == k;
    }
  }

  /** What one section entry of the loading loop does to the two parts. */
  lemma SecretsStep(section: seq<(string, Value)>, i: int)
    requires 0 <= i < |section|
    ensures var e, e' := FromPairs(LowerKeys(section[..i])), FromPairs(LowerKeys(section[..i + 1]));
      var k, v := Lower(section[i].0), section[i].1;
      && KnownPart(e') == (if k in FieldNames then KnownPart(e)[k := v] else KnownPart(e))
      && UnknownPart(e') == (if k in FieldNames then UnknownPart(e) else UnknownPart(e)[k := v])
  {
    assert LowerKeys(section[..i + 1]) == LowerKeys(section[..i]) + [(Lower(section[i].0), section[i].1)];
    PartsSnoc(LowerKeys(section[..i]), Lower(section[i].0), section[i].1);
  }

  /** Both parts of the whole section, and the config built from them. */
  lemma SecretsDone(secrets: Secrets, kwargs: map<string, Value>, extra: map<string, Value>)
    requires secrets.Some? && SecretsSection in secrets.value
    requires var section := secrets.value[SecretsSection];
      && kwargs == KnownPart(FromPairs(LowerKeys(section[..|section|])))
      && extra == UnknownPart(FromPairs(LowerKeys(section[..|section|])))
    ensures kwargs.Keys <= FieldNames
    ensures LoadedSecrets(secrets) == Some((Defaults() + kwargs, extra))
  {
    var section := secrets.value[SecretsSection];
    assert section[..|section|] == section;
    PartitionExact(SecretsEntries(section));
  }

  method LoadFromSecrets(secrets: Secrets) returns (config: Option<SnowflakeConfig>)
    ensures config.None? <==> (secrets.None? || SecretsSection !in secrets.value)
    ensures config.None? <==> LoadedSecrets(secrets).None?
    ensures config.Some? ==>
      && fresh(config.value) && config.value.Valid()
      && (config.value.fields, config.value.extra) == LoadedSecrets(secrets).value
  {
    if secrets.None? {
      return None;
    }
    var store := secrets.value;
    if store == map[] {
      return None;
    }
    if SecretsSection !in store {
      return None;
    }
    var section := store[SecretsSection];
    var kwargs: map<string, Value> := map[];
    var extra: map<string, Value> := map[];
    for i := 0 to |section|
      invariant kwargs == KnownPart(FromPairs(LowerKeys(section[..i])))
      invariant extra == UnknownPart(FromPairs(LowerKeys(section[..i])))
    {
      var (key, value) := section[i];
      var lowerKey := Lower(key);
      SecretsStep(section, i);
      if lowerKey in FieldNames {
        kwargs := kwargs[lowerKey := value];
      } else {
        extra := extra[lowerKey := value];
      }
    }
    SecretsDone(secrets, kwargs, extra);
    var c := new SnowflakeConfig(kwargs);
    c.extra := c.extra + extra;
    assert c.extra == extra;
    return Some(c);
  }

  // ---------------------------------------------------------------------
  // resolve_config

  /** `setattr` of every non-`None` value of `over` onto `base`. */
  function Overlay(base: map<string, Value>, over: map<string, Value>): map<string, Value>
  {
    map k | k in base :: if k in over && over[k] != Null then over[k] else base[k]
  }

  /** The fields of `over` among the attributes `names`. */
  function Among(over: map<string, Value>, names: seq<string>): map<string, Value>
  {
    map k | k in over && k in names :: over[k]
  }

  lemma OverlayAmongSnoc(base: map<string, Value>, over: map<string, Value>, names: seq<string>, n: string)
    ensures Overlay(base, Among(over, names + [n])) ==
      if n in over && over[n] != Null && n in base then Overlay(base, Among(over, names))[n := over[n]]
      else Overlay(base, Among(over, names))
  {
  }

  /** What one attribute of the merge loop does to the merged fields. */
  lemma AbsorbStep(base: map<string, Value>, over: map<string, Value>, i: int)
    requires base.Keys == FieldNames && over.Keys == FieldNames && 0 <= i < |Attributes|
    ensures Attributes[i] == "extra" <==> i == |Attributes| - 1
    ensures Attributes[i] != "extra" ==> Attributes[i] in over
    ensures var n := Attributes[i];
      Overlay(base, Among(over, Attributes[..i + 1])) ==
        if n == "extra" || over[n] == Null then Overlay(base, Among(over, Attributes[..i]))
        else Overlay(base, Among(over, Attributes[..i]))[n := over[n]]
  {
    assert Attributes[..i + 1] == Attributes[..i] + [Attributes[i]];
    OverlayAmongSnoc(base, over, Attributes[..i], Attributes[i]);
    AttributeKind(i);
  }

  /** After the last attribute every field of `over` has been considered. */
  lemma AbsorbDone(base: map<string, Value>, over: map<string, Value>)
    requires base.Keys == FieldNames && over.Keys == FieldNames
    ensures Overlay(base, Among(over, Attributes[..|Attributes|])) == Overlay(base, over)
    ensures Overlay(base, over).Keys == FieldNames
  {
    assert Attributes[..|Attributes|] == Attributes;
    AttributesCoverFields(over);
  }

  /** The (fields, extra) of the config `load_from_secrets` returns, if any. */
  function LoadedSecrets(secrets: Secrets): Option<(map<string, Value>, map<string, Value>)>
  {
    if secrets.None? || SecretsSection !in secrets.value then None
    else
      var e := SecretsEntries(secrets.value[SecretsSection]);
      Some((Defaults() + KnownPart(e), UnknownPart(e)))
  }

  /** The (fields, extra) of the config `load_from_env()` returns. */
  function LoadedEnv(environ: seq<(string, string)>): (map<string, Value>, map<string, Value>)
  {
    var e := EnvEntries(environ, DefaultPrefix);
    (Defaults() + KnownPart(e), UnknownPart(e))
  }

  function ResolvedFields(base: map<string, Value>, secrets: Secrets, environ: seq<(string, string)>): map<string, Value>
  {
    var afterSecrets := match LoadedSecrets(secrets)
      case None => base
      case Some(s) => Overlay(base, s.0);
    Overlay(afterSecrets, LoadedEnv(environ).0)
  }

  function ResolvedExtra(base: map<string, Value>, secrets: Secrets, environ: seq<(string, string)>): map<string, Value>
  {
    var afterSecrets := match LoadedSecrets(secrets)
      case None => base
      case Some(s) => base + s.1;
    afterSecrets + LoadedEnv(environ).1
  }

  lemma LoadedFieldsKeys(secrets: Secrets, environ: seq<(string, string)>)
    ensures LoadedEnv(environ).0.Keys == FieldNames
    ensures LoadedSecrets(secrets).Some? ==> LoadedSecrets(secrets).value.0.Keys == FieldNames
  {
    PartitionExact(EnvEntries(environ, DefaultPrefix));
    if LoadedSecrets(secrets).Some? {
      PartitionExact(SecretsEntries(secrets.value[SecretsSection]));
    }
  }

  /** Field precedence: the environment's value if it is not `None`, else the
      secrets value if that is not `None`, else the explicit config's. */
  lemma ResolvedFieldPrecedence(base: map<string, Value>, secrets: Secrets, environ: seq<(string, string)>, f: string)
    requires base.Keys == FieldNames && f in FieldNames
    ensures var envValue := LoadedEnv(environ).0[f];
      var secretsValue := if LoadedSecrets(secrets).None? then Null else LoadedSecrets(secrets).value.0[f];
      var r := ResolvedFields(base, secrets, environ);
      && r.Keys == FieldNames
      && r[f] == (if envValue != Null then envValue else if secretsValue != Null then secretsValue else base[f])
  {
    LoadedFieldsKeys(secrets, environ);
  }

  /** A later source never blanks a field: a field is `None` in the result
      only when it is `None` in all three sources. */
  lemma ResolveNeverBlanks(base: map<string, Value>, secrets: Secrets, environ: seq<(string, string)>, f: string)
    requires base.Keys == FieldNames && f in FieldNames
    ensures ResolvedFields(base, secrets, environ)[f] == Null ==>
      && base[f] == Null
      && (f !in EnvEntries(environ, DefaultPrefix) || EnvEntries(environ, DefaultPrefix)[f] == Null)
      && (LoadedSecrets(secrets).Some? ==> LoadedSecrets(secrets).value.0[f] == Null)
  {
    ResolvedFieldPrecedence(base, secrets, environ, f);
  }

  /** The environment config is always a fresh `SnowflakeConfig`, whose
      keep-alive default is true, so its merge always overwrites that field:
      the result is the environment's variable if it sets one, and true
      otherwise, whatever the explicit config and the secrets say. */
  lemma KeepaliveFromEnvOnly(base: map<string, Value>, secrets: Secrets, environ: seq<(string, string)>)
    requires base.Keys == FieldNames
    ensures var e := EnvEntries(environ, DefaultPrefix);
      ResolvedFields(base, secrets, environ)[Keepalive] == (if Keepalive in e then e[Keepalive] else Flag(true))
  {
    FieldNameFacts();
    ResolvedFieldPrecedence(base, secrets, environ, Keepalive);
    var e := EnvEntries(environ, DefaultPrefix);
    if Keepalive in e {
      EnvEntriesNonNull(environ, DefaultPrefix, Keepalive);
    }
  }

  /** Extras merge as a union; on a shared key the environment beats the
      secrets, which beat the explicit config. */
  lemma ResolvedExtraPrecedence(base: map<string, Value>, secrets: Secrets, environ: seq<(string, string)>, k: string)
    ensures var envExtra := LoadedEnv(environ).1;
      var secretsExtra := if LoadedSecrets(secrets).None? then map[] else LoadedSecrets(secrets).value.1;
      var r := ResolvedExtra(base, secrets, environ);
      && (k in r <==> k in base || k in secretsExtra || k in envExtra)
      && (k in r ==> r[k] == (if k in envExtra then envExtra[k] else if k in secretsExtra then secretsExtra[k] else base[k]))
  {
  }

  /** A flat record of optional connection parameters plus open-ended extras. */
  class SnowflakeConfig {
    /** Every named field's value; `Null` is a field left at `None`. */
    var fields: map<string, Value>
    var extra: map<string, Value>

    ghost predicate Valid()
      reads this
    {
      fields.Keys == FieldNames
    }

    /** `SnowflakeConfig(**kwargs)`. */
    constructor (kwargs: map<string, Value>)
      requires kwargs.Keys <= FieldNames
      ensures Valid() && fields == Defaults() + kwargs && extra == map[]
    {
      fields := Defaults() + kwargs;
      extra := map[];
    }

    /** `to_dict`: the non-`None` fields, then the extras, then the
        keep-alive default. */
    method ToDict() returns (params: map<string, Value>)
      requires Valid()
      ensures params == ConnectorParams(fields, extra)
    {
      params := map[];
      for i := 0 to |Attributes|
        invariant params == NonNullAmong(fields, Attributes[..i])
      {
        assert Attributes[..i + 1] == Attributes[..i] + [Attributes[i]];
        NonNullAmongSnoc(fields, Attributes[..i], Attributes[i]);
        AttributeKind(i);
        var name := Attributes[i];
        if name == "extra" {
          continue;
        }
        var value := fields[name];
        if value != Null {
          params := params[name := value];
        }
      }
      assert Attributes[..|Attributes|] == Attributes;
      AttributesCoverFields(fields);
      params := params + extra;
      if Keepalive !in params {
        params := params[Keepalive := Flag(true)];
      }
    }

    /** One merge loop of `resolve_config`: walk `source`'s attributes,
        `setattr` every non-`None` field and `update` the extras. */
    method Absorb(source: SnowflakeConfig)
      requires Valid() && source.Valid() && source != this
      modifies this
      ensures Valid()
      ensures fields == Overlay(old(fields), source.fields)
      ensures extra == old(extra) + source.extra
    {
      var base, baseExtra, over, overExtra := fields, extra, source.fields, source.extra;
      var merged, extras := base, baseExtra;
      for i := 0 to |Attributes|
        invariant merged == Overlay(base, Among(over, Attributes[..i]))
        invariant i < |Attributes| ==> extras == baseExtra
        invariant i == |Attributes| ==> extras == baseExtra + overExtra
      {
        AbsorbStep(base, over, i);
        var name := Attributes[i];
        if name == "extra" {
          extras := extras + overExtra;
        } else if over[name] != Null {
          merged := merged[name := over[name]];
        }
      }
      AbsorbDone(base, over);
      fields, extra := merged, extras;
    }
  }

  /** `resolve_config(config)`: start from `config` (mutated in place and
      returned) or a fresh default config, merge the secrets, then the
      environment. */
  method ResolveConfig(config: SnowflakeConfig?, secrets: Secrets, environ: seq<(string, string)>)
    returns (base: SnowflakeConfig)
    requires config != null ==> config.Valid()
    modifies config
    ensures config != null ==> base == config
    ensures config == null ==> fresh(base)
    ensures base.Valid()
    ensures base.fields == ResolvedFields(if config == null then Defaults() else old(config.fields), secrets, environ)
    ensures base.extra == ResolvedExtra(if config == null then map[] else old(config.extra), secrets, environ)
  {
    var secretsConfig := LoadFromSecrets(secrets);
    var envConfig := LoadFromEnv(environ, DefaultPrefix);
    assert (envConfig.fields, envConfig.extra) == LoadedEnv(environ);
    if config == null {
      base := new SnowflakeConfig(map[]);
    } else {
      base := config;
    }
    ghost var startFields, startExtra := base.fields, base.extra;
    assert startFields == if config == null then Defaults() else old(config.fields);
    assert startExtra == if config == null then map[] else old(config.extra);
    if secretsConfig.Some? {
      base.Absorb(secretsConfig.value);
    }
    assert base.fields == match LoadedSecrets(secrets)
      case None => startFields
      case Some(s) => Overlay(startFields, s.0);
    assert base.extra == match LoadedSecrets(secrets)
      case None => startExtra
      case Some(s) => startExtra + s.1;
    ghost var afterSecrets := base.extra;
    base.Absorb(envConfig);
    assert base.extra == afterSecrets + LoadedEnv(environ).1;
  }
}

/** Concrete runs of the configuration resolver. */
module ConfigScenarios {
  import opened Values
  import opened Config

  const SecretsInput: Secrets := Some(map[SecretsSection := [("account", Text("acct_secr")), ("user", Text("user_secr"))]])
  const EnvInput: seq<(string, string)> := [("SNOWFLAKE_USER", "user_env")]

  lemma EnvInputEntries()
    ensures EnvEntries(EnvInput, DefaultPrefix) == map["user" := Text("user_env")]
  {
    assert Lower("USER") == "user";
    assert StartsWith("SNOWFLAKE_USER", DefaultPrefix) && "SNOWFLAKE_USER"[|DefaultPrefix|..] == "USER";
    assert EnvPairs(EnvInput, DefaultPrefix) == [("user", Text("user_env"))] by {
      assert EnvInput[..0] == [];
    }
    FromPairsSnoc([], ("user", Text("user_env")));
  }

  lemma SecretsInputEntries()
    ensures LoadedSecrets(SecretsInput).Some?
    ensures var e := SecretsEntries(SecretsInput.value[SecretsSection]);
      "account" in e && e["account"] == Text("acct_secr")
  {
    var section := SecretsInput.value[SecretsSection];
    assert section == [("account", Text("acct_secr")), ("user", Text("user_secr"))];
    LowerIdentity("account");
    LowerIdentity("user");
    assert Lower(section[0].0) == "account" && Lower(section[1].0) == "user";
    SecretsEntriesSpec(section, "account");
    var e := SecretsEntries(section);
    var j :| 0 <= j < |section| && Lower(section[j].0) == "account" && e["account"] == section[j].1;
    assert j == 0;
  }

  /** Secrets supply account and user, the environment overrides the user:
      the account comes from the secrets, the user from the environment. */
  lemma EnvOverridesSecrets()
    ensures var r := ResolvedFields(Defaults(), SecretsInput, EnvInput);
      r["account"] == Text("acct_secr") && r["user"] == Text("user_env")
  {
    FieldNameFacts();
    assert "user" in FieldNames && "account" in FieldNames;
    EnvInputEntries();
    SecretsInputEntries();
    var loadedEnv := LoadedEnv(EnvInput).0;
    assert loadedEnv["account"] == Null && loadedEnv["user"] == Text("user_env");
    var loadedSecrets := LoadedSecrets(SecretsInput).value.0;
    assert loadedSecrets["account"] == Text("acct_secr");
    ResolvedFieldPrecedence(Defaults(), SecretsInput, EnvInput, "account");
    ResolvedFieldPrecedence(Defaults(), SecretsInput, EnvInput, "user");
  }

  const ExplicitInput: map<string, Value> := map["account" := Text("acct"), "user" := Text("u"), "password" := Text("p")]

  /** An explicit config with account, user and password, resolved with no
      secrets and an empty environment, reaches the connector as exactly
      those three arguments plus the keep-alive flag set true. */
  lemma ExplicitInputResolved()
    ensures ResolvedFields(Defaults() + ExplicitInput, None, []) == Defaults() + ExplicitInput
  {
    assert EnvEntries([], DefaultPrefix) == map[];
    assert LoadedEnv([]).0 == Defaults();
  }

  lemma ExplicitConfigKwargs()
    ensures var fields := ResolvedFields(Defaults() + ExplicitInput, None, []);
      var extra := ResolvedExtra(map[], None, []);
      ConnectorParams(fields, extra) == ExplicitInput[Keepalive := Flag(true)]
  {
    ExplicitInputResolved();
    assert FieldOrder[0] == "account" && FieldOrder[1] == "user" && FieldOrder[2] == "password";
    assert ExplicitInput.Keys <= FieldNames;
    assert EnvEntries([], DefaultPrefix) == map[];
    assert ResolvedExtra(map[], None, []) == map[];
    ConstructedParams(ExplicitInput);
  }
}
