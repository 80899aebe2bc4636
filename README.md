# sf_streamlit_utils — configuration, connection lifecycle and cache keys

This project models the three pieces of `sf_streamlit_utils` that carry
logic of their own, and proves what they promise:

- **Configuration resolution** (`config.py`). `SnowflakeConfig` is a class
  whose `fields` map holds all 17 named fields (`Null` standing for Python's
  `None`) and whose `extra` map holds the vendor extras. `ToDict` builds
  the connector keyword arguments. `LoadFromEnv` and `LoadFromSecrets` sort
  the keys of their source into named fields or extras. `ResolveConfig`
  mutates the base config in place: first the secrets are merged, then the
  environment. Each loop is proved against a specification function
  (`ConnectorParams`, `EnvEntries` with `KnownPart`/`UnknownPart`,
  `SecretsEntries`, `ResolvedFields`, `ResolvedExtra`). Lemmas state the
  precedence, the partition and the keep-alive behaviour on those functions.
- **Connection lifecycle** (`connection.py`). `ConnectionManager` holds one
  optional handle. `GetConnection` creates a handle on first use. If that
  new handle already reports closed, it creates exactly one more. A stale
  handle is replaced by exactly one new handle. The connector is a
  `Connector` object whose `calls` log counts the creations and records
  the keyword arguments of each. The liveness probe `_is_closed` is the
  predicate `ReportsClosed` over an abstract description of what a handle
  answers. `ManagerRegistry` models the module-level singleton used when
  the UI framework is absent.
- **Cache keys** (`cache.py`). `HashableParams` turns a parameter map into
  a key-sorted sequence of (name, serialised value) pairs. `Rebuild` is the
  bind map `_run` reconstructs from it. `RunBind` is `bind or None`. The
  serialiser `json.dumps` and its inverse `json.loads` are function
  parameters. Their injectivity and left-inverse property are preconditions
  of the lemmas that need them.

The lock around `get_connection` and around the singleton makes each
method body one atomic step, so the model is sequential. The environment
and the secrets store are inputs. The environment is a sequence of
(name, value) pairs in `os.environ` order. The secrets store is an optional
map from section names to item sequences. Item order matters because two
names can lowercase to the same key, and then the later one wins, as it
does in the source.

A behaviour of the code that the model keeps as written: the environment
config is always a fresh `SnowflakeConfig`, and its keep-alive field
defaults to true, so the environment merge always overwrites that field.
An explicit `client_session_keepalive=False` in the base config or in the
secrets therefore never survives `resolve_config`
(`Config.KeepaliveFromEnvOnly`).

## Model

| member | source | states |
|---|---|---|
| `Config.Defaults` | src/sf_streamlit_utils/config.py:45-62 | a config built with no arguments has every one of the 17 fields; all are `None` except `client_session_keepalive`, which is true |
| `Config.SnowflakeConfig.constructor` | src/sf_streamlit_utils/config.py:45-62 | `SnowflakeConfig(**kwargs)` gets the defaults overridden by the keyword arguments, and no extras |
| `Config.SnowflakeConfig.ToDict` | src/sf_streamlit_utils/config.py:64-81 | the loop over the attributes, the extras update and the keep-alive default produce exactly the connector arguments `ConnectorParams` |
| `Config.ConnectorParamsContents` | src/sf_streamlit_utils/config.py:70-80 | a key is in the arguments iff it is an extra, a non-`None` field, or the keep-alive key; extras win over fields of the same name; keep-alive defaults to true |
| `Config.ConnectorParamsOmitNone` | src/sf_streamlit_utils/config.py:70-75 | no `None` field reaches the connector unless an extra supplies that key; the key `extra` appears only if the extras hold it; keep-alive is always present |
| `Config.KeepaliveDefault` | src/sf_streamlit_utils/config.py:77-80 | the keep-alive argument is the extra if there is one, else the field if it is not `None`, else true |
| `Config.ConstructedParams` | src/sf_streamlit_utils/config.py:64-81 | a config built from non-`None` keyword arguments with no extras hands the connector exactly those arguments plus keep-alive true |
| `Config.PartitionExact` | src/sf_streamlit_utils/config.py:103-106 | named fields and extras split the loaded entries with nothing dropped and nothing in both; a key called `extra` goes to the extras |
| `Config.EnvEntriesSpec` | src/sf_streamlit_utils/config.py:98-106 | a key is loaded iff some variable carries the prefix and its lowercased suffix is that key; its value is the text of the last such variable |
| `Config.EnvEntriesNonNull` | src/sf_streamlit_utils/config.py:104-106 | every value the environment contributes is a string, never `None` |
| `Config.LoadFromEnv` | src/sf_streamlit_utils/config.py:84-109 | the loop yields a fresh config: its fields are the defaults overridden by the known keys, and its extras are the unknown keys |
| `Config.SecretsEntriesSpec` | src/sf_streamlit_utils/config.py:133-138 | a key is loaded iff some section key lowercases to it; its value is that of the last such section key |
| `Config.LoadFromSecrets` | src/sf_streamlit_utils/config.py:112-141 | returns none iff there is no secrets store or no `snowflake` section; otherwise a fresh config partitioned exactly as the environment loader partitions |
| `Config.SnowflakeConfig.Absorb` | src/sf_streamlit_utils/config.py:166-170 | one merge loop: every non-`None` field of the source overwrites the base field, other fields are kept, and the extras are updated with the source's |
| `Config.ResolveConfig` | src/sf_streamlit_utils/config.py:144-177 | a passed config is the object mutated and returned, otherwise a fresh one; its fields and extras become `ResolvedFields` and `ResolvedExtra` of the sources |
| `Config.ResolvedFieldPrecedence` | src/sf_streamlit_utils/config.py:164-176 | a field resolves to the environment value if not `None`, else the secrets value if not `None`, else the base value |
| `Config.ResolveNeverBlanks` | src/sf_streamlit_utils/config.py:164-176 | a resolved field is `None` only when the base, the secrets and the environment all leave it `None` |
| `Config.KeepaliveFromEnvOnly` | src/sf_streamlit_utils/config.py:172-176 | resolved keep-alive is the environment's variable if it is set, and true otherwise, whatever the base and the secrets say |
| `Config.ResolvedExtraPrecedence` | src/sf_streamlit_utils/config.py:164-176 | resolved extras are the union of the three sources' extras; on a shared key the environment wins over the secrets, which win over the base |
| `ConfigScenarios.EnvOverridesSecrets` | src/tests/test_config.py:40-55 | with `account`/`user` in the secrets and `SNOWFLAKE_USER` in the environment, the account comes from the secrets and the user from the environment |
| `ConfigScenarios.ExplicitConfigKwargs` | src/sf_streamlit_utils/config.py:70-80 | an explicit account/user/password config with no secrets and no environment reaches the connector as those three arguments plus keep-alive true |
| `Connection.ProbeOrder` | src/sf_streamlit_utils/connection.py:75-83 | a callable `is_closed` decides by its result, else a non-`None` attribute by its truthiness, else (absent, `None`, raising) the `closed` attribute, which defaults to open |
| `Connection.ReportsClosed` | src/sf_streamlit_utils/connection.py:75-83 | `_is_closed` on a held handle: an `is_closed` that answers true (called or plain) means closed, one that answers false means open, and without a true `closed` attribute only a true `is_closed` answer means closed |
| `Connection.ConnectionManager.IsClosed` | src/sf_streamlit_utils/connection.py:65-83 | no handle counts as closed; a handle that cannot report its state counts as open |
| `Connection.ConnectionManager.constructor` | src/sf_streamlit_utils/connection.py:42-46 | a new manager holds its config and no handle |
| `Connection.ConnectionManager.CreateConnection` | src/sf_streamlit_utils/connection.py:48-63 | exactly one connector call, with exactly the keyword arguments `config.to_dict()` gives, and the fresh handle it returns |
| `Connection.ConnectionManager.GetConnection` | src/sf_streamlit_utils/connection.py:85-97 | no handle: one creation if the new handle reports open, exactly two if it reports closed, and the second is kept whatever it reports; an open handle is returned unchanged with no creation; a closed one is replaced by exactly one new handle; the stored handle always equals the returned one |
| `Connection.ConnectionManager.Execute` | src/sf_streamlit_utils/connection.py:99-103 | the handle is obtained exactly as `get_connection` obtains it (same creations, same stored handle, in all three cases); the statement is dispatched once on a fresh cursor of that handle, with a non-empty map unchanged and none for an empty or absent map |
| `Connection.CreateManager` | src/sf_streamlit_utils/connection.py:112-114 | a fresh manager with no handle whose config is the resolved configuration |
| `Connection.ManagerRegistry.GetConnectionManager` | src/sf_streamlit_utils/connection.py:135-142 | the first call creates the singleton; a later call without a config returns the same manager; a call with a config replaces it by a fresh one built from that config |
| `ConnectionScenarios.ReuseLiveHandle` | src/tests/test_connection.py:36-45 | the connector receives the configured account, user and password; a second call on a live handle returns the identical handle after one creation |
| `ConnectionScenarios.ReconnectOnFirstClosed` | src/tests/test_connection.py:80-85 | a first handle that is already closed causes exactly two creations, and the returned handle reports open |
| `ConnectionScenarios.ReplaceStaleHandle` | src/sf_streamlit_utils/connection.py:93-97 | a handle that goes stale between calls is replaced by a different handle, which is stored, after two creations in all |
| `ConnectionScenarios.SingletonLifecycle` | src/sf_streamlit_utils/connection.py:136-142 | the singleton is returned again for a call without a config and replaced by a call with a config |
| `Values.NormaliseParams` | src/sf_streamlit_utils/cache.py:25-27 | the result is none iff the parameters are absent or empty, and otherwise is the same map |
| `Cache.LessTotal` | src/sf_streamlit_utils/cache.py:44 | Python's string order, used by `sorted`, is total on distinct strings (with irreflexivity and transitivity, a strict total order) |
| `Values.Lower` | src/sf_streamlit_utils/config.py:101 | `str.lower()` keeps the length and lowercases each ASCII capital, leaving every other character as it is |
| `Cache.Less` | src/sf_streamlit_utils/cache.py:44 | Python's comparison of the names `sorted` uses: never true of equal strings, and a prefix sorts before exactly the longer strings it is a prefix of |
| `Cache.Sort` | src/sf_streamlit_utils/cache.py:44 | `sorted` rearranges the pairs: the result holds exactly the input pairs, each as often as in the input |
| `Cache.SortSorted` | src/sf_streamlit_utils/cache.py:44 | sorting pairs with distinct names yields a permutation whose names strictly increase |
| `Cache.SortedUnique` | src/sf_streamlit_utils/cache.py:44 | two strictly sorted pair sequences with the same members are equal, so the sorted key is canonical |
| `Cache.HashableParams` | src/sf_streamlit_utils/cache.py:40-44 | the cache key is empty iff the parameters are absent or empty |
| `Cache.SerialisedMembers` | src/sf_streamlit_utils/cache.py:44 | a pair is in the cache key iff its name is a parameter and its text is that parameter's serialised value |
| `Cache.HashableSorted` | src/sf_streamlit_utils/cache.py:44 | the cache key has exactly one pair per parameter and its names strictly increase |
| `Cache.HashableOrderIndependent` | src/sf_streamlit_utils/cache.py:44 | two parameter maps with the same pairs, in any insertion order, give the same cache key |
| `Cache.HashableInjective` | src/sf_streamlit_utils/cache.py:40-44 | with an injective serialiser, equal cache keys come only from equal parameter maps, so each parameter combination gets its own cache entry |
| `Cache.Rebuild` | src/sf_streamlit_utils/cache.py:57 | the rebuilt bind map has exactly the names of the cache key as its keys |
| `Cache.RebuildMembers` | src/sf_streamlit_utils/cache.py:57 | the rebuilt bind map holds the deserialised value of each pair of a sorted cache key, and nothing else |
| `Cache.RoundTrip` | src/sf_streamlit_utils/cache.py:44-57 | rebuilding the bind map from the cache key gives back the parameters when `loads` inverts `dumps` on their values |
| `Cache.RunBind` | src/sf_streamlit_utils/cache.py:57-58 | `bind or None`: none exactly for an empty cache key, and otherwise the rebuilt bind map |
| `Cache.RunBindMatchesParams` | src/sf_streamlit_utils/cache.py:57-58 | `_run` dispatches the caller's parameters, and none for an empty or absent map |
| `Cache.Run` | src/sf_streamlit_utils/cache.py:56-58 | `_run` up to the fetch: the manager obtains and stores its handle exactly as `get_connection` does, and the statement is dispatched once on a fresh cursor of that stored handle, with `bind or None` of the rebuilt map |

## Left out

- The UI framework's caching: `st.cache_resource` around the manager (connection.py:128-134) and `st.cache_data` around `_run` (cache.py:72-80). Memoisation and time-to-live belong to that library. Only the singleton branch of `get_connection_manager` is modelled.
- The `threading.RLock` of the manager and the singleton's lock. Each locked body is one atomic step of a sequential model.
- Dynamic imports: loading the connector, `_maybe_import_streamlit`, and the `RuntimeError` raised when the connector is missing. The connector is a `Connector` object passed in, and the secrets store is `None` when the UI framework is absent.
- A `closed` attribute whose lookup or truthiness raises (connection.py:83 sits outside the `try`). In the source that exception propagates out of `get_connection`. `HandleState.closed` always answers, so the model has no such error path. An `is_closed` value whose truthiness raises is covered: it falls back to `closed` like `Raising`.
- The `extra=` keyword of `SnowflakeConfig(...)` (config.py:62). The constructor takes named fields only, and extras are set through the `extra` field. Extras are map values, not a shared dict object, so the model does not capture aliasing: in the source, `resolve_config` updates a caller's dict passed as `extra=` in place (config.py:168, 174), and that caller sees the change.
- Errors raised by `connect` itself, which propagate to the caller. `Connector.Connect` always succeeds in the model.
- Result fetching: `fetch_pandas_all`, the `fetchall` fallback with column names, and the raw-rows branch without pandas (cache.py:60-70). These depend on cursor and pandas behaviour.
- The exact text of `json.dumps(v, sort_keys=True, default=str)`. It is an abstract `dumps` function, and `default=str` stringification is not modelled.
- Reading `os.environ` and `st.secrets`. They are inputs. A secrets store that is present but falsy is modelled as an empty map.
- `str.lower()` is modelled on ASCII letters only. Other characters are kept.
- Logging, the `logger` argument and the Snowpark helpers. `helpers.py`, `logging_utils.py`, the tests, `__init__.py` re-exports and `examples/app.py` are not part of this model.
- Field types are not checked: every field holds an opaque `Value`, because `SnowflakeConfig` performs no validation.
