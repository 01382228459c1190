# Token life-cycle model of the IBM Cloud Python SDK core

This project models the token cache of `ibm_cloud_sdk_core` in Dafny:

- The `TokenManager` object keeps the last token response (`token_info`) and three timestamps.
  `expire_time` is when the cached token expires. `refresh_time` is when a refresh should be tried.
  `request_time` is when the outstanding token request was claimed.
- Its JWT variant takes the expiry and the TTL from the token's `exp` and `iat` claims.
- A set of helper functions cleans up request values and reads a service's configuration.
  The sources are a credentials file, the environment and the Cloud Foundry `VCAP_SERVICES` document.

Files:

- `values.dfy` (module `Values`): `Option`, `Result`, and `Value`, a model of the JSON-like Python values, with Python truthiness and `dict.get`.
- `token_manager.dfy` (module `TokenManagers`): the class `TokenManager`, and pure descriptions of its decisions with their lemmas.
  - `ClaimStep` and `Claims` describe the claim under the lock, seen over a history of callers.
  - `RefreshStep` and `Refreshes` describe the optimistic refresh push.
  - `Pace` describes the loop of `paced_request_token`.
  - `RefreshPoint` gives the 80 % refresh point.
- `jwt_token_manager.dfy` (module `JwtTokenManagers`): the JWT expiry rule, the JWT constructor and the JWT save.
- `utils.dfy` (module `Utils`): the helpers of `utils.py`.

How the model is built:

- Each `with self.lock` block of the source is one atomic method of the class (`TokenNeedsRefresh`, `ClaimRequest`).
- Every call of `_get_current_time` becomes an integer parameter.
  `PacedRequestToken` takes the sequence of this caller's clock readings, two per loop iteration: the loop test, then the claim.
  When the readings run out while the caller is still waiting, it returns `Stalled`.
- The abstract `extract_exp_and_ttl` becomes the constant function field `extractExpAndTtl` of the manager.
  Exceptions are `Err` results.
- `request_token` performs network I/O, so its outcome is a parameter (`Result<Response, TokenError>`).
  `GetToken` receives one outcome for the paced request and one for the refresh request.
- `JWTTokenManager` overrides `_save_token_info`, but the override keeps the base shape:
  1. store `token_info`;
  2. derive `(exp, ttl)`, which may raise;
  3. set the times.
  So a JWT manager is a `TokenManager` whose hook is `JwtExpiry`, built by `NewJwtTokenManager`.
- `refresh_time` is a `real`, because the source computes `exp - ttl * 0.2` in floating point. Rounding is not modelled.
- `_is_token_expired` is the predicate `TokenManager.IsTokenExpired(now)`, which is `expire_time < now`.
  Being a function, it cannot change any field.
- `_parse_key_and_update_config` changes the caller's local `config` dict in place.
  Nothing else refers to that dict, so it is modelled as a function that returns the updated map.
  The reader loops reassign it.

Four behaviours of the code that the model states outright:

- `paced_request_token` has no `try/finally` (ibm_cloud_sdk_core/token_manager.py:136-140).
  So an exception from `request_token` or from the save leaves `request_time` at the claim time, and other callers wait until the 60 s window lapses.
  `PacedRequestToken` and `GetToken` state this.
- `refresh_time <= expire_time` holds right after a save with a non-negative TTL (`SetExpireAndRefreshTime`), and no longer after every later step.
  The refresh push in `_token_needs_refresh` (ibm_cloud_sdk_core/token_manager.py:178-180) can move `refresh_time` past `expire_time`: `RefreshPushPassesExpiry` shows 980 pushed to 1050 against an expiry of 1000.
- `token_info` is stored before the expiry is extracted (ibm_cloud_sdk_core/token_manager.py:196-197).
  So a failed extraction leaves the new response with the old times.
  `SaveTokenInfo` and `SaveJwtTokenInfo` state this.
- The reset `self.request_time = 0` after a completed request runs outside the lock (ibm_cloud_sdk_core/token_manager.py:139).
  A waiter that tested the old token before the save may then claim at once, without the 60 s wait.
  `ReleaseReopensClaim` states this.

## Model

| member | source | states |
|---|---|---|
| `TokenManagers.RefreshPoint` | ibm_cloud_sdk_core/token_manager.py:228-231 | the refresh point lies a fifth of the TTL before expiry (`5*(exp - r) == ttl`), and it is at or before expiry exactly when `ttl >= 0` |
| `TokenManagers.CheckStatus` | ibm_cloud_sdk_core/token_manager.py:223-226 | a response passes exactly when its status is in 200..299; otherwise an ApiException carrying that status |
| `TokenManagers.ClaimStep` | ibm_cloud_sdk_core/token_manager.py:131-134 | a reset sets `request_time` to 0 and claims nothing; an attempt claims exactly when it comes 60 s or more after `request_time`, and then records its time, otherwise `request_time` is unchanged |
| `TokenManagers.ClaimsAt` | ibm_cloud_sdk_core/token_manager.py:131-134 | in a history of claim attempts and resets, each event sees the `request_time` left by the events before it |
| `TokenManagers.GrantsAfterClaim` | ibm_cloud_sdk_core/token_manager.py:131-134 | after a claim at `t`, every claim that succeeds before a reset comes at `t + 60` or later, whatever order the readings come in |
| `TokenManagers.ClaimsExclusive` | ibm_cloud_sdk_core/token_manager.py:131-134 | two successful claims with no reset of `request_time` between them are at least 60 s apart |
| `TokenManagers.ReleaseReopensClaim` | ibm_cloud_sdk_core/token_manager.py:128-139 | where exclusivity stops: a claim at `t`, the reset after the completed request, then an attempt at any reading from 60 on gives outcomes `[true, false, true]`, however soon after `t` the attempt comes |
| `TokenManagers.ClaimLapses` | ibm_cloud_sdk_core/token_manager.py:124-134 | an attempt 60 s or more after the last claim always succeeds and records its time, so a stuck requester is taken over; a named instance of `ClaimStep`'s contract, not a separate proof |
| `TokenManagers.ClaimsSplit` | ibm_cloud_sdk_core/token_manager.py:131-134 | running a history of claim events in two parts gives the same outcomes as running it at once |
| `TokenManagers.RefreshStep` | ibm_cloud_sdk_core/token_manager.py:177-180 | a refresh is due exactly when `refresh_time < now`; then the refresh point becomes `now + 60`, otherwise it is unchanged; afterwards a refresh is never due at `now` |
| `TokenManagers.RefreshPushBlocks` | ibm_cloud_sdk_core/token_manager.py:175-182 | no call at or before the refresh point decides to refresh, so after a refresh decided at `t` no call up to `t + 60` refreshes again |
| `TokenManagers.RefreshTwice` | ibm_cloud_sdk_core/token_manager.py:175-182 | when a refresh is due, a second call at the same time returns false; a named instance of `RefreshStep`'s contract, not a separate proof |
| `TokenManagers.RefreshPushPassesExpiry` | ibm_cloud_sdk_core/token_manager.py:178-180 | exp 1000 with TTL 100 gives refresh point 980; a refresh decided at 990 pushes it to 1050, past expiry |
| `TokenManagers.Pace` | ibm_cloud_sdk_core/token_manager.py:128-143 | the paced loop claims only after its loop test saw the token expired and only when no request is active at a reading it took; it stops early only after a reading at which the token was valid |
| `TokenManagers.PaceTakesOver` | ibm_cloud_sdk_core/token_manager.py:124-143 | while the token stays expired, a waiting caller claims once one of its claim readings is 60 s past the active claim |
| `TokenManagers.TokenManager.constructor` | ibm_cloud_sdk_core/token_manager.py:57-71 | the arguments are stored, with `disable_ssl_verification` defaulting to false and `token_name` to None; `token_info` and `http_config` are empty, all three times are 0, so the token counts as expired at every `now > 0` |
| `TokenManagers.TokenManager.IsTokenExpired` | ibm_cloud_sdk_core/token_manager.py:154-164 | the token is expired when `expire_time < now`; while `refresh_time <= expire_time`, an expired token is also due for refresh |
| `TokenManagers.TokenManager.ExtractTokenFromStoredResponse` | ibm_cloud_sdk_core/token_manager.py:93-99 | the value at the token name in the stored response, or None when the name is unset or absent |
| `TokenManagers.TokenManager.SetDisableSslVerification` | ibm_cloud_sdk_core/token_manager.py:101-107 | sets the flag (false by default) and may change nothing else |
| `TokenManagers.TokenManager.TokenNeedsRefresh` | ibm_cloud_sdk_core/token_manager.py:166-182 | returns `refresh_time < now`; when true `refresh_time` becomes `now + 60`, otherwise nothing changes; afterwards a refresh is never due at `now` |
| `TokenManagers.TokenManager.ClaimRequest` | ibm_cloud_sdk_core/token_manager.py:131-134 | the caller claims exactly when no request was claimed in the last 60 s; only then does `request_time` become `now` |
| `TokenManagers.TokenManager.SetExpireAndRefreshTime` | ibm_cloud_sdk_core/token_manager.py:228-231 | `expire_time = exp`, `refresh_time` is the refresh point; `refresh_time <= expire_time` exactly when `ttl >= 0` |
| `TokenManagers.TokenManager.SaveTokenInfo` | ibm_cloud_sdk_core/token_manager.py:184-198 | `token_info` always becomes the response; when the hook raises, the error is returned and the times are unchanged; otherwise the times follow `(exp, ttl)` |
| `TokenManagers.TokenManager.PacedRequestToken` | ibm_cloud_sdk_core/token_manager.py:109-143 | change of state by loop outcome: none when the loop leaves without a claim; after a claim and a successful fetch and save, the new response and times, with `request_time` reset to 0; after a failed fetch or save, `request_time` is still the claim time |
| `TokenManagers.TokenManager.GetToken` | ibm_cloud_sdk_core/token_manager.py:73-91 | returns the stored token as it stands at the end. When the token is valid at entry or the loop finds it valid, `request_time` is unchanged and the refresh stage (`RefreshStage`) runs from the old state: with no refresh due nothing changes; a due refresh stores the new response, or keeps the pushed refresh point when the fetch or save fails. A loop out of readings returns Stalled with nothing changed. A failed paced fetch changes nothing but the claimed `request_time`. A failed paced save also stores the new response and keeps the old times. A successful paced save resets `request_time` to 0 and the refresh stage runs from the new response and times |
| `JwtTokenManagers.IntClaim` | ibm_cloud_sdk_core/jwt_token_manager.py:72-73 | a claim is read exactly when it is present and an integer or a boolean; an integer is its value, a boolean counts as 0 or 1, as Python's subtraction at line 75 takes it |
| `JwtTokenManagers.JwtExpiry` | ibm_cloud_sdk_core/jwt_token_manager.py:66-77 | decodes the value at the token name; fails with DecodeFailed when decoding fails; succeeds exactly when `exp` and `iat` are both integer or boolean claims, with the value of `exp` the expiry and `exp - ttl` the value of `iat` |
| `JwtTokenManagers.JwtBooleanClaims` | ibm_cloud_sdk_core/jwt_token_manager.py:72-77 | a payload with `exp = True` and `iat = False` saves expiry 1 with TTL 1, so the refresh point is 0.8, as the source computes it |
| `JwtTokenManagers.JwtRefreshWithinLifetime` | ibm_cloud_sdk_core/jwt_token_manager.py:72-77 | with claims `(exp, iat)` the expiry is `(exp, exp - iat)`, `5*refresh == 4*exp + iat`, and the refresh point lies in `[iat, exp]` when `iat <= exp` |
| `JwtTokenManagers.NewJwtTokenManager` | ibm_cloud_sdk_core/jwt_token_manager.py:51-54 | the token name is the argument (None by default), although the parent is built without it; the SSL flag defaults to false; `token_info` is empty, all times are 0, and the hook is the JWT expiry rule |
| `JwtTokenManagers.SaveJwtTokenInfo` | ibm_cloud_sdk_core/jwt_token_manager.py:56-77 | `token_info` becomes the response before decoding; a decode or claim failure keeps the previous times; otherwise `expire_time` is the value of the `exp` claim and `5*refresh_time == 4*exp + iat` |
| `Utils.HasBadFirstOrLastChar` | ibm_cloud_sdk_core/utils.py:23-32 | false for None and for the empty string; otherwise true exactly when the first character is `{` or `"` or the last is `}` or `"` |
| `Utils.RemoveNullValues` | ibm_cloud_sdk_core/utils.py:34-45 | for a dict, exactly the keys whose value is not None, with their values unchanged; a non-dict is returned as it is |
| `Utils.RemoveNullValuesIdempotent` | ibm_cloud_sdk_core/utils.py:43-45 | removing None values twice is removing them once |
| `Utils.CleanupValue` | ibm_cloud_sdk_core/utils.py:64-67 | True becomes `'true'`, False becomes `'false'`, any other value is unchanged; the result is never a boolean |
| `Utils.CleanupValues` | ibm_cloud_sdk_core/utils.py:47-62 | for a dict, the same keys with each value cleaned up and no boolean left; a non-dict is returned as it is |
| `Utils.CleanupValuesIdempotent` | ibm_cloud_sdk_core/utils.py:59-62 | cleaning up twice is cleaning up once |
| `Utils.Upper` | ibm_cloud_sdk_core/utils.py:173 | `upper()` maps each character and keeps the length |
| `Utils.ReplaceChar` | ibm_cloud_sdk_core/utils.py:173 | `replace` of one character replaces exactly its occurrences and keeps the length |
| `Utils.NormalizeServiceName` | ibm_cloud_sdk_core/utils.py:173 | spaces and dashes become `_`, letters become upper case, the length is kept; no space, dash or lower-case letter remains |
| `Utils.ConfigKey` | ibm_cloud_sdk_core/utils.py:174-175 | a key counts exactly when it starts with the normalised name; its configuration key drops the prefix and exactly one more character, and is empty when nothing is left |
| `Utils.ParseKeyAndUpdateConfig` | ibm_cloud_sdk_core/utils.py:172-175 | when the key counts, its configuration key is added with the value and every other entry is unchanged; otherwise the config is unchanged |
| `Utils.ConfigFromPairs` | ibm_cloud_sdk_core/utils.py:126-129 | the configuration the readers build from key/value pairs in order; it has no more entries than there are pairs |
| `Utils.ConfigFromPairsSnoc` | ibm_cloud_sdk_core/utils.py:126-129 | one more pair updates the configuration of the pairs before it with that pair |
| `Utils.ConfigFromPairsHasKey` | ibm_cloud_sdk_core/utils.py:126-129 | a pair whose key stands for `k` puts `k` in the configuration, whatever pairs follow |
| `Utils.ConfigFromPairsKeySource` | ibm_cloud_sdk_core/utils.py:126-129 | every key of the configuration comes from the key of some pair |
| `Utils.ConfigFromPairsKeys` | ibm_cloud_sdk_core/utils.py:126-129 | a key is in the configuration exactly when some variable's or line's key stands for it |
| `Utils.ConfigFromPairsLastWins` | ibm_cloud_sdk_core/utils.py:126-129 | the last pair whose key stands for a configuration key decides its value |
| `Utils.TrimLeft` | ibm_cloud_sdk_core/utils.py:165 | removes exactly the leading whitespace |
| `Utils.TrimRight` | ibm_cloud_sdk_core/utils.py:165 | removes exactly the trailing whitespace |
| `Utils.Strip` | ibm_cloud_sdk_core/utils.py:165 | `strip()` (its properties are gathered in `IsStripOf`): the result is a contiguous slice of the line with only whitespace before and after it; it neither starts nor ends with whitespace, and is empty exactly when the line is all whitespace |
| `Utils.Split` | ibm_cloud_sdk_core/utils.py:165 | `split(sep)` gives one more part than there are separators; no part holds the separator; joining the parts with it restores the string |
| `Utils.CredentialLine` | ibm_cloud_sdk_core/utils.py:165-169 | a stripped line contributes exactly when it contains one separator; the key and value are the text before and after it |
| `Utils.CredentialPairs` | ibm_cloud_sdk_core/utils.py:164-169 | the key/value pairs of the contributing lines in line order; at most one per line, and no key or value holds the separator |
| `Utils.ConfigFromLinesSnoc` | ibm_cloud_sdk_core/utils.py:164-169 | one more line of the file updates the configuration of the lines before it with that line's pair, or leaves it unchanged when the line contributes none |
| `Utils.ReadFromCredentialLines` | ibm_cloud_sdk_core/utils.py:161-170 | the loop over the file's lines builds the configuration the contributing lines give, in order |
| `Utils.ReadFromEnvVariables` | ibm_cloud_sdk_core/utils.py:117-129 | the loop over the variables builds the configuration they give, in order |
| `Utils.HasBasicAuth` | ibm_cloud_sdk_core/utils.py:195 | basic authentication exactly when `username` and `password` are both present and truthy |
| `Utils.HasApiKey` | ibm_cloud_sdk_core/utils.py:199 | IAM exactly when `apikey` is present and truthy |
| `Utils.ClassifyVcapCredentials` | ibm_cloud_sdk_core/utils.py:194-203 | username and password set: `AUTH_TYPE='basic'`, `USERNAME` and `PASSWORD` added, other entries kept; else an API key set: `AUTH_TYPE='iam'` and `APIKEY` added, other entries kept; else `{}`; a non-dict is returned as it is |
| `Utils.ReadFromVcapServices` | ibm_cloud_sdk_core/utils.py:186-204 | no document, or no entry for the service, gives `{}`; when the service's entry is a non-empty list whose first instance is a dict with `credentials`, exactly the classified credentials; otherwise, and for a document that is not a dict, it raises |
| `Utils.ReadExternalSources` | ibm_cloud_sdk_core/utils.py:91-115 | the credentials-file configuration if non-empty, else the environment's if non-empty, else the VCAP result |

## Left out

- Threads and `threading.Lock`: each locked block is one atomic method, and multi-thread interleavings are not verified. What is proved about pacing is stated over histories of claim attempts and resets (`ClaimsExclusive`, `ReleaseReopensClaim`); the docstring's "only one caller can become the active requester" is not proved in general.
- `ClaimsExclusive`: the 60-second separation holds only between resets. The reset of `request_time` to 0 at token_manager.py:139 runs outside the lock. A waiter whose loop test at line 128 came before the new token was saved then claims again at once at line 132, one second after the completed claim or less (`ReleaseReopensClaim`).
- `time.sleep(0.5)`: a waiting iteration just moves on to the next clock readings.
- `PacedRequestToken`: while one caller waits, no other caller changes the state. A waiter leaves with `TokenValid` only on a reading at or before the old `expire_time`, and `GetToken` then returns the old token; the source's waiter that leaves because another thread saved a new token, and returns that token, is not modelled.
- `PacedRequestToken`: the source loops without bound; the model returns `Stalled` when the supplied readings run out.
- `time.time()` and its `int(...)` truncation: clock readings are integer parameters.
- The float `ttl * 0.2`: modelled exactly in `real`, without IEEE rounding.
- `_request_raw` and `JWTTokenManager._request` (the HTTP call through `requests`, keyword merging, timeout, TLS verification flag): network plumbing. Only the 2xx status rule is modelled (`CheckStatus`).
- `request_token`: the outcome of each call is a parameter.
- `jwt.decode`: a foreign library. It is a function parameter (`Decoder`) from the token value to the optional payload claims, and no signature is checked.
- `JwtExpiry`: claims that are floats are treated as missing, because only integer claims are modelled; boolean claims are read as 0 and 1, as Python subtracts them.
- `IntClaim`: a float claim gives None, because `Value` has no floats.
- `TokenManager.ExtractTokenFromStoredResponse`: a dict key that is itself None is not modelled, so a token name of None always gives None.
- `NormalizeServiceName`: `str.upper()` is modelled for ASCII letters only; Unicode case mappings, including those that change the length, are not modelled.
- `CredentialLine`: the separator is one character (the source only ever uses `'='`).
- `CredentialLine`: whitespace for `strip()` is Python's list of whitespace characters.
- `datetime_to_string` and `string_to_datetime`: thin wrappers over `isoformat` and `dateutil`.
- File discovery and opening in `__read_from_credential_file`, `getenv`/`environ` access, and `json.loads` of `VCAP_SERVICES`: the readers receive the lines, the variables in iteration order and the parsed document.
- `ReadFromVcapServices`: the loop over the document's keys is modelled as a lookup of the service name, which gives the same result.
- `ReadFromVcapServices`: every indexing error (KeyError, IndexError, TypeError, AttributeError) becomes the single error `MalformedVcap`.
- The abstract-class instantiation error that the test file checks: Python runtime behaviour. Supplying the expiry hook is required by `TokenManager`'s constructor.
