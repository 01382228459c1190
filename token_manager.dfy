/** The token life-cycle manager: a cached token response, the times at which
    it expires and should be refreshed, and the pacing of the callers that find
    it expired. Each `with self.lock` block of `token_manager.py` is one
    atomic method here, and every clock reading is passed in as a parameter. */
module TokenManagers {
  import opened Values

  /** A token service response: a dict from field names to values. */
  type Response = map<string, Value>

  /** What the expiry hook of a manager yields: the epoch second at which the
      token expires and its time to live in seconds. */
  datatype Expiry = Expiry(exp: int, ttl: int)

  /** The exceptions that can leave `get_token`. */
  datatype TokenError =
    | ApiException(statusCode: int)  // the token service answered outside 200..299
    | RequestFailed                  // request_token raised for any other reason
    | ExtractFailed                  // the expiry hook raised
    | DecodeFailed                   // the JWT could not be decoded
    | BadClaim(claim: string)        // a JWT claim is absent or not an integer
    | Stalled                        // the paced loop was still waiting when the readings ran out

  /** Seconds during which a claimed token request counts as active. */
  const RequestWindow: int := 60

  /** Seconds by which the refresh point is pushed once a refresh is decided. */
  const RefreshPushback: int := 60

  // ---------------------------------------------------------------------------
  // Timestamp rules

  /** `_set_expire_and_refresh_time`: the refresh point lies a fifth of the TTL
      before expiry, i.e. after 80% of the token's lifetime. */
  function RefreshPoint(exp: int, ttl: int): (r: real)
    ensures 5.0 * (exp as real - r) == ttl as real
    ensures r <= exp as real <==> ttl >= 0
  {
    exp as real - ttl as real * 0.2
  }

  /** Status check of `_request_raw`: only a 2xx answer is returned, any other
      status becomes an ApiException carrying that status. */
  function CheckStatus(statusCode: int): (r: Result<(), TokenError>)
    ensures r.Ok? <==> 200 <= statusCode < 300
    ensures r.Err? ==> r.error == ApiException(statusCode)
  {
    if 200 <= statusCode <= 299 then Ok(()) else Err(ApiException(statusCode))
  }

  /** A request claimed at `requestTime` is still active at `now`. */
  predicate RequestActive(requestTime: int, now: int) {
    requestTime > now - RequestWindow
  }

  // ---------------------------------------------------------------------------
  // Pacing: the claim step seen over a history of callers

  /** What happens to `request_time` between callers: a caller's claim
      attempt under the lock, or the reset after a completed request. */
  datatype PacingEvent = Attempt(now: int) | Release

  /** The claim step taken under the lock: whether the caller becomes the
      requester, and the new `request_time`. */
  function ClaimStep(requestTime: int, e: PacingEvent): (step: (bool, int))
    ensures e.Release? ==> step == (false, 0)
    ensures e.Attempt? ==> (step.0 <==> e.now >= requestTime + RequestWindow)
    ensures e.Attempt? && step.0 ==> step.1 == e.now
    ensures e.Attempt? && !step.0 ==> step.1 == requestTime
  {
    match e
    case Release => (false, 0)
    case Attempt(now) =>
      if RequestActive(requestTime, now) then (false, requestTime) else (true, now)
  }

  /** For each event of a history, whether it made its caller the requester. */
  function Claims(requestTime: int, events: seq<PacingEvent>): (granted: seq<bool>)
    ensures |granted| == |events|
    decreases |events|
  {
    if events == [] then []
    else
      var (g, next) := ClaimStep(requestTime, events[0]);
      [g] + Claims(next, events[1..])
  }

  /** `request_time` after a history of events. */
  function RequestTimeAfter(requestTime: int, events: seq<PacingEvent>): int
    decreases |events|
  {
    if events == [] then requestTime
    else RequestTimeAfter(ClaimStep(requestTime, events[0]).1, events[1..])
  }

  predicate NoRelease(events: seq<PacingEvent>) {
    forall k :: 0 <= k < |events| ==> events[k].Attempt?
  }

  /** Running a history in two parts is running it at once. */
  lemma {:induction false} ClaimsSplit(requestTime: int, events: seq<PacingEvent>, i: nat)
    requires i <= |events|
    ensures Claims(requestTime, events) ==
            Claims(requestTime, events[..i]) + Claims(RequestTimeAfter(requestTime, events[..i]), events[i..])
    decreases i
  {
    if i > 0 {
      var next := ClaimStep(requestTime, events[0]).1;
      assert events[..i][1..] == events[1..][..i - 1];
      assert events[i..] == events[1..][i - 1..];
      ClaimsSplit(next, events[1..], i - 1);
    }
  }

  /** One step of a history: the `k`-th event sees the `request_time` left
      by the events before it. */
  lemma {:induction false} ClaimsAt(requestTime: int, events: seq<PacingEvent>, k: nat)
    requires k < |events|
    ensures Claims(requestTime, events)[k] == ClaimStep(RequestTimeAfter(requestTime, events[..k]), events[k]).0
    ensures RequestTimeAfter(requestTime, events[..k + 1]) == ClaimStep(RequestTimeAfter(requestTime, events[..k]), events[k]).1
    decreases k
  {
    var next := ClaimStep(requestTime, events[0]).1;
    if k > 0 {
      assert events[..k][1..] == events[1..][..k - 1];
      assert events[..k + 1][1..] == events[1..][..k];
      ClaimsAt(next, events[1..], k - 1);
    } else {
      assert events[..1][1..] == [];
    }
  }

  /** Once a caller has claimed at `t`, every later claim that succeeds
      before `request_time` is reset comes 60 seconds after `t` or later,
      whatever order the clock readings come in. */
  lemma {:induction false} GrantsAfterClaim(t: int, events: seq<PacingEvent>, k: nat)
    requires k < |events|
    requires NoRelease(events[..k + 1])
    requires Claims(t, events)[k]
    ensures events[k].Attempt? && events[k].now >= t + RequestWindow
    decreases k
  {
    assert events[0] == events[..k + 1][0];
    assert events[k] == events[..k + 1][k];
    var next := ClaimStep(t, events[0]).1;
    if k > 0 {
      assert next >= t;
      assert events[1..][..k] == events[..k + 1][1..];
      assert Claims(t, events)[k] == Claims(next, events[1..])[k - 1];
      GrantsAfterClaim(next, events[1..], k - 1);
    }
  }

  /** Claim exclusivity: without a reset in between, two successful claims
      are at least 60 seconds apart, whatever order the clock readings come in. */
  lemma ClaimsExclusive(requestTime: int, events: seq<PacingEvent>, i: nat, j: nat)
    requires i < j < |events|
    requires NoRelease(events[i..j + 1])
    requires Claims(requestTime, events)[i] && Claims(requestTime, events)[j]
    ensures events[i].Attempt? && events[j].Attempt?
    ensures events[j].now >= events[i].now + RequestWindow
  {
    assert events[i] == events[i..j + 1][0];
    ClaimsAt(requestTime, events, i);
    var t := events[i].now;
    assert RequestTimeAfter(requestTime, events[..i + 1]) == t;
    ClaimsSplit(requestTime, events, i + 1);
    var rest := events[i + 1..];
    assert Claims(requestTime, events)[j] == Claims(t, rest)[j - i - 1];
    var window := events[i..j + 1];
    assert rest[..j - i] == window[1..];
    assert NoRelease(window[1..]) by {
      forall k | 0 <= k < j - i ensures window[1..][k].Attempt? {
        assert window[1..][k] == window[k + 1];
      }
    }
    GrantsAfterClaim(t, rest, j - i - 1);
    assert rest[j - i - 1] == events[j];
  }

  /** Where exclusivity stops: the reset after a completed request runs
      outside the lock, so a waiter whose loop test came before the save
      claims again at once, at any reading from 60 on, even one second after
      the completed claim. */
  lemma ReleaseReopensClaim(requestTime: int, t: int, now: int)
    requires t >= requestTime + RequestWindow && now >= RequestWindow
    ensures Claims(requestTime, [Attempt(t), Release, Attempt(now)]) == [true, false, true]
  {
    var events := [Attempt(t), Release, Attempt(now)];
    assert events[1..] == [Release, Attempt(now)] && events[1..][1..] == [Attempt(now)];
    assert ClaimStep(requestTime, Attempt(t)) == (true, t);
    assert ClaimStep(t, Release) == (false, 0);
    assert ClaimStep(0, Attempt(now)) == (true, now);
    assert Claims(0, [Attempt(now)]) == [true];
    assert Claims(t, [Release, Attempt(now)]) == [false, true];
  }

  /** A claim attempt 60 or more seconds after the last claim always
      succeeds: a stuck requester is taken over. */
  lemma ClaimLapses(requestTime: int, now: int)
    requires now >= requestTime + RequestWindow
    ensures Claims(requestTime, [Attempt(now)]) == [true]
    ensures RequestTimeAfter(requestTime, [Attempt(now)]) == now
  {
  }

  // ---------------------------------------------------------------------------
  // Refresh: the optimistic push seen over a history of calls

  /** `_token_needs_refresh` taken under the lock: whether a refresh is due,
      and the new `refresh_time`. */
  function RefreshStep(refreshTime: real, now: int): (step: (bool, real))
    ensures step.0 <==> refreshTime < now as real
    ensures step.0 ==> step.1 == (now + RefreshPushback) as real
    ensures !step.0 ==> step.1 == refreshTime
    ensures !(step.1 < now as real)
  {
    if refreshTime < now as real then (true, (now + RefreshPushback) as real)
    else (false, refreshTime)
  }

  /** For each call of a history, whether it decided to refresh. */
  function Refreshes(refreshTime: real, calls: seq<int>): (due: seq<bool>)
    ensures |due| == |calls|
    decreases |calls|
  {
    if calls == [] then []
    else
      var (d, next) := RefreshStep(refreshTime, calls[0]);
      [d] + Refreshes(next, calls[1..])
  }

  /** No call made at or before the refresh point decides to refresh; after
      a refresh decided at `t` the refresh point is `t + 60`, so no call up to
      `t + 60` refreshes again unless a save moves it in between. */
  lemma {:induction false} RefreshPushBlocks(x: real, calls: seq<int>)
    requires forall k :: 0 <= k < |calls| ==> calls[k] as real <= x
    ensures forall k :: 0 <= k < |calls| ==> !Refreshes(x, calls)[k]
    decreases |calls|
  {
    if calls != [] {
      RefreshPushBlocks(x, calls[1..]);
      assert RefreshStep(x, calls[0]) == (false, x);
      forall k | 0 <= k < |calls| ensures !Refreshes(x, calls)[k] {
        if k > 0 {
          assert Refreshes(x, calls)[k] == Refreshes(x, calls[1..])[k - 1];
        }
      }
    }
  }

  /** The push makes an immediate second call at the same time return false. */
  lemma RefreshTwice(refreshTime: real, now: int)
    requires refreshTime < now as real
    ensures Refreshes(refreshTime, [now, now]) == [true, false]
  {
  }

  // ---------------------------------------------------------------------------
  // The paced loop, on a fixed state

  /** How a call of `paced_request_token` leaves its loop. */
  datatype PaceExit =
    | TokenValid       // the loop test found the token no longer expired
    | Claimed(at: int) // the caller became the requester at this reading
    | OutOfReadings    // still waiting when the clock readings ran out

  /** The loop of `paced_request_token` while no other caller changes the
      state: each iteration reads the clock for the loop test and again for the
      claim; a caller that finds a request active sleeps and retries. */
  function Pace(expireTime: int, requestTime: int, clock: seq<int>): (x: PaceExit)
    ensures x.Claimed? ==> !RequestActive(requestTime, x.at)
    ensures x.Claimed? ==> |clock| >= 2 && expireTime < clock[0] && x.at in clock[1..]
    ensures x.TokenValid? ==> exists c :: c in clock && c <= expireTime
    decreases |clock|
  {
    if |clock| == 0 then OutOfReadings
    else if !(expireTime < clock[0]) then assert clock[0] in clock; TokenValid
    else if |clock| == 1 then OutOfReadings
    else if !RequestActive(requestTime, clock[1]) then Claimed(clock[1])
    else
      assert forall c :: c in clock[2..] ==> c in clock;
      Pace(expireTime, requestTime, clock[2..])
  }

  /** Waiting callers eventually take over: if the token stays expired and a
      claim reading comes 60 s after the active claim, the loop claims. */
  lemma {:induction false} PaceTakesOver(expireTime: int, requestTime: int, clock: seq<int>, k: nat)
    requires 2 * k + 1 < |clock|
    requires forall m :: 0 <= m <= k ==> expireTime < clock[2 * m]
    requires clock[2 * k + 1] >= requestTime + RequestWindow
    ensures Pace(expireTime, requestTime, clock).Claimed?
    decreases k
  {
    assert expireTime < clock[2 * 0];
    if k > 0 && RequestActive(requestTime, clock[1]) {
      var rest := clock[2..];
      forall m | 0 <= m <= k - 1 ensures expireTime < rest[2 * m] {
        assert rest[2 * m] == clock[2 * (m + 1)];
      }
      assert rest[2 * (k - 1) + 1] == clock[2 * k + 1];
      PaceTakesOver(expireTime, requestTime, rest, k - 1);
    }
  }

  // ---------------------------------------------------------------------------
  // The manager

  /** `TokenManager`: the cached response, its expiry and refresh times, and
      the time of the outstanding token request. */
  class TokenManager {
    const url: string
    var disableSslVerification: bool
    var tokenName: Option<string>
    var tokenInfo: Response
    var expireTime: int
    var refreshTime: real
    var requestTime: int
    var httpConfig: map<string, Value>
    /** The subclass's `extract_exp_and_ttl`. */
    const extractExpAndTtl: Response -> Result<Expiry, TokenError>

    constructor (url: string, extractExpAndTtl: Response -> Result<Expiry, TokenError>,
                 nameonly disableSslVerification: bool := false, nameonly tokenName: Option<string> := None)
      ensures this.url == url && this.disableSslVerification == disableSslVerification
      ensures this.tokenName == tokenName && this.extractExpAndTtl == extractExpAndTtl
      ensures tokenInfo == map[] && httpConfig == map[]
      ensures expireTime == 0 && refreshTime == 0.0 && requestTime == 0
      ensures forall now :: now > 0 ==> IsTokenExpired(now)
    {
      this.url := url;
      this.disableSslVerification := disableSslVerification;
      this.tokenName := tokenName;
      this.extractExpAndTtl := extractExpAndTtl;
      tokenInfo := map[];
      expireTime := 0;
      refreshTime := 0.0;
      requestTime := 0;
      httpConfig := map[];
    }

    /** `_is_token_expired`: a pure read of the state. While the refresh
        point lies at or before expiry, an expired token is also due for
        refresh. */
    predicate IsTokenExpired(now: int): (expired: bool)
      reads this
      ensures expired && refreshTime <= expireTime as real ==> refreshTime < now as real
    {
      expireTime < now
    }

    /** `extract_token_from_stored_response`: the value stored at the token
        name in the last saved response, or None. */
    function ExtractTokenFromStoredResponse(): (token: Value)
      reads this
      ensures tokenName.Some? && tokenName.value in tokenInfo ==> token == tokenInfo[tokenName.value]
      ensures tokenName.None? || tokenName.value !in tokenInfo ==> token == Null
    {
      Get(tokenInfo, tokenName)
    }

    method SetDisableSslVerification(status: bool := false)
      modifies this`disableSslVerification
      ensures disableSslVerification == status
    {
      disableSslVerification := status;
    }

    /** `_token_needs_refresh`: when the refresh point has passed, push it 60 s
        past `now` before any request is made. */
    method TokenNeedsRefresh(now: int) returns (needsRefresh: bool)
      modifies this`refreshTime
      ensures needsRefresh <==> old(refreshTime) < now as real
      ensures needsRefresh ==> refreshTime == (now + RefreshPushback) as real
      ensures !needsRefresh ==> refreshTime == old(refreshTime)
      ensures (needsRefresh, refreshTime) == RefreshStep(old(refreshTime), now)
      ensures !(refreshTime < now as real)
    {
      needsRefresh := refreshTime < now as real;
      if needsRefresh {
        refreshTime := (now + RefreshPushback) as real;
      }
    }

    /** The claim step of `paced_request_token`, taken under the lock. */
    method ClaimRequest(now: int) returns (claimed: bool)
      modifies this`requestTime
      ensures claimed <==> !RequestActive(old(requestTime), now)
      ensures requestTime == if claimed then now else old(requestTime)
      ensures (claimed, requestTime) == ClaimStep(old(requestTime), Attempt(now))
    {
      var requestActive := requestTime > now - RequestWindow;
      if !requestActive {
        requestTime := now;
      }
      claimed := !requestActive;
    }

    /** `_set_expire_and_refresh_time`. */
    method SetExpireAndRefreshTime(exp: int, ttl: int)
      modifies this`expireTime, this`refreshTime
      ensures expireTime == exp && refreshTime == RefreshPoint(exp, ttl)
      ensures refreshTime <= expireTime as real <==> ttl >= 0
    {
      expireTime := exp;
      var buffer := ttl as real * 0.2;
      refreshTime := expireTime as real - buffer;
    }

    /** `_save_token_info`: the response is stored first, then the expiry hook
        runs; when the hook raises, the new response stays with the old
        times. */
    method SaveTokenInfo(response: Response) returns (r: Result<(), TokenError>)
      modifies this`tokenInfo, this`expireTime, this`refreshTime
      ensures tokenInfo == response
      ensures extractExpAndTtl(response).Err? ==>
                r == Err(extractExpAndTtl(response).error) &&
                expireTime == old(expireTime) && refreshTime == old(refreshTime)
      ensures extractExpAndTtl(response).Ok? ==>
                r == Ok(()) &&
                expireTime == extractExpAndTtl(response).value.exp &&
                refreshTime == RefreshPoint(expireTime, extractExpAndTtl(response).value.ttl)
    {
      tokenInfo := response;
      var x := extractExpAndTtl(response);
      if x.Err? {
        return Err(x.error);
      }
      SetExpireAndRefreshTime(x.value.exp, x.value.ttl);
      r := Ok(());
    }

    /** `paced_request_token`. `clock` holds the successive clock readings of
        this caller (two per iteration) and `fetched` the outcome of its one
        `request_token` call. There is no try/finally: on an exception the
        claim is kept. */
    method PacedRequestToken(clock: seq<int>, fetched: Result<Response, TokenError>)
      returns (r: Result<(), TokenError>)
      modifies this`tokenInfo, this`expireTime, this`refreshTime, this`requestTime
      ensures var x := Pace(old(expireTime), old(requestTime), clock);
              !x.Claimed? ==>
                tokenInfo == old(tokenInfo) && expireTime == old(expireTime) &&
                refreshTime == old(refreshTime) && requestTime == old(requestTime) &&
                r == (if x.TokenValid? then Ok(()) else Err(Stalled))
      ensures var x := Pace(old(expireTime), old(requestTime), clock);
              x.Claimed? && fetched.Err? ==>
                r == Err(fetched.error) && requestTime == x.at &&
                tokenInfo == old(tokenInfo) && expireTime == old(expireTime) &&
                refreshTime == old(refreshTime)
      ensures var x := Pace(old(expireTime), old(requestTime), clock);
              x.Claimed? && fetched.Ok? ==>
                tokenInfo == fetched.value &&
                match extractExpAndTtl(fetched.value)
                case Err(e) =>
                  r == Err(e) && requestTime == x.at &&
                  expireTime == old(expireTime) && refreshTime == old(refreshTime)
                case Ok(exp) =>
                  r == Ok(()) && requestTime == 0 &&
                  expireTime == exp.exp && refreshTime == RefreshPoint(exp.exp, exp.ttl)
    {
      var i := 0;
      while i < |clock| && IsTokenExpired(clock[i])
        invariant 0 <= i <= |clock|
        invariant Pace(expireTime, requestTime, clock[i..]) == Pace(old(expireTime), old(requestTime), clock)
        invariant tokenInfo == old(tokenInfo) && expireTime == old(expireTime)
        invariant refreshTime == old(refreshTime) && requestTime == old(requestTime)
        decreases |clock| - i
      {
        if i + 1 == |clock| {
          return Err(Stalled);
        }
        var currentTime := clock[i + 1];
        var claimed := ClaimRequest(currentTime);
        var requestActive := !claimed;
        if !requestActive {
          if fetched.Err? {
            return Err(fetched.error);
          }
          r := SaveTokenInfo(fetched.value);
          if r.Err? {
            return;
          }
          requestTime := 0;
          return;
        }
        // The caller sleeps, then retries with its next two readings.
        assert clock[i..][2..] == clock[i + 2..];
        i := i + 2;
      }
      if i == |clock| {
        return Err(Stalled);
      }
      r := Ok(());
    }

    /** The refresh stage of `get_token`, entered with the stored response
        `info` and the times `exp` and `refresh`: what it returns and the state
        it leaves. A due refresh pushes the refresh point first, so a failed
        fetch or save keeps the pushed point. */
    ghost predicate RefreshStage(info: Response, exp: int, refresh: real, refreshNow: int,
                                 refreshFetch: Result<Response, TokenError>, r: Result<Value, TokenError>)
      reads this
    {
      if !(refresh < refreshNow as real) then
        r == Ok(Get(info, tokenName)) && tokenInfo == info && expireTime == exp && refreshTime == refresh
      else
        match refreshFetch
        case Err(e) =>
          r == Err(e) && tokenInfo == info && expireTime == exp &&
          refreshTime == (refreshNow + RefreshPushback) as real
        case Ok(resp) =>
          tokenInfo == resp &&
          match extractExpAndTtl(resp)
          case Err(e) =>
            r == Err(e) && expireTime == exp && refreshTime == (refreshNow + RefreshPushback) as real
          case Ok(saved) =>
            r == Ok(Get(resp, tokenName)) && expireTime == saved.exp &&
            refreshTime == RefreshPoint(saved.exp, saved.ttl)
    }

    /** `get_token`: a paced request when the token is expired at `now`, then
        an unpaced refresh when the refresh point has passed at `refreshNow`,
        then the stored token. `pacing` are the readings of the paced loop;
        `pacedFetch` and `refreshFetch` are the outcomes of the two possible
        `request_token` calls. */
    method GetToken(now: int, pacing: seq<int>, refreshNow: int,
                    pacedFetch: Result<Response, TokenError>, refreshFetch: Result<Response, TokenError>)
      returns (r: Result<Value, TokenError>)
      modifies this`tokenInfo, this`expireTime, this`refreshTime, this`requestTime
      ensures r.Ok? ==> r.value == ExtractTokenFromStoredResponse()
      // No paced request: the token was valid at `now`, or the loop found it valid.
      ensures !old(IsTokenExpired(now)) || Pace(old(expireTime), old(requestTime), pacing).TokenValid? ==>
                requestTime == old(requestTime) &&
                RefreshStage(old(tokenInfo), old(expireTime), old(refreshTime), refreshNow, refreshFetch, r)
      // The loop was still waiting when its readings ran out.
      ensures old(IsTokenExpired(now)) && Pace(old(expireTime), old(requestTime), pacing) == OutOfReadings ==>
                r == Err(Stalled) && tokenInfo == old(tokenInfo) && expireTime == old(expireTime) &&
                refreshTime == old(refreshTime) && requestTime == old(requestTime)
      // The paced fetch failed: the claim is kept.
      ensures old(IsTokenExpired(now)) && Pace(old(expireTime), old(requestTime), pacing).Claimed? && pacedFetch.Err? ==>
                r == Err(pacedFetch.error) && tokenInfo == old(tokenInfo) && expireTime == old(expireTime) &&
                refreshTime == old(refreshTime) &&
                requestTime == Pace(old(expireTime), old(requestTime), pacing).at
      // The paced save failed: the new response is stored, the times and the claim are kept.
      ensures old(IsTokenExpired(now)) && Pace(old(expireTime), old(requestTime), pacing).Claimed? && pacedFetch.Ok? &&
              extractExpAndTtl(pacedFetch.value).Err? ==>
                r == Err(extractExpAndTtl(pacedFetch.value).error) && tokenInfo == pacedFetch.value &&
                expireTime == old(expireTime) && refreshTime == old(refreshTime) &&
                requestTime == Pace(old(expireTime), old(requestTime), pacing).at
      // The paced save succeeded: the claim is released and the refresh stage starts from the new token.
      ensures old(IsTokenExpired(now)) && Pace(old(expireTime), old(requestTime), pacing).Claimed? && pacedFetch.Ok? &&
              extractExpAndTtl(pacedFetch.value).Ok? ==>
                var saved := extractExpAndTtl(pacedFetch.value).value;
                requestTime == 0 &&
                RefreshStage(pacedFetch.value, saved.exp, RefreshPoint(saved.exp, saved.ttl), refreshNow, refreshFetch, r)
    {
      if IsTokenExpired(now) {
        var paced := PacedRequestToken(pacing, pacedFetch);
        if paced.Err? {
          return Err(paced.error);
        }
      }
      ghost var info, exp, refresh := tokenInfo, expireTime, refreshTime;
      var needsRefresh := TokenNeedsRefresh(refreshNow);
      if needsRefresh {
        if refreshFetch.Err? {
          return Err(refreshFetch.error);
        }
        var saved := SaveTokenInfo(refreshFetch.value);
        if saved.Err? {
          return Err(saved.error);
        }
      }
      r := Ok(ExtractTokenFromStoredResponse());
      assert RefreshStage(info, exp, refresh, refreshNow, refreshFetch, r);
    }
  }

  /** The invariant `refresh_time <= expire_time` holds right after a save
      with a non-negative TTL, but the optimistic push of a refresh can move
      the refresh point past expiry. */
  lemma RefreshPushPassesExpiry()
    ensures RefreshPoint(1000, 100) == 980.0
    ensures RefreshStep(RefreshPoint(1000, 100), 990) == (true, 1050.0)
    ensures RefreshStep(RefreshPoint(1000, 100), 990).1 > 1000 as real
  {
  }
}
