/** API-key authentication: parsing the comma-separated key lists of the
    configuration and resolving a request's key header to a caller and plan.
    The key sets are parameters; an HTTP error is an error value. */
module Auth {
  import opened Results
  import opened Text

  /** An authenticated caller and the plan its key belongs to. */
  datatype ApiCaller = ApiCaller(apiKey: string, plan: string)

  /** An HTTP error response: status code and detail message. */
  datatype HttpError = HttpError(status: nat, detail: string)

  const UNAUTHORIZED: nat := 401
  const MISSING_KEY: string := "Missing X-API-Key header"
  const INVALID_KEY: string := "Invalid API key"
  const PLAN_PRO: string := "pro"
  const PLAN_FREE: string := "free"

  /** A key as it appears in a parsed key set: non-empty, no comma, no
      surrounding whitespace. */
  predicate CleanKey(k: string) {
    && |k| > 0
    && ',' !in k
    && !IsSpace(k[0]) && !IsSpace(k[|k| - 1])
  }

  /** The stripped non-blank pieces of a list of pieces. */
  function KeysOf(pieces: seq<string>): (ks: set<string>)
    decreases |pieces|
  {
    if |pieces| == 0 then {}
    else (if Strip(pieces[0], WS) != [] then {Strip(pieces[0], WS)} else {}) + KeysOf(pieces[1..])
  }

  /** The set of keys in a comma-separated configuration value (`None` when
      the setting is absent): each piece stripped, blank pieces dropped. */
  function ParseKeys(env: Option<string>): (ks: set<string>)
    ensures env.None? || env.value == [] ==> ks == {}
  {
    if env.None? || env.value == [] then {} else KeysOf(SplitOn(env.value, ','))
  }

  /** Membership in `KeysOf`: exactly the stripped forms of the non-blank pieces. */
  lemma {:induction false} KeysOfIff(pieces: seq<string>, k: string)
    ensures k in KeysOf(pieces) <==> exists i :: 0 <= i < |pieces| && Strip(pieces[i], WS) != [] && Strip(pieces[i], WS) == k
    decreases |pieces|
  {
    if |pieces| > 0 {
      KeysOfIff(pieces[1..], k);
      if k in KeysOf(pieces[1..]) {
        var i :| 0 <= i < |pieces| - 1 && Strip(pieces[1..][i], WS) != [] && Strip(pieces[1..][i], WS) == k;
        assert pieces[i + 1] == pieces[1..][i];
      }
      if exists i :: 0 <= i < |pieces| && Strip(pieces[i], WS) != [] && Strip(pieces[i], WS) == k {
        var i :| 0 <= i < |pieces| && Strip(pieces[i], WS) != [] && Strip(pieces[i], WS) == k;
        if i > 0 {
          assert pieces[1..][i - 1] == pieces[i];
        }
      }
    }
  }

  /** Every parsed key is non-empty, has no surrounding whitespace and no comma. */
  lemma ParseKeysClean(env: Option<string>, k: string)
    requires k in ParseKeys(env)
    ensures CleanKey(k)
  {
    var pieces := SplitOn(env.value, ',');
    KeysOfIff(pieces, k);
    var i :| 0 <= i < |pieces| && Strip(pieces[i], WS) != [] && Strip(pieces[i], WS) == k;
    StrippedPieceClean(pieces[i]);
  }

  /** Stripping a non-blank piece that holds no comma gives a clean key. */
  lemma StrippedPieceClean(p: string)
    requires Strip(p, WS) != [] && ',' !in p
    ensures CleanKey(Strip(p, WS))
  {
    var k := Strip(p, WS);
    var a := StripOffset(p, WS);
    forall j | 0 <= j < |k| ensures k[j] != ',' {
      assert k[j] == p[a + j];
    }
  }

  /** The stripped form of every non-blank comma-separated piece is a parsed key. */
  lemma ParseKeysComplete(env: string, p: string)
    requires p in SplitOn(env, ',') && Strip(p, WS) != []
    ensures Strip(p, WS) in ParseKeys(Some(env))
  {
    var pieces := SplitOn(env, ',');
    var i :| 0 <= i < |pieces| && pieces[i] == p;
    KeysOfIff(pieces, Strip(p, WS));
  }

  /** Writing clean keys joined by commas and parsing the result gives back
      exactly those keys. */
  lemma ParseKeysJoin(keys: seq<string>)
    requires |keys| > 0
    requires forall i :: 0 <= i < |keys| ==> CleanKey(keys[i])
    ensures ParseKeys(Some(Join(keys, ','))) == set k | k in keys
  {
    SplitJoin(keys, ',');
    if Join(keys, ',') == [] {
      JoinNonEmpty(keys);
    }
    KeysOfClean(keys);
  }

  /** Joining a non-empty list whose first key is non-empty gives a non-empty string. */
  lemma JoinNonEmpty(keys: seq<string>)
    requires |keys| > 0 && |keys[0]| > 0
    ensures Join(keys, ',') != []
  {
  }

  /** Clean keys are their own stripped forms. */
  lemma {:induction false} KeysOfClean(keys: seq<string>)
    requires forall i :: 0 <= i < |keys| ==> CleanKey(keys[i])
    ensures KeysOf(keys) == set k | k in keys
    decreases |keys|
  {
    if |keys| > 0 {
      StripTrimmed(keys[0], WS);
      KeysOfClean(keys[1..]);
      assert (set k | k in keys) == {keys[0]} + (set k | k in keys[1..]);
    }
  }

  /** Resolve the key header (`None` when absent) against the pro and free
      key sets. */
  function RequireApiKey(header: Option<string>, proKeys: set<string>, freeKeys: set<string>): (r: Result<ApiCaller, HttpError>)
    ensures header.None? || header.value == [] ==> r == Failure(HttpError(UNAUTHORIZED, MISSING_KEY))
    ensures r.Success? ==> header.Some? && r.value.apiKey == header.value
    ensures r.Success? ==> (r.value.plan == PLAN_PRO <==> header.value in proKeys)
    ensures r.Success? ==> (r.value.plan == PLAN_FREE <==> header.value !in proKeys)
    ensures r.Success? <==> header.Some? && header.value != [] && (header.value in proKeys || header.value in freeKeys)
    ensures r.Failure? ==> r.error.status == UNAUTHORIZED
    ensures r.Failure? && header.Some? && header.value != [] ==> r.error.detail == INVALID_KEY
  {
    if header.None? || header.value == [] then Failure(HttpError(UNAUTHORIZED, MISSING_KEY))
    else if header.value in proKeys then Success(ApiCaller(header.value, PLAN_PRO))
    else if header.value in freeKeys then Success(ApiCaller(header.value, PLAN_FREE))
    else Failure(HttpError(UNAUTHORIZED, INVALID_KEY))
  }

  /** A key listed for both plans is a pro key. */
  lemma ProWinsOverFree(key: string, proKeys: set<string>, freeKeys: set<string>)
    requires key in proKeys && key in freeKeys && key != []
    ensures RequireApiKey(Some(key), proKeys, freeKeys) == Success(ApiCaller(key, PLAN_PRO))
  {
  }

  /** Keys with surrounding whitespace are never parsed from configuration,
      so a header carrying one is rejected as invalid. */
  lemma PaddedKeyRejected(key: string, proEnv: Option<string>, freeEnv: Option<string>)
    requires |key| > 0 && (IsSpace(key[0]) || IsSpace(key[|key| - 1]))
    ensures RequireApiKey(Some(key), ParseKeys(proEnv), ParseKeys(freeEnv)) == Failure(HttpError(UNAUTHORIZED, INVALID_KEY))
  {
    if key in ParseKeys(proEnv) {
      ParseKeysClean(proEnv, key);
    }
    if key in ParseKeys(freeEnv) {
      ParseKeysClean(freeEnv, key);
    }
  }
}
