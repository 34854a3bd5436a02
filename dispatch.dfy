/** `sendPushMessageToAllSubscribers`: for every subscription in a map,
    encrypt the serialised message and send it; collect the endpoints whose
    send asked for removal; then remove from the map the keys equal to those
    endpoint strings. The map the source mutates in place is taken as a
    value and the new map is returned. */
module Dispatch {
  import opened JavaLang
  import opened Dto
  import opened Push

  /** What one iteration of the loop does with a subscription. */
  datatype Attempt =
    | Skipped                  // a caught crypto exception, logged
    | Failed                   // sent; the send asked for removal
    | Kept                     // sent; nothing to do
    | Aborted(error: Exception) // an exception that leaves the loop

  /** One iteration: serialise the message (its exception escapes), read
      the keys (null keys throw), encrypt with padding 0, then send. */
  function AttemptFor(s: Subscription, payload: Result<string>, env: Env): (a: Attempt)
    ensures payload.Raised? ==> a == Aborted(payload.error)
    ensures payload.Returned? && s.keys.Null? ==> a == Aborted(NullPointerException)
    ensures a == Skipped <==>
      payload.Returned? && s.keys.Val? && env.encrypt(payload.value, s.keys.v.p256dh, s.keys.v.auth, 0).CryptoFailure?
    ensures a == Failed <==>
      && payload.Returned? && s.keys.Val?
      && var enc := env.encrypt(payload.value, s.keys.v.p256dh, s.keys.v.auth, 0);
      && enc.Encrypted?
      && (|| EndpointMalformed(s, env)
          || (&& env.uriValid(s.endpoint.v)
              && Classify(env.send(PushRequest(s.endpoint.v, env.parseUrl(s.endpoint.v), enc.body, env))) == NotFoundOrGone))
    ensures a == Kept <==>
      && payload.Returned? && s.keys.Val?
      && var enc := env.encrypt(payload.value, s.keys.v.p256dh, s.keys.v.auth, 0);
      && enc.Encrypted? && !EndpointMalformed(s, env) && env.uriValid(s.endpoint.v)
      && Classify(env.send(PushRequest(s.endpoint.v, env.parseUrl(s.endpoint.v), enc.body, env))) != NotFoundOrGone
    // a URI that `URI.create` or the request builder refuses escapes the loop
    ensures a == Aborted(IllegalArgumentException) <==>
      || payload == Raised(IllegalArgumentException)
      || (&& payload.Returned? && s.keys.Val?
          && env.encrypt(payload.value, s.keys.v.p256dh, s.keys.v.auth, 0).Encrypted?
          && !EndpointMalformed(s, env) && !env.uriValid(s.endpoint.v))
  {
    if payload.Raised? then Aborted(payload.error)
    else if s.keys.Null? then Aborted(NullPointerException)
    else
      match env.encrypt(payload.value, s.keys.v.p256dh, s.keys.v.auth, 0)
      case CryptoFailure => Skipped
      case Encrypted(body) =>
        SendPushMessageRemovesExactly(s, body, env);
        match SendPushMessage(s, body, env)
        case Remove => Failed
        case Keep => Kept
        case Uncaught(e) => Aborted(e)
  }

  predicate Aborts(subs: map<string, Subscription>, payload: Result<string>, env: Env)
  {
    exists s :: s in subs.Values && AttemptFor(s, payload, env).Aborted?
  }

  /** The endpoints of the given subscriptions whose attempt failed. */
  function FailedAmong(done: set<Subscription>, payload: Result<string>, env: Env): set<Nullable<string>>
  {
    set s | s in done && AttemptFor(s, payload, env) == Failed :: s.endpoint
  }

  /** The set `failedSubscriptions` holds after a loop that ran to the end. */
  function FailedEndpoints(subs: map<string, Subscription>, payload: Result<string>, env: Env): set<Nullable<string>>
  {
    FailedAmong(subs.Values, payload, env)
  }

  /** The non-null strings of a set of endpoints. */
  function Strings(endpoints: set<Nullable<string>>): set<string>
  {
    set e | e in endpoints && e.Val? :: e.v
  }

  /** Every entry of `a` is an entry of `b`. */
  predicate SubMap(a: map<string, Subscription>, b: map<string, Subscription>)
  {
    forall k :: k in a ==> k in b && a[k] == b[k]
  }

  lemma FailedAmongStep(done: set<Subscription>, s: Subscription, payload: Result<string>, env: Env)
    ensures FailedAmong(done + {s}, payload, env)
         == FailedAmong(done, payload, env) + (if AttemptFor(s, payload, env) == Failed then {s.endpoint} else {})
  {
  }

  lemma StringsStep(endpoints: set<Nullable<string>>, e: string)
    ensures Strings(endpoints + {Val(e)}) == Strings(endpoints) + {e}
  {
  }

  /** The loop over `subs.values()`, then `failedSubscriptions.forEach(subs::remove)`.
      An exception inside the loop leaves the map as it was; a null endpoint
      among the failed ones makes the removal throw part-way. */
  method SendToAll(subs: map<string, Subscription>, payload: Result<string>, env: Env)
    returns (outcome: Outcome, failed: set<Nullable<string>>, remaining: map<string, Subscription>)
    ensures Aborts(subs, payload, env) ==>
      && outcome.Threw?
      && (exists s :: s in subs.Values && AttemptFor(s, payload, env) == Aborted(outcome.error))
      && remaining == subs
    ensures !Aborts(subs, payload, env) ==> failed == FailedEndpoints(subs, payload, env)
    ensures !Aborts(subs, payload, env) && Null !in failed ==>
      outcome == Completed && remaining == subs - Strings(failed)
    ensures !Aborts(subs, payload, env) && Null in failed ==>
      && outcome == Threw(NullPointerException)
      && SubMap(subs - Strings(failed), remaining) && SubMap(remaining, subs)
  {
    failed := {};
    var todo := subs.Values;
    while todo != {}
      invariant todo <= subs.Values
      invariant failed == FailedAmong(subs.Values - todo, payload, env)
      invariant forall s :: s in subs.Values - todo ==> !AttemptFor(s, payload, env).Aborted?
      decreases todo
    {
      var s :| s in todo;
      var attempt := AttemptFor(s, payload, env);
      if attempt.Aborted? {
        return Threw(attempt.error), failed, subs;
      }
      FailedAmongStep(subs.Values - todo, s, payload, env);
      assert subs.Values - (todo - {s}) == (subs.Values - todo) + {s};
      if attempt == Failed {
        failed := failed + {s.endpoint};
      }
      todo := todo - {s};
    }
    assert subs.Values - todo == subs.Values;

    remaining := subs;
    var pending := failed;
    while pending != {}
      invariant pending <= failed
      invariant Null !in failed - pending
      invariant remaining == subs - Strings(failed - pending)
      decreases pending
    {
      var e :| e in pending;
      if e.Null? {
        return Threw(NullPointerException), failed, remaining;
      }
      StringsStep(failed - pending, e.v);
      assert failed - (pending - {e}) == (failed - pending) + {e};
      remaining := remaining - {e.v};
      pending := pending - {e};
    }
    assert failed - pending == failed;
    outcome := Completed;
  }

  // -----------------------------------------------------------------------

  /** A subscription whose encryption throws a caught crypto exception is
      skipped: it is not sent and adds nothing to the failed set. */
  lemma EncryptionFailureIsSkipped(s: Subscription, payload: Result<string>, env: Env)
    requires payload.Returned? && s.keys.Val?
    requires env.encrypt(payload.value, s.keys.v.p256dh, s.keys.v.auth, 0) == CryptoFailure
    ensures AttemptFor(s, payload, env) == Skipped
    ensures forall done :: FailedAmong(done + {s}, payload, env) == FailedAmong(done, payload, env)
  {
    forall done: set<Subscription> ensures FailedAmong(done + {s}, payload, env) == FailedAmong(done, payload, env) {
      FailedAmongStep(done, s, payload, env);
    }
  }

  /** An endpoint is in the failed set exactly when some subscription with
      that endpoint was encrypted and sent and its send asked for removal. */
  lemma FailedEndpointsExactly(subs: map<string, Subscription>, payload: Result<string>, env: Env, e: Nullable<string>)
    ensures e in FailedEndpoints(subs, payload, env) <==>
      exists s :: s in subs.Values && s.endpoint == e && AttemptFor(s, payload, env) == Failed
  {
  }

  /** The removal step looks the endpoint strings up as keys: when no key of
      the map equals an endpoint of its subscriptions (as with the registry,
      whose keys are usernames), nothing is removed. */
  lemma NoRemovalWhenKeysAreNotEndpoints(subs: map<string, Subscription>, payload: Result<string>, env: Env)
    requires forall k, s :: k in subs && s in subs.Values ==> s.endpoint != Val(k)
    ensures subs - Strings(FailedEndpoints(subs, payload, env)) == subs
  {
    var gone := Strings(FailedEndpoints(subs, payload, env));
    forall k | k in gone ensures k !in subs {
      var s :| s in subs.Values && s.endpoint == Val(k);
    }
  }

  /** The environment of the example below: every endpoint parses, the
      push service answers 410 to everything, encryption succeeds. */
  function GoneEnv(): Env
  {
    Env(e => Url("https", "push.example", -1), e => true, c => "token",
        r => Response(410), (p, k, a, n) => Encrypted(Val([])), 0, "key")
  }

  lemma GoneAttemptFails(s: Subscription)
    requires s.endpoint.Val? && s.keys.Val?
    ensures AttemptFor(s, Returned("hello"), GoneEnv()) == Failed
  {
    var env := GoneEnv();
    var url := env.parseUrl(s.endpoint.v);
    assert env.send(PushRequest(s.endpoint.v, url, Val([]), env)) == Response(410);
    assert SendPushMessage(s, Val([]), env) == Remove;
  }

  /** The environment of the example below: like `GoneEnv`, except that
      the request builder refuses the `ftp` endpoint. */
  function FtpRejectingEnv(): Env
  {
    Env(e => Url("https", "push.example", -1), e => e != "ftp://push.example/x", c => "token",
        r => Response(410), (p, k, a, n) => Encrypted(Val([])), 0, "key")
  }

  lemma FtpRejectingAttempts(alice: Subscription, bob: Subscription)
    requires alice.endpoint == Val("https://push.example/abc") && alice.keys.Val?
    requires bob.endpoint == Val("ftp://push.example/x") && bob.keys.Val?
    ensures AttemptFor(alice, Returned("hello"), FtpRejectingEnv()) == Failed
    ensures AttemptFor(bob, Returned("hello"), FtpRejectingEnv()) == Aborted(IllegalArgumentException)
  {
    var env := FtpRejectingEnv();
    assert env.send(PushRequest(alice.endpoint.v, env.parseUrl(alice.endpoint.v), Val([]), env)) == Response(410);
    assert SendPushMessage(alice, Val([]), env) == Remove;
    assert SendPushMessage(bob, Val([]), env) == Uncaught(IllegalArgumentException);
  }

  /** One endpoint whose URI is refused aborts the whole dispatch, so the
      subscriber next to it, whose push service answers 410, is not removed:
      the map comes back unchanged even where its key equals the endpoint. */
  method RejectedUriBlocksEviction(keys: SubscriptionKeys)
    returns (outcome: Outcome, remaining: map<string, Subscription>)
    ensures var alice := Subscription(Val("alice"), Val("https://push.example/abc"), Null, Val(keys));
      var bob := Subscription(Val("bob"), Val("ftp://push.example/x"), Null, Val(keys));
      && AttemptFor(alice, Returned("hello"), FtpRejectingEnv()) == Failed
      && outcome == Threw(IllegalArgumentException)
      && remaining == map["https://push.example/abc" := alice, "ftp://push.example/x" := bob]
  {
    var env := FtpRejectingEnv();
    var alice := Subscription(Val("alice"), Val("https://push.example/abc"), Null, Val(keys));
    var bob := Subscription(Val("bob"), Val("ftp://push.example/x"), Null, Val(keys));
    var subs := map["https://push.example/abc" := alice, "ftp://push.example/x" := bob];
    FtpRejectingAttempts(alice, bob);
    assert subs["ftp://push.example/x"] in subs.Values;
    forall v | v in subs.Values ensures v == alice || v == bob {
      var k :| k in subs && subs[k] == v;
    }
    var failed;
    outcome, failed, remaining := SendToAll(subs, Returned("hello"), env);
  }

  /** A one-entry map whose subscription fails yields just its endpoint. */
  lemma FailedEndpointsOfSingleton(k: string, s: Subscription, payload: Result<string>, env: Env)
    requires AttemptFor(s, payload, env) == Failed
    ensures FailedEndpoints(map[k := s], payload, env) == {s.endpoint}
  {
    var subs := map[k := s];
    forall v | v in subs.Values ensures v == s {
      var k' :| k' in subs && subs[k'] == v;
    }
    assert subs[k] in subs.Values;
    assert subs.Values == {s};
  }

  /** A subscriber whose push service answers 410 is flagged for removal, yet
      stays in a username-keyed map: the removal looks for a key equal to its
      endpoint. */
  lemma GoneSubscriberStaysInUsernameMap(keys: SubscriptionKeys)
    ensures var alice := Subscription(Val("alice"), Val("https://push.example/abc"), Null, Val(keys));
      var subs := map["alice" := alice];
      && FailedEndpoints(subs, Returned("hello"), GoneEnv()) == {Val("https://push.example/abc")}
      && subs - Strings(FailedEndpoints(subs, Returned("hello"), GoneEnv())) == subs
  {
    var alice := Subscription(Val("alice"), Val("https://push.example/abc"), Null, Val(keys));
    GoneAttemptFails(alice);
    FailedEndpointsOfSingleton("alice", alice, Returned("hello"), GoneEnv());
    assert Strings({Val("https://push.example/abc")}) == {"https://push.example/abc"};
  }
}
