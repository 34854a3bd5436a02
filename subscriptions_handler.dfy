/** The in-memory registry: username -> subscription, endpoint -> username
    and topic -> list of usernames, updated in place. It keeps the code's
    own behaviour: unsubscribing leaves the endpoint mapping behind, a
    re-subscription leaves the old endpoint mapped, topic lists keep
    duplicates, and a topic that was never created cannot be joined. */
module Handler {
  import opened JavaLang
  import opened Dto
  import Push
  import Dispatch

  /** `subscriptions.get(username)`: the subscription, or null. */
  function Lookup(subscriptions: map<string, Subscription>, username: string): (found: Nullable<Subscription>)
    ensures found.Null? <==> username !in subscriptions
    ensures found.Val? ==> found.v in subscriptions.Values && found.v == subscriptions[username]
  {
    if username in subscriptions then Val(subscriptions[username]) else Null
  }

  /** `usernames.stream().map(subscriptions::get).collect(toList())`. */
  function ResolveAll(usernames: seq<string>, subscriptions: map<string, Subscription>): (resolved: seq<Nullable<Subscription>>)
    ensures |resolved| == |usernames|
    ensures forall i :: 0 <= i < |usernames| ==> resolved[i] == Lookup(subscriptions, usernames[i])
  {
    if usernames == [] then []
    else [Lookup(subscriptions, usernames[0])] + ResolveAll(usernames[1..], subscriptions)
  }

  /** No key of the map equals the endpoint of one of its subscriptions. */
  ghost predicate KeysAreNotEndpoints(subscriptions: map<string, Subscription>)
  {
    forall k, s :: k in subscriptions && s in subscriptions.Values ==> s.endpoint != Val(k)
  }

  class SubscriptionsHandler {
    var subscriptions: map<string, Subscription>
    var subscriptionsEndpointUsername: map<string, string>
    var topicUsername: map<string, seq<string>>

    constructor ()
      ensures subscriptions == map[] && subscriptionsEndpointUsername == map[] && topicUsername == map[]
    {
      subscriptions := map[];
      subscriptionsEndpointUsername := map[];
      topicUsername := map[];
    }

    /** Puts `username -> subscription`, then `endpoint -> username`. The
        maps refuse null keys, so a null username changes nothing and a null
        endpoint stops after the first put. An endpoint the username had
        before stays mapped. */
    method SubscribeUser(subscription: Subscription) returns (outcome: Outcome)
      modifies this
      ensures outcome == (if subscription.username.Val? && subscription.endpoint.Val? then Completed
                          else Threw(NullPointerException))
      ensures subscriptions ==
        if subscription.username.Null? then old(subscriptions)
        else old(subscriptions)[subscription.username.v := subscription]
      ensures subscriptionsEndpointUsername ==
        if subscription.username.Null? || subscription.endpoint.Null? then old(subscriptionsEndpointUsername)
        else old(subscriptionsEndpointUsername)[subscription.endpoint.v := subscription.username.v]
      ensures topicUsername == old(topicUsername)
    {
      if subscription.username.Null? {
        return Threw(NullPointerException);
      }
      subscriptions := subscriptions[subscription.username.v := subscription];
      if subscription.endpoint.Null? {
        return Threw(NullPointerException);
      }
      subscriptionsEndpointUsername := subscriptionsEndpointUsername[subscription.endpoint.v := subscription.username.v];
      outcome := Completed;
    }

    /** Removes the subscription of the username the endpoint maps to; the
        endpoint mapping itself stays. An unknown endpoint yields a null
        username, which the map refuses as a key. */
    method UnsubscribeUser(endpoint: string) returns (outcome: Outcome)
      modifies this
      ensures endpoint in old(subscriptionsEndpointUsername) ==>
        outcome == Completed && subscriptions == old(subscriptions) - {old(subscriptionsEndpointUsername)[endpoint]}
      ensures endpoint !in old(subscriptionsEndpointUsername) ==>
        outcome == Threw(NullPointerException) && subscriptions == old(subscriptions)
      ensures subscriptionsEndpointUsername == old(subscriptionsEndpointUsername)
      ensures topicUsername == old(topicUsername)
    {
      if endpoint !in subscriptionsEndpointUsername {
        return Threw(NullPointerException);
      }
      var username := subscriptionsEndpointUsername[endpoint];
      subscriptions := subscriptions - {username};
      outcome := Completed;
    }

    method IsSubscribed(endpoint: string) returns (subscribed: bool)
      ensures subscribed <==> endpoint in subscriptionsEndpointUsername
    {
      subscribed := endpoint in subscriptionsEndpointUsername;
    }

    /** Appends the username to the topic's list; a topic that has no list
        makes `get(topic)` null and the call throws. */
    method SubscribeToTopic(username: string, topic: string) returns (outcome: Outcome)
      modifies this
      ensures topic in old(topicUsername) ==>
        outcome == Completed && topicUsername == old(topicUsername)[topic := old(topicUsername)[topic] + [username]]
      ensures topic !in old(topicUsername) ==>
        outcome == Threw(NullPointerException) && topicUsername == old(topicUsername)
      ensures subscriptions == old(subscriptions)
      ensures subscriptionsEndpointUsername == old(subscriptionsEndpointUsername)
    {
      if topic !in topicUsername {
        return Threw(NullPointerException);
      }
      topicUsername := topicUsername[topic := topicUsername[topic] + [username]];
      outcome := Completed;
    }

    /** Resolves the topic's usernames to their subscriptions, in the list's
        order, with null for a username that has none; the resolved list is
        returned here because the source computes it and drops it. An
        absent topic throws. Nothing changes. */
    method PublishMessageForTopic(message: string, topic: string) returns (resolved: Result<seq<Nullable<Subscription>>>)
      ensures topic !in topicUsername <==> resolved == Raised(NullPointerException)
      ensures topic in topicUsername ==>
        && resolved.Returned?
        && |resolved.value| == |topicUsername[topic]|
        && forall i :: 0 <= i < |resolved.value| ==>
            resolved.value[i] == Lookup(subscriptions, topicUsername[topic][i])
    {
      if topic !in topicUsername {
        return Raised(NullPointerException);
      }
      var usernames := topicUsername[topic];
      resolved := Returned(ResolveAll(usernames, subscriptions));
    }

    /** The dispatch loop run over this registry's subscription map, whose
        keys are usernames while the removal step looks up endpoints. */
    method SendPushMessageToAllSubscribers(payload: Result<string>, env: Push.Env) returns (outcome: Outcome)
      modifies this
      ensures Dispatch.Aborts(old(subscriptions), payload, env) ==>
        && outcome.Threw? && subscriptions == old(subscriptions)
        && (exists s :: s in old(subscriptions).Values
                     && Dispatch.AttemptFor(s, payload, env) == Dispatch.Aborted(outcome.error))
      ensures !Dispatch.Aborts(old(subscriptions), payload, env) ==>
        var failed := Dispatch.FailedEndpoints(old(subscriptions), payload, env);
        && (Null !in failed ==> outcome == Completed && subscriptions == old(subscriptions) - Dispatch.Strings(failed))
        && (Null in failed ==>
              && outcome == Threw(NullPointerException)
              && Dispatch.SubMap(old(subscriptions) - Dispatch.Strings(failed), subscriptions)
              && Dispatch.SubMap(subscriptions, old(subscriptions)))
      ensures outcome == Completed && KeysAreNotEndpoints(old(subscriptions)) ==> subscriptions == old(subscriptions)
      ensures subscriptionsEndpointUsername == old(subscriptionsEndpointUsername)
      ensures topicUsername == old(topicUsername)
    {
      var failed, remaining;
      ghost var before := subscriptions;
      outcome, failed, remaining := Dispatch.SendToAll(subscriptions, payload, env);
      subscriptions := remaining;
      if outcome == Completed && KeysAreNotEndpoints(before) {
        Dispatch.NoRemovalWhenKeysAreNotEndpoints(before, payload, env);
      }
    }
  }

  // -----------------------------------------------------------------------
  // What a caller observes.

  /** Nothing ever creates a topic list, so on a new registry joining any
      topic throws. */
  method NewHandlerRejectsTopicSubscription(username: string, topic: string) returns (outcome: Outcome)
    ensures outcome == Threw(NullPointerException)
  {
    var handler := new SubscriptionsHandler();
    outcome := handler.SubscribeToTopic(username, topic);
  }

  /** After subscribing, the endpoint is subscribed and the username
      resolves to the subscription; after unsubscribing by that endpoint the
      subscription is gone but the endpoint still reads as subscribed. */
  method SubscribeThenUnsubscribe(subscription: Subscription)
    returns (subscribedBefore: bool, subscribedAfter: bool, resolvedAfter: Nullable<Subscription>)
    requires subscription.username.Val? && subscription.endpoint.Val?
    ensures subscribedBefore && subscribedAfter && resolvedAfter == Null
  {
    var handler := new SubscriptionsHandler();
    var _ := handler.SubscribeUser(subscription);
    subscribedBefore := handler.IsSubscribed(subscription.endpoint.v);
    var _ := handler.UnsubscribeUser(subscription.endpoint.v);
    subscribedAfter := handler.IsSubscribed(subscription.endpoint.v);
    resolvedAfter := Lookup(handler.subscriptions, subscription.username.v);
  }

  /** Re-subscribing a username with a new endpoint leaves the old endpoint
      mapped to it. */
  method ResubscribeKeepsOldEndpoint(first: Subscription, second: Subscription) returns (oldStillSubscribed: bool)
    requires first.username.Val? && first.endpoint.Val? && second.endpoint.Val?
    requires second.username == first.username
    ensures oldStillSubscribed
  {
    var handler := new SubscriptionsHandler();
    var _ := handler.SubscribeUser(first);
    var _ := handler.SubscribeUser(second);
    oldStillSubscribed := handler.IsSubscribed(first.endpoint.v);
  }
}
