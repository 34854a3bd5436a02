/** The store-backed registry: three Redis structures, a set-multimap
    topic -> usernames, a map username -> subscription and a map
    endpoint -> username, updated in place by the repository's methods. */
module Repository {
  import opened JavaLang
  import opened Dto
  import Multimap

  class RedisRepository {
    var topicUsername: Multimap.SetMultimap
    var usernameSubscription: map<string, Subscription>
    var subEndpointUsername: map<string, string>

    ghost predicate Valid()
      reads this
    {
      Multimap.Valid(topicUsername)
    }

    /** Connecting to the store yields its three structures with whatever
        they already hold. */
    constructor (topics: Multimap.SetMultimap, subscriptions: map<string, Subscription>, endpoints: map<string, string>)
      requires Multimap.Valid(topics)
      ensures Valid()
      ensures topicUsername == topics && usernameSubscription == subscriptions
      ensures subEndpointUsername == endpoints
    {
      topicUsername := topics;
      usernameSubscription := subscriptions;
      subEndpointUsername := endpoints;
    }

    method SubscribeUserToTopic(topic: string, username: string)
      requires Valid()
      modifies this
      ensures Valid()
      ensures topicUsername == Multimap.Put(old(topicUsername), topic, username)
      ensures usernameSubscription == old(usernameSubscription)
      ensures subEndpointUsername == old(subEndpointUsername)
    {
      topicUsername := Multimap.Put(topicUsername, topic, username);
    }

    method UnsubscribeUserFromTopic(topic: string, username: string)
      requires Valid()
      modifies this
      ensures Valid()
      ensures topicUsername == Multimap.Remove(old(topicUsername), topic, username)
      ensures usernameSubscription == old(usernameSubscription)
      ensures subEndpointUsername == old(subEndpointUsername)
    {
      topicUsername := Multimap.Remove(topicUsername, topic, username);
    }

    /** The members of a topic, empty for a topic nobody subscribed to. */
    method GetAllUsernameFromTopic(topic: string) returns (usernames: set<string>)
      ensures usernames == Multimap.GetAll(topicUsername, topic)
      ensures topic !in topicUsername ==> usernames == {}
    {
      usernames := Multimap.GetAll(topicUsername, topic);
    }

    /** Removes the pair (topic, username) for every topic in the key set. */
    method UnsubscribeUsernameFromAllTopics(username: string)
      requires Valid()
      modifies this
      ensures Valid()
      ensures topicUsername == Multimap.RemoveValueEverywhere(old(topicUsername), username)
      ensures forall t :: username !in Multimap.GetAll(topicUsername, t)
      ensures usernameSubscription == old(usernameSubscription)
      ensures subEndpointUsername == old(subEndpointUsername)
    {
      var topics := topicUsername.Keys;
      var done := {};
      while topics - done != {}
        invariant done <= topics == old(topicUsername).Keys
        invariant topicUsername == Multimap.RemoveValueFrom(old(topicUsername), username, done)
        invariant Valid()
        invariant usernameSubscription == old(usernameSubscription)
        invariant subEndpointUsername == old(subEndpointUsername)
        decreases topics - done
      {
        var topic :| topic in topics - done;
        Multimap.RemoveValueFromStep(old(topicUsername), username, done, topic);
        UnsubscribeUserFromTopic(topic, username);
        done := done + {topic};
      }
      Multimap.RemoveValueFromAll(old(topicUsername), username);
    }

    /** Stores `username -> subscription`, then `endpoint -> username`; the
        store refuses a null key, so a null username changes nothing and a
        null endpoint leaves only the first write done. */
    method RegisterUser(subscription: Subscription) returns (outcome: Outcome)
      requires Valid()
      modifies this
      ensures Valid()
      ensures outcome == (if subscription.username.Val? && subscription.endpoint.Val? then Completed
                          else Threw(NullPointerException))
      ensures usernameSubscription ==
        if subscription.username.Null? then old(usernameSubscription)
        else old(usernameSubscription)[subscription.username.v := subscription]
      ensures subEndpointUsername ==
        if subscription.username.Null? || subscription.endpoint.Null? then old(subEndpointUsername)
        else old(subEndpointUsername)[subscription.endpoint.v := subscription.username.v]
      ensures topicUsername == old(topicUsername)
    {
      if subscription.username.Null? {
        return Threw(NullPointerException);
      }
      usernameSubscription := usernameSubscription[subscription.username.v := subscription];
      if subscription.endpoint.Null? {
        return Threw(NullPointerException);
      }
      subEndpointUsername := subEndpointUsername[subscription.endpoint.v := subscription.username.v];
      outcome := Completed;
    }

    /** For a known endpoint: drops the multimap key equal to its username,
        the endpoint mapping and the username's subscription. Otherwise
        nothing changes. */
    method UnregisterUserByEndpoint(endpoint: string)
      requires Valid()
      modifies this
      ensures Valid()
      ensures endpoint in old(subEndpointUsername) ==>
        var username := old(subEndpointUsername)[endpoint];
        && topicUsername == Multimap.RemoveAll(old(topicUsername), username)
        && subEndpointUsername == old(subEndpointUsername) - {endpoint}
        && usernameSubscription == old(usernameSubscription) - {username}
      ensures endpoint !in old(subEndpointUsername) ==>
        && topicUsername == old(topicUsername)
        && subEndpointUsername == old(subEndpointUsername)
        && usernameSubscription == old(usernameSubscription)
    {
      if endpoint in subEndpointUsername {
        var username := subEndpointUsername[endpoint];
        topicUsername := Multimap.RemoveAll(topicUsername, username);
        subEndpointUsername := subEndpointUsername - {endpoint};
        usernameSubscription := usernameSubscription - {username};
      }
    }

    /** For a known username: drops the multimap key equal to it, the
        mapping of the endpoint stored in its subscription (whichever
        username that endpoint now points to) and the subscription. A null
        stored endpoint makes the second step throw. */
    method UnregisterUserByUsername(username: string) returns (outcome: Outcome)
      requires Valid()
      modifies this
      ensures Valid()
      ensures username !in old(usernameSubscription) ==>
        && outcome == Completed
        && topicUsername == old(topicUsername)
        && subEndpointUsername == old(subEndpointUsername)
        && usernameSubscription == old(usernameSubscription)
      ensures username in old(usernameSubscription) ==>
        var endpoint := old(usernameSubscription)[username].endpoint;
        && topicUsername == Multimap.RemoveAll(old(topicUsername), username)
        && outcome == (if endpoint.Val? then Completed else Threw(NullPointerException))
        && subEndpointUsername == (if endpoint.Val? then old(subEndpointUsername) - {endpoint.v}
                                   else old(subEndpointUsername))
        && usernameSubscription == (if endpoint.Val? then old(usernameSubscription) - {username}
                                    else old(usernameSubscription))
    {
      if username in usernameSubscription {
        var endpoint := usernameSubscription[username].endpoint;
        topicUsername := Multimap.RemoveAll(topicUsername, username);
        if endpoint.Null? {
          return Threw(NullPointerException);
        }
        subEndpointUsername := subEndpointUsername - {endpoint.v};
        usernameSubscription := usernameSubscription - {username};
      }
      outcome := Completed;
    }

    method IsSubscribed(endpoint: string) returns (subscribed: bool)
      ensures subscribed <==> endpoint in subEndpointUsername
    {
      subscribed := endpoint in subEndpointUsername;
    }

    /** The stored subscription, or null for an unknown username. */
    method GetSubscriptionFromUsername(username: string) returns (subscription: Nullable<Subscription>)
      ensures username in usernameSubscription ==> subscription == Val(usernameSubscription[username])
      ensures username !in usernameSubscription ==> subscription == Null
    {
      subscription := if username in usernameSubscription then Val(usernameSubscription[username]) else Null;
    }
  }

  // -----------------------------------------------------------------------
  // The repository's integration scenarios. Each clears the topic store and
  // the subscription map; the endpoint map keeps whatever it held.

  /** Two users subscribed to one topic are both returned. */
  method SubscribeTwoUsersToOneTopic(endpoints: map<string, string>) returns (members: set<string>)
    ensures members == {"user1", "user2"}
  {
    var repository := new RedisRepository(map[], map[], endpoints);
    repository.SubscribeUserToTopic("topic1", "user1");
    repository.SubscribeUserToTopic("topic1", "user2");
    members := repository.GetAllUsernameFromTopic("topic1");
  }

  /** Subscribing a user twice to a topic returns the user once. */
  method SubscribeTwiceToOneTopic(topic: string, username: string, endpoints: map<string, string>) returns (members: set<string>)
    ensures members == {username}
  {
    var repository := new RedisRepository(map[], map[], endpoints);
    repository.SubscribeUserToTopic(topic, username);
    repository.SubscribeUserToTopic(topic, username);
    members := repository.GetAllUsernameFromTopic(topic);
  }

  /** Subscribing and then unsubscribing the same pair leaves the topic empty. */
  method SubscribeThenUnsubscribe(topic: string, username: string, endpoints: map<string, string>) returns (members: set<string>)
    ensures members == {}
  {
    var repository := new RedisRepository(map[], map[], endpoints);
    repository.SubscribeUserToTopic(topic, username);
    repository.UnsubscribeUserFromTopic(topic, username);
    members := repository.GetAllUsernameFromTopic(topic);
  }

  /** A second user registered with the same endpoint takes the endpoint
      mapping over; both subscriptions stay retrievable by username. */
  method RegisterTwoUsersWithOneEndpoint(keys: SubscriptionKeys, endpoints: map<string, string>)
    returns (first: Nullable<Subscription>, second: Nullable<Subscription>, owner: string)
    ensures first == Val(Subscription(Val("user1"), Val("endpoint1"), Val(1), Val(keys)))
    ensures second == Val(Subscription(Val("user2"), Val("endpoint1"), Val(1), Val(keys)))
    ensures owner == "user2"
  {
    var repository := new RedisRepository(map[], map[], endpoints);
    var s1 := Subscription(Val("user1"), Val("endpoint1"), Val(1), Val(keys));
    var s2 := Subscription(Val("user2"), Val("endpoint1"), Val(1), Val(keys));
    var _ := repository.RegisterUser(s1);
    var _ := repository.RegisterUser(s2);
    first := repository.GetSubscriptionFromUsername("user1");
    second := repository.GetSubscriptionFromUsername("user2");
    owner := repository.subEndpointUsername["endpoint1"];
  }

  /** Unregistering by endpoint or by username removes the subscription and
      the endpoint mapping. */
  method RegisterThenUnregister(keys: SubscriptionKeys, byEndpoint: bool, endpoints: map<string, string>)
    returns (found: Nullable<Subscription>, subscribed: bool)
    ensures found == Null && !subscribed
  {
    var repository := new RedisRepository(map[], map[], endpoints);
    var _ := repository.RegisterUser(Subscription(Val("user1"), Val("endpoint1"), Val(1), Val(keys)));
    if byEndpoint {
      repository.UnregisterUserByEndpoint("endpoint1");
    } else {
      var _ := repository.UnregisterUserByUsername("user1");
    }
    found := repository.GetSubscriptionFromUsername("user1");
    subscribed := repository.IsSubscribed("endpoint1");
  }
}
