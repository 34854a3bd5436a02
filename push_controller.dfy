/** The controller's registry operations: each hands its request to the
    process-wide `SubscriptionsHandler` and has exactly its effect. The
    controller's own copy of the dispatch loop and of the send decision is
    `Dispatch.SendToAll` and `Push.SendPushMessage`, which take the map and
    the outside world as arguments. */
module Controller {
  import opened JavaLang
  import opened Dto
  import Handler

  class PushController {
    const subscriptionsHandler: Handler.SubscriptionsHandler

    constructor (handler: Handler.SubscriptionsHandler)
      ensures subscriptionsHandler == handler
    {
      subscriptionsHandler := handler;
    }

    method Subscribe(subscription: Subscription) returns (outcome: Outcome)
      modifies subscriptionsHandler
      ensures outcome == (if subscription.username.Val? && subscription.endpoint.Val? then Completed
                          else Threw(NullPointerException))
      ensures subscriptionsHandler.subscriptions ==
        if subscription.username.Null? then old(subscriptionsHandler.subscriptions)
        else old(subscriptionsHandler.subscriptions)[subscription.username.v := subscription]
      ensures subscriptionsHandler.subscriptionsEndpointUsername ==
        if subscription.username.Null? || subscription.endpoint.Null? then old(subscriptionsHandler.subscriptionsEndpointUsername)
        else old(subscriptionsHandler.subscriptionsEndpointUsername)[subscription.endpoint.v := subscription.username.v]
      ensures subscriptionsHandler.topicUsername == old(subscriptionsHandler.topicUsername)
    {
      outcome := subscriptionsHandler.SubscribeUser(subscription);
    }

    method Unsubscribe(endpoint: string) returns (outcome: Outcome)
      modifies subscriptionsHandler
      ensures endpoint in old(subscriptionsHandler.subscriptionsEndpointUsername) ==>
        && outcome == Completed
        && subscriptionsHandler.subscriptions ==
             old(subscriptionsHandler.subscriptions) - {old(subscriptionsHandler.subscriptionsEndpointUsername)[endpoint]}
      ensures endpoint !in old(subscriptionsHandler.subscriptionsEndpointUsername) ==>
        && outcome == Threw(NullPointerException)
        && subscriptionsHandler.subscriptions == old(subscriptionsHandler.subscriptions)
      ensures subscriptionsHandler.subscriptionsEndpointUsername == old(subscriptionsHandler.subscriptionsEndpointUsername)
      ensures subscriptionsHandler.topicUsername == old(subscriptionsHandler.topicUsername)
    {
      outcome := subscriptionsHandler.UnsubscribeUser(endpoint);
    }

    method IsSubscribed(endpoint: string) returns (subscribed: bool)
      ensures subscribed <==> endpoint in subscriptionsHandler.subscriptionsEndpointUsername
    {
      subscribed := subscriptionsHandler.IsSubscribed(endpoint);
    }
  }
}
