# Push notification registry and dispatch, modelled in Dafny

This project models the core of a Web Push notification server written in Java. The core has four parts:

- `Subscription` is the record a browser sends when it subscribes. It holds a username, the push-service endpoint URL, an optional expiration time and the encryption keys. It defines `equals`, `hashCode` and `toString`.
- `SubscriptionsHandler` is the process-wide, in-memory registry. It holds three maps:
  - username to subscription;
  - endpoint to username;
  - topic to a list of usernames.
  It also holds the dispatch logic: for every subscription, the message is encrypted and sent. The endpoints whose send asks for removal are collected, and the map keys equal to them are then removed. A send asks for removal when the endpoint is null or malformed, or when the push service answers 404 or 410.
- `RedisRepository` is the store-backed registry. It has three Redis structures: a set-multimap from topic to usernames, a map from username to subscription, and a map from endpoint to username.
- `PushController` is the HTTP front end. It delegates to the registry and carries a second copy of the dispatch logic.

## Modules

| file | module | what it holds |
|---|---|---|
| `java_lang.dfy` | `JavaLang` | Java's null references, escaping exceptions, 32-bit `int` wrap-around, `String.hashCode` over UTF-16 code units, `Long.hashCode` and `Long.toString` |
| `subscription.dfy` | `Dto` | the `Subscription` value and its `equals`, `hashCode` and `toString` |
| `multimap.dfy` | `Multimap` | the set-multimap semantics of the topic store |
| `redis_repository.dfy` | `Repository` | class `RedisRepository`, plus the integration scenarios written as client methods |
| `push.dfy` | `Push` | the decision logic of sending one message |
| `dispatch.dfy` | `Dispatch` | the send-to-all loop and its removal step |
| `subscriptions_handler.dfy` | `Handler` | class `SubscriptionsHandler` |
| `push_controller.dfy` | `Controller` | class `PushController`, with its registry operations |

## How Java is modelled

Each Java entity is modelled as follows:

- **Null references.** A reference that can be null is `Nullable<T>` (`Null` or `Val(v)`).
- **Exceptions.** A `void` method that may throw returns an `Outcome` (`Completed` or `Threw(e)`). All three maps in the in-memory registry are `ConcurrentHashMap`s, which refuse null keys, and Redisson's maps refuse null keys as well.
- **`Subscription`.** It is immutable, so it is a datatype. Its constructor and getters are the datatype's constructor and destructors, which store and return the four arguments unchanged.
- **Classes with mutable state.** `SubscriptionsHandler` and `RedisRepository` mutate their maps. Each is a class whose fields are Dafny maps. Every method states the whole new state in terms of the old one.
- **Outside inputs.** The outside world is gathered in `Push.Env`. It supplies:
  - URL parsing;
  - whether the endpoint is a usable request URI: `URI.create` accepts it, and `HttpRequest.Builder.uri` accepts the result (scheme http or https, host present). When either check fails, an `IllegalArgumentException` escapes;
  - JWT signing;
  - the HTTP exchange;
  - payload encryption;
  - the clock;
  - the server's public key.
- **`SubscriptionKeys.equals`, `hashCode` and `toString`.** `SubscriptionKeys.java` is not part of this model, so these three behaviours are a parameter, `KeysBehaviour`. A lemma that needs `equals` to be reflexive, symmetric or transitive, or `hashCode` to be consistent with it, says so in its precondition, and asks for that property only.

Where the code does something a reader may not expect, the model follows the code:

- Unsubscribing from the in-memory registry removes the subscription but keeps the endpoint mapping. `isSubscribed` therefore stays true.
- Re-subscribing a username with a new endpoint leaves the old endpoint mapped.
- Topic lists in the in-memory registry keep duplicates. Nothing creates a topic list, so joining any topic throws a `NullPointerException`.
- The dispatch's removal step removes the map keys equal to the failed endpoint strings. The registry's keys are usernames, so in practice nothing is removed.
- The token audience drops the endpoint's port.
- A transport failure never evicts a subscription.
- `RedisRepository` unregister removes the multimap key equal to the username. It does not remove the username from every topic.

## Model

| member | source | states |
|---|---|---|
| JavaLang.Wrap32 | src/main/java/com/maurosalani/push_notification/dto/Subscription.java:48-56 | `int` arithmetic wraps modulo 2^32 into [-2^31, 2^31); a value already in range is unchanged |
| JavaLang.WrapShift | src/main/java/com/maurosalani/push_notification/dto/Subscription.java:51-54 | adding a multiple of 2^32 does not change the wrapped value |
| JavaLang.WrapMulAdd | src/main/java/com/maurosalani/push_notification/dto/Subscription.java:51-54 | wrapping after every `prime * result + h` step equals wrapping once at the end |
| JavaLang.Utf16 | src/main/java/com/maurosalani/push_notification/dto/Subscription.java:51 | a string has at least one UTF-16 unit per code point |
| JavaLang.CharUnits | src/main/java/com/maurosalani/push_notification/dto/Subscription.java:51 | one character is one or two 16-bit units |
| JavaLang.Utf16Append | src/main/java/com/maurosalani/push_notification/dto/Subscription.java:51 | the units of a concatenation are the units of its parts, concatenated |
| JavaLang.Utf16InRange | src/main/java/com/maurosalani/push_notification/dto/Subscription.java:51 | every unit of a string is a 16-bit value |
| JavaLang.Utf16OfChar | src/main/java/com/maurosalani/push_notification/dto/Subscription.java:51 | a BMP character is its own unit; any other character becomes a high surrogate then a low surrogate, and the pair decodes back to the character |
| JavaLang.HashUnits | src/main/java/com/maurosalani/push_notification/dto/Subscription.java:51 | the `31·h + u` hash of no units is 0, and of one unit below 2^31 is that unit |
| JavaLang.HashUnitsSnoc | src/main/java/com/maurosalani/push_notification/dto/Subscription.java:51 | one more unit turns hash `h` into `31·h + u`, wrapped to 32 bits |
| JavaLang.StringHashCode | src/main/java/com/maurosalani/push_notification/dto/Subscription.java:51 | the hash of the empty string is 0 |
| JavaLang.StringHashCodeSnoc | src/main/java/com/maurosalani/push_notification/dto/Subscription.java:51 | appending a BMP character `c` turns the string's hash `h` into `31·h + c`, wrapped to 32 bits |
| JavaLang.StringHashCodeSnocSupplementary | src/main/java/com/maurosalani/push_notification/dto/Subscription.java:51 | appending a character `c` outside the BMP takes two wrapped `31·h + unit` steps, first with the high surrogate `0xD800 + (c - 0x10000) / 0x400` and then with the low surrogate `0xDC00 + (c - 0x10000) % 0x400` |
| JavaLang.LongHashCode | src/main/java/com/maurosalani/push_notification/dto/Subscription.java:52 | `Long.hashCode(0)` is 0 |
| JavaLang.LongToString | src/main/java/com/maurosalani/push_notification/dto/Subscription.java:92-93 | a `Long` prints as a non-empty string; a non-negative value as digits only, a negative value with a leading `-` |
| JavaLang.Digits | src/main/java/com/maurosalani/push_notification/dto/Subscription.java:92-93 | the decimal digits of a number are non-empty and have no leading zero |
| JavaLang.LongToStringOfDigit | src/main/java/com/maurosalani/push_notification/dto/Subscription.java:92-93 | a value from 0 to 9 prints as its single digit |
| JavaLang.DigitsValue | src/main/java/com/maurosalani/push_notification/dto/Subscription.java:92-93 | the digits denote the number they were made from |
| JavaLang.LongToStringValue | src/main/java/com/maurosalani/push_notification/dto/Subscription.java:92-93 | the text denotes the value: the digits of a non-negative value, or `-` and the digits of the magnitude; no leading zero except for 0 |
| Dto.Equals | src/main/java/com/maurosalani/push_notification/dto/Subscription.java:58-88 | only a `Subscription` can be equal, and then its endpoint, expiration time and username are those of this one |
| Dto.HashCode | src/main/java/com/maurosalani/push_notification/dto/Subscription.java:47-56 | a subscription whose four fields are all null hashes to 31^4 = 923521 |
| Dto.ToString | src/main/java/com/maurosalani/push_notification/dto/Subscription.java:90-94 | the text starts with `Subscription [endpoint=` and ends with `]`; `Dto.ToStringShape` gives its whole text for every mix of null and set fields |
| Dto.EqualsReflexive | src/main/java/com/maurosalani/push_notification/dto/Subscription.java:60-61 | a subscription equals itself |
| Dto.EqualsRejectsNullAndOtherClasses | src/main/java/com/maurosalani/push_notification/dto/Subscription.java:62-65 | `equals(null)` and `equals` of an object of another class are false |
| Dto.EqualsIffFieldwise | src/main/java/com/maurosalani/push_notification/dto/Subscription.java:66-87 | two subscriptions are equal exactly when their endpoint, expiration time, keys and username agree, where null equals only null |
| Dto.EqualsSymmetric | src/main/java/com/maurosalani/push_notification/dto/Subscription.java:66-87 | `a.equals(b)` and `b.equals(a)` agree whenever the keys' `equals` is symmetric |
| Dto.EqualsTransitive | src/main/java/com/maurosalani/push_notification/dto/Subscription.java:66-87 | `equals` is transitive whenever the keys' `equals` is transitive |
| Dto.HashCodePolynomial | src/main/java/com/maurosalani/push_notification/dto/Subscription.java:48-56 | the hash is 31^4 + 31^3·h(endpoint) + 31^2·h(expirationTime) + 31·h(keys) + h(username), wrapped to 32 bits, with null fields contributing 0 |
| Dto.EqualsImpliesEqualHashCode | src/main/java/com/maurosalani/push_notification/dto/Subscription.java:47-88 | equal subscriptions have equal hash codes whenever the keys' `hashCode` agrees with their `equals` |
| Dto.ToStringOmitsUsername | src/main/java/com/maurosalani/push_notification/dto/Subscription.java:90-94 | two subscriptions that differ only in their username print the same |
| Dto.ToStringOfNullFields | src/main/java/com/maurosalani/push_notification/dto/Subscription.java:90-94 | null fields print as `null` |
| Dto.ToStringShape | src/main/java/com/maurosalani/push_notification/dto/Subscription.java:90-94 | for every subscription, the text is `Subscription [endpoint=`, the endpoint, `, expirationTime=`, the time in decimal, `, keys=`, the keys' own text, `]`, with `null` in place of each null field on its own; the username is not printed |
| Dto.ToStringOfExpirationOne | src/main/java/com/maurosalani/push_notification/dto/Subscription.java:90-94 | a subscription with a null endpoint, expiration time 1 and null keys prints as `Subscription [endpoint=null, expirationTime=1, keys=null]` |
| Dto.StringHashCodeOfAb | src/main/java/com/maurosalani/push_notification/dto/Subscription.java:51 | `"ab".hashCode()` is 3105 |
| Dto.StringHashCodeOfSurrogatePair | src/main/java/com/maurosalani/push_notification/dto/Subscription.java:51 | the hash of U+1F600 runs over its surrogate pair and is 1772899 |
| Dto.LongHashCodeOfOne | src/main/java/com/maurosalani/push_notification/dto/Subscription.java:52 | `Long.hashCode(1)` is 1 |
| Dto.LongHashCodeOfMinusOne | src/main/java/com/maurosalani/push_notification/dto/Subscription.java:52 | `Long.hashCode(-1)` is 0, because the two halves of the 64-bit pattern cancel |
| Multimap.Put | src/main/java/com/maurosalani/push_notification/repository/RedisRepository.java:33-35 | the key's values gain the value; every other key is unchanged; no key maps to an empty set |
| Multimap.Remove | src/main/java/com/maurosalani/push_notification/repository/RedisRepository.java:37-39 | the key's values lose the value; every other key is unchanged; a key left empty is dropped |
| Multimap.RemoveAll | src/main/java/com/maurosalani/push_notification/repository/RedisRepository.java:57 | the key reads as empty; every other key is unchanged |
| Multimap.RemoveValueEverywhere | src/main/java/com/maurosalani/push_notification/repository/RedisRepository.java:45-47 | every key's values lose the value and nothing else |
| Multimap.Extensionality | src/main/java/com/maurosalani/push_notification/repository/RedisRepository.java:28 | two set-multimaps that read the same under every key are the same |
| Multimap.PutIdempotent | src/main/java/com/maurosalani/push_notification/repository/RedisRepository.java:33-35 | adding a pair twice is the same as adding it once |
| Multimap.PutTwoValues | src/test/java/com/maurosalani/push_notification/repository/RedisRepositoryIT.java:26-31 | after adding two values under one key, both are returned |
| Multimap.PutThenRemove | src/test/java/com/maurosalani/push_notification/repository/RedisRepositoryIT.java:34-39 | adding and then removing a pair leaves the key's other values; a key that had none is left empty and the store is as before |
| Multimap.RemoveValueFromStep | src/main/java/com/maurosalani/push_notification/repository/RedisRepository.java:46 | processing one more topic of the key set is one `remove(topic, username)` |
| Multimap.RemoveValueFromAll | src/main/java/com/maurosalani/push_notification/repository/RedisRepository.java:46 | after every topic of the key set has been processed, the value is removed everywhere |
| Repository.RedisRepository.constructor | src/main/java/com/maurosalani/push_notification/repository/RedisRepository.java:24-31 | the repository opens the three structures with their stored contents |
| Repository.RedisRepository.SubscribeUserToTopic | src/main/java/com/maurosalani/push_notification/repository/RedisRepository.java:33-35 | the topic store gains the pair (topic, username); the other two maps are unchanged |
| Repository.RedisRepository.UnsubscribeUserFromTopic | src/main/java/com/maurosalani/push_notification/repository/RedisRepository.java:37-39 | the topic store loses exactly the pair (topic, username) |
| Repository.RedisRepository.GetAllUsernameFromTopic | src/main/java/com/maurosalani/push_notification/repository/RedisRepository.java:41-43 | the result is the topic's members, empty for a topic with none; nothing changes |
| Repository.RedisRepository.UnsubscribeUsernameFromAllTopics | src/main/java/com/maurosalani/push_notification/repository/RedisRepository.java:45-47 | afterwards the username is in no topic and every other pair is unchanged |
| Repository.RedisRepository.RegisterUser | src/main/java/com/maurosalani/push_notification/repository/RedisRepository.java:49-52 | stores username → subscription and endpoint → username; a null username throws with nothing changed; a null endpoint throws after the first write |
| Repository.RedisRepository.UnregisterUserByEndpoint | src/main/java/com/maurosalani/push_notification/repository/RedisRepository.java:54-61 | for a known endpoint, its mapping, the mapped username's subscription and the multimap key equal to that username go; for an unknown endpoint nothing changes |
| Repository.RedisRepository.UnregisterUserByUsername | src/main/java/com/maurosalani/push_notification/repository/RedisRepository.java:63-70 | for a known username, the multimap key, the mapping of the endpoint stored in its subscription, and the subscription go; a stored null endpoint throws after the first removal; for an unknown username nothing changes |
| Repository.RedisRepository.IsSubscribed | src/main/java/com/maurosalani/push_notification/repository/RedisRepository.java:72-74 | true exactly when the endpoint is a key of the endpoint map |
| Repository.RedisRepository.GetSubscriptionFromUsername | src/main/java/com/maurosalani/push_notification/repository/RedisRepository.java:84-86 | the stored subscription, or null for an unknown username |
| Repository.SubscribeTwoUsersToOneTopic | src/test/java/com/maurosalani/push_notification/repository/RedisRepositoryIT.java:26-31 | two users subscribed to one topic are exactly the topic's members |
| Repository.SubscribeTwiceToOneTopic | src/main/java/com/maurosalani/push_notification/repository/RedisRepository.java:33-35 | a user subscribed twice to a topic is its only member |
| Repository.SubscribeThenUnsubscribe | src/test/java/com/maurosalani/push_notification/repository/RedisRepositoryIT.java:34-39 | subscribing and then unsubscribing the same pair leaves the topic empty |
| Repository.RegisterTwoUsersWithOneEndpoint | src/test/java/com/maurosalani/push_notification/repository/RedisRepositoryIT.java:42-51 | both subscriptions stay retrievable by username, and the shared endpoint now maps to the second user, whatever the endpoint map held before |
| Repository.RegisterThenUnregister | src/test/java/com/maurosalani/push_notification/repository/RedisRepositoryIT.java:54-67 | after unregistering by endpoint or by username, the subscription is gone and the endpoint is not subscribed, whatever the endpoint map held before |
| Push.Origin | src/main/java/com/maurosalani/push_notification/SubscriptionsHandler.java:164-166 | the origin is the URL's protocol, then `://`, then its host, and nothing else |
| Push.TokenClaims | src/main/java/com/maurosalani/push_notification/SubscriptionsHandler.java:172-176 | the token's audience is the origin, its subject is the fixed mailto address, and it expires 43 200 000 ms after now |
| Push.RequestHeaders | src/main/java/com/maurosalani/push_notification/SubscriptionsHandler.java:180-189 | exactly one `TTL: 180` and one `Authorization` header; `Content-Type` and `Content-Encoding: aes128gcm` exactly when there is a body; no other header |
| Push.SendPushMessage | src/main/java/com/maurosalani/push_notification/SubscriptionsHandler.java:162-222 | removal on a null or malformed endpoint; an endpoint that `URI.create` or the request builder rejects escapes as `IllegalArgumentException`; otherwise removal exactly on 404 or 410; the copy in `PushController.java` (159-219) is the same |
| Push.OriginIgnoresPort | src/main/java/com/maurosalani/push_notification/SubscriptionsHandler.java:165-166 | the origin is protocol `://` host, so endpoints that differ only in their port share the token audience |
| Push.PushRequest | src/main/java/com/maurosalani/push_notification/SubscriptionsHandler.java:172-189 | the request is sent to the endpoint with the given body; it always carries `TTL: 180` and `vapid t=<token>, k=<key>`, with the token signed over the origin, now + 12 h and the subject; it has the body headers exactly when there is a body; its header list is exactly `RequestHeaders` of the body and that Authorization value, so no header other than `TTL`, `Authorization`, `Content-Type` and `Content-Encoding` is sent |
| Push.Classify | src/main/java/com/maurosalani/push_notification/SubscriptionsHandler.java:190-219 | a response falls in the not-found-or-gone branch exactly for 404 and 410, and in the caught transport-failure branch exactly for a transport failure; 201, 429, 400 and 413 each fall in their own branch exactly for that status, and every other status in the default branch |
| Push.SendPushMessageRemovesExactly | src/main/java/com/maurosalani/push_notification/PushController.java:159-200 | removal happens exactly when the endpoint is malformed, or when the URI is valid and the answer is 404 or 410 |
| Push.SendPushMessageKeeps | src/main/java/com/maurosalani/push_notification/PushController.java:201-218 | a transport failure and every status other than 404 and 410 keep the subscription |
| Dispatch.SendToAll | src/main/java/com/maurosalani/push_notification/SubscriptionsHandler.java:135-156 | an escaping exception leaves the map as it was; otherwise the failed set is exactly the failed endpoints and the result is the map without the keys equal to them; a null failed endpoint throws part-way, and the map then lies between the two; the copy in `PushController.java` (132-153) is the same |
| Dispatch.AttemptFor | src/main/java/com/maurosalani/push_notification/SubscriptionsHandler.java:141-152 | a serialisation exception and null keys abort the loop; it aborts with `IllegalArgumentException` exactly when serialisation throws it, or encryption succeeds on a well-formed endpoint whose URI `URI.create` or the request builder refuses; the attempt is skipped exactly when encryption fails with a caught crypto exception; it fails exactly when encryption succeeds and the endpoint is null or malformed, or the URI is valid and the push service answers 404 or 410; it keeps the subscription exactly when the URI is valid and the answer is anything else |
| Dispatch.RejectedUriBlocksEviction | src/main/java/com/maurosalani/push_notification/SubscriptionsHandler.java:148-150 | a map holding one endpoint whose URI is refused and one whose push service answers 410 ends with `IllegalArgumentException` and comes back unchanged: one refused URI blocks every eviction |
| Dispatch.EncryptionFailureIsSkipped | src/main/java/com/maurosalani/push_notification/SubscriptionsHandler.java:141-152 | a subscription whose encryption fails with a caught crypto exception is skipped and adds nothing to the failed set |
| Dispatch.FailedEndpointsExactly | src/main/java/com/maurosalani/push_notification/SubscriptionsHandler.java:138-147 | an endpoint is in the failed set exactly when a subscription with that endpoint was sent and its send asked for removal |
| Dispatch.NoRemovalWhenKeysAreNotEndpoints | src/main/java/com/maurosalani/push_notification/SubscriptionsHandler.java:155 | when no key of the map equals an endpoint of its subscriptions, the removal step removes nothing |
| Dispatch.GoneAttemptFails | src/main/java/com/maurosalani/push_notification/SubscriptionsHandler.java:141-147 | with keys and an endpoint, an attempt whose push service answers 410 fails |
| Dispatch.FailedEndpointsOfSingleton | src/main/java/com/maurosalani/push_notification/SubscriptionsHandler.java:140-147 | in a one-entry map whose subscription fails, the failed set is just that endpoint |
| Dispatch.GoneSubscriberStaysInUsernameMap | src/main/java/com/maurosalani/push_notification/SubscriptionsHandler.java:140-155 | a subscriber whose push service answers 410 is flagged, yet it stays in a username-keyed map |
| Handler.Lookup | src/main/java/com/maurosalani/push_notification/SubscriptionsHandler.java:96 | `get` yields null exactly for an absent username, and otherwise the subscription stored under it |
| Handler.ResolveAll | src/main/java/com/maurosalani/push_notification/SubscriptionsHandler.java:95-97 | the list has one entry per username, in order, each the lookup of that username or null |
| Handler.SubscriptionsHandler.constructor | src/main/java/com/maurosalani/push_notification/SubscriptionsHandler.java:50-54 | the three maps start empty |
| Handler.SubscriptionsHandler.SubscribeUser | src/main/java/com/maurosalani/push_notification/SubscriptionsHandler.java:71-74 | stores username → subscription and endpoint → username and nothing else; an endpoint the username had before stays mapped; a null username throws with nothing changed, a null endpoint after the first put |
| Handler.SubscriptionsHandler.UnsubscribeUser | src/main/java/com/maurosalani/push_notification/SubscriptionsHandler.java:76-79 | for a known endpoint, only the subscription of the username it maps to is removed, and the endpoint map is unchanged; an unknown endpoint throws with nothing changed |
| Handler.SubscriptionsHandler.IsSubscribed | src/main/java/com/maurosalani/push_notification/SubscriptionsHandler.java:81-83 | true exactly when the endpoint is a key of the endpoint map; nothing changes |
| Handler.SubscriptionsHandler.SubscribeToTopic | src/main/java/com/maurosalani/push_notification/SubscriptionsHandler.java:85-87 | on an existing topic, the username is appended to that topic's list, duplicates kept, and nothing else changes; an absent topic throws with nothing changed |
| Handler.SubscriptionsHandler.PublishMessageForTopic | src/main/java/com/maurosalani/push_notification/SubscriptionsHandler.java:89-100 | nothing changes; an absent topic throws; otherwise the resolved list has the topic list's length and order, each entry the lookup of its username |
| Handler.SubscriptionsHandler.SendPushMessageToAllSubscribers | src/main/java/com/maurosalani/push_notification/SubscriptionsHandler.java:122 | the dispatch over the registry's own map, as `Dispatch.SendToAll` states it: an escaping exception is the abort error of some subscription's attempt and leaves the map as it was; a completed run whose keys are not endpoints leaves the map unchanged; the other two maps are unchanged |
| Handler.NewHandlerRejectsTopicSubscription | src/main/java/com/maurosalani/push_notification/SubscriptionsHandler.java:85-87 | on a new registry, joining any topic throws `NullPointerException` |
| Handler.SubscribeThenUnsubscribe | src/main/java/com/maurosalani/push_notification/SubscriptionsHandler.java:76-83 | after subscribing and then unsubscribing by the endpoint, the subscription is gone but the endpoint still reads as subscribed |
| Handler.ResubscribeKeepsOldEndpoint | src/main/java/com/maurosalani/push_notification/SubscriptionsHandler.java:71-74 | after re-subscribing a username with a new endpoint, the old endpoint still reads as subscribed |
| Controller.PushController.constructor | src/main/java/com/maurosalani/push_notification/PushController.java:52 | the controller holds the registry it is given |
| Controller.PushController.Subscribe | src/main/java/com/maurosalani/push_notification/PushController.java:79-85 | exactly the effect and the outcome of the registry's `subscribeUser` |
| Controller.PushController.Unsubscribe | src/main/java/com/maurosalani/push_notification/PushController.java:87-91 | exactly the effect and the outcome of the registry's `unsubscribeUser` |
| Controller.PushController.IsSubscribed | src/main/java/com/maurosalani/push_notification/PushController.java:93-96 | exactly the registry's answer |

## Left out

- `ServerKeys` is not part of this model. It covers key files, EC key generation, key decoding and Base64url encoding. The public key's Base64 text is the input `Env.publicKeyBase64`.
- `CryptoService.encrypt` is foreign cryptography (RFC 8291 with the aes128gcm coding of RFC 8188). It is the input `Env.encrypt`, which yields bytes or one of the caught crypto exceptions. Exceptions it might throw outside the caught list are not modelled.
- JWT creation and ECDSA signing are the input `Env.sign`, a function of the claims. A signing exception is not modelled.
- `new URL`, `URI.create`, `HttpClient.send` and the clock are inputs:
  - `Env.parseUrl` gives the protocol, host and port, or malformed;
  - `Env.uriValid` says whether `URI.create` accepts the endpoint and `HttpRequest.Builder.uri` accepts the result. The builder accepts only an http or https URI with a host;
  - `Env.send` gives a status or a transport failure;
  - `Env.now` is the time.
  One dispatch reads one `now` for all of its sends, whereas the source reads the clock once per send.
- Jackson serialisation of the message is the payload input: the serialised string, or a `JsonProcessingException`. The same result is used for every subscription.
- `chuckNorrisJoke`, in both classes, is example content: an outside HTTP fetch and JSON casts. It is left out, and so is its `@Scheduled` timing.
- Spring routing, and the controller's `publicSigningKey` and `publicSigningKeyBase64` getters, are left out. The controller's constructor takes the registry instead of the key and crypto services.
- Concurrency is left out, together with the lazy `getInstance` singleton and the thread safety of `ConcurrentHashMap`. The model is single-threaded.
- Redis client setup and the `PORT` and `URL` constant getters are left out.
- The `SubscriptionEndpoint` request body is not part of this model. Endpoint, topic and username parameters are non-null strings; a null endpoint inside a `Subscription` is modelled.
- `PushController` does not compile as written: its joke task and dispatch use `this.subscriptions`, which the class does not declare. Its dispatch is modelled as `Dispatch.SendToAll` over a map that is passed in.
- Dispatch.SendToAll: takes the map as a value and returns the new one instead of mutating the caller's map in place. The loop runs over the set of values, so equal subscriptions stored under two keys get one attempt where `values()` would send twice; the registry never stores them, since each key is its value's username, and the model does not record sends. When a null failed endpoint stops the removal part-way, the model bounds the map between the two ends instead of fixing which endpoints were already removed: `HashSet` iteration order is unspecified.
- Handler.SubscriptionsHandler.PublishMessageForTopic: returns the resolved list so that it can be stated, although the source drops it. The message it is given goes nowhere, as in the source.
- Dto.EqualsReflexive: `obj == this` is reference identity, but a value cannot be told apart from an equal copy. The model takes the shortcut for an object that holds the same field values; under `EqualsIffFieldwise` this gives the same result whenever the keys' `equals` is reflexive.
- Strings are sequences of Dafny characters, which are Unicode scalar values. A Java string that holds an unpaired surrogate cannot be represented, so `JavaLang.Utf16` and `JavaLang.StringHashCode` cover only well-formed strings.
- JavaLang.LongHashCode: states only that 0 hashes to 0, rather than that every value in [0, 2^31) hashes to itself, because the general clause needs the round trip between `int` and `bv32` and that proof runs out of resource. `Dto.LongHashCodeOfOne` and `Dto.LongHashCodeOfMinusOne` work through the bit pattern for 1 and -1.
- The `Logger` calls on each caught exception and on each status branch are left out: they only write log lines.
