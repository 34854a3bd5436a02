/** The `Subscription` value type: an immutable record of a subscriber's
    username, push-service endpoint, optional expiration time and encryption
    keys, with Java's field-wise `equals`, 31-multiplier `hashCode` and a
    `toString` that leaves the username out. The datatype constructor is the
    Java constructor and its destructors are the getters. */
module Dto {
  import opened JavaLang

  /** A subscriber's `p256dh` public key and `auth` secret, in base64url. */
  datatype SubscriptionKeys = SubscriptionKeys(p256dh: Nullable<string>, auth: Nullable<string>)

  datatype Subscription = Subscription(
    username: Nullable<string>,
    endpoint: Nullable<string>,
    expirationTime: Nullable<Int64>,
    keys: Nullable<SubscriptionKeys>)

  /** The argument of `equals(Object)`: null, a `Subscription`, or an object
      of some other class. */
  datatype JavaObject = NullRef | SubscriptionRef(sub: Subscription) | OtherRef

  /** `equals`, `hashCode` and `toString` of `SubscriptionKeys`, whose class
      is outside this model. */
  datatype KeysBehaviour = KeysBehaviour(
    equals: (SubscriptionKeys, SubscriptionKeys) -> bool,
    hashCode: SubscriptionKeys -> Int32,
    toString: SubscriptionKeys -> string)

  ghost predicate KeysReflexive(kb: KeysBehaviour)
  {
    forall k :: kb.equals(k, k)
  }

  ghost predicate KeysSymmetric(kb: KeysBehaviour)
  {
    forall k, l :: kb.equals(k, l) == kb.equals(l, k)
  }

  ghost predicate KeysTransitive(kb: KeysBehaviour)
  {
    forall k, l, m :: kb.equals(k, l) && kb.equals(l, m) ==> kb.equals(k, m)
  }

  ghost predicate KeysHashConsistent(kb: KeysBehaviour)
  {
    forall k, l :: kb.equals(k, l) ==> kb.hashCode(k) == kb.hashCode(l)
  }

  /** One field test of `equals` for a `String` or `Long` field: a null
      field matches only null, otherwise the values are compared. */
  predicate FieldEquals<T(==)>(mine: Nullable<T>, theirs: Nullable<T>)
  {
    if mine.Null? then theirs.Null?
    else theirs.Val? && mine.v == theirs.v
  }

  /** The field test for `keys`, which calls `SubscriptionKeys.equals`
      (false for a null argument, as Java's contract for `equals` demands). */
  predicate KeysFieldEquals(mine: Nullable<SubscriptionKeys>, theirs: Nullable<SubscriptionKeys>, kb: KeysBehaviour)
  {
    if mine.Null? then theirs.Null?
    else theirs.Val? && kb.equals(mine.v, theirs.v)
  }

  /** `Subscription.equals`: the identity shortcut, the null and class
      checks, then endpoint, expirationTime, keys and username in turn. */
  predicate Equals(s: Subscription, obj: JavaObject, kb: KeysBehaviour)
    ensures Equals(s, obj, kb) ==> obj.SubscriptionRef?
    ensures Equals(s, obj, kb) ==> obj.sub.endpoint == s.endpoint && obj.sub.expirationTime == s.expirationTime
    ensures Equals(s, obj, kb) ==> obj.sub.username == s.username
  {
    if obj == SubscriptionRef(s) then true
    else if obj.NullRef? then false
    else if !obj.SubscriptionRef? then false
    else
      var other := obj.sub;
      if !FieldEquals(s.endpoint, other.endpoint) then false
      else if !FieldEquals(s.expirationTime, other.expirationTime) then false
      else if !KeysFieldEquals(s.keys, other.keys, kb) then false
      else if !FieldEquals(s.username, other.username) then false
      else true
  }

  function EndpointHash(s: Subscription): Int32
  {
    if s.endpoint.Null? then 0 else StringHashCode(s.endpoint.v)
  }

  function ExpirationHash(s: Subscription): Int32
  {
    if s.expirationTime.Null? then 0 else LongHashCode(s.expirationTime.v)
  }

  function KeysHash(s: Subscription, kb: KeysBehaviour): Int32
  {
    if s.keys.Null? then 0 else kb.hashCode(s.keys.v)
  }

  function UsernameHash(s: Subscription): Int32
  {
    if s.username.Null? then 0 else StringHashCode(s.username.v)
  }

  /** `Subscription.hashCode`: `result = 31 * result + h(field)` for the four
      fields in declaration order of the method, starting from 1, each step
      in 32-bit `int` arithmetic. */
  function HashCode(s: Subscription, kb: KeysBehaviour): (h: Int32)
    ensures s.endpoint.Null? && s.expirationTime.Null? && s.keys.Null? && s.username.Null? ==> h == 923521
  {
    var prime := 31;
    var result := 1;
    var result := Wrap32(prime * result + EndpointHash(s));
    var result := Wrap32(prime * result + ExpirationHash(s));
    var result := Wrap32(prime * result + KeysHash(s, kb));
    Wrap32(prime * result + UsernameHash(s))
  }

  /** `Subscription.toString`: endpoint, expirationTime and keys, with `null`
      written for a null field. */
  function ToString(s: Subscription, kb: KeysBehaviour): (text: string)
    ensures |text| > 23 && text[..23] == "Subscription [endpoint=" && text[|text| - 1] == ']'
  {
    var text := "Subscription [endpoint=" + Show(s.endpoint, (e: string) => e)
      + ", expirationTime=" + Show(s.expirationTime, LongToString)
      + ", keys=" + Show(s.keys, kb.toString) + "]";
    PrefixOfLongerText("Subscription [endpoint=", text[23..]);
    text
  }

  lemma PrefixOfLongerText(prefix: string, rest: string)
    ensures (prefix + rest)[..|prefix|] == prefix
  {
  }

  // ---------------------------------------------------------------------
  // equals

  /** `equals` is reflexive, whatever `SubscriptionKeys.equals` does, thanks
      to the identity shortcut. */
  lemma EqualsReflexive(s: Subscription, kb: KeysBehaviour)
    ensures Equals(s, SubscriptionRef(s), kb)
  {
  }

  /** `equals(null)` is false, and so is `equals` of another class. */
  lemma EqualsRejectsNullAndOtherClasses(s: Subscription, kb: KeysBehaviour)
    ensures !Equals(s, NullRef, kb)
    ensures !Equals(s, OtherRef, kb)
  {
  }

  /** Two subscriptions are equal exactly when their endpoints, expiration
      times and usernames are equal (a null field equal only to null) and
      their keys are both null or equal by `SubscriptionKeys.equals`. */
  lemma EqualsIffFieldwise(a: Subscription, b: Subscription, kb: KeysBehaviour)
    requires KeysReflexive(kb)
    ensures Equals(a, SubscriptionRef(b), kb) <==>
      && a.endpoint == b.endpoint
      && a.expirationTime == b.expirationTime
      && a.username == b.username
      && (a.keys.Null? <==> b.keys.Null?)
      && (a.keys.Val? && b.keys.Val? ==> kb.equals(a.keys.v, b.keys.v))
  {
    if a == b && a.keys.Val? {
      assert kb.equals(a.keys.v, a.keys.v);
    }
  }

  /** `equals` is symmetric when `SubscriptionKeys.equals` is. */
  lemma EqualsSymmetric(a: Subscription, b: Subscription, kb: KeysBehaviour)
    requires KeysSymmetric(kb)
    ensures Equals(a, SubscriptionRef(b), kb) == Equals(b, SubscriptionRef(a), kb)
  {
    if a != b && a.keys.Val? && b.keys.Val? {
      assert kb.equals(a.keys.v, b.keys.v) == kb.equals(b.keys.v, a.keys.v);
    }
  }

  /** `equals` is transitive when `SubscriptionKeys.equals` is. */
  lemma EqualsTransitive(a: Subscription, b: Subscription, c: Subscription, kb: KeysBehaviour)
    requires KeysTransitive(kb)
    requires Equals(a, SubscriptionRef(b), kb) && Equals(b, SubscriptionRef(c), kb)
    ensures Equals(a, SubscriptionRef(c), kb)
  {
    if a != b && b != c && a != c && a.keys.Val? {
      assert kb.equals(a.keys.v, b.keys.v) && kb.equals(b.keys.v, c.keys.v);
    }
  }

  // ---------------------------------------------------------------------
  // hashCode

  /** The step-by-step `hashCode` is the polynomial
      `31^4 + 31^3 h(endpoint) + 31^2 h(expirationTime) + 31 h(keys) + h(username)`
      reduced once to a 32-bit `int`. */
  lemma HashCodePolynomial(s: Subscription, kb: KeysBehaviour)
    ensures HashCode(s, kb) == Wrap32(923521 + 29791 * EndpointHash(s) + 961 * ExpirationHash(s)
                                      + 31 * KeysHash(s, kb) + UsernameHash(s))
  {
    HornerFour(EndpointHash(s), ExpirationHash(s), KeysHash(s, kb), UsernameHash(s));
  }

  /** Four wrapped `31 * result + h` steps from `result = 1` equal one
      wrapped polynomial. */
  lemma HornerFour(e: int, x: int, k: int, u: int)
    ensures Wrap32(31 * Wrap32(31 * Wrap32(31 * Wrap32(31 * 1 + e) + x) + k) + u)
            == Wrap32(923521 + 29791 * e + 961 * x + 31 * k + u)
  {
    var r1: int := 31 + e;
    var r2: int := 31 * r1 + x;
    var r3: int := 31 * r2 + k;
    WrapMulAdd(31, r1, x);
    WrapMulAdd(31, r2, k);
    WrapMulAdd(31, r3, u);
    assert 31 * r3 + u == 923521 + 29791 * e + 961 * x + 31 * k + u;
  }

  /** Equal subscriptions have equal hash codes, when `SubscriptionKeys`
      keeps that contract itself. */
  lemma EqualsImpliesEqualHashCode(a: Subscription, b: Subscription, kb: KeysBehaviour)
    requires KeysHashConsistent(kb)
    requires Equals(a, SubscriptionRef(b), kb)
    ensures HashCode(a, kb) == HashCode(b, kb)
  {
    if a != b && a.keys.Val? {
      assert kb.equals(a.keys.v, b.keys.v);
    }
    assert KeysHash(a, kb) == KeysHash(b, kb);
  }

  // ---------------------------------------------------------------------
  // toString

  /** `toString` never shows the username: subscriptions that differ only
      in their usernames print the same. */
  lemma ToStringOmitsUsername(a: Subscription, b: Subscription, kb: KeysBehaviour)
    requires a.endpoint == b.endpoint && a.expirationTime == b.expirationTime && a.keys == b.keys
    ensures ToString(a, kb) == ToString(b, kb)
  {
  }

  /** The printed form of a subscription whose endpoint, expiration time and
      keys are all null. */
  lemma ToStringOfNullFields(u: Nullable<string>, kb: KeysBehaviour)
    ensures ToString(Subscription(u, Null, Null, Null), kb)
         == "Subscription [endpoint=null, expirationTime=null, keys=null]"
  {
  }

  /** The printed form of any subscription: the endpoint as it is, the
      expiration time in decimal and the keys by `SubscriptionKeys.toString`,
      each field that is null written as `null`. */
  lemma ToStringShape(s: Subscription, kb: KeysBehaviour)
    ensures ToString(s, kb)
         == "Subscription [endpoint=" + (if s.endpoint.Val? then s.endpoint.v else "null")
          + ", expirationTime=" + (if s.expirationTime.Val? then LongToString(s.expirationTime.v) else "null")
          + ", keys=" + (if s.keys.Val? then kb.toString(s.keys.v) else "null") + "]"
  {
  }

  /** A subscription with expiration time 1 and a null endpoint prints its
      time as the digit `1`. */
  lemma ToStringOfExpirationOne(u: Nullable<string>, kb: KeysBehaviour)
    ensures ToString(Subscription(u, Null, Val(1), Null), kb)
         == "Subscription [endpoint=null, expirationTime=1, keys=null]"
  {
    LongToStringOfDigit(1);
    assert Show(Val(1 as Int64), LongToString) == "1";
  }

  // ---------------------------------------------------------------------
  // hash codes of the fields

  /** `String.hashCode` of a two-character string: `31 * 'a' + 'b'`. */
  lemma StringHashCodeOfAb()
    ensures StringHashCode("ab") == 3105
  {
    assert "ab"[1..] == "b" && "b"[1..] == [];
    assert Utf16("ab") == [97, 98];
    assert [97, 98][..1] == [97] && [97][..0] == [];
  }

  /** `String.hashCode` of a character outside the Basic Multilingual Plane
      runs over its surrogate pair. */
  lemma StringHashCodeOfSurrogatePair()
    ensures StringHashCode("\U{1F600}") == 1772899
  {
    assert "\U{1F600}"[1..] == [];
    assert Utf16("\U{1F600}") == [0xD83D, 0xDE00];
    assert [0xD83D, 0xDE00][..1] == [0xD83D] && [0xD83D][..0] == [];
  }

  /** `Long.hashCode` of a small value is the value. */
  lemma LongHashCodeOfOne()
    ensures LongHashCode(1) == 1
  {
    var bits := 1 % TwoTo64;
    var high, low := bits / TwoTo32, bits % TwoTo32;
    assert high == 0 && low == 1;
    var folded := ((low as bv32) ^ (high as bv32)) as int;
    assert folded == 1;
    assert LongHashCode(1) == Wrap32(folded);
  }

  /** `Long.hashCode` folds the two halves of the 64-bit pattern: for -1
      both halves are all ones and cancel. */
  lemma LongHashCodeOfMinusOne()
    ensures LongHashCode(-1) == 0
  {
    var bits := -1 % TwoTo64;
    assert bits == 0xFFFF_FFFF_FFFF_FFFF;
    var high, low := bits / TwoTo32, bits % TwoTo32;
    assert high == 0xFFFF_FFFF && low == 0xFFFF_FFFF;
    var folded := ((low as bv32) ^ (high as bv32)) as int;
    assert folded == 0;
    assert LongHashCode(-1) == Wrap32(folded);
  }
}
