/**
 * The verification record store: a dual index over a TTL key-value table.
 * `user:{userId}` holds the whole record and `address:{lowercased address}` holds
 * the user id; both are written with the same expiry and deleted together.
 *
 * The backend is the table of an Upstash Redis client, or nothing when the client
 * was never configured. `now` is the caller's clock in epoch milliseconds, and a
 * `Fault` says which backend call of an operation, if any, throws.
 */
module Redis {
  import opened Wrappers
  import opened JsStrings
  import opened Types

  /** What a key holds: a stored verification record, or a plain string. */
  datatype Value = RecordValue(record: VerificationData) | TextValue(text: string)

  /** A stored value and the instant (epoch milliseconds) from which it is gone. */
  datatype Entry = Entry(value: Value, expiresAt: nat)

  type Table = map<string, Entry>

  /** The client handle: absent when the connection settings were missing. */
  datatype Backend = Unconfigured | Configured(table: Table)

  /** `FailOnCall(i)`: the `i`-th backend call of the operation (from 0) throws. */
  datatype Fault = NoFault | FailOnCall(index: nat)

  predicate Throws(fault: Fault, call: nat)
  {
    fault.FailOnCall? && fault.index == call
  }

  /** Twenty-four hours, the default lifetime of a verification, in seconds. */
  const DefaultExpirySeconds: int := 86400

  /** `user:{userId}`: the key of the full record. */
  function UserKey(userId: string): (k: string)
    ensures |k| == 5 + |userId| && k[..5] == "user:" && k[5..] == userId
  {
    "user:" + userId
  }

  /** `address:{lowercased address}`: the key of the index entry that names the id. */
  function AddressKey(address: string): (k: string)
    ensures |k| == 8 + |address| && k[..8] == "address:" && k[8..] == ToLowerCase(address)
  {
    "address:" + ToLowerCase(address)
  }

  /** The two key families never meet, whatever the id and address. */
  lemma KeysDistinct(userId: string, address: string)
    ensures UserKey(userId) != AddressKey(address)
  {
    assert UserKey(userId)[0] == 'u' && AddressKey(address)[0] == 'a';
  }

  /** Address keys are case-insensitive. */
  lemma AddressKeyIgnoresCase(a: string, b: string)
    ensures AddressKey(a) == AddressKey(b) <==> ToLowerCase(a) == ToLowerCase(b)
  {
    if AddressKey(a) == AddressKey(b) {
      assert ToLowerCase(a) == AddressKey(a)[8..] == AddressKey(b)[8..] == ToLowerCase(b);
    }
  }

  /** The value under `key` at time `now`, if present and not yet expired. */
  function Lookup(t: Table, now: nat, key: string): (r: Option<Value>)
    ensures r.Some? <==> key in t && now < t[key].expiresAt
    ensures r.Some? ==> r.value == t[key].value
  {
    if key in t && now < t[key].expiresAt then Some(t[key].value) else None
  }

  /** The entry a `SET key value EX seconds` at `now` leaves behind. */
  function Expiring(value: Value, now: nat, seconds: nat): Entry
  {
    Entry(value, now + seconds * 1000)
  }

  /**
   * `storeUserVerification`: without a client, false. Otherwise the record goes
   * under the user key and then the id under the address key, both for
   * `expiryInSeconds`; the first call that throws (a non-positive expiry is
   * refused by the backend) stops the sequence and the result is false.
   */
  function StoreSpec(b: Backend, now: nat, userId: string, address: string, expiryInSeconds: int, fault: Fault)
    : (r: (Backend, bool))
    ensures r.0.Configured? == b.Configured?
    ensures r.1 <==> b.Configured? && expiryInSeconds > 0 && !Throws(fault, 0) && !Throws(fault, 1)
    ensures b.Configured? ==> r.0.table.Keys <= b.table.Keys + {UserKey(userId), AddressKey(address)}
    ensures b.Configured? ==> forall k :: k in b.table && k != UserKey(userId) && k != AddressKey(address) ==>
      k in r.0.table && r.0.table[k] == b.table[k]
  {
    match b
    case Unconfigured => (b, false)
    case Configured(t) =>
      if Throws(fault, 0) || expiryInSeconds <= 0 then (b, false)
      else
        var record := VerificationData(userId, address, now);
        var t1 := t[UserKey(userId) := Expiring(RecordValue(record), now, expiryInSeconds)];
        if Throws(fault, 1) then (Configured(t1), false)
        else (Configured(t1[AddressKey(address) := Expiring(TextValue(userId), now, expiryInSeconds)]), true)
  }

  /**
   * `getUserVerification`: the record under the user key, or `None` when there is
   * no client, the read throws, the key is absent or expired, or it does not hold a record.
   */
  function GetUserVerificationSpec(b: Backend, now: nat, userId: string, fault: Fault): (r: Option<VerificationData>)
    ensures r.Some? ==> b.Configured? && !Throws(fault, 0)
    ensures r.Some? ==> Lookup(b.table, now, UserKey(userId)) == Some(RecordValue(r.value))
    ensures b.Configured? && !Throws(fault, 0) && Lookup(b.table, now, UserKey(userId)).Some?
            && Lookup(b.table, now, UserKey(userId)).value.RecordValue?
            ==> r == Some(Lookup(b.table, now, UserKey(userId)).value.record)
  {
    match b
    case Unconfigured => None
    case Configured(t) =>
      if Throws(fault, 0) then None
      else
        match Lookup(t, now, UserKey(userId))
        case Some(RecordValue(record)) => Some(record)
        case _ => None
  }

  /**
   * `isAddressVerified`: the id under the lowercased address key, or `None` when
   * there is no client, the read throws, or the key is absent or expired.
   */
  function IsAddressVerifiedSpec(b: Backend, now: nat, address: string, fault: Fault): (r: Option<string>)
    ensures r.Some? ==> b.Configured? && !Throws(fault, 0)
    ensures r.Some? ==> Lookup(b.table, now, AddressKey(address)) == Some(TextValue(r.value))
    ensures b.Configured? && !Throws(fault, 0) && Lookup(b.table, now, AddressKey(address)).Some?
            && Lookup(b.table, now, AddressKey(address)).value.TextValue?
            ==> r == Some(Lookup(b.table, now, AddressKey(address)).value.text)
  {
    match b
    case Unconfigured => None
    case Configured(t) =>
      if Throws(fault, 0) then None
      else
        match Lookup(t, now, AddressKey(address))
        case Some(TextValue(userId)) => Some(userId)
        case _ => None
  }

  /**
   * `removeUserVerification`: deletes the user key and then the address key; true
   * when both deletes went through, whether or not the keys existed.
   */
  function RemoveSpec(b: Backend, userId: string, address: string, fault: Fault): (r: (Backend, bool))
    ensures r.0.Configured? == b.Configured?
    ensures r.1 <==> b.Configured? && !Throws(fault, 0) && !Throws(fault, 1)
    ensures b.Configured? ==> r.0.table.Keys <= b.table.Keys
    ensures b.Configured? ==> forall k :: k in b.table && k != UserKey(userId) && k != AddressKey(address) ==>
      k in r.0.table && r.0.table[k] == b.table[k]
  {
    match b
    case Unconfigured => (b, false)
    case Configured(t) =>
      if Throws(fault, 0) then (b, false)
      else
        var t1 := t - {UserKey(userId)};
        if Throws(fault, 1) then (Configured(t1), false)
        else (Configured(t1 - {AddressKey(address)}), true)
  }

  /** A store that goes through writes exactly the two keys, with the same expiry, and touches nothing else. */
  lemma StoreWritesBothKeys(t: Table, now: nat, userId: string, address: string, expiryInSeconds: int)
    requires expiryInSeconds > 0
    ensures var (b', ok) := StoreSpec(Configured(t), now, userId, address, expiryInSeconds, NoFault);
      && ok
      && b'.table.Keys == t.Keys + {UserKey(userId), AddressKey(address)}
      && b'.table[UserKey(userId)] == Entry(RecordValue(VerificationData(userId, address, now)), now + expiryInSeconds * 1000)
      && b'.table[AddressKey(address)] == Entry(TextValue(userId), now + expiryInSeconds * 1000)
  {
    KeysDistinct(userId, address);
  }

  /**
   * Round trip: until the expiry, the address in any letter case leads to the id,
   * and the id to the record with the address as it was given.
   */
  lemma StoreThenLookup(b: Backend, now: nat, userId: string, address: string, expiryInSeconds: int,
                        later: nat, sameAddress: string)
    requires b.Configured? && expiryInSeconds > 0
    requires now <= later < now + expiryInSeconds * 1000
    requires ToLowerCase(sameAddress) == ToLowerCase(address)
    ensures var b' := StoreSpec(b, now, userId, address, expiryInSeconds, NoFault).0;
      && IsAddressVerifiedSpec(b', later, sameAddress, NoFault) == Some(userId)
      && GetUserVerificationSpec(b', later, userId, NoFault) == Some(VerificationData(userId, address, now))
  {
    KeysDistinct(userId, address);
    AddressKeyIgnoresCase(sameAddress, address);
  }

  /** Once the expiry has passed, neither lookup finds the stored verification. */
  lemma StoredVerificationExpires(b: Backend, now: nat, userId: string, address: string, expiryInSeconds: int,
                                  later: nat, fault: Fault)
    requires b.Configured? && expiryInSeconds > 0
    requires later >= now + expiryInSeconds * 1000
    ensures var b' := StoreSpec(b, now, userId, address, expiryInSeconds, NoFault).0;
      && IsAddressVerifiedSpec(b', later, address, fault) == None
      && GetUserVerificationSpec(b', later, userId, fault) == None
  {
    KeysDistinct(userId, address);
  }

  /** Storing the same pair again gives what storing only the second time gives: the later time wins. */
  lemma StoreTwiceIsStoreOnce(b: Backend, now1: nat, now2: nat, userId: string, address: string, expiryInSeconds: int)
    ensures var once := StoreSpec(b, now1, userId, address, expiryInSeconds, NoFault).0;
      StoreSpec(once, now2, userId, address, expiryInSeconds, NoFault) == StoreSpec(b, now2, userId, address, expiryInSeconds, NoFault)
  {
    if b.Configured? && expiryInSeconds > 0 {
      var uk, ak := UserKey(userId), AddressKey(address);
      var u1 := Expiring(RecordValue(VerificationData(userId, address, now1)), now1, expiryInSeconds);
      var a1 := Expiring(TextValue(userId), now1, expiryInSeconds);
      var u2 := Expiring(RecordValue(VerificationData(userId, address, now2)), now2, expiryInSeconds);
      var a2 := Expiring(TextValue(userId), now2, expiryInSeconds);
      KeysDistinct(userId, address);
      assert b.table[uk := u1][ak := a1][uk := u2][ak := a2] == b.table[uk := u2][ak := a2];
    }
  }

  /** If the first write throws, nothing is written. */
  lemma FirstWriteFails(b: Backend, now: nat, userId: string, address: string, expiryInSeconds: int)
    ensures StoreSpec(b, now, userId, address, expiryInSeconds, FailOnCall(0)) == (b, false)
  {
  }

  /**
   * If the second write throws, the store reports failure but the record under the
   * user key is live, while the address key reads as it did before.
   */
  lemma SecondWriteFails(b: Backend, now: nat, userId: string, address: string, expiryInSeconds: int,
                         later: nat, anyAddress: string)
    requires b.Configured? && expiryInSeconds > 0
    requires now <= later < now + expiryInSeconds * 1000
    requires AddressKey(anyAddress) == AddressKey(address)
    ensures var (b', ok) := StoreSpec(b, now, userId, address, expiryInSeconds, FailOnCall(1));
      && !ok
      && GetUserVerificationSpec(b', later, userId, NoFault) == Some(VerificationData(userId, address, now))
      && IsAddressVerifiedSpec(b', later, anyAddress, NoFault) == IsAddressVerifiedSpec(b, later, anyAddress, NoFault)
  {
    KeysDistinct(userId, address);
  }

  /** A removal that goes through leaves neither index entry, whether or not they existed. */
  lemma RemoveClearsBoth(b: Backend, userId: string, address: string, later: nat, anyAddress: string, fault: Fault)
    requires b.Configured?
    requires ToLowerCase(anyAddress) == ToLowerCase(address)
    ensures var (b', ok) := RemoveSpec(b, userId, address, NoFault);
      && ok
      && b'.table.Keys == b.table.Keys - {UserKey(userId), AddressKey(address)}
      && IsAddressVerifiedSpec(b', later, anyAddress, fault) == None
      && GetUserVerificationSpec(b', later, userId, fault) == None
  {
    AddressKeyIgnoresCase(anyAddress, address);
  }

  /** If the second delete throws, the record is gone but the address index entry survives. */
  lemma RemoveInterrupted(b: Backend, userId: string, address: string)
    requires b.Configured?
    ensures var (b', ok) := RemoveSpec(b, userId, address, FailOnCall(1));
      && !ok
      && UserKey(userId) !in b'.table
      && (AddressKey(address) in b.table ==> AddressKey(address) in b'.table && b'.table[AddressKey(address)] == b.table[AddressKey(address)])
  {
    KeysDistinct(userId, address);
  }

  /** Without a client every operation reports failure or absence and nothing changes. */
  lemma UnconfiguredDoesNothing(now: nat, userId: string, address: string, expiryInSeconds: int, fault: Fault)
    ensures StoreSpec(Unconfigured, now, userId, address, expiryInSeconds, fault) == (Unconfigured, false)
    ensures RemoveSpec(Unconfigured, userId, address, fault) == (Unconfigured, false)
    ensures GetUserVerificationSpec(Unconfigured, now, userId, fault) == None
    ensures IsAddressVerifiedSpec(Unconfigured, now, address, fault) == None
  {
  }

  /** A read that throws gives the same answer as a miss. */
  lemma ReadErrorIsMiss(t: Table, now: nat, userId: string, address: string)
    ensures GetUserVerificationSpec(Configured(t), now, userId, FailOnCall(0))
         == GetUserVerificationSpec(Configured(map[]), now, userId, NoFault) == None
    ensures IsAddressVerifiedSpec(Configured(t), now, address, FailOnCall(0))
         == IsAddressVerifiedSpec(Configured(map[]), now, address, NoFault) == None
  {
  }

  /**
   * Ids are 8 characters of the address, so two addresses can share one. Storing
   * both leaves the first address pointing at a record that names the second.
   */
  lemma SharedIdRecordNamesLastAddress(b: Backend, now1: nat, now2: nat, userId: string, a1: string, a2: string,
                                       expiryInSeconds: int, later: nat)
    requires b.Configured? && expiryInSeconds > 0
    requires ToLowerCase(a1) != ToLowerCase(a2)
    requires now1 <= now2 <= later < now1 + expiryInSeconds * 1000
    ensures var b1 := StoreSpec(b, now1, userId, a1, expiryInSeconds, NoFault).0;
      var b2 := StoreSpec(b1, now2, userId, a2, expiryInSeconds, NoFault).0;
      && IsAddressVerifiedSpec(b2, later, a1, NoFault) == Some(userId)
      && GetUserVerificationSpec(b2, later, userId, NoFault) == Some(VerificationData(userId, a2, now2))
  {
    KeysDistinct(userId, a1);
    KeysDistinct(userId, a2);
    AddressKeyIgnoresCase(a1, a2);
  }

  /** The Upstash client: a TTL key-value table reached by `set`, `get` and `del` calls, each of which may throw. */
  class UpstashClient {
    var table: Table

    constructor (initial: Table)
      ensures table == initial
    {
      table := initial;
    }

    /** `SET key value EX seconds`; refused when the expiry is not positive. */
    method Set(key: string, value: Value, seconds: int, now: nat, fail: bool) returns (thrown: bool)
      modifies this
      ensures thrown == (fail || seconds <= 0)
      ensures !thrown ==> table == old(table)[key := Expiring(value, now, seconds)]
      ensures thrown ==> table == old(table)
    {
      if fail || seconds <= 0 {
        return true;
      }
      table := table[key := Expiring(value, now, seconds)];
      return false;
    }

    /** `GET key`: the live value, if any. */
    method Get(key: string, now: nat, fail: bool) returns (thrown: bool, value: Option<Value>)
      ensures thrown == fail
      ensures !thrown ==> value == Lookup(table, now, key)
      ensures thrown ==> value == None
    {
      if fail {
        return true, None;
      }
      if key in table && now < table[key].expiresAt {
        value := Some(table[key].value);
      } else {
        value := None;
      }
      thrown := false;
    }

    /** `DEL key`; deleting an absent key is not an error. */
    method Del(key: string, fail: bool) returns (thrown: bool)
      modifies this
      ensures thrown == fail
      ensures table == if thrown then old(table) else old(table) - {key}
    {
      if fail {
        return true;
      }
      table := table - {key};
      return false;
    }
  }

  /** The store operations over the process-wide client handle, which is `null` when unconfigured. */
  class VerificationStore {
    const redis: UpstashClient?

    constructor (redis: UpstashClient?)
      ensures this.redis == redis
    {
      this.redis := redis;
    }

    function State(): Backend
      reads this, redis
    {
      if redis == null then Unconfigured else Configured(redis.table)
    }

    method StoreUserVerification(userId: string, address: string, expiryInSeconds: int, now: nat, fault: Fault)
      returns (ok: bool)
      modifies redis
      ensures (State(), ok) == StoreSpec(old(State()), now, userId, address, expiryInSeconds, fault)
    {
      if redis == null {
        return false;
      }
      var data := VerificationData(userId, address, now);
      var thrown := redis.Set(UserKey(userId), RecordValue(data), expiryInSeconds, now, Throws(fault, 0));
      if thrown {
        return false;
      }
      thrown := redis.Set(AddressKey(address), TextValue(userId), expiryInSeconds, now, Throws(fault, 1));
      if thrown {
        return false;
      }
      return true;
    }

    method GetUserVerification(userId: string, now: nat, fault: Fault) returns (r: Option<VerificationData>)
      ensures r == GetUserVerificationSpec(State(), now, userId, fault)
    {
      if redis == null {
        return None;
      }
      var thrown, data := redis.Get(UserKey(userId), now, Throws(fault, 0));
      if thrown {
        return None;
      }
      match data
      case Some(RecordValue(record)) => r := Some(record);
      case _ => r := None;
    }

    method IsAddressVerified(address: string, now: nat, fault: Fault) returns (r: Option<string>)
      ensures r == IsAddressVerifiedSpec(State(), now, address, fault)
    {
      if redis == null {
        return None;
      }
      var thrown, data := redis.Get(AddressKey(address), now, Throws(fault, 0));
      if thrown {
        return None;
      }
      match data
      case Some(TextValue(userId)) => r := Some(userId);
      case _ => r := None;
    }

    method RemoveUserVerification(userId: string, address: string, fault: Fault) returns (ok: bool)
      modifies redis
      ensures (State(), ok) == RemoveSpec(old(State()), userId, address, fault)
    {
      if redis == null {
        return false;
      }
      var thrown := redis.Del(UserKey(userId), Throws(fault, 0));
      if thrown {
        return false;
      }
      thrown := redis.Del(AddressKey(address), Throws(fault, 1));
      if thrown {
        return false;
      }
      return true;
    }
  }
}
