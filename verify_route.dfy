/**
 * The verify endpoint: validate the request, answer from the store when the
 * address is already verified, otherwise check the signature, derive the user
 * id and record the verification.
 *
 * The signature check (EIP-191 personal-message recovery) is a parameter that
 * accepts, rejects or throws; `now` is the clock in epoch milliseconds.
 */
module VerifyRoute {
  import opened Wrappers
  import opened JsStrings
  import opened Types
  import opened Verification
  import opened Redis

  /** What `verifyMessage` does for one (address, message, signature) triple. */
  datatype SignatureCheck = Valid | Invalid | Threw

  type Verifier = (string, string, string) -> SignatureCheck

  /** The request body: JSON that failed to parse, or the parsed fields. */
  datatype RequestBody = Unparseable | Body(request: VerificationRequest)

  datatype HttpResponse = HttpResponse(status: nat, body: VerificationResponse)

  const MissingParameters := "Missing required parameters"
  const InvalidSignature := "Invalid signature"
  const VerificationFailed := "Verification failed"

  function Rejected(status: nat, error: string, timestamp: Option<nat>): HttpResponse
  {
    HttpResponse(status, VerificationResponse(false, None, timestamp, Some(error)))
  }

  function Verified(userId: string, now: nat): HttpResponse
  {
    HttpResponse(200, VerificationResponse(true, Some(userId), Some(now), None))
  }

  predicate IsMissing(request: VerificationRequest)
  {
    IsFalsy(request.address) || IsFalsy(request.signature) || IsFalsy(request.message)
  }

  /**
   * The handler's answer and the store it leaves: the reference for `Post`.
   * `readFault` and `writeFault` are the faults of the store's read and write.
   */
  function PostSpec(b: Backend, body: RequestBody, verify: Verifier, now: nat, readFault: Fault, writeFault: Fault)
    : (r: (HttpResponse, Backend))
    ensures r.0.body.verified ==> r.0.status == 200 && r.0.body.userId.Some? && r.0.body.userId.value != ""
    ensures !r.0.body.verified ==> r.0.status in {400, 500} && r.0.body.error.Some?
    ensures r.1 == b || (body.Body? && !IsMissing(body.request) &&
      var address := body.request.address.value;
      r.0 == Verified(GenerateUserId(address), now) &&
      r.1 == StoreSpec(b, now, GenerateUserId(address), address, DefaultExpirySeconds, writeFault).0)
  {
    match body
    case Unparseable => (Rejected(500, VerificationFailed, Some(now)), b)
    case Body(request) =>
      if IsMissing(request) then (Rejected(400, MissingParameters, None), b)
      else
        var address, signature, message := request.address.value, request.signature.value, request.message.value;
        var existing := IsAddressVerifiedSpec(b, now, address, readFault);
        if existing.Some? && existing.value != "" then (Verified(existing.value, now), b)
        else
          match verify(address, message, signature)
          case Threw => (Rejected(500, VerificationFailed, Some(now)), b)
          case Invalid => (Rejected(400, InvalidSignature, None), b)
          case Valid =>
            var userId := GenerateUserId(address);
            (Verified(userId, now), StoreSpec(b, now, userId, address, DefaultExpirySeconds, writeFault).0)
  }

  /** The `POST` handler, step by step over the shared store. */
  method Post(store: VerificationStore, body: RequestBody, verify: Verifier, now: nat, readFault: Fault, writeFault: Fault)
    returns (response: HttpResponse)
    modifies store.redis
    ensures (response, store.State()) == PostSpec(old(store.State()), body, verify, now, readFault, writeFault)
  {
    if body.Unparseable? {
      return Rejected(500, VerificationFailed, Some(now));
    }
    var request := body.request;
    if IsFalsy(request.address) || IsFalsy(request.signature) || IsFalsy(request.message) {
      return Rejected(400, MissingParameters, None);
    }
    var address, signature, message := request.address.value, request.signature.value, request.message.value;

    var existingUserId := store.IsAddressVerified(address, now, readFault);
    if existingUserId.Some? && existingUserId.value != "" {
      return Verified(existingUserId.value, now);
    }

    var isValid := verify(address, message, signature);
    if isValid == Threw {
      return Rejected(500, VerificationFailed, Some(now));
    }
    if isValid == Invalid {
      return Rejected(400, InvalidSignature, None);
    }

    var userId := GenerateUserId(address);
    var _ := store.StoreUserVerification(userId, address, DefaultExpirySeconds, now, writeFault);
    return Verified(userId, now);
  }

  /** A missing or empty field is a 400 that neither reads nor writes the store nor asks the verifier. */
  lemma MissingFieldsRejected(b: Backend, b2: Backend, request: VerificationRequest, verify: Verifier, verify2: Verifier,
                              now: nat, readFault: Fault, writeFault: Fault)
    requires IsMissing(request)
    ensures var (response, b') := PostSpec(b, Body(request), verify, now, readFault, writeFault);
      && response == Rejected(400, MissingParameters, None)
      && b' == b
      && PostSpec(b2, Body(request), verify2, now, NoFault, NoFault).0 == response
  {
  }

  /** An address already on record is answered from the store: the verifier is not consulted and nothing is written. */
  lemma KnownAddressShortCircuits(b: Backend, request: VerificationRequest, verify: Verifier, verify2: Verifier,
                                  now: nat, readFault: Fault, writeFault: Fault)
    requires !IsMissing(request)
    requires var existing := IsAddressVerifiedSpec(b, now, request.address.value, readFault);
      existing.Some? && existing.value != ""
    ensures var (response, b') := PostSpec(b, Body(request), verify, now, readFault, writeFault);
      && response == Verified(IsAddressVerifiedSpec(b, now, request.address.value, readFault).value, now)
      && b' == b
      && PostSpec(b, Body(request), verify2, now, readFault, writeFault) == (response, b')
  {
  }

  predicate NotOnRecord(b: Backend, now: nat, address: string, readFault: Fault)
  {
    var existing := IsAddressVerifiedSpec(b, now, address, readFault);
    existing.None? || existing.value == ""
  }

  /** An unknown address with a rejected signature is a 400 and the store is unchanged. */
  lemma BadSignatureRejected(b: Backend, request: VerificationRequest, verify: Verifier, now: nat, readFault: Fault, writeFault: Fault)
    requires !IsMissing(request)
    requires NotOnRecord(b, now, request.address.value, readFault)
    requires verify(request.address.value, request.message.value, request.signature.value) == Invalid
    ensures PostSpec(b, Body(request), verify, now, readFault, writeFault) == (Rejected(400, InvalidSignature, None), b)
  {
  }

  /**
   * An unknown address with an accepted signature is verified under the id derived
   * from it, the store receives that id and the address with the default lifetime,
   * and a failed write does not change the answer.
   */
  lemma GoodSignatureVerifiedAndStored(b: Backend, request: VerificationRequest, verify: Verifier, now: nat,
                                       readFault: Fault, writeFault: Fault, writeFault2: Fault)
    requires !IsMissing(request)
    requires NotOnRecord(b, now, request.address.value, readFault)
    requires verify(request.address.value, request.message.value, request.signature.value) == Valid
    ensures var address := request.address.value;
      var (response, b') := PostSpec(b, Body(request), verify, now, readFault, writeFault);
      && response == Verified(GenerateUserId(address), now)
      && b' == StoreSpec(b, now, GenerateUserId(address), address, DefaultExpirySeconds, writeFault).0
      && PostSpec(b, Body(request), verify, now, readFault, writeFault2).0 == response
  {
  }

  /** A verifier that throws, or a body that is not JSON, gives a 500 and leaves the store alone. */
  lemma FaultsAreServerErrors(b: Backend, body: RequestBody, verify: Verifier, now: nat, readFault: Fault, writeFault: Fault)
    requires body.Body? ==> (
      && !IsMissing(body.request)
      && NotOnRecord(b, now, body.request.address.value, readFault)
      && verify(body.request.address.value, body.request.message.value, body.request.signature.value) == Threw)
    ensures PostSpec(b, body, verify, now, readFault, writeFault) == (Rejected(500, VerificationFailed, Some(now)), b)
  {
  }

  /**
   * After a request that verified and stored an address, a later request for the same
   * address in any letter case, within the lifetime, gets the same id whatever its signature.
   */
  lemma SecondRequestReusesId(b: Backend, request: VerificationRequest, verify: Verifier, now: nat, readFault: Fault,
                              again: VerificationRequest, verify2: Verifier, later: nat)
    requires b.Configured?
    requires !IsMissing(request) && !IsMissing(again)
    requires NotOnRecord(b, now, request.address.value, readFault)
    requires verify(request.address.value, request.message.value, request.signature.value) == Valid
    requires ToLowerCase(again.address.value) == ToLowerCase(request.address.value)
    requires now <= later < now + DefaultExpirySeconds * 1000
    ensures var (first, b1) := PostSpec(b, Body(request), verify, now, readFault, NoFault);
      var (second, b2) := PostSpec(b1, Body(again), verify2, later, NoFault, NoFault);
      && first.body.verified && second.body.verified
      && second.body.userId == first.body.userId == Some(GenerateUserId(request.address.value))
      && b2 == b1
  {
    var address := request.address.value;
    var userId := GenerateUserId(address);
    StoreThenLookup(b, now, userId, address, DefaultExpirySeconds, later, again.address.value);
  }

  /** End to end: a mixed-case address signs its challenge and is then found under its lowercase form. */
  lemma ScenarioEndToEnd(t: Table, signature: string, verify: Verifier, now: nat)
    requires signature != ""
    requires NotOnRecord(Configured(t), now, ScenarioAddress, NoFault)
    requires verify(ScenarioAddress, GenerateVerificationMessage(Some(ScenarioAddress), now), signature) == Valid
    ensures var request := VerificationRequest(Some(ScenarioAddress), Some(signature),
                                               Some(GenerateVerificationMessage(Some(ScenarioAddress), now)));
      var (response, b') := PostSpec(Configured(t), Body(request), verify, now, NoFault, NoFault);
      && response.body.userId == Some("user_abcdef00")
      && IsAddressVerifiedSpec(b', now, ToLowerCase(ScenarioAddress), NoFault) == Some("user_abcdef00")
  {
    ScenarioUserId();
    LowerIdempotent(ScenarioAddress);
    StoreThenLookup(Configured(t), now, "user_abcdef00", ScenarioAddress, DefaultExpirySeconds, now, ToLowerCase(ScenarioAddress));
  }
}
