# Minikit Verify: wallet verification protocol in Dafny

This project models the core of Minikit Verify, a small service that lets a user
prove control of a wallet address. The user signs a challenge message, the
server checks the signature, and it records the verified address in a Redis
table with a 24-hour lifetime, so later requests for that address are answered
from the record.

The model has three parts, one per source file:

- `verification.dfy` (module `Verification`) holds the pure address and message
  utilities. These are the challenge text, the user id (`"user_"` plus characters
  2 to 9 of the lowercased address), the address format check
  `^0x[a-fA-F0-9]{40}$`, and the shortened display form. `js_strings.dfy` gives
  the JavaScript string behaviour these functions rely on:
  - ASCII `toLowerCase`/`toUpperCase`;
  - `substring` with its clamping and swapping of indices;
  - the decimal text of an integer.
- `redis.dfy` (module `Redis`) is the record store, a dual index over a TTL table:
  - `user:{userId}` holds the record `{userId, address, verifiedAt}`;
  - `address:{lowercased address}` holds the user id.

  The Upstash client is the class `UpstashClient`, whose `table` field maps keys to
  entries with an expiry instant. `VerificationStore` holds the process-wide handle
  `redis`, which is `null` when the connection settings are missing. Its four
  methods make the same sequence of `set`/`get`/`del` calls as the source, with the
  same early returns. Each method is proved equal to a pure specification function
  (`StoreSpec`, `GetUserVerificationSpec`, `IsAddressVerifiedSpec`, `RemoveSpec`),
  and the lemmas about the store are stated over those functions. A `Fault` value
  says which backend call of an operation throws. This is how the model states that
  the two writes are not atomic and that errors become `null`/`false`.
- `verify_route.dfy` (module `VerifyRoute`) is the `POST /api/verify` handler:
  1. validate the fields;
  2. look up the address;
  3. check the signature;
  4. derive the id and store it.

  The method `Post` runs these steps against a `VerificationStore`. It is proved
  equal to `PostSpec`, and the properties of the handler are stated as lemmas over
  `PostSpec`.

`types.dfy` holds the record shapes, and `wrappers.dfy` holds `Option` and
JavaScript truthiness of an optional string.

Time is epoch milliseconds. `Date.now()` becomes a `now` parameter of each
operation, and the Redis server clock is taken to be the same clock. A `SET ... EX s`
at time `now` makes an entry that is live while the clock reads less than
`now + 1000 * s`.

Three points of the code shape the model:

- `verifyMessage` may throw. The handler catches the exception and answers 500
  (app/api/verify/route.ts:61-67), so the verifier here may accept, reject or throw.
- A second store for the same id overwrites both entries
  (app/services/redis.ts:41-42). `StoreTwiceIsStoreOnce` and
  `SharedIdRecordNamesLastAddress` state what that does to the table.
- The handler never calls `isValidAddress`. The handler lemmas therefore do not
  require a well-formed address: they are stated for any non-empty address string
  of the model, whose characters are Unicode scalar values (see "## Left out" for
  how that differs from JavaScript's UTF-16 positions).

## Model

| member | source | states |
|---|---|---|
| JsStrings.ToLowerCase | app/utils/verification.ts:25 | lowercasing keeps the length and maps each character to its ASCII lowercase |
| JsStrings.ToUpperCase | app/utils/verification.ts:25 | uppercasing keeps the length and maps each character to its ASCII uppercase; the source never calls it, and it is here only to state that the id ignores letter case |
| JsStrings.LowerOfUpper | app/utils/verification.ts:25 | lowercasing an uppercased string gives the same result as lowercasing the original |
| JsStrings.LowerIdempotent | app/services/redis.ts:42 | lowercasing an already lowercased string changes nothing, so an address stored in lowercase is found under its own key |
| JsStrings.Substring | app/utils/verification.ts:25 | `substring(start, end)` has length equal to the distance between the clamped indices, and its characters are read from the smaller clamped index on |
| JsStrings.SubstringFrom | app/utils/verification.ts:46 | `substring(start)` is the suffix from the clamped start |
| JsStrings.SubstringIsSlice | app/utils/verification.ts:46 | when the clamped indices are in order, `substring` is the slice between them |
| JsStrings.NatToString | app/utils/verification.ts:15 | the decimal text of the timestamp is non-empty, all digits, and has no leading zero unless the value is 0 |
| JsStrings.ParseNatToString | app/utils/verification.ts:15 | reading the decimal text back gives the original number |
| JsStrings.NatToStringInjective | app/utils/verification.ts:15 | distinct timestamps print as distinct texts |
| JsStrings.TrailingDigitsAfterNonDigit | app/utils/verification.ts:15 | digits appended after the label's final space are exactly the trailing digit run of the message |
| Verification.GenerateVerificationMessage | app/utils/verification.ts:11-16 | the message is empty exactly when the address is `undefined` or `""`; otherwise it starts with the header line |
| Verification.MessageMentions | app/utils/verification.ts:15 | a message for a present address contains the header, `"Address: " + address` and `"Timestamp:"` |
| Verification.ParseVerificationMessage | app/utils/verification.ts:15 | a successfully parsed message yields a non-empty address; the source has no parser, and this one is the inverse of the template on line 15, used for the round trip below |
| Verification.ParseGeneratedMessage | app/utils/verification.ts:14-15 | parsing a generated message gives back its address and timestamp |
| Verification.MessageInjective | app/utils/verification.ts:14-15 | two messages are equal only for the same address and the same timestamp |
| Verification.GenerateUserId | app/utils/verification.ts:24-26 | the id starts with `user_`, and its length is 5 plus the number of address characters in positions 2 to 9 |
| Verification.UserIdIsLowercasedSlice | app/utils/verification.ts:25 | the id is `"user_"` plus the lowercased address from position min(2,n) to min(10,n); it is 5 to 13 characters long, and exactly 13 when the address has at least 10 characters |
| Verification.UserIdDependsOnlyOnPositions2To9 | app/utils/verification.ts:25 | addresses whose positions 2 to 9 agree after lowercasing get the same id |
| Verification.UserIdCaseInsensitive | app/utils/verification.ts:25 | addresses equal after lowercasing get the same id, and uppercasing an address does not change its id |
| Verification.IsValidAddress | app/utils/verification.ts:34-36 | a valid address is 42 characters long and starts with `0x` |
| Verification.IsValidAddressMatchesPattern | app/utils/verification.ts:34-36 | the address check holds exactly when `0`, `x`, then forty hex digits of either case, then the end of input match from left to right |
| Verification.MatchHexRunIff | app/utils/verification.ts:35 | `[a-fA-F0-9]{n}$` matches exactly the strings of n hex digits |
| Verification.HexDigitCaseInsensitive | app/utils/verification.ts:35 | two characters with the same lowercase form are both hex digits or both not |
| Verification.ValidityIgnoresDigitCase | app/utils/verification.ts:35 | changing the case of characters after the prefix does not change validity |
| Verification.UppercasePrefixRejected | app/utils/verification.ts:35 | an address with the prefix `0X` is rejected |
| Verification.UserIdOfValidAddress | app/utils/verification.ts:25 | for a valid address the id is 13 characters long, and its last eight are lowercase hex digits |
| Verification.FormatAddress | app/utils/verification.ts:44-47 | the display form is empty for `undefined` or `""`; otherwise its length is min(6,n) + 3 + min(4,n) |
| Verification.FormatAddressShape | app/utils/verification.ts:46 | the display form is the first min(6,n) characters, `"..."`, then the last min(4,n); it is 13 characters long from six characters up |
| Verification.SampleAddressValid | app/utils/verification.test.js:44-47 | the sample address is valid |
| Verification.UserIdFromLowercasedHead | app/utils/verification.ts:25 | any address whose positions 2 to 9 lowercase to a given eight characters gets `"user_"` plus those characters |
| Verification.UserIdOfHead | app/utils/verification.ts:25 | an address of ten or more characters has the same id as its first ten characters |
| Verification.SampleUserId | app/utils/verification.test.js:35-40 | the sample address has the id `user_12345678` |
| Verification.FormatFromEnds | app/utils/verification.ts:46 | an address of six or more characters displays as its first six characters, `...` and its last four |
| Verification.SampleFormat | app/utils/verification.test.js:62-73 | the sample address displays as `0x1234...5678`; a missing address gives an empty message and an empty display form |
| Verification.SampleInvalidAddresses | app/utils/verification.test.js:49-59 | `0x123`, a `0xGGGG...` address and an unprefixed address are rejected |
| Verification.ScenarioUserId | app/utils/verification.ts:25 | the mixed-case address `0xABCDEF00...1234` has the id `user_abcdef00` |
| Verification.CollidingAddressesValid | app/utils/verification.ts:35 | the two addresses used to show a shared id are both valid |
| Verification.CollidingAddressesShareHead | app/utils/verification.ts:25 | the two addresses are distinct but have the same first ten characters |
| Verification.UserIdCollision | app/utils/verification.ts:25 | any two addresses with the same first ten characters get the same id, however they differ afterwards |
| Redis.UserKey | app/services/redis.ts:41 | the user key is `user:` followed by the id, unchanged |
| Redis.AddressKey | app/services/redis.ts:42 | the address key is `address:` followed by the lowercased address |
| Redis.KeysDistinct | app/services/redis.ts:41-42 | a user key never equals an address key |
| Redis.AddressKeyIgnoresCase | app/services/redis.ts:42 | two addresses have the same address key exactly when they are equal after lowercasing |
| Redis.Lookup | app/services/redis.ts:59 | a read finds a value exactly when the key is present and not yet expired |
| Redis.StoreSpec | app/services/redis.ts:27-49 | a store succeeds exactly when a client is configured, the expiry is positive and neither write throws; it changes no key other than the user key and the address key |
| Redis.GetUserVerificationSpec | app/services/redis.ts:57-67 | a record is returned only from a configured client whose read did not throw, and it is the live record under `user:{userId}`; conversely, when the client is configured, the read does not throw and a live record is there, that record is returned |
| Redis.IsAddressVerifiedSpec | app/services/redis.ts:75-84 | an id is returned only from a configured client whose read did not throw, and it is the live id under `address:{lowercased address}`; conversely, when the client is configured, the read does not throw and a live id is there, that id is returned |
| Redis.RemoveSpec | app/services/redis.ts:93-104 | a removal succeeds exactly when a client is configured and neither delete throws; it only removes keys, and no key other than the two index entries |
| Redis.StoreWritesBothKeys | app/services/redis.ts:30-42 | a store that goes through adds exactly the user key and the address key; the record has `verifiedAt = now`, the id goes under the address key, and both expire at now + 1000 * expiry |
| Redis.StoreThenLookup | app/services/redis.ts:37-42 | before the expiry, the address in any letter case gives the id, and the id gives the record with the address in its original case |
| Redis.StoredVerificationExpires | app/services/redis.ts:41-42 | once the expiry has passed, both lookups return nothing |
| Redis.StoreTwiceIsStoreOnce | app/services/redis.ts:35-42 | storing the same pair twice leaves the same table as storing once at the later time |
| Redis.FirstWriteFails | app/services/redis.ts:41 | if the first write throws, the table is unchanged and the result is false |
| Redis.SecondWriteFails | app/services/redis.ts:41-47 | if the second write throws, the result is false; the record under the user key is live, and the address lookup is as before |
| Redis.RemoveClearsBoth | app/services/redis.ts:97-99 | a removal without faults returns true whether or not the keys existed, removes exactly the two keys, and afterwards both lookups return nothing |
| Redis.RemoveInterrupted | app/services/redis.ts:97-102 | if the second delete throws, the record is gone but the address index entry remains |
| Redis.UnconfiguredDoesNothing | app/services/redis.ts:32 | without a client, store and remove return false, both reads return nothing, and there is no table to change |
| Redis.ReadErrorIsMiss | app/services/redis.ts:63-65 | a read that throws gives the same answer as a read of an empty table |
| Redis.SharedIdRecordNamesLastAddress | app/services/redis.ts:41-42 | when two addresses share an id, storing both leaves the first address pointing at a record that names the second |
| Redis.UpstashClient.constructor | app/services/redis.ts:11-16 | the client starts with the given table |
| Redis.UpstashClient.Set | app/services/redis.ts:41 | `set ... ex` throws on a fault or a non-positive expiry; otherwise it puts the entry with its expiry and changes nothing else |
| Redis.UpstashClient.Get | app/services/redis.ts:59 | `get` returns the live value of the key, or throws |
| Redis.UpstashClient.Del | app/services/redis.ts:97 | `del` removes the key, present or not, or throws and changes nothing |
| Redis.VerificationStore.constructor | app/services/redis.ts:9-17 | the store keeps the client handle, which may be absent |
| Redis.VerificationStore.StoreUserVerification | app/services/redis.ts:27-49 | the two sequential writes with early returns give the table and result of `StoreSpec` |
| Redis.VerificationStore.GetUserVerification | app/services/redis.ts:57-67 | the read gives `GetUserVerificationSpec` |
| Redis.VerificationStore.IsAddressVerified | app/services/redis.ts:75-84 | the read gives `IsAddressVerifiedSpec` |
| Redis.VerificationStore.RemoveUserVerification | app/services/redis.ts:93-104 | the two sequential deletes give the table and result of `RemoveSpec` |
| Wrappers.IsFalsy | app/api/verify/route.ts:18 | an optional string is falsy exactly when it is absent or empty |
| VerifyRoute.PostSpec | app/api/verify/route.ts:13-68 | every verified answer is a 200 with a non-empty id; every other answer is a 400 or 500 with an error; the store is unchanged unless the answer is the derived id and the store is the result of storing it |
| VerifyRoute.Post | app/api/verify/route.ts:13-68 | the step-by-step handler gives the answer and store of `PostSpec` |
| VerifyRoute.MissingFieldsRejected | app/api/verify/route.ts:18-23 | a missing or empty field gives 400 `Missing required parameters`; the store is unchanged, and the answer is the same for any store and any verifier |
| VerifyRoute.KnownAddressShortCircuits | app/api/verify/route.ts:26-33 | a stored id is returned as verified; nothing is written, and the answer is the same for any verifier |
| VerifyRoute.BadSignatureRejected | app/api/verify/route.ts:36-47 | an unknown address with a rejected signature gives 400 `Invalid signature`, and the store is unchanged |
| VerifyRoute.GoodSignatureVerifiedAndStored | app/api/verify/route.ts:50-60 | an unknown address with an accepted signature is verified with the derived id; the store gets that id and the address with the 24-hour default; a failed write does not change the answer |
| VerifyRoute.FaultsAreServerErrors | app/api/verify/route.ts:61-67 | an unparseable body or a throwing verifier gives 500 `Verification failed` with a timestamp, and the store is unchanged |
| VerifyRoute.SecondRequestReusesId | app/api/verify/route.ts:26-33 | after a verified and stored request, a later request within 24 hours for the same address in any case gets the same id, whatever its signature |
| VerifyRoute.ScenarioEndToEnd | app/api/verify/route.ts:50-53 | a mixed-case address that signs its challenge gets `user_abcdef00`, and the lowercased address then looks up `user_abcdef00` |

## Left out

- Signature cryptography: `verifyMessage` (secp256k1 recovery over the EIP-191 personal-message hash) is a foreign library. It is a function parameter that accepts, rejects or throws.
- Client construction from environment variables (app/services/redis.ts:9-17): the handle is simply present or `null`. Network latency is not modelled.
- JSON encoding: the record is stored as a datatype and read back as itself. The model assumes the client hands back the text that was stored. Upstash's client deserialises JSON values on `get` by default; if it does, `JSON.parse` at app/services/redis.ts:62 receives an object and throws, and the read returns `null`. That library is not part of this model.
- Redis.GetUserVerificationSpec: a user key that holds a plain string reads as `null`. In the source, `JSON.parse` of some strings (numbers, `"null"`) would return a non-record value.
- Redis.IsAddressVerifiedSpec: an address key that holds a record reads as `null`. In the source, `get` would return the object itself.
- Logging with `console.error`: it has no behaviour.
- JsStrings.Substring: positions count Unicode scalar values, where JavaScript counts UTF-16 code units, so results differ on strings with characters outside the Basic Multilingual Plane.
- JsStrings.SubstringFrom: positions count Unicode scalar values, not UTF-16 code units, so results differ on characters outside the Basic Multilingual Plane.
- Verification.GenerateUserId: positions 2 to 9 count Unicode scalar values, not UTF-16 code units, so the id differs from the source's on addresses with characters outside the Basic Multilingual Plane.
- Verification.FormatAddress: the first six and last four positions count Unicode scalar values, not UTF-16 code units, so the display form differs on characters outside the Basic Multilingual Plane.
- Unicode case mapping: `toLowerCase`/`toUpperCase` are modelled on ASCII letters only.
- Timestamps of 10^21 ms or more, which JavaScript prints in exponent form: `NatToString` always gives plain decimal.
- Request fields that are JSON values other than strings: the fields are optional strings.
- Concurrency: two requests interleaving their lookup, verification and write are not modelled. Each handler call runs to completion. `StoreTwiceIsStoreOnce` covers the outcome of two sequential writes.
- Two clocks: the app clock and the Redis server clock are one `now`.
- The localStorage helpers (app/utils/verification.ts:55-97): browser storage around JSON.
- Farcaster frame routing (app/api/webhook/route.ts), the React UI, provider configuration, image generation and the constants file: presentation and glue.
