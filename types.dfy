/** The record shapes exchanged by the verify endpoint and kept by the store. */
module Types {
  import opened Wrappers

  /** One completed verification: the derived id, the address as submitted, and the time in epoch milliseconds. */
  datatype VerificationData = VerificationData(userId: string, address: string, verifiedAt: nat)

  /** The JSON body of a verify request; each field may be absent. */
  datatype VerificationRequest = VerificationRequest(
    address: Option<string>,
    signature: Option<string>,
    message: Option<string>)

  /** The JSON body of a verify response; absent optional fields are `None`. */
  datatype VerificationResponse = VerificationResponse(
    verified: bool,
    userId: Option<string>,
    timestamp: Option<nat>,
    error: Option<string>)
}
