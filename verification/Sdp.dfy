/** The kinds of session description (RFC 8829), without the rollback. */
module Sdp {
  datatype SdpType = Offer | PrAnswer | Answer
}
