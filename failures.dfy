/** The failure replies of the routes and of the airdrop manager, one per
    distinct message or escaping exception of the source. */
module Failures {

  datatype Failure =
    | Unavailable          // access gate closed: 503
    | SessionExpired       // no session id in the cookie
    | NoSessionFound       // disconnect without a session id
    | InvalidSubmission    // empty answer or missing/zero enigma id
    | EnigmaNotFound
    | ProgressNotFound
    | EmptyCatalog         // `game` with no enigmas in the database
    | EnigmaLoadError      // the current enigma id does not resolve
    | NotInOrder           // `enigma_order.index` raises ValueError (HTTP 500)
    | NoRecord             // attribute assignment on a missing record raises (HTTP 500)
    | NoRequestBody        // the read of `wallet_type` on a missing body raises
    | NoWalletProvided
    | InvalidWallet        // connect_wallet_real validation
    | InvalidWalletFormat  // connect_wallet format check
    | NoWalletConnected
    | NotEligible
    | NoAirdropConfig
}
