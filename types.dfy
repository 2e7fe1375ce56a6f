// Error kinds and the result wrapper shared by the date codec and the ledger.
module Types {

  /** The canister's error enum; the message strings carried by each variant are not modelled. */
  datatype Error =
    | NotFound
    | AlreadyExists
    | NotAuthorized
    | VotingEnded
    | InvalidInput
    | VotingNotStarted
    | ProposalAlreadyStarted
    | InsufficientTokens

  datatype Result<+T> = Ok(value: T) | Err(error: Error)

  datatype Option<+T> = None | Some(value: T)
}
