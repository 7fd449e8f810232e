/** The error values the contract can surface (contracts/pfc-notes-contract/src/error.rs). */
module Errors {

  /** The subset of the host's `StdError` that the contract can raise. */
  datatype StdError =
    | NotFound                          // a `load` of an absent key
    | InvalidAddress(address: string)   // `addr_validate` refused the string

  /** The ownership collaborator's refusal. */
  datatype OwnershipError = NotOwner

  datatype ContractError =
    | Std(std: StdError)
    | Ownership(ownership: OwnershipError)
    | AddressDoesNotExist(missing: string)   // built by the code but never returned
}
