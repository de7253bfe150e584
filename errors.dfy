/**
 * The errors the executor's calls return. Go builds them with `fmt.Errorf` or
 * passes a collaborator's error on unchanged; only the shape matters here, and
 * which index an error is tagged with.
 */
module Errors {
  import opened Stellar

  datatype Error =
    | Propagated(cause: LibError)                    // a library or transport error, returned as it is
    | UnexpectedResultCount(count: nat)              // "unexpected number of simulation results: %d"
    | ContractFailed(detail: ScError)                // "contract error: %+v"
    | KeyEncodeFailed(index: nat, cause: LibError)   // "error encoding ledger key at index %d: %w"
    | EntryDecodeFailed(index: nat, cause: LibError) // "error unmarshaling entry data at index %d: %w"
}
