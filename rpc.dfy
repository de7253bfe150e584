/**
 * The three remote procedures the executor calls (pkg/rpc/protocol), with
 * their requests and responses, and the client that performs them.
 *
 * The transport itself (HTTP, JSON framing, the call context) is not
 * modelled: the client is a function from request to response-or-error, so
 * the same request always meets the same answer.
 */
module Rpc {
  import opened Stellar

  datatype SimulateTransactionRequest = SimulateTransactionRequest(transaction: string)

  /** One result of a simulation; `returnValueXdr` is a Go `*string`, None for nil. */
  datatype SimulateHostFunctionResult = SimulateHostFunctionResult(returnValueXdr: Option<string>)

  datatype SimulateTransactionResponse = SimulateTransactionResponse(results: seq<SimulateHostFunctionResult>)

  datatype SendTransactionRequest = SendTransactionRequest(transaction: string)

  /** `errorResultXdr` is the empty string when the transaction was not rejected. */
  datatype SendTransactionResponse = SendTransactionResponse(hash: string, errorResultXdr: string)

  datatype GetLedgerEntriesRequest = GetLedgerEntriesRequest(keys: seq<string>)

  datatype LedgerEntryResult = LedgerEntryResult(keyXdr: string, dataXdr: string)

  datatype GetLedgerEntriesResponse = GetLedgerEntriesResponse(entries: seq<LedgerEntryResult>)

  /** The RPC client: each remote procedure either answers or fails in transport. */
  datatype Client = Client(
    simulateTransaction: SimulateTransactionRequest -> Result<SimulateTransactionResponse, LibError>,
    sendTransaction: SendTransactionRequest -> Result<SendTransactionResponse, LibError>,
    getLedgerEntries: GetLedgerEntriesRequest -> Result<GetLedgerEntriesResponse, LibError>)

  /** One remote call, as recorded in an executor's trace. */
  datatype Call =
    | SimulateTransaction(simulateRequest: SimulateTransactionRequest)
    | SendTransaction(sendRequest: SendTransactionRequest)
    | GetLedgerEntries(entriesRequest: GetLedgerEntriesRequest)

  /**
   * What SimulateContractCall relies on of the server without checking it: a
   * sole simulation result carries a return value (the code dereferences the
   * pointer).
   */
  ghost predicate SimulationConforms(rpc: Client)
  {
    forall req :: rpc.simulateTransaction(req).Ok? && |rpc.simulateTransaction(req).value.results| == 1 ==>
      rpc.simulateTransaction(req).value.results[0].returnValueXdr.Some?
  }

  /**
   * What LedgerEntryCall relies on of the server without checking it: an
   * answer has no more entries than keys were asked for (the code indexes the
   * request by the response position).
   */
  ghost predicate LedgerConforms(rpc: Client)
  {
    forall req :: rpc.getLedgerEntries(req).Ok? ==> |rpc.getLedgerEntries(req).value.entries| <= |req.keys|
  }
}
