/**
 * The Executor of pkg/executor: one RPC client and the three calls that reach
 * it. A ghost trace records every remote call, so the contracts can say when
 * no call was made and that a call is never repeated.
 */
module Executor {
  import opened Stellar
  import opened Errors
  import opened Rpc
  import Contract
  import Ledger

  class Executor {
    const rpc: Client

    /** The remote calls made so far, oldest first. */
    ghost var trace: seq<Call>

    constructor (rpc: Client)
      ensures this.rpc == rpc && trace == []
    {
      this.rpc := rpc;
      trace := [];
    }

    /**
     * SimulateContractCall: build the transaction, encode it unsigned, make one
     * simulation call and decode the sole result. A failure before the call
     * returns that failure and makes no call.
     */
    method SimulateContractCall(lib: Library, contractAddress: ScAddress, sourceAccount: Account,
                                args: seq<ScVal>, functionName: ScSymbol)
      returns (r: Result<ScVal, Error>)
      requires SimulationConforms(rpc)
      modifies this
      ensures var built := lib.buildContractTx(contractAddress, sourceAccount, args, functionName);
        built.Err? ==> r == Err(Propagated(built.error)) && trace == old(trace)
      ensures var built := lib.buildContractTx(contractAddress, sourceAccount, args, functionName);
        built.Ok? && lib.base64(built.value).Err? ==>
          r == Err(Propagated(lib.base64(built.value).error)) && trace == old(trace)
      ensures var built := lib.buildContractTx(contractAddress, sourceAccount, args, functionName);
        built.Ok? && lib.base64(built.value).Ok? ==>
          var request := SimulateTransactionRequest(lib.base64(built.value).value);
          && trace == old(trace) + [SimulateTransaction(request)]
          && (rpc.simulateTransaction(request).Err? ==> r == Err(Propagated(rpc.simulateTransaction(request).error)))
          && (rpc.simulateTransaction(request).Ok? ==> r == Contract.SimulationResult(lib, rpc.simulateTransaction(request).value))
    {
      var transactionXdr := lib.buildContractTx(contractAddress, sourceAccount, args, functionName);
      if transactionXdr.Err? {
        return Err(Propagated(transactionXdr.error));
      }
      var transactionBase64 := lib.base64(transactionXdr.value);
      if transactionBase64.Err? {
        return Err(Propagated(transactionBase64.error));
      }
      var request := SimulateTransactionRequest(transactionBase64.value);
      var response := rpc.simulateTransaction(request);
      trace := trace + [SimulateTransaction(request)];
      if response.Err? {
        return Err(Propagated(response.error));
      }
      r := Contract.SimulationResult(lib, response.value);
    }

    /**
     * SubmitContractCall: build the transaction, sign it with every key pair in
     * list order under one passphrase, encode it, make one send call and
     * classify the answer. A failure before the call returns that failure and
     * makes no call; no call is ever repeated.
     */
    method SubmitContractCall(lib: Library, contractAddress: ScAddress, sourceAccount: Account,
                              args: seq<ScVal>, functionName: ScSymbol,
                              networkPassphrase: string, signingKeypairs: seq<Keypair>)
      returns (r: Result<string, Error>)
      modifies this
      ensures var built := lib.buildContractTx(contractAddress, sourceAccount, args, functionName);
        built.Err? ==> r == Err(Propagated(built.error)) && trace == old(trace)
      ensures var built := lib.buildContractTx(contractAddress, sourceAccount, args, functionName);
        built.Ok? ==>
          var signed := Contract.SignChain(lib, built.value, networkPassphrase, signingKeypairs);
          signed.Err? ==> r == Err(Propagated(signed.error)) && trace == old(trace)
      ensures var built := lib.buildContractTx(contractAddress, sourceAccount, args, functionName);
        built.Ok? ==>
          var signed := Contract.SignChain(lib, built.value, networkPassphrase, signingKeypairs);
          signed.Ok? && lib.base64(signed.value).Err? ==>
            r == Err(Propagated(lib.base64(signed.value).error)) && trace == old(trace)
      ensures var built := lib.buildContractTx(contractAddress, sourceAccount, args, functionName);
        built.Ok? ==>
          var signed := Contract.SignChain(lib, built.value, networkPassphrase, signingKeypairs);
          signed.Ok? && lib.base64(signed.value).Ok? ==>
            var request := SendTransactionRequest(lib.base64(signed.value).value);
            && trace == old(trace) + [SendTransaction(request)]
            && (rpc.sendTransaction(request).Err? ==> r == Err(Propagated(rpc.sendTransaction(request).error)))
            && (rpc.sendTransaction(request).Ok? ==> r == Contract.SendOutcome(lib, rpc.sendTransaction(request).value))
    {
      var transactionXdr := lib.buildContractTx(contractAddress, sourceAccount, args, functionName);
      if transactionXdr.Err? {
        return Err(Propagated(transactionXdr.error));
      }
      var signed := Contract.SignInOrder(lib, transactionXdr.value, networkPassphrase, signingKeypairs);
      if signed.Err? {
        return Err(Propagated(signed.error));
      }
      var transactionBase64 := lib.base64(signed.value);
      if transactionBase64.Err? {
        return Err(Propagated(transactionBase64.error));
      }
      var request := SendTransactionRequest(transactionBase64.value);
      var response := rpc.sendTransaction(request);
      trace := trace + [SendTransaction(request)];
      if response.Err? {
        return Err(Propagated(response.error));
      }
      r := Contract.SendOutcome(lib, response.value);
    }

    /**
     * LedgerEntryCall: encode every key (no call is made if one fails), make
     * one batch call with the encoded keys in request order, and correlate the
     * answer with the request by position. The contract address is not used.
     */
    method LedgerEntryCall(lib: Library, contractAddress: ScAddress, ledgerKeys: seq<LedgerKey>)
      returns (r: Result<map<LedgerKey, LedgerEntryData>, Error>)
      requires LedgerConforms(rpc)
      modifies this
      ensures var keys := Ledger.EncodeAll(lib, ledgerKeys);
        keys.Err? ==> r == Err(keys.error) && trace == old(trace)
      ensures var keys := Ledger.EncodeAll(lib, ledgerKeys);
        keys.Ok? ==>
          var request := GetLedgerEntriesRequest(keys.value);
          && trace == old(trace) + [GetLedgerEntries(request)]
          && (rpc.getLedgerEntries(request).Err? ==> r == Err(Propagated(rpc.getLedgerEntries(request).error)))
          && (rpc.getLedgerEntries(request).Ok? ==>
                r == Ledger.Correlate(lib, ledgerKeys, rpc.getLedgerEntries(request).value.entries))
    {
      var keys := Ledger.EncodeLedgerKeys(lib, ledgerKeys);
      if keys.Err? {
        return Err(keys.error);
      }
      var request := GetLedgerEntriesRequest(keys.value);
      var resp := rpc.getLedgerEntries(request);
      trace := trace + [GetLedgerEntries(request)];
      if resp.Err? {
        return Err(Propagated(resp.error));
      }
      r := Ledger.CollectEntries(lib, ledgerKeys, resp.value.entries);
    }
  }
}
