/**
 * The pure parts of pkg/executor/contract.go: the signing loop of
 * SubmitContractCall, what a simulation response yields, and how a send
 * response is classified. The calls that reach the RPC server are in module
 * Executor.
 */
module Contract {
  import opened Stellar
  import opened Errors
  import opened Rpc

  // ---------------------------------------------------------------------------
  // Signing in list order
  // ---------------------------------------------------------------------------

  /**
   * The outcome of signing `tx` with each key pair in turn, always with the
   * same passphrase: the first k key pairs are applied before key pair k, and
   * the first failure is the outcome.
   */
  function SignChain(lib: Library, tx: Transaction, passphrase: string, keypairs: seq<Keypair>): (r: Result<Transaction, LibError>)
    ensures keypairs == [] ==> r == Ok(tx)
    ensures r.Err? ==> keypairs != []
    decreases |keypairs|
  {
    if keypairs == [] then Ok(tx)
    else
      match SignChain(lib, tx, passphrase, keypairs[..|keypairs| - 1])
      case Err(e) => Err(e)
      case Ok(signed) => lib.sign(signed, passphrase, keypairs[|keypairs| - 1])
  }

  /** Once a prefix of the key pairs fails, signing with the whole list fails with that error. */
  lemma {:induction false} SignChainErrorSticks(lib: Library, tx: Transaction, passphrase: string, keypairs: seq<Keypair>, n: nat)
    requires n <= |keypairs|
    requires SignChain(lib, tx, passphrase, keypairs[..n]).Err?
    ensures SignChain(lib, tx, passphrase, keypairs) == SignChain(lib, tx, passphrase, keypairs[..n])
    decreases |keypairs| - n
  {
    if n < |keypairs| {
      var longer := keypairs[..n + 1];
      assert longer[..|longer| - 1] == keypairs[..n];
      SignChainErrorSticks(lib, tx, passphrase, keypairs, n + 1);
    } else {
      assert keypairs[..n] == keypairs;
    }
  }

  /**
   * Signing with `first + rest` is signing with `first` and then signing the
   * result with `rest`: with key pairs [A, B], A signs before B.
   */
  lemma {:induction false} SignChainAppend(lib: Library, tx: Transaction, passphrase: string, first: seq<Keypair>, rest: seq<Keypair>)
    ensures SignChain(lib, tx, passphrase, first + rest) ==
            match SignChain(lib, tx, passphrase, first)
            case Err(e) => Err(e)
            case Ok(signed) => SignChain(lib, signed, passphrase, rest)
    decreases |rest|
  {
    if rest == [] {
      assert first + rest == first;
    } else {
      var all := first + rest;
      var last := rest[..|rest| - 1];
      assert all[..|all| - 1] == first + last;
      assert all[|all| - 1] == rest[|rest| - 1];
      SignChainAppend(lib, tx, passphrase, first, last);
    }
  }

  /**
   * When signing succeeds, every step succeeded: step i signs what the first i
   * steps produced, with key pair i and the one passphrase.
   */
  lemma {:induction false} SignChainSteps(lib: Library, tx: Transaction, passphrase: string, keypairs: seq<Keypair>)
    requires SignChain(lib, tx, passphrase, keypairs).Ok?
    ensures forall i :: 0 <= i < |keypairs| ==>
      SignChain(lib, tx, passphrase, keypairs[..i]).Ok? &&
      lib.sign(SignChain(lib, tx, passphrase, keypairs[..i]).value, passphrase, keypairs[i]) == SignChain(lib, tx, passphrase, keypairs[..i + 1])
  {
    forall i | 0 <= i < |keypairs|
      ensures SignChain(lib, tx, passphrase, keypairs[..i]).Ok?
      ensures lib.sign(SignChain(lib, tx, passphrase, keypairs[..i]).value, passphrase, keypairs[i]) == SignChain(lib, tx, passphrase, keypairs[..i + 1])
    {
      var prefix := keypairs[..i + 1];
      assert prefix[..|prefix| - 1] == keypairs[..i];
      if SignChain(lib, tx, passphrase, keypairs[..i + 1]).Err? {
        SignChainErrorSticks(lib, tx, passphrase, keypairs, i + 1);
      }
    }
  }

  /**
   * When signing fails, it fails at one step i: the first i steps succeeded and
   * key pair i produced the error.
   */
  lemma {:induction false} SignChainFirstFailure(lib: Library, tx: Transaction, passphrase: string, keypairs: seq<Keypair>)
    requires SignChain(lib, tx, passphrase, keypairs).Err?
    ensures exists i :: (0 <= i < |keypairs| &&
                         SignChain(lib, tx, passphrase, keypairs[..i]).Ok? &&
                         lib.sign(SignChain(lib, tx, passphrase, keypairs[..i]).value, passphrase, keypairs[i]) ==
                         SignChain(lib, tx, passphrase, keypairs))
    decreases |keypairs|
  {
    var n := |keypairs| - 1;
    var front := keypairs[..n];
    if SignChain(lib, tx, passphrase, front).Ok? {
      assert keypairs[..n] == front;
    } else {
      SignChainFirstFailure(lib, tx, passphrase, front);
      var i :| 0 <= i < |front| && SignChain(lib, tx, passphrase, front[..i]).Ok? &&
        lib.sign(SignChain(lib, tx, passphrase, front[..i]).value, passphrase, front[i]) == SignChain(lib, tx, passphrase, front);
      assert front[..i] == keypairs[..i];
      assert front[i] == keypairs[i];
    }
  }

  /**
   * The loop of SubmitContractCall: sign with each key pair in list order,
   * returning at the first failure and never a partly signed transaction.
   */
  method SignInOrder(lib: Library, tx: Transaction, networkPassphrase: string, signingKeypairs: seq<Keypair>)
    returns (r: Result<Transaction, LibError>)
    ensures r == SignChain(lib, tx, networkPassphrase, signingKeypairs)
  {
    var transaction := tx;
    for i := 0 to |signingKeypairs|
      invariant SignChain(lib, tx, networkPassphrase, signingKeypairs[..i]) == Ok(transaction)
    {
      var prefix := signingKeypairs[..i + 1];
      assert prefix[..|prefix| - 1] == signingKeypairs[..i];
      var signed := lib.sign(transaction, networkPassphrase, signingKeypairs[i]);
      if signed.Err? {
        SignChainErrorSticks(lib, tx, networkPassphrase, signingKeypairs, i + 1);
        return Err(signed.error);
      }
      transaction := signed.value;
    }
    assert signingKeypairs[..|signingKeypairs|] == signingKeypairs;
    return Ok(transaction);
  }

  // ---------------------------------------------------------------------------
  // Interpreting the responses
  // ---------------------------------------------------------------------------

  /**
   * What SimulateContractCall makes of a simulation response: exactly one
   * result is required, and its return value is decoded as an ScVal.
   */
  function SimulationResult(lib: Library, response: SimulateTransactionResponse): (r: Result<ScVal, Error>)
    requires |response.results| == 1 ==> response.results[0].returnValueXdr.Some?
    ensures |response.results| != 1 ==> r == Err(UnexpectedResultCount(|response.results|))
    ensures r.Ok? <==> |response.results| == 1 && lib.unmarshalScVal(response.results[0].returnValueXdr.value).Ok?
    ensures r.Ok? ==> lib.unmarshalScVal(response.results[0].returnValueXdr.value) == Ok(r.value)
    ensures |response.results| == 1 && lib.unmarshalScVal(response.results[0].returnValueXdr.value).Err? ==>
      r == Err(Propagated(lib.unmarshalScVal(response.results[0].returnValueXdr.value).error))
  {
    if |response.results| != 1 then
      Err(UnexpectedResultCount(|response.results|))
    else
      match lib.unmarshalScVal(response.results[0].returnValueXdr.value)
      case Err(e) => Err(Propagated(e))
      case Ok(v) => Ok(v)
  }

  /**
   * What SubmitContractCall makes of a send response: the hash exactly when no
   * error result came back; otherwise an error, the decoded contract error or
   * the failure to decode it.
   */
  function SendOutcome(lib: Library, response: SendTransactionResponse): (r: Result<string, Error>)
    ensures r.Ok? <==> response.errorResultXdr == ""
    ensures r.Ok? ==> r.value == response.hash
    ensures r.Err? && lib.unmarshalScError(response.errorResultXdr).Ok? ==>
      r.error == ContractFailed(lib.unmarshalScError(response.errorResultXdr).value)
    ensures r.Err? && lib.unmarshalScError(response.errorResultXdr).Err? ==>
      r.error == Propagated(lib.unmarshalScError(response.errorResultXdr).error)
  {
    if response.errorResultXdr != "" then
      match lib.unmarshalScError(response.errorResultXdr)
      case Err(e) => Err(Propagated(e))
      case Ok(detail) => Err(ContractFailed(detail))
    else
      Ok(response.hash)
  }
}
