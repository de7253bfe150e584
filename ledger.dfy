/**
 * The two loops of LedgerEntryCall (pkg/executor/ledger.go): encoding the
 * requested keys, index for index, and correlating the entries of the answer
 * with the requested keys by position. The remote call between them is in
 * module Executor.
 */
module Ledger {
  import opened Stellar
  import opened Errors
  import opened Rpc

  // ---------------------------------------------------------------------------
  // Encoding the requested keys
  // ---------------------------------------------------------------------------

  /**
   * The encoded keys, in request order, or the error of the first key that
   * does not encode, tagged with its index.
   */
  function EncodeAll(lib: Library, ledgerKeys: seq<LedgerKey>): (r: Result<seq<string>, Error>)
    ensures r.Ok? <==> forall i :: 0 <= i < |ledgerKeys| ==> lib.marshalLedgerKey(ledgerKeys[i]).Ok?
    ensures r.Ok? ==> |r.value| == |ledgerKeys| &&
                      forall i :: 0 <= i < |ledgerKeys| ==> lib.marshalLedgerKey(ledgerKeys[i]) == Ok(r.value[i])
    decreases |ledgerKeys|
  {
    if ledgerKeys == [] then Ok([])
    else
      var n := |ledgerKeys| - 1;
      match EncodeAll(lib, ledgerKeys[..n])
      case Err(e) => Err(e)
      case Ok(keys) =>
        match lib.marshalLedgerKey(ledgerKeys[n])
        case Err(e) => Err(KeyEncodeFailed(n, e))
        case Ok(encoded) => Ok(keys + [encoded])
  }

  /** Once a prefix of the keys fails to encode, encoding all of them fails with that error. */
  lemma {:induction false} EncodeAllErrorSticks(lib: Library, ledgerKeys: seq<LedgerKey>, n: nat)
    requires n <= |ledgerKeys|
    requires EncodeAll(lib, ledgerKeys[..n]).Err?
    ensures EncodeAll(lib, ledgerKeys) == EncodeAll(lib, ledgerKeys[..n])
    decreases |ledgerKeys| - n
  {
    if n < |ledgerKeys| {
      var longer := ledgerKeys[..n + 1];
      assert longer[..|longer| - 1] == ledgerKeys[..n];
      EncodeAllErrorSticks(lib, ledgerKeys, n + 1);
    } else {
      assert ledgerKeys[..n] == ledgerKeys;
    }
  }

  /** An encoding failure is that of the first key that fails, tagged with its index. */
  lemma {:induction false} EncodeAllFirstFailure(lib: Library, ledgerKeys: seq<LedgerKey>)
    requires EncodeAll(lib, ledgerKeys).Err?
    ensures exists i :: (0 <= i < |ledgerKeys| &&
                         lib.marshalLedgerKey(ledgerKeys[i]).Err? &&
                         (forall j :: 0 <= j < i ==> lib.marshalLedgerKey(ledgerKeys[j]).Ok?) &&
                         EncodeAll(lib, ledgerKeys).error == KeyEncodeFailed(i, lib.marshalLedgerKey(ledgerKeys[i]).error))
    decreases |ledgerKeys|
  {
    var n := |ledgerKeys| - 1;
    var front := ledgerKeys[..n];
    if EncodeAll(lib, front).Err? {
      EncodeAllFirstFailure(lib, front);
      var i :| 0 <= i < |front| && lib.marshalLedgerKey(front[i]).Err? &&
        (forall j :: 0 <= j < i ==> lib.marshalLedgerKey(front[j]).Ok?) &&
        EncodeAll(lib, front).error == KeyEncodeFailed(i, lib.marshalLedgerKey(front[i]).error);
      assert front[i] == ledgerKeys[i];
      assert forall j :: 0 <= j < i ==> front[j] == ledgerKeys[j];
    } else {
      assert forall j :: 0 <= j < n ==> front[j] == ledgerKeys[j];
    }
  }

  /**
   * The first loop of LedgerEntryCall: fill a slice of the same length as the
   * request, position by position, returning at the first key that fails.
   */
  method EncodeLedgerKeys(lib: Library, ledgerKeys: seq<LedgerKey>) returns (r: Result<seq<string>, Error>)
    ensures r == EncodeAll(lib, ledgerKeys)
  {
    var keys := new string[|ledgerKeys|];
    for idx := 0 to |ledgerKeys|
      invariant EncodeAll(lib, ledgerKeys[..idx]) == Ok(keys[..idx])
    {
      var prefix := ledgerKeys[..idx + 1];
      assert prefix[..|prefix| - 1] == ledgerKeys[..idx];
      var encodedKey := lib.marshalLedgerKey(ledgerKeys[idx]);
      if encodedKey.Err? {
        EncodeAllErrorSticks(lib, ledgerKeys, idx + 1);
        return Err(KeyEncodeFailed(idx, encodedKey.error));
      }
      keys[idx] := encodedKey.value;
      assert keys[..idx + 1] == keys[..idx] + [encodedKey.value];
    }
    assert ledgerKeys[..|ledgerKeys|] == ledgerKeys;
    assert keys[..] == keys[..|ledgerKeys|];
    return Ok(keys[..]);
  }

  // ---------------------------------------------------------------------------
  // Correlating the answer with the request
  // ---------------------------------------------------------------------------

  /** Entry i of the answer carries, once decoded, the key requested at the same index i. */
  predicate Matches(lib: Library, ledgerKeys: seq<LedgerKey>, entries: seq<LedgerEntryResult>, i: int)
  {
    0 <= i < |entries| && i < |ledgerKeys| && lib.unmarshalLedgerKey(entries[i].keyXdr) == Ok(ledgerKeys[i])
  }

  /** Entry i does not stop the walk: its key decodes and, if it matches, so does its data. */
  predicate Readable(lib: Library, ledgerKeys: seq<LedgerKey>, entries: seq<LedgerEntryResult>, i: int)
  {
    0 <= i < |entries| && lib.unmarshalLedgerKey(entries[i].keyXdr).Ok? &&
    (Matches(lib, ledgerKeys, entries, i) ==> lib.unmarshalLedgerEntryData(entries[i].dataXdr).Ok?)
  }

  /**
   * The result map built from the answer, entry by entry: an entry whose
   * decoded key equals the requested key at its own index is recorded under
   * that key (a later one replacing an earlier one), any other entry is
   * skipped. A key that does not decode stops the walk, even on an entry that
   * would not have matched; data that does not decode stops it with the index.
   */
  function Correlate(lib: Library, ledgerKeys: seq<LedgerKey>, entries: seq<LedgerEntryResult>)
    : (r: Result<map<LedgerKey, LedgerEntryData>, Error>)
    requires |entries| <= |ledgerKeys|
    ensures r.Ok? ==> forall k :: k in r.value ==> exists i :: 0 <= i < |entries| && ledgerKeys[i] == k
    ensures r.Ok? ==> forall k :: k in r.value ==>
      exists i :: 0 <= i < |entries| && lib.unmarshalLedgerEntryData(entries[i].dataXdr) == Ok(r.value[k])
    decreases |entries|
  {
    if entries == [] then Ok(map[])
    else
      var n := |entries| - 1;
      match Correlate(lib, ledgerKeys, entries[..n])
      case Err(e) => Err(e)
      case Ok(result) =>
        match lib.unmarshalLedgerKey(entries[n].keyXdr)
        case Err(e) => Err(Propagated(e))
        case Ok(key) =>
          if key == ledgerKeys[n] then
            match lib.unmarshalLedgerEntryData(entries[n].dataXdr)
            case Err(e) => Err(EntryDecodeFailed(n, e))
            case Ok(body) => Ok(result[key := body])
          else
            Ok(result)
  }

  /** The predicates read the same on a prefix of the answer as on the whole. */
  lemma PrefixAgrees(lib: Library, ledgerKeys: seq<LedgerKey>, entries: seq<LedgerEntryResult>, n: nat)
    requires n <= |entries|
    ensures forall i :: 0 <= i < n ==>
      (Matches(lib, ledgerKeys, entries[..n], i) <==> Matches(lib, ledgerKeys, entries, i)) &&
      (Readable(lib, ledgerKeys, entries[..n], i) <==> Readable(lib, ledgerKeys, entries, i))
  {
  }

  /** Once a prefix of the answer stops the walk, the whole answer stops it with that error. */
  lemma {:induction false} CorrelateErrorSticks(lib: Library, ledgerKeys: seq<LedgerKey>, entries: seq<LedgerEntryResult>, n: nat)
    requires n <= |entries| <= |ledgerKeys|
    requires Correlate(lib, ledgerKeys, entries[..n]).Err?
    ensures Correlate(lib, ledgerKeys, entries) == Correlate(lib, ledgerKeys, entries[..n])
    decreases |entries| - n
  {
    if n < |entries| {
      var longer := entries[..n + 1];
      assert longer[..|longer| - 1] == entries[..n];
      CorrelateErrorSticks(lib, ledgerKeys, entries, n + 1);
    } else {
      assert entries[..n] == entries;
    }
  }

  /** The walk succeeds exactly when every entry of the answer is readable. */
  lemma {:induction false} CorrelateOkIff(lib: Library, ledgerKeys: seq<LedgerKey>, entries: seq<LedgerEntryResult>)
    requires |entries| <= |ledgerKeys|
    ensures Correlate(lib, ledgerKeys, entries).Ok? <==>
            forall i :: 0 <= i < |entries| ==> Readable(lib, ledgerKeys, entries, i)
    decreases |entries|
  {
    if entries != [] {
      var n := |entries| - 1;
      CorrelateOkIff(lib, ledgerKeys, entries[..n]);
      PrefixAgrees(lib, ledgerKeys, entries, n);
      if Correlate(lib, ledgerKeys, entries[..n]).Err? {
        var i :| 0 <= i < n && !Readable(lib, ledgerKeys, entries[..n], i);
        assert !Readable(lib, ledgerKeys, entries, i);
      } else if Correlate(lib, ledgerKeys, entries).Ok? {
        forall i | 0 <= i < |entries| ensures Readable(lib, ledgerKeys, entries, i) {
          if i < n {
            assert Readable(lib, ledgerKeys, entries[..n], i);
          }
        }
      } else {
        assert !Readable(lib, ledgerKeys, entries, n);
      }
    }
  }

  /**
   * A failed walk fails at one entry i after every earlier entry was readable:
   * either i's key does not decode (that error, unchanged) or i matches and its
   * data does not decode (that error, tagged with i).
   */
  lemma {:induction false} CorrelateFirstFailure(lib: Library, ledgerKeys: seq<LedgerKey>, entries: seq<LedgerEntryResult>)
    requires |entries| <= |ledgerKeys|
    requires Correlate(lib, ledgerKeys, entries).Err?
    ensures exists i :: (0 <= i < |entries| &&
                         (forall j :: 0 <= j < i ==> Readable(lib, ledgerKeys, entries, j)) &&
                         !Readable(lib, ledgerKeys, entries, i) &&
                         Correlate(lib, ledgerKeys, entries).error ==
                           if lib.unmarshalLedgerKey(entries[i].keyXdr).Err?
                           then Propagated(lib.unmarshalLedgerKey(entries[i].keyXdr).error)
                           else EntryDecodeFailed(i, lib.unmarshalLedgerEntryData(entries[i].dataXdr).error))
    decreases |entries|
  {
    var n := |entries| - 1;
    var front := entries[..n];
    PrefixAgrees(lib, ledgerKeys, entries, n);
    if Correlate(lib, ledgerKeys, front).Err? {
      CorrelateFirstFailure(lib, ledgerKeys, front);
      var i :| 0 <= i < |front| &&
        (forall j :: 0 <= j < i ==> Readable(lib, ledgerKeys, front, j)) &&
        !Readable(lib, ledgerKeys, front, i) &&
        Correlate(lib, ledgerKeys, front).error ==
          if lib.unmarshalLedgerKey(front[i].keyXdr).Err?
          then Propagated(lib.unmarshalLedgerKey(front[i].keyXdr).error)
          else EntryDecodeFailed(i, lib.unmarshalLedgerEntryData(front[i].dataXdr).error);
      assert front[i] == entries[i];
    } else {
      CorrelateOkIff(lib, ledgerKeys, front);
    }
  }

  /**
   * The keys of a successful walk are exactly the requested keys whose entry
   * came back at their own index: a subset of the request, with every
   * mismatching entry dropped.
   */
  lemma {:induction false} CorrelateKeys(lib: Library, ledgerKeys: seq<LedgerKey>, entries: seq<LedgerEntryResult>)
    requires |entries| <= |ledgerKeys|
    requires Correlate(lib, ledgerKeys, entries).Ok?
    ensures forall k :: k in Correlate(lib, ledgerKeys, entries).value <==>
                        exists i :: Matches(lib, ledgerKeys, entries, i) && ledgerKeys[i] == k
    decreases |entries|
  {
    if entries != [] {
      var n := |entries| - 1;
      var front := entries[..n];
      CorrelateKeys(lib, ledgerKeys, front);
      PrefixAgrees(lib, ledgerKeys, entries, n);
      var result := Correlate(lib, ledgerKeys, entries).value;
      forall k ensures k in result <==> exists i :: Matches(lib, ledgerKeys, entries, i) && ledgerKeys[i] == k {
        if k in result && !Matches(lib, ledgerKeys, entries, n) {
          var i :| Matches(lib, ledgerKeys, front, i) && ledgerKeys[i] == k;
          assert Matches(lib, ledgerKeys, entries, i);
        }
        if exists i :: Matches(lib, ledgerKeys, entries, i) && ledgerKeys[i] == k {
          var i :| Matches(lib, ledgerKeys, entries, i) && ledgerKeys[i] == k;
          if i < n {
            assert Matches(lib, ledgerKeys, front, i);
          }
        }
      }
    }
  }

  /**
   * In a successful walk, the value recorded under a key is the decoded data
   * of the last entry that matched with that key.
   */
  lemma {:induction false} CorrelateLastMatchWins(lib: Library, ledgerKeys: seq<LedgerKey>, entries: seq<LedgerEntryResult>)
    requires |entries| <= |ledgerKeys|
    requires Correlate(lib, ledgerKeys, entries).Ok?
    ensures forall i :: Matches(lib, ledgerKeys, entries, i) &&
                        (forall j :: i < j && Matches(lib, ledgerKeys, entries, j) ==> ledgerKeys[j] != ledgerKeys[i]) ==>
                        ledgerKeys[i] in Correlate(lib, ledgerKeys, entries).value &&
                        lib.unmarshalLedgerEntryData(entries[i].dataXdr) == Ok(Correlate(lib, ledgerKeys, entries).value[ledgerKeys[i]])
    decreases |entries|
  {
    if entries != [] {
      var n := |entries| - 1;
      var front := entries[..n];
      CorrelateLastMatchWins(lib, ledgerKeys, front);
      PrefixAgrees(lib, ledgerKeys, entries, n);
    }
  }

  /**
   * The second loop of LedgerEntryCall: walk the answer, keep each entry whose
   * decoded key equals the requested key at the same index, and return at the
   * first entry that does not decode.
   */
  method CollectEntries(lib: Library, ledgerKeys: seq<LedgerKey>, entries: seq<LedgerEntryResult>)
    returns (r: Result<map<LedgerKey, LedgerEntryData>, Error>)
    requires |entries| <= |ledgerKeys|
    ensures r == Correlate(lib, ledgerKeys, entries)
  {
    var result: map<LedgerKey, LedgerEntryData> := map[];
    for idx := 0 to |entries|
      invariant Correlate(lib, ledgerKeys, entries[..idx]) == Ok(result)
    {
      var prefix := entries[..idx + 1];
      assert prefix[..|prefix| - 1] == entries[..idx];
      var ledgerKeyXdr := lib.unmarshalLedgerKey(entries[idx].keyXdr);
      if ledgerKeyXdr.Err? {
        CorrelateErrorSticks(lib, ledgerKeys, entries, idx + 1);
        return Err(Propagated(ledgerKeyXdr.error));
      }
      if ledgerKeyXdr.value == ledgerKeys[idx] {
        var bodyXdr := lib.unmarshalLedgerEntryData(entries[idx].dataXdr);
        if bodyXdr.Err? {
          CorrelateErrorSticks(lib, ledgerKeys, entries, idx + 1);
          return Err(EntryDecodeFailed(idx, bodyXdr.error));
        }
        result := result[ledgerKeyXdr.value := bodyXdr.value];
      }
    }
    assert entries[..|entries|] == entries;
    return Ok(result);
  }

  /**
   * Entries are correlated by position, not searched for: with keys
   * [k1, k2, k3] and an answer holding entries only for k1 and k3, the entry
   * for k3 sits at index 1, is compared with k2, and is dropped.
   */
  lemma MissingKeyDropsLaterEntries(lib: Library, k1: LedgerKey, k2: LedgerKey, k3: LedgerKey,
                                    e1: LedgerEntryResult, e3: LedgerEntryResult, d1: LedgerEntryData)
    requires k2 != k3
    requires lib.unmarshalLedgerKey(e1.keyXdr) == Ok(k1)
    requires lib.unmarshalLedgerKey(e3.keyXdr) == Ok(k3)
    requires lib.unmarshalLedgerEntryData(e1.dataXdr) == Ok(d1)
    ensures Correlate(lib, [k1, k2, k3], [e1, e3]) == Ok(map[k1 := d1])
  {
    var ks, es := [k1, k2, k3], [e1, e3];
    assert es[..1] == [e1];
    assert [e1][..0] == [];
    assert Correlate(lib, ks, []) == Ok(map[]);
    assert Correlate(lib, ks, [e1]) == Ok(map[k1 := d1]);
  }
}
