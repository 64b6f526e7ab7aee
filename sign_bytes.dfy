/**
 * The legacy sign bytes (x/auth/migrations/legacytx/stdsign.go:30-87): the
 * replay-prevention document StdSignDoc, its amino JSON form, and
 * StdSignBytes, which fills the document from a transaction's fields and
 * canonicalises it.
 *
 * The two amino codecs are parameters: `marshalMsg` is the JSON that
 * RegressionTestingAminoCodec gives a message, `uint` is how legacy.Cdc
 * writes an unsigned 64-bit field. The process-wide codec variable is an
 * Option: None stands for the nil pointer that makes StdSignBytes panic.
 */
module SignBytes {
  import opened Wrappers
  import opened Json

  newtype u64 = x: int | 0 <= x < 0x1_0000_0000_0000_0000

  /** StdSignDoc; fee and each message are raw JSON placed into the document verbatim. */
  datatype StdSignDoc = StdSignDoc(
    accountNumber: u64,
    sequence: u64,
    timeoutHeight: u64,
    chainId: string,
    memo: string,
    fee: Json,
    msgs: seq<Json>)

  /** The member names of the document's JSON form, in declaration order. */
  function DocKeys(withTimeout: bool): seq<string>
  {
    ["account_number", "sequence"] + (if withTimeout then ["timeout_height"] else [])
    + ["chain_id", "memo", "fee", "msgs"]
  }

  lemma DocKeysDistinct(withTimeout: bool)
    ensures NoDuplicates(DocKeys(withTimeout))
  {
    var ks := DocKeys(withTimeout);
    var n := |ks|;
    assert NoDuplicates(ks[n - 1..]) by { assert ks[n - 1..][1..] == []; }
    assert NoDuplicates(ks[n - 2..]) by { assert ks[n - 2..][1..] == ks[n - 1..]; }
    assert NoDuplicates(ks[n - 3..]) by { assert ks[n - 3..][1..] == ks[n - 2..]; }
    assert NoDuplicates(ks[n - 4..]) by { assert ks[n - 4..][1..] == ks[n - 3..]; }
    assert NoDuplicates(ks[n - 5..]) by { assert ks[n - 5..][1..] == ks[n - 4..]; }
    assert NoDuplicates(ks[n - 6..]) by { assert ks[n - 6..][1..] == ks[n - 5..]; }
    if withTimeout {
      assert NoDuplicates(ks[n - 7..]) by { assert ks[n - 7..][1..] == ks[n - 6..]; }
      assert ks[n - 7..] == ks;
    } else {
      assert ks[n - 6..] == ks;
    }
  }

  /** The members of the document's JSON form. */
  function DocMembers(doc: StdSignDoc, uint: u64 -> Json): seq<Member>
  {
    [Member("account_number", uint(doc.accountNumber)), Member("sequence", uint(doc.sequence))]
    + (if doc.timeoutHeight == 0 then [] else [Member("timeout_height", uint(doc.timeoutHeight))])
    + [Member("chain_id", JStr(doc.chainId)), Member("memo", JStr(doc.memo)),
       Member("fee", doc.fee), Member("msgs", JArr(doc.msgs))]
  }

  /**
   * The document's JSON form: one member per field under its json tag, in
   * declaration order; `timeout_height` carries `omitempty` and so is left
   * out when it is zero.
   */
  function SignDocJson(doc: StdSignDoc, uint: u64 -> Json): (j: Json)
    ensures j.JObj? && DistinctKeys(j.members)
    ensures KeysOf(j.members) == DocKeys(doc.timeoutHeight != 0)
  {
    var ms := DocMembers(doc, uint);
    assert KeysOf(ms) == DocKeys(doc.timeoutHeight != 0);
    DocKeysDistinct(doc.timeoutHeight != 0);
    JObj(ms)
  }

  /** The document's JSON form holds each field under its json tag. */
  lemma SignDocJsonFields(doc: StdSignDoc, uint: u64 -> Json)
    ensures Lookup(SignDocJson(doc, uint), "account_number") == Some(uint(doc.accountNumber))
    ensures Lookup(SignDocJson(doc, uint), "sequence") == Some(uint(doc.sequence))
    ensures Lookup(SignDocJson(doc, uint), "chain_id") == Some(JStr(doc.chainId))
    ensures Lookup(SignDocJson(doc, uint), "memo") == Some(JStr(doc.memo))
    ensures Lookup(SignDocJson(doc, uint), "fee") == Some(doc.fee)
    ensures Lookup(SignDocJson(doc, uint), "msgs") == Some(JArr(doc.msgs))
  {
    var ms := SignDocJson(doc, uint).members;
    FindMember(ms, Member("account_number", uint(doc.accountNumber)));
    FindMember(ms, Member("sequence", uint(doc.sequence)));
    FindMember(ms, Member("chain_id", JStr(doc.chainId)));
    FindMember(ms, Member("memo", JStr(doc.memo)));
    FindMember(ms, Member("fee", doc.fee));
    FindMember(ms, Member("msgs", JArr(doc.msgs)));
  }

  /** `timeout_height` is omitted exactly when it is zero (omitempty). */
  lemma SignDocJsonTimeout(doc: StdSignDoc, uint: u64 -> Json)
    ensures Lookup(SignDocJson(doc, uint), "timeout_height")
         == if doc.timeoutHeight == 0 then None else Some(uint(doc.timeoutHeight))
  {
    var ms := SignDocJson(doc, uint).members;
    if doc.timeoutHeight != 0 {
      assert ms[2] == Member("timeout_height", uint(doc.timeoutHeight));
      FindMember(ms, ms[2]);
    } else {
      assert "timeout_height" !in DocKeys(false);
    }
  }

  /** One canonical JSON value per message, in message order. */
  function SortedMsgs<M>(marshalMsg: M -> Json, msgs: seq<M>): (r: seq<Json>)
    ensures |r| == |msgs|
    ensures forall k :: 0 <= k < |msgs| ==> r[k] == MustSortJson(marshalMsg(msgs[k]))
  {
    if msgs == [] then [] else SortedMsgs(marshalMsg, msgs[..|msgs| - 1]) + [MustSortJson(marshalMsg(msgs[|msgs| - 1]))]
  }

  /** The document StdSignBytes builds before the final sort. */
  function BuildSignDoc<M>(
    marshalMsg: M -> Json, chainId: string, accnum: u64, sequence: u64, timeout: u64,
    fee: Json, msgs: seq<M>, memo: string): StdSignDoc
  {
    StdSignDoc(accnum, sequence, timeout, chainId, memo, fee, SortedMsgs(marshalMsg, msgs))
  }

  /** What StdSignBytes returns, as a function of its inputs. */
  function SignBytesOf<M>(
    marshalMsg: M -> Json, uint: u64 -> Json, chainId: string, accnum: u64, sequence: u64,
    timeout: u64, fee: Json, msgs: seq<M>, memo: string): Json
  {
    MustSortJson(SignDocJson(BuildSignDoc(marshalMsg, chainId, accnum, sequence, timeout, fee, msgs, memo), uint))
  }

  /**
   * StdSignBytes: panics unless the amino codec has been set; otherwise
   * collects the sorted JSON of each message in order, places them with the
   * other fields into a StdSignDoc and returns the sorted JSON of that.
   */
  method StdSignBytes<M>(
    regressionCodec: Option<M -> Json>, uint: u64 -> Json, chainId: string, accnum: u64,
    sequence: u64, timeout: u64, fee: Json, msgs: seq<M>, memo: string)
    returns (bz: Json)
    requires regressionCodec.Some?
    ensures bz == SignBytesOf(regressionCodec.value, uint, chainId, accnum, sequence, timeout, fee, msgs, memo)
  {
    var marshalMsg := regressionCodec.value;
    var msgsBytes: seq<Json> := [];
    for k := 0 to |msgs|
      invariant msgsBytes == SortedMsgs(marshalMsg, msgs[..k])
    {
      var msgBz := marshalMsg(msgs[k]);
      assert msgs[..k + 1][..k] == msgs[..k];
      msgsBytes := msgsBytes + [MustSortJson(msgBz)];
    }
    assert msgs[..|msgs|] == msgs;
    var doc := StdSignDoc(accnum, sequence, timeout, chainId, memo, fee, msgsBytes);
    bz := MustSortJson(SignDocJson(doc, uint));
  }

  /**
   * The sign bytes are in canonical form, so sorting them once more (as a
   * verifier re-deriving them would) changes nothing.
   */
  lemma SignBytesCanonical<M>(
    marshalMsg: M -> Json, uint: u64 -> Json, chainId: string, accnum: u64, sequence: u64,
    timeout: u64, fee: Json, msgs: seq<M>, memo: string)
    ensures IsCanonical(SignBytesOf(marshalMsg, uint, chainId, accnum, sequence, timeout, fee, msgs, memo))
    ensures var bz := SignBytesOf(marshalMsg, uint, chainId, accnum, sequence, timeout, fee, msgs, memo);
            MustSortJson(bz) == bz
  {
    var doc := SignDocJson(BuildSignDoc(marshalMsg, chainId, accnum, sequence, timeout, fee, msgs, memo), uint);
    MustSortJsonCanonical(doc);
    MustSortJsonIdempotent(doc);
  }

  /** An array of canonical values is left as it is by the canonicaliser. */
  lemma SortedMsgsCanonical<M>(marshalMsg: M -> Json, msgs: seq<M>)
    ensures MustSortJson(JArr(SortedMsgs(marshalMsg, msgs))) == JArr(SortedMsgs(marshalMsg, msgs))
  {
    var items := SortedMsgs(marshalMsg, msgs);
    forall k | 0 <= k < |items| ensures IsCanonical(items[k]) {
      MustSortJsonCanonical(marshalMsg(msgs[k]));
    }
    MustSortJsonOfCanonical(JArr(items));
  }

  /**
   * The fields of the sign bytes: `msgs` holds exactly one sorted entry per
   * message, in message order; `fee` holds the fee in sorted form;
   * `timeout_height` is present exactly when the timeout is not zero; the
   * chain id and memo are carried as strings.
   */
  lemma SignBytesFields<M>(
    marshalMsg: M -> Json, uint: u64 -> Json, chainId: string, accnum: u64, sequence: u64,
    timeout: u64, fee: Json, msgs: seq<M>, memo: string)
    ensures var bz := SignBytesOf(marshalMsg, uint, chainId, accnum, sequence, timeout, fee, msgs, memo);
            && Lookup(bz, "msgs") == Some(JArr(SortedMsgs(marshalMsg, msgs)))
            && Lookup(bz, "fee") == Some(MustSortJson(fee))
            && Lookup(bz, "timeout_height") == (if timeout == 0 then None else Some(MustSortJson(uint(timeout))))
            && Lookup(bz, "chain_id") == Some(JStr(chainId))
            && Lookup(bz, "memo") == Some(JStr(memo))
            && Lookup(bz, "account_number") == Some(MustSortJson(uint(accnum)))
            && Lookup(bz, "sequence") == Some(MustSortJson(uint(sequence)))
  {
    var d := BuildSignDoc(marshalMsg, chainId, accnum, sequence, timeout, fee, msgs, memo);
    var doc := SignDocJson(d, uint);
    SignDocJsonFields(d, uint);
    SignDocJsonTimeout(d, uint);
    LookupMustSortJson(doc.members, "msgs");
    SortedMsgsCanonical(marshalMsg, msgs);
    LookupMustSortJson(doc.members, "fee");
    LookupMustSortJson(doc.members, "timeout_height");
    LookupMustSortJson(doc.members, "chain_id");
    LookupMustSortJson(doc.members, "memo");
    LookupMustSortJson(doc.members, "account_number");
    LookupMustSortJson(doc.members, "sequence");
  }

  /**
   * Determinism across encoders: message and fee JSON that differ only in
   * the order in which objects, at any depth, list their members lead to
   * the same sign bytes.
   */
  lemma SignBytesIgnoresMemberOrder<M>(
    marshalA: M -> Json, marshalB: M -> Json, uint: u64 -> Json, chainId: string, accnum: u64,
    sequence: u64, timeout: u64, feeA: Json, feeB: Json, msgs: seq<M>, memo: string)
    requires forall k :: 0 <= k < |msgs| ==> SameUpToOrder(marshalA(msgs[k]), marshalB(msgs[k]))
    requires SameUpToOrder(feeA, feeB)
    ensures SignBytesOf(marshalA, uint, chainId, accnum, sequence, timeout, feeA, msgs, memo)
         == SignBytesOf(marshalB, uint, chainId, accnum, sequence, timeout, feeB, msgs, memo)
  {
    forall k | 0 <= k < |msgs| ensures MustSortJson(marshalA(msgs[k])) == MustSortJson(marshalB(msgs[k])) {
      MustSortJsonIgnoresKeyOrder(marshalA(msgs[k]), marshalB(msgs[k]));
    }
    assert SortedMsgs(marshalA, msgs) == SortedMsgs(marshalB, msgs);
    MustSortJsonIgnoresKeyOrder(feeA, feeB);
    var docA := BuildSignDoc(marshalA, chainId, accnum, sequence, timeout, feeA, msgs, memo);
    var docB := BuildSignDoc(marshalB, chainId, accnum, sequence, timeout, feeB, msgs, memo);
    DocMembersPointwise(docA, docB, uint);
    MustSortJsonPointwise(DocMembers(docA, uint), DocMembers(docB, uint));
  }

  /** Two documents that differ at most in a fee with the same canonical form have member lists that agree after canonicalisation. */
  lemma DocMembersPointwise(docA: StdSignDoc, docB: StdSignDoc, uint: u64 -> Json)
    requires docA.(fee := docB.fee) == docB && MustSortJson(docA.fee) == MustSortJson(docB.fee)
    ensures var a, b := DocMembers(docA, uint), DocMembers(docB, uint);
      |a| == |b| && forall i :: 0 <= i < |a| ==> a[i].key == b[i].key && MustSortJson(a[i].value) == MustSortJson(b[i].value)
  {
    var a, b := DocMembers(docA, uint), DocMembers(docB, uint);
    var n := |a|;
    assert a[..n - 2] == b[..n - 2];
    assert a[n - 2] == Member("fee", docA.fee) && b[n - 2] == Member("fee", docB.fee);
    assert a[n - 1] == b[n - 1];
    forall i | 0 <= i < n ensures a[i].key == b[i].key && MustSortJson(a[i].value) == MustSortJson(b[i].value) {
      if i < n - 2 {
        assert a[i] == a[..n - 2][i] && b[i] == b[..n - 2][i];
      }
    }
  }

  /** A transaction without messages still signs a document whose `msgs` is an empty array. */
  lemma SignBytesNoMessages<M>(
    marshalMsg: M -> Json, uint: u64 -> Json, chainId: string, accnum: u64, sequence: u64,
    timeout: u64, fee: Json, memo: string)
    ensures Lookup(SignBytesOf(marshalMsg, uint, chainId, accnum, sequence, timeout, fee, [], memo), "msgs")
         == Some(JArr([]))
  {
    SignBytesFields(marshalMsg, uint, chainId, accnum, sequence, timeout, fee, [], memo);
  }
}
