/**
 * Legacy signatures (x/auth/migrations/legacytx/stdsign.go:89-189): the
 * StdSignature pair, its display form, and the decoder that turns a legacy
 * signature blob into structured signature data, recursing through
 * multisig keys.
 *
 * The amino codec's binary decoding of a multisig record is the parameter
 * `unmarshal`. `multisig.NewMultisig` and `multisig.AddSignature` live in
 * another package; the multi result records what is handed to them: the
 * size given to NewMultisig and the (index, data) pairs added, in order.
 */
module LegacySignature {
  import opened Wrappers
  import opened Hex

  /** SIGN_MODE_LEGACY_AMINO_JSON in the signing enum. */
  const SignModeLegacyAminoJson: int := 127

  /** A public key: a plain key, or a multisig key over constituent keys in a fixed order. */
  datatype PubKey =
    | Simple(raw: Bytes)
    | Multi(threshold: nat, pubKeys: seq<PubKey>)

  /** The amino multisig record: one bit per constituent, and the signatures of the set bits in order. */
  datatype AminoMultisignature = AminoMultisignature(bitArray: seq<bool>, sigs: seq<Bytes>)

  /** The codec's decoding of a blob into a multisig record, or the codec's error message. */
  type Unmarshal = Bytes -> Result<AminoMultisignature, string>

  datatype SignatureData =
    | Single(signMode: int, signature: Bytes)
    | MultiData(size: nat, added: seq<Entry>)

  /** One AddSignature call: the index passed and the data added. */
  datatype Entry = Entry(index: nat, data: SignatureData)

  datatype Error =
    | CodecError(msg: string)
    | Wrapped(cause: Error, sigIdx: nat)   // "Unable to convert Signature to SigData %d"

  /** multisig.NewMultisig(n). */
  function NewMultisig(n: nat): SignatureData
  {
    MultiData(n, [])
  }

  /** multisig.AddSignature(signatures, data, index). */
  function AddSignature(signatures: SignatureData, data: SignatureData, index: nat): SignatureData
    requires signatures.MultiData?
  {
    MultiData(signatures.size, signatures.added + [Entry(index, data)])
  }

  /** The number of set bits. */
  function CountSet(bits: seq<bool>): nat
  {
    if bits == [] then 0 else CountSet(bits[..|bits| - 1]) + (if bits[|bits| - 1] then 1 else 0)
  }

  /** How many set bits come before position `p`: the signature index of a set bit at `p`. */
  function Rank(bits: seq<bool>, p: nat): nat
    requires p <= |bits|
  {
    CountSet(bits[..p])
  }

  /** The type assertion `key.(multisig.PubKey)`; a nil key is not a multisig key. */
  predicate IsMultisig(key: Option<PubKey>)
  {
    key.Some? && key.value.Multi?
  }

  /** The key the recursion measures (a nil key does not recurse). */
  function Measure(key: Option<PubKey>): PubKey
  {
    if key.Some? then key.value else Simple([])
  }

  /**
   * No slice index in the decoder goes out of range, for this key and blob
   * and for every nested pair the decoder could reach: each set bit names a
   * constituent key, and there is a signature for it.
   */
  predicate WellFormed(unmarshal: Unmarshal, key: Option<PubKey>, sig: Bytes)
    decreases Measure(key), 1
  {
    IsMultisig(key) ==>
      match unmarshal(sig)
      case Err(_) => true
      case Ok(ms) => SlotsWellFormed(unmarshal, key.value, ms)
  }

  predicate SlotsWellFormed(unmarshal: Unmarshal, parent: PubKey, ms: AminoMultisignature)
    requires parent.Multi?
    decreases parent, 0
  {
    forall p :: 0 <= p < |ms.bitArray| && ms.bitArray[p] ==>
      p < |parent.pubKeys| && Rank(ms.bitArray, p) < |ms.sigs|
      && WellFormed(unmarshal, Some(parent.pubKeys[p]), ms.sigs[Rank(ms.bitArray, p)])
  }

  lemma RankStep(bits: seq<bool>, i: nat)
    requires i < |bits|
    ensures Rank(bits, i + 1) == Rank(bits, i) + (if bits[i] then 1 else 0)
  {
    assert bits[..i + 1][..i] == bits[..i];
  }

  /**
   * pubKeySigToSigData, as a function: a non-multisig (or nil) key gives the
   * blob verbatim as a legacy amino JSON single signature; a multisig key
   * decodes the blob and walks the bit array (DecodeSlots).
   */
  function SigDataOf(unmarshal: Unmarshal, key: Option<PubKey>, sig: Bytes): (r: Result<SignatureData, Error>)
    requires WellFormed(unmarshal, key, sig)
    ensures !IsMultisig(key) ==> r == Ok(Single(SignModeLegacyAminoJson, sig))
    ensures IsMultisig(key) && unmarshal(sig).Err? ==> r == Err(CodecError(unmarshal(sig).error))
    ensures r.Ok? && IsMultisig(key) ==>
      unmarshal(sig).Ok? && r.value.MultiData? && r.value.size == |unmarshal(sig).value.bitArray|
      && |r.value.added| == CountSet(unmarshal(sig).value.bitArray)
    decreases Measure(key), 1, 0
  {
    if !IsMultisig(key) then Ok(Single(SignModeLegacyAminoJson, sig))
    else
      match unmarshal(sig)
      case Err(msg) => Err(CodecError(msg))
      case Ok(ms) => DecodeSlots(unmarshal, key.value, ms, 0, 0, NewMultisig(|ms.bitArray|))
  }

  /**
   * The loop of pubKeySigToSigData from position `i`, with `sigIdx` signatures
   * consumed and `signatures` built so far.
   */
  function DecodeSlots(
    unmarshal: Unmarshal, parent: PubKey, ms: AminoMultisignature,
    i: nat, sigIdx: nat, signatures: SignatureData): (r: Result<SignatureData, Error>)
    requires parent.Multi? && SlotsWellFormed(unmarshal, parent, ms)
    requires i <= |ms.bitArray| && sigIdx == Rank(ms.bitArray, i)
    requires signatures.MultiData? && |signatures.added| == sigIdx
    ensures r.Ok? ==>
      && r.value.MultiData? && r.value.size == signatures.size
      && |r.value.added| == CountSet(ms.bitArray) && sigIdx <= |r.value.added|
      && r.value.added[..sigIdx] == signatures.added
    decreases parent, 0, |ms.bitArray| - i
  {
    if i == |ms.bitArray| then
      assert ms.bitArray[..i] == ms.bitArray;
      assert signatures.added[..sigIdx] == signatures.added;
      Ok(signatures)
    else
      RankStep(ms.bitArray, i);
      if ms.bitArray[i] then
        match SigDataOf(unmarshal, Some(parent.pubKeys[i]), ms.sigs[sigIdx])
        case Err(e) => Err(Wrapped(e, sigIdx))
        case Ok(data) =>
          var next := AddSignature(signatures, data, sigIdx);
          var r := DecodeSlots(unmarshal, parent, ms, i + 1, sigIdx + 1, next);
          assert r.Ok? ==> r.value.added[..sigIdx + 1][..sigIdx] == r.value.added[..sigIdx];
          r
      else
        DecodeSlots(unmarshal, parent, ms, i + 1, sigIdx, signatures)
  }

  /**
   * pubKeySigToSigData as the source runs it: a loop over the bit array that
   * advances `sigIdx` at every set bit, records each decoded sub-signature in
   * `sigDatas` and hands it to AddSignature, and returns at the first nested
   * error, wrapped with the current `sigIdx`.
   */
  method PubKeySigToSigData(unmarshal: Unmarshal, key: Option<PubKey>, sig: Bytes)
    returns (r: Result<SignatureData, Error>)
    requires WellFormed(unmarshal, key, sig)
    ensures r == SigDataOf(unmarshal, key, sig)
    decreases Measure(key), 1, 0
  {
    if !IsMultisig(key) {
      return Ok(Single(SignModeLegacyAminoJson, sig));
    }
    var decoded := unmarshal(sig);
    if decoded.Err? {
      return Err(CodecError(decoded.error));
    }
    var multiSig := decoded.value;
    var sigs := multiSig.sigs;
    var sigDatas := new Option<SignatureData>[|sigs|](_ => None);
    var pubKeys := key.value.pubKeys;
    var bitArray := multiSig.bitArray;
    var n := |bitArray|;
    var signatures := NewMultisig(n);
    var sigIdx := 0;
    for i := 0 to n
      invariant sigIdx == Rank(bitArray, i)
      invariant signatures.MultiData? && |signatures.added| == sigIdx && sigIdx <= |sigs|
      invariant DecodeSlots(unmarshal, key.value, multiSig, i, sigIdx, signatures)
             == DecodeSlots(unmarshal, key.value, multiSig, 0, 0, NewMultisig(n))
      invariant forall k :: 0 <= k < sigIdx ==> sigDatas[k] == Some(signatures.added[k].data)
    {
      RankStep(bitArray, i);
      if bitArray[i] {
        var data := PubKeySigToSigData(unmarshal, Some(pubKeys[i]), sigs[sigIdx]);
        if data.Err? {
          return Err(Wrapped(data.error, sigIdx));
        }
        sigDatas[sigIdx] := Some(data.value);
        signatures := AddSignature(signatures, data.value, sigIdx);
        sigIdx := sigIdx + 1;
      }
    }
    assert bitArray[..n] == bitArray;
    return Ok(signatures);
  }

  // ---------------------------------------------------------------------
  // Bit ranks
  // ---------------------------------------------------------------------

  /** A later position has at least the rank of an earlier one, and more if a set bit lies between. */
  lemma {:induction false} RankMonotone(bits: seq<bool>, p: nat, q: nat)
    requires p <= q <= |bits|
    ensures Rank(bits, p) <= Rank(bits, q)
    ensures p < q && bits[p] ==> Rank(bits, p) < Rank(bits, q)
    decreases q - p
  {
    if p < q {
      RankStep(bits, q - 1);
      RankMonotone(bits, p, q - 1);
      if bits[p] && p == q - 1 {
        RankStep(bits, p);
      }
    }
  }

  /** Every signature index below the number of set bits is the rank of some set bit. */
  lemma {:induction false} RankOnto(bits: seq<bool>, k: nat)
    requires k < CountSet(bits)
    ensures exists p :: 0 <= p < |bits| && bits[p] && Rank(bits, p) == k
  {
    var init := bits[..|bits| - 1];
    if k < CountSet(init) {
      RankOnto(init, k);
      var p :| 0 <= p < |init| && init[p] && Rank(init, p) == k;
      assert bits[..p] == init[..p];
    } else {
      assert bits[..|bits| - 1] == init;
    }
  }

  /** The rank of a set bit is a valid signature index: below the number of set bits. */
  lemma RankBelowCount(bits: seq<bool>, p: nat)
    requires p < |bits| && bits[p]
    ensures Rank(bits, p) < CountSet(bits)
  {
    RankMonotone(bits, p, |bits|);
    assert bits[..|bits|] == bits;
  }

  // ---------------------------------------------------------------------
  // What the decoder computes
  // ---------------------------------------------------------------------

  /** The nested decode for the set bit at position `p`: its constituent key against the signature of its rank. */
  function SlotData(unmarshal: Unmarshal, parent: PubKey, ms: AminoMultisignature, p: nat): Result<SignatureData, Error>
    requires parent.Multi? && SlotsWellFormed(unmarshal, parent, ms)
    requires p < |ms.bitArray| && ms.bitArray[p]
  {
    SigDataOf(unmarshal, Some(parent.pubKeys[p]), ms.sigs[Rank(ms.bitArray, p)])
  }

  /**
   * The walk from position `i` succeeds exactly when every later set bit's
   * nested decode succeeds, and then the entry at each such bit's rank is
   * that bit's nested decode, added under its rank.
   */
  lemma {:induction false} DecodeSlotsOk(
    unmarshal: Unmarshal, parent: PubKey, ms: AminoMultisignature,
    i: nat, sigIdx: nat, signatures: SignatureData)
    requires parent.Multi? && SlotsWellFormed(unmarshal, parent, ms)
    requires i <= |ms.bitArray| && sigIdx == Rank(ms.bitArray, i)
    requires signatures.MultiData? && |signatures.added| == sigIdx
    ensures var r := DecodeSlots(unmarshal, parent, ms, i, sigIdx, signatures);
      && (r.Ok? <==> forall p :: i <= p < |ms.bitArray| && ms.bitArray[p] ==> SlotData(unmarshal, parent, ms, p).Ok?)
      && (r.Ok? ==> forall p :: i <= p < |ms.bitArray| && ms.bitArray[p] ==>
            Rank(ms.bitArray, p) < |r.value.added|
            && r.value.added[Rank(ms.bitArray, p)] == Entry(Rank(ms.bitArray, p), SlotData(unmarshal, parent, ms, p).value))
    decreases |ms.bitArray| - i
  {
    var bits := ms.bitArray;
    if i < |bits| {
      RankStep(bits, i);
      if bits[i] {
        var d := SlotData(unmarshal, parent, ms, i);
        if d.Ok? {
          var next := AddSignature(signatures, d.value, sigIdx);
          DecodeSlotsOk(unmarshal, parent, ms, i + 1, sigIdx + 1, next);
          var r := DecodeSlots(unmarshal, parent, ms, i + 1, sigIdx + 1, next);
          if r.Ok? {
            assert r.value.added[..sigIdx + 1][sigIdx] == next.added[sigIdx];
            forall p | i < p < |bits| && bits[p] ensures Rank(bits, p) < |r.value.added| {
              RankBelowCount(bits, p);
            }
          }
        }
      } else {
        DecodeSlotsOk(unmarshal, parent, ms, i + 1, sigIdx, signatures);
      }
    }
  }

  /**
   * A failed walk failed at a set bit whose nested decode failed, every
   * earlier set bit having decoded: the error is that nested error wrapped
   * with the bit's signature index.
   */
  lemma {:induction false} DecodeSlotsErr(
    unmarshal: Unmarshal, parent: PubKey, ms: AminoMultisignature,
    i: nat, sigIdx: nat, signatures: SignatureData)
    requires parent.Multi? && SlotsWellFormed(unmarshal, parent, ms)
    requires i <= |ms.bitArray| && sigIdx == Rank(ms.bitArray, i)
    requires signatures.MultiData? && |signatures.added| == sigIdx
    requires DecodeSlots(unmarshal, parent, ms, i, sigIdx, signatures).Err?
    ensures exists p :: (
      && i <= p < |ms.bitArray| && ms.bitArray[p]
      && SlotData(unmarshal, parent, ms, p).Err?
      && DecodeSlots(unmarshal, parent, ms, i, sigIdx, signatures).error
         == Wrapped(SlotData(unmarshal, parent, ms, p).error, Rank(ms.bitArray, p))
      && forall q :: i <= q < p && ms.bitArray[q] ==> SlotData(unmarshal, parent, ms, q).Ok?)
    decreases |ms.bitArray| - i
  {
    var bits := ms.bitArray;
    RankStep(bits, i);
    var r := DecodeSlots(unmarshal, parent, ms, i, sigIdx, signatures);
    if bits[i] && SlotData(unmarshal, parent, ms, i).Err? {
      assert r.error == Wrapped(SlotData(unmarshal, parent, ms, i).error, Rank(bits, i));
    } else {
      var next := if bits[i] then AddSignature(signatures, SlotData(unmarshal, parent, ms, i).value, sigIdx) else signatures;
      var nextIdx := if bits[i] then sigIdx + 1 else sigIdx;
      assert r == DecodeSlots(unmarshal, parent, ms, i + 1, nextIdx, next);
      DecodeSlotsErr(unmarshal, parent, ms, i + 1, nextIdx, next);
      var p :| i + 1 <= p < |bits| && bits[p]
        && SlotData(unmarshal, parent, ms, p).Err?
        && DecodeSlots(unmarshal, parent, ms, i + 1, nextIdx, next).error
           == Wrapped(SlotData(unmarshal, parent, ms, p).error, Rank(bits, p))
        && forall q :: i + 1 <= q < p && bits[q] ==> SlotData(unmarshal, parent, ms, q).Ok?;
      assert forall q :: i <= q < p && bits[q] ==> SlotData(unmarshal, parent, ms, q).Ok?;
    }
  }

  /**
   * Entry `k` was added at index `k` and holds the nested decode for the set
   * bit of rank `k`.
   */
  predicate AddedAtRank(unmarshal: Unmarshal, parent: PubKey, ms: AminoMultisignature, added: seq<Entry>, k: nat)
    requires parent.Multi? && SlotsWellFormed(unmarshal, parent, ms) && k < |added|
  {
    exists p :: 0 <= p < |ms.bitArray| && ms.bitArray[p] && Rank(ms.bitArray, p) == k
      && added[k].index == k && SlotData(unmarshal, parent, ms, p) == Ok(added[k].data)
  }

  /**
   * A multisig key whose blob decodes: the result is Ok exactly when every
   * set bit's nested decode is Ok; it then has size n (the bit array's
   * count) and one entry per set bit, and its k-th entry, added at index k,
   * is the nested decode of the k-th signature against the constituent key
   * at the position of the k-th set bit.
   */
  lemma MultisigDecoded(unmarshal: Unmarshal, key: Option<PubKey>, sig: Bytes)
    requires WellFormed(unmarshal, key, sig) && IsMultisig(key) && unmarshal(sig).Ok?
    ensures var ms, r := unmarshal(sig).value, SigDataOf(unmarshal, key, sig);
      && (r.Ok? <==> forall p :: 0 <= p < |ms.bitArray| && ms.bitArray[p] ==> SlotData(unmarshal, key.value, ms, p).Ok?)
      && (r.Ok? ==>
            && r.value.MultiData? && r.value.size == |ms.bitArray|
            && |r.value.added| == CountSet(ms.bitArray)
            && forall k :: 0 <= k < |r.value.added| ==> AddedAtRank(unmarshal, key.value, ms, r.value.added, k))
  {
    var ms := unmarshal(sig).value;
    var n := |ms.bitArray|;
    assert ms.bitArray[..0] == [];
    DecodeSlotsOk(unmarshal, key.value, ms, 0, 0, NewMultisig(n));
    var r := SigDataOf(unmarshal, key, sig);
    if r.Ok? {
      assert r == DecodeSlots(unmarshal, key.value, ms, 0, 0, NewMultisig(n));
      forall k | 0 <= k < |r.value.added| ensures AddedAtRank(unmarshal, key.value, ms, r.value.added, k) {
        RankOnto(ms.bitArray, k);
        var p :| 0 <= p < n && ms.bitArray[p] && Rank(ms.bitArray, p) == k;
        assert r.value.added[k] == Entry(k, SlotData(unmarshal, key.value, ms, p).value);
        assert SlotData(unmarshal, key.value, ms, p) == Ok(r.value.added[k].data);
      }
    }
  }

  /**
   * A multisig key whose blob decodes but some nested decode fails: the
   * error is the first failing set bit's error wrapped with its signature
   * index; no signature data is returned.
   */
  lemma MultisigFailed(unmarshal: Unmarshal, key: Option<PubKey>, sig: Bytes)
    requires WellFormed(unmarshal, key, sig) && IsMultisig(key) && unmarshal(sig).Ok?
    requires SigDataOf(unmarshal, key, sig).Err?
    ensures var ms := unmarshal(sig).value;
      exists p :: (
        && 0 <= p < |ms.bitArray| && ms.bitArray[p]
        && SlotData(unmarshal, key.value, ms, p).Err?
        && SigDataOf(unmarshal, key, sig)
           == Err(Wrapped(SlotData(unmarshal, key.value, ms, p).error, Rank(ms.bitArray, p)))
        && forall q :: 0 <= q < p && ms.bitArray[q] ==> SlotData(unmarshal, key.value, ms, q).Ok?)
  {
    var ms := unmarshal(sig).value;
    assert ms.bitArray[..0] == [];
    DecodeSlotsErr(unmarshal, key.value, ms, 0, 0, NewMultisig(|ms.bitArray|));
  }

  /** A bit array with no set bits gives an empty multi result of size n, and no error. */
  lemma EmptyBitArray(unmarshal: Unmarshal, key: Option<PubKey>, sig: Bytes)
    requires WellFormed(unmarshal, key, sig) && IsMultisig(key) && unmarshal(sig).Ok?
    requires CountSet(unmarshal(sig).value.bitArray) == 0
    ensures SigDataOf(unmarshal, key, sig) == Ok(MultiData(|unmarshal(sig).value.bitArray|, []))
  {
    var ms := unmarshal(sig).value;
    forall p | 0 <= p < |ms.bitArray| && ms.bitArray[p] ensures false {
      RankBelowCount(ms.bitArray, p);
    }
    MultisigDecoded(unmarshal, key, sig);
  }

  /**
   * Under the precondition the decoder never indexes past the signature
   * list or the key list: there are at least as many signatures as set bits,
   * and every set bit names a constituent key.
   */
  lemma WellFormedBounds(unmarshal: Unmarshal, key: Option<PubKey>, sig: Bytes)
    requires WellFormed(unmarshal, key, sig) && IsMultisig(key) && unmarshal(sig).Ok?
    ensures var ms := unmarshal(sig).value;
      && CountSet(ms.bitArray) <= |ms.sigs|
      && forall p :: 0 <= p < |ms.bitArray| && ms.bitArray[p] ==> p < |key.value.pubKeys|
  {
    var ms := unmarshal(sig).value;
    if CountSet(ms.bitArray) > 0 {
      RankOnto(ms.bitArray, CountSet(ms.bitArray) - 1);
    }
  }

  // ---------------------------------------------------------------------
  // StdSignature and its conversion
  // ---------------------------------------------------------------------

  /** StdSignature: an optional public key (None is Go's nil) and the raw signature bytes. */
  datatype StdSignature = StdSignature(pubKey: Option<PubKey>, signature: Bytes)

  /** signing.SignatureV2 as this file fills it; the zero value has no key, no data and sequence 0. */
  datatype SignatureV2 = SignatureV2(pubKey: Option<PubKey>, data: Option<SignatureData>, sequence: nat)

  function GetSignature(ss: StdSignature): Bytes
  {
    ss.signature
  }

  function GetPubKey(ss: StdSignature): Option<PubKey>
  {
    ss.pubKey
  }

  /** NewStdSignature: the accessors give back exactly what it was built from. */
  function NewStdSignature(pk: Option<PubKey>, sig: Bytes): (ss: StdSignature)
    ensures GetPubKey(ss) == pk && GetSignature(ss) == sig
  {
    StdSignature(pk, sig)
  }

  /**
   * StdSignatureToSignatureV2: on a decoding error, the zero SignatureV2 and
   * that error; otherwise the signature's own key with the decoded data.
   */
  function StdSignatureToSignatureV2(unmarshal: Unmarshal, sig: StdSignature): (res: (SignatureV2, Option<Error>))
    requires WellFormed(unmarshal, GetPubKey(sig), sig.signature)
    ensures res.1.Some? <==> SigDataOf(unmarshal, sig.pubKey, sig.signature).Err?
    ensures res.1.Some? ==>
      (res.0 == SignatureV2(None, None, 0) && SigDataOf(unmarshal, sig.pubKey, sig.signature) == Err(res.1.value))
    ensures res.1.None? ==>
      (SigDataOf(unmarshal, sig.pubKey, sig.signature).Ok?
       && res.0 == SignatureV2(sig.pubKey, Some(SigDataOf(unmarshal, sig.pubKey, sig.signature).value), 0))
    ensures !IsMultisig(sig.pubKey) ==>
      res == (SignatureV2(sig.pubKey, Some(Single(SignModeLegacyAminoJson, sig.signature)), 0), None)
  {
    var pk := GetPubKey(sig);
    match SigDataOf(unmarshal, pk, sig.signature)
    case Err(e) => (SignatureV2(None, None, 0), Some(e))
    case Ok(data) => (SignatureV2(pk, Some(data), 0), None)
  }

  /** The two fields MarshalYAML renders: the key's string form and the signature in upper-case hex. */
  datatype YamlSignature = YamlSignature(pubKey: string, signature: string)

  /**
   * The field values of MarshalYAML; `keyString` is the key's String(). An
   * absent key renders as the empty string; the signature renders so that
   * it decodes back to the signature bytes and uses only upper-case digits.
   */
  function MarshalYaml(ss: StdSignature, keyString: PubKey -> string): (y: YamlSignature)
    ensures ss.pubKey.None? ==> y.pubKey == ""
    ensures ss.pubKey.Some? ==> y.pubKey == keyString(ss.pubKey.value)
    ensures HexDecode(y.signature) == Some(ss.signature)
    ensures forall i :: 0 <= i < |y.signature| ==> y.signature[i] in Digits
  {
    var pk := if ss.pubKey.Some? then keyString(ss.pubKey.value) else "";
    HexRoundTrip(ss.signature);
    HexUpperDigits(ss.signature);
    YamlSignature(pk, HexUpper(ss.signature))
  }

  // ---------------------------------------------------------------------
  // Worked examples
  // ---------------------------------------------------------------------

  /**
   * Three constituents, bits 0 and 2 set, signatures [A, B]: two entries,
   * A for position 0 and B for position 2, added under the participant
   * counter 0 and 1 (line 183 passes sigIdx, not the key position).
   */
  lemma FlatMultisigExample(a: Bytes, b: Bytes, blob: Bytes)
    ensures var unmarshal := (x: Bytes) =>
              if x == blob then Ok(AminoMultisignature([true, false, true], [a, b])) else Err("bad");
            var key := Multi(2, [Simple([1]), Simple([2]), Simple([3])]);
            && WellFormed(unmarshal, Some(key), blob)
            && SigDataOf(unmarshal, Some(key), blob)
               == Ok(MultiData(3, [Entry(0, Single(SignModeLegacyAminoJson, a)),
                                   Entry(1, Single(SignModeLegacyAminoJson, b))]))
  {
    var unmarshal := (x: Bytes) =>
      if x == blob then Ok(AminoMultisignature([true, false, true], [a, b])) else Err("bad");
    var key := Multi(2, [Simple([1]), Simple([2]), Simple([3])]);
    var bits := [true, false, true];
    var ms := AminoMultisignature(bits, [a, b]);
    assert Rank(bits, 0) == 0 by { assert bits[..0] == []; }
    RankStep(bits, 0);
    RankStep(bits, 1);
    RankStep(bits, 2);
    assert SlotsWellFormed(unmarshal, key, ms);
    var ea := Entry(0, Single(SignModeLegacyAminoJson, a));
    var eb := Entry(1, Single(SignModeLegacyAminoJson, b));
    assert DecodeSlots(unmarshal, key, ms, 3, 2, MultiData(3, [ea, eb])) == Ok(MultiData(3, [ea, eb]));
    assert SigDataOf(unmarshal, Some(key.pubKeys[2]), ms.sigs[1]) == Ok(eb.data);
    assert AddSignature(MultiData(3, [ea]), eb.data, 1) == MultiData(3, [ea, eb]);
    assert DecodeSlots(unmarshal, key, ms, 2, 1, MultiData(3, [ea])) == Ok(MultiData(3, [ea, eb]));
    assert DecodeSlots(unmarshal, key, ms, 1, 1, MultiData(3, [ea])) == Ok(MultiData(3, [ea, eb]));
    assert SigDataOf(unmarshal, Some(key.pubKeys[0]), ms.sigs[0]) == Ok(ea.data);
    assert AddSignature(NewMultisig(3), ea.data, 0) == MultiData(3, [ea]);
    assert DecodeSlots(unmarshal, key, ms, 0, 0, NewMultisig(3)) == Ok(MultiData(3, [ea, eb]));
  }

  /**
   * Three set bits but two signatures: the source indexes past the
   * signature list (a panic), which the precondition excludes.
   */
  lemma MissingSignatureIsExcluded(blob: Bytes, a: Bytes, b: Bytes)
    ensures var unmarshal := (x: Bytes) => Ok(AminoMultisignature([true, true, true], [a, b]));
            !WellFormed(unmarshal, Some(Multi(3, [Simple([1]), Simple([2]), Simple([3])])), blob)
  {
    var bits := [true, true, true];
    assert Rank(bits, 0) == 0 by { assert bits[..0] == []; }
    RankStep(bits, 0);
    RankStep(bits, 1);
    assert Rank(bits, 2) == 2;
  }
}
