# Legacy signatures and sign bytes (cosmos-sdk `legacytx`)

This project is a Dafny model of `x/auth/migrations/legacytx/stdsign.go`,
the file that holds two procedures from the SDK's legacy (amino) transaction
format.

- **The legacy signature decoder.** `pubKeySigToSigData` and its wrapper
  `StdSignatureToSignatureV2` turn a `StdSignature` (an optional public key
  and a raw signature blob) into structured signature data.
  - A key that is not a multisig key yields single-signature data in mode
    `SIGN_MODE_LEGACY_AMINO_JSON` (127), carrying the blob unchanged.
  - For a multisig key, the blob is decoded into an amino multisig record: a
    bit array and the compacted list of the set bits' signatures. The decoder
    then walks the bit array, recursing on the constituent key of each set
    bit with the next signature. It wraps the first nested error with the
    signature counter `sigIdx`.
- **The legacy sign bytes.** `StdSignBytes` builds the replay-prevention
  document `StdSignDoc`. Its `msgs` field holds one key-sorted JSON value per
  message and its `fee` field holds the fee verbatim. `timeout_height` is
  omitted when zero. The function returns the whole document passed through
  `mustSortJSON`, which sorts every object's keys and keeps array order.
- **The `StdSignature` helpers.** The model covers the constructor, the two
  accessors, and the field values `MarshalYAML` renders: the key's string
  form, or the empty string for a nil key, and the signature in upper-case
  hex.

Files:

- `wrappers.dfy`: `Option` and `Result`.
- `hex.dfy`: bytes and their `%X` rendering, with its inverse.
- `json.dfy`: JSON as a tree and the `mustSortJSON` canonicaliser.
- `sign_bytes.dfy`: `StdSignDoc` and `StdSignBytes`.
- `legacy_signature.dfy`: the signature types, the decoder, `StdSignature` and the conversion.

The decoder is written twice:

- `LegacySignature.SigDataOf` is a recursive specification function. Its loop
  over the bit array is the tail-recursive `DecodeSlots`.
- `LegacySignature.PubKeySigToSigData` is a method that follows the source's
  loop. It has the `sigIdx` counter and the in-place `sigDatas` array, and it
  returns early on a nested error.

The method is proved equal to the function. The function's properties are
proved as lemmas.

Three details of the code decide the decoder's result, and the model
follows them exactly:

- The number of positions walked is the bit array's size (`BitArray.Count()`
  is the bit count, not the number of set bits). It is not the number of
  constituent keys.
- Each decoded sub-signature is handed to `AddSignature` with `sigIdx`, the
  participant counter, not with the key position `i`. The nested-error
  message carries the same counter.
- A bit array naming a key position beyond the key list, or more set bits
  than signatures, makes the Go code index out of range. That is a panic,
  not a returned error, so the model excludes it with a precondition
  (`LegacySignature.WellFormed`).

## Model

| member | source | states |
|---|---|---|
| Hex.HexUpper | x/auth/migrations/legacytx/stdsign.go:127 | The `%X` rendering has two characters per signature byte |
| Hex.HexUpperDigits | x/auth/migrations/legacytx/stdsign.go:127 | Every character of the rendering is an upper-case hexadecimal digit |
| Hex.HexRoundTrip | x/auth/migrations/legacytx/stdsign.go:127 | Decoding the rendering gives back exactly the signature bytes |
| Hex.HexDecodeCanonical | x/auth/migrations/legacytx/stdsign.go:127 | Any string that decodes is the rendering of what it decodes to, so the rendering is the only representation |
| Json.MustSortJson | x/auth/migrations/legacytx/stdsign.go:48-59 | Scalars come out unchanged, arrays keep their length, and objects keep their member count and key set with the members in key order; the lemmas below add that the whole output is canonical at every depth, that sorting twice changes nothing, and that member order at any depth does not matter |
| Json.SortMembers | x/auth/migrations/legacytx/stdsign.go:50-54 | Re-encoding an object keeps exactly its members (same multiset, same count) |
| Json.SortMembersSorted | x/auth/migrations/legacytx/stdsign.go:50-54 | Re-encoding an object writes its members in increasing key order |
| Json.SortMembersIgnoresOrder | x/auth/migrations/legacytx/stdsign.go:50-54 | Two member lists with the same members and distinct keys are written identically, whatever their input order |
| Json.FindSortMembers | x/auth/migrations/legacytx/stdsign.go:50-54 | With distinct keys, sorting does not change what any key maps to |
| Json.MustSortJsonCanonical | x/auth/migrations/legacytx/stdsign.go:48-59 | The canonicaliser's output has every object, however deeply nested, in key order |
| Json.MustSortJsonOfCanonical | x/auth/migrations/legacytx/stdsign.go:48-59 | A value already in key order is returned unchanged; arrays keep their order |
| Json.MustSortJsonIdempotent | x/auth/migrations/legacytx/stdsign.go:48-59 | Sorting twice is the same as sorting once |
| Json.MustSortJsonIgnoresMemberOrder | x/auth/migrations/legacytx/stdsign.go:48-59 | Permuting an object's own members, with distinct keys and nested values unchanged, does not change its canonical form (the nested case is `MustSortJsonIgnoresKeyOrder`) |
| Json.SortedUniqueByFind | x/auth/migrations/legacytx/stdsign.go:54 | Two key-sorted member lists with distinct keys that look up every key alike are equal, so the sorted output is determined by the object's key-to-value map |
| Json.MustSortJsonIgnoresKeyOrder | x/auth/migrations/legacytx/stdsign.go:48-59 | Two JSON values that differ only in the order of object members at any depth (with distinct keys in every object) have the same canonical form |
| Json.NestedReorderExample | x/auth/migrations/legacytx/stdsign.go:48-59 | An amino-style `{"type", "value"}` message with its members swapped and its inner `value` object reordered canonicalises to the same value |
| Json.LookupMustSortJson | x/auth/migrations/legacytx/stdsign.go:48-59 | In the canonical form, each key holds the canonical form of its original value, and no new keys appear |
| Json.SortExample | x/auth/migrations/legacytx/stdsign.go:48-59 | A document written `sequence` first comes out `account_number` first |
| SignBytes.DocKeysDistinct | x/auth/migrations/legacytx/stdsign.go:35-43 | The document's member names are pairwise distinct, with or without `timeout_height` |
| SignBytes.SignDocJson | x/auth/migrations/legacytx/stdsign.go:35-43 | The document's JSON form is an object whose keys are the seven json tags in declaration order, without `timeout_height` when it is zero |
| SignBytes.SignDocJsonFields | x/auth/migrations/legacytx/stdsign.go:35-43 | Each field sits under its json tag; `fee` and `msgs` are placed verbatim |
| SignBytes.SignDocJsonTimeout | x/auth/migrations/legacytx/stdsign.go:38 | `timeout_height` is absent when the timeout is zero (omitempty) and otherwise holds the encoded timeout |
| SignBytes.SortedMsgs | x/auth/migrations/legacytx/stdsign.go:67-71 | One entry per message, in message order, each the key-sorted form of that message's amino JSON |
| SignBytes.StdSignBytes | x/auth/migrations/legacytx/stdsign.go:63-87 | Requires the regression codec to be set (a nil codec panics); the loop collects the sorted messages and the result is the sorted document built from the arguments |
| SignBytes.SignBytesCanonical | x/auth/migrations/legacytx/stdsign.go:86 | The sign bytes are in canonical key order, so sorting them again changes nothing |
| SignBytes.SortedMsgsCanonical | x/auth/migrations/legacytx/stdsign.go:70 | The collected message array is already canonical, so the final sort leaves it as it is |
| SignBytes.SignBytesFields | x/auth/migrations/legacytx/stdsign.go:63-86 | In the sign bytes, `msgs` has exactly one sorted entry per message in order, `fee` is the sorted fee, `timeout_height` is absent when the timeout is zero and otherwise holds the sorted encoding of the timeout, and chain id, memo, account number and sequence sit under their tags |
| SignBytes.SignBytesIgnoresMemberOrder | x/auth/migrations/legacytx/stdsign.go:67-86 | Message encoders and fees that differ only in the order of object members, at any depth of each message and of the fee, give the same sign bytes |
| SignBytes.SignBytesNoMessages | x/auth/migrations/legacytx/stdsign.go:67-78 | With no messages, `msgs` is present as an empty array |
| LegacySignature.SigDataOf | x/auth/migrations/legacytx/stdsign.go:154-189 | A non-multisig or nil key gives `Single(127, blob)` and never fails; a multisig key whose blob does not decode gives the codec's error; success on a multisig key gives multi data sized by the bit array, with one entry per set bit |
| LegacySignature.DecodeSlots | x/auth/migrations/legacytx/stdsign.go:172-186 | The loop from position `i` with counter `sigIdx` (the rank of `i`) ends with one entry per set bit and keeps the entries already added |
| LegacySignature.PubKeySigToSigData | x/auth/migrations/legacytx/stdsign.go:154-189 | The imperative decoder returns exactly `SigDataOf`; its loop keeps `sigIdx` equal to the number of set bits before `i`, and `sigDatas[k]` equal to the k-th added data |
| LegacySignature.RankMonotone | x/auth/migrations/legacytx/stdsign.go:174-184 | The counter never decreases along the walk and strictly grows past every set bit |
| LegacySignature.RankBelowCount | x/auth/migrations/legacytx/stdsign.go:177 | At a set bit, `sigIdx` is below the number of set bits |
| LegacySignature.RankOnto | x/auth/migrations/legacytx/stdsign.go:174-184 | Every counter value below the number of set bits is reached at some set bit |
| LegacySignature.DecodeSlotsOk | x/auth/migrations/legacytx/stdsign.go:175-186 | The walk from `i` succeeds exactly when every later set bit's nested decode succeeds; then the entry at each bit's rank is that decode, added under the rank |
| LegacySignature.DecodeSlotsErr | x/auth/migrations/legacytx/stdsign.go:176-180 | A failed walk failed at a set bit whose nested decode failed, all earlier ones having succeeded; the error is that nested error wrapped with the bit's `sigIdx` |
| LegacySignature.MultisigDecoded | x/auth/migrations/legacytx/stdsign.go:168-188 | For a decodable multisig blob, the result is Ok exactly when every nested decode is Ok; it then has size n (the bit count) and CountSet entries, and entry k was added at index k and is the decode of `Sigs[k]` against the key at the k-th set bit |
| LegacySignature.MultisigFailed | x/auth/migrations/legacytx/stdsign.go:177-180 | A failing multisig decode returns only an error: the first failing set bit's error wrapped with its `sigIdx` |
| LegacySignature.EmptyBitArray | x/auth/migrations/legacytx/stdsign.go:172-188 | A bit array with no set bits gives an empty multi result of size n and no error |
| LegacySignature.WellFormedBounds | x/auth/migrations/legacytx/stdsign.go:170-177 | Under the no-panic precondition, there are at least as many signatures as set bits, and every set bit names a constituent key |
| LegacySignature.NewStdSignature | x/auth/migrations/legacytx/stdsign.go:100-113 | `GetPubKey` and `GetSignature` give back the key and the bytes the signature was built from |
| LegacySignature.StdSignatureToSignatureV2 | x/auth/migrations/legacytx/stdsign.go:141-152 | It fails exactly when the decoder fails, and then returns the zero `SignatureV2` with that error; otherwise it returns the signature's own key with the decoded data and sequence 0, as Go's zero-filled field leaves it; a non-multisig key always succeeds with `Single(127, signature)` |
| LegacySignature.MarshalYaml | x/auth/migrations/legacytx/stdsign.go:116-128 | The pub key field is empty for a nil key and the key's string form otherwise; the signature field uses only upper-case hex digits and decodes back to the signature bytes |
| LegacySignature.FlatMultisigExample | x/auth/migrations/legacytx/stdsign.go:172-186 | With bits [1,0,1] and signatures [A,B], the result has size 3 and entries (0,A) and (1,B), added under the participant counter |
| LegacySignature.MissingSignatureIsExcluded | x/auth/migrations/legacytx/stdsign.go:177 | Three set bits with two signatures is outside the no-panic precondition, because the third set bit would index past the signature list |

## Left out

- LegacySignature.SigDataOf: the precondition `WellFormed` is slightly stronger than "does not panic". It requires the index bounds at every set bit, including bits after an earlier nested error, which the Go code never reaches.
- LegacySignature.PubKeySigToSigData: the same stronger-than-exact precondition as `SigDataOf`.
- LegacySignature.StdSignatureToSignatureV2: the same stronger-than-exact precondition as `SigDataOf`.
- LegacySignature.MarshalYaml: it gives the two field values. It does not give the YAML document text that `yaml.Marshal` writes around them, nor that call's error result, which cannot occur for two strings.
- The amino codecs are not modelled; they are foreign code.
  - The binary decoding of a multisig record (line 163) is the parameter `unmarshal`.
  - The amino JSON encoding of messages (line 69) is the function inside the codec option.
  - The encoding of a `uint64` field by `legacy.Cdc` (line 73) is the parameter `uint`.
  - `PubKey.String()` (line 119) is the parameter `keyString`.
  - The fee's own encoding (`StdFee.Bytes()`) is given as its JSON value.
- Go's `encoding/json` details inside `mustSortJSON` are not modelled.
  - JSON numbers are integers here. Go decodes them into `float64`; floating point is not modelled.
  - HTML escaping and byte-level text formatting are not modelled; the model works on JSON trees.
  - Duplicate object keys are kept in the model, in stable order, and `Find` returns the first; Go collapses them through its map and keeps the last. The document's own members never repeat a key (`SignBytes.DocKeysDistinct`). Nested fee and message JSON is assumed free of duplicate keys, as amino's encoder writes it; the order-independence lemmas require distinct keys in every object.
- The panics of `mustSortJSON` on malformed JSON (lines 51-57) and of `legacy.Cdc.MarshalJSON` (lines 82-84) are not modelled. A JSON tree is always well formed.
- `UnpackInterfaces` (lines 136-138) is not modelled. It is interface-registry plumbing.
- `LegacyMsg` (lines 20-28) is not modelled. It is an interface declaration with no logic.
- The internals of `multisig.NewMultisig` and `multisig.AddSignature` are not modelled. The multi result records the size it was created with and the (index, data) pairs added, in order.
- Signature verification, threshold checks and the initialisation of the process-wide `RegressionTestingAminoCodec` are outside this file. The codec's presence is an `Option` parameter of `StdSignBytes`.
