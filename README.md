# Inner scripts and legacy addresses of Junkcoin spends

A Dafny model of `src/util/script.rs` of the Junkcoin block explorer backend
(an electrs derivative), without its ASM printer. The file has two pieces of
logic:

- **`get_innerscripts`** looks at a spending input and the output it spends.
  It recovers the scripts the spend is wrapped in:
  - the P2SH redeem script (BIP 16) is the payload of the last instruction of
    `script_sig`, but only when that last instruction is a byte push;
  - the P2WSH witness script (BIP 141) is the last item of the witness stack.
    This covers native P2WSH and P2WSH nested in P2SH.
- **`to_address_str`** turns a P2PKH or P2SH locking script into a legacy
  address. It builds the version byte followed by the 20-byte hash, then
  encodes that in Base58Check. The version bytes are this chain's own:
  - 16 for P2PKH and 5 for P2SH on the main network;
  - 111 for P2PKH and 196 for P2SH on every other network.

The model is functional. The code is too, except for `to_address_str`:
it overwrites a mutable `version` (lines 40-48) and pushes bytes into a
`Vec` (lines 50-51). The model states its result, the expression
`[v] + hash`, directly. Every operation is total, and Dafny rejects
out-of-range slices and indexing, so the model also shows that neither
operation can panic.

Modules:

- `Wrappers` (wrappers.dfy): `Option`, `Result` and `Last`, which is
  `Iterator::last`.
- `Bytes` (wrappers.dfy): the `byte` type.
- `Script` (script.dfy): the three classifiers (`IsP2pkh`, `IsP2sh`,
  `IsP2wsh`) and the instruction decoder behind `instructions()`.
  - The classifiers and the decoder belong to rust-bitcoin, which is not part
    of this model. They are defined from the byte layouts of the standard
    patterns and from the way that iterator decodes a script.
  - Opcodes 0x00–0x4b push that many bytes; 0x00 pushes the empty string.
  - OP_PUSHDATA1, OP_PUSHDATA2 and OP_PUSHDATA4 read a 1-, 2- or 4-byte
    little-endian length before the payload.
  - Every other byte is an opcode.
  - A truncated push yields one `Err` item, and decoding stops there.
  - A shortest-push encoder (`Serialize`) is the decoder's partner: decoding
    a serialized list gives the list back. The converse does not hold,
    because the decoder also accepts pushes that are not in shortest form.
- `Resolver` (resolver.dfy): `GetInnerScripts` and its properties.
- `Base58` (base58.dfy): Base58 and Base58Check, each with a decoder, and
  their round trips.
  - The checksum is the first four bytes of SHA-256 applied twice.
  - SHA-256 itself is a parameter (`sha256: seq<byte> -> Digest`).
- `Address` (address.dfy): `AddressPayload`, the bytes passed to
  `encode_check`; `ToAddressStr`; and the version-byte table.

Two points in the code are worth knowing:

- Line 68 takes the last element of `instructions()` itself. When that
  element is a decode error there is no redeem script; the decoder does not
  fall back to the last push that decoded. `RedeemScriptCases` states this.
- The comments at lines 32 and 34 call 111 and 196 the testnet version
  bytes. Lines 42-48 use them on every network other than `Network::Bitcoin`.

Three helpers carry no contract of their own:

- `Last` is `Iterator::last`.
- `Slice` models std's `<[u8]>::get(lo..hi)`; `SlicesInBounds` states what
  it gives.
- `LastPush` is line 68's `if let` factored out; `RedeemScriptCases` and
  `LastPushAppended` state what it gives.

## Model

| member | source | states |
|---|---|---|
| `Script.PatternsCharacterised` | src/util/script.rs:31-34 | a script is P2PKH / P2SH / P2WSH exactly when it is the 25 / 23 / 34-byte pattern built around its 20 / 20 / 32-byte hash or program |
| `Script.PatternsExclusive` | src/util/script.rs:31-34 | no script matches two of the patterns, so the second `is_p2pkh` test at line 43 agrees with the branch taken at line 31 |
| `Script.Step` | src/util/script.rs:68 | decoding one instruction always consumes at least one byte, what remains is the rest of the script, and nothing remains after a decode error |
| `Script.Instructions` | src/util/script.rs:68 | `instructions()` yields at most one item per byte, and nothing exactly for the empty script |
| `Script.ErrorOnlyLast` | src/util/script.rs:68 | a decode error can only be the last item of `instructions()`: decoding stops there |
| `Script.DecodesCleanlyNoError` | src/util/script.rs:68 | a script decodes cleanly exactly when no item of `instructions()` is an error |
| `Script.InstructionsAppend` | src/util/script.rs:68 | after a prefix that decodes without error, the rest of a script decodes exactly as it would on its own |
| `Script.LastInstructionOfSuffix` | src/util/script.rs:68 | the last instruction of `prefix + s`, for a cleanly decoding prefix and a non-empty `s`, is the last instruction of `s` |
| `Script.StepEncoded` | src/util/script.rs:68 | the decoder reads back any shortest-form push or non-push opcode as that same instruction |
| `Script.InstructionsSerialize` | src/util/script.rs:68 | decoding a serialized list of instructions gives back every instruction, in order, with no error |
| `Script.LastInstructionSerialize` | src/util/script.rs:68 | the last instruction of a serialized list is its last element |
| `Script.P2pkhInstructions` | src/util/script.rs:31-32 | a P2PKH script decodes as OP_DUP OP_HASH160 <bytes 3..23> OP_EQUALVERIFY OP_CHECKSIG |
| `Script.P2shInstructions` | src/util/script.rs:33-34 | a P2SH script decodes as OP_HASH160 <bytes 2..22> OP_EQUAL |
| `Script.P2wshInstructions` | src/util/script.rs:80-81 | a P2WSH script decodes as the empty version-0 push followed by the 32-byte program |
| `Resolver.LastPushAppended` | src/util/script.rs:68-74 | when one encoded instruction ends a script_sig whose earlier bytes decode cleanly, the payload is that instruction's bytes if it is a push, and there is none if it is an opcode |
| `Resolver.GetInnerScripts` | src/util/script.rs:65-102 | a redeem script only for a P2SH prevout, where it is the last push of `script_sig`; a witness script only for a P2WSH prevout or a P2WSH redeem script, where it is the last witness item |
| `Resolver.RedeemScriptCases` | src/util/script.rs:67-77 | for a P2SH prevout: an empty `script_sig`, a final opcode or a final decode error gives no redeem script; a final push of `b` gives `b` |
| `Resolver.UnwrappedPrevout` | src/util/script.rs:67-96 | a prevout that is neither P2SH nor P2WSH yields no redeem and no witness script, whatever the input holds |
| `Resolver.WitnessScriptSource` | src/util/script.rs:80-96 | a witness script needs a non-empty witness and a P2WSH prevout or a P2SH prevout whose last push is P2WSH; an empty witness stack yields none |
| `Resolver.SingleP2shLevel` | src/util/script.rs:67-96 | a redeem script that is itself P2SH is returned unchanged and gets no witness script: only one level is unwrapped |
| `Resolver.EarlierInstructionsIgnored` | src/util/script.rs:68 | prefixing a non-empty `script_sig` with any cleanly decoding script leaves both results unchanged |
| `Resolver.P2shSpend` | src/util/script.rs:67-74 | a P2SH spend whose `script_sig` ends by pushing a script reveals exactly that script |
| `Resolver.P2shP2wshSpend` | src/util/script.rs:67-96 | P2SH-wrapped P2WSH: both the pushed P2WSH redeem script and the last witness item are returned |
| `Resolver.P2wshSpend` | src/util/script.rs:75-96 | native P2WSH: no redeem script, and the witness script is the last witness item (none for an empty stack) |
| `Base58.Checksum` | src/util/script.rs:52 | the Base58Check checksum is four bytes |
| `Base58.ToDigits` | src/util/script.rs:52 | the numeral of `n` has digits below the base, no leading zero digit, and the value `n` |
| `Base58.ToDigitsFromDigits` | src/util/script.rs:52 | a numeral without leading zeros is the numeral of its own value |
| `Base58.DecodeEncode` | src/util/script.rs:52 | Base58 decoding recovers the encoded bytes, leading zero bytes included |
| `Base58.EncodeDecode` | src/util/script.rs:52 | every string that Base58-decodes is the encoding of its bytes, so a decoding fixes the string: the address is the one standard Base58Check string of its payload |
| `Base58.EncodeCheck` | src/util/script.rs:52 | Base58Check decoding (checksum verified) of the encoded string recovers the data |
| `Base58.EncodeCheckUnique` | src/util/script.rs:52 | a string that Base58Check-decodes (checksum verified) to some data is exactly the Base58Check encoding of that data |
| `Address.SlicesInBounds` | src/util/script.rs:32-34 | `get(3..23)` of a P2PKH script and `get(2..22)` of a P2SH script always succeed and give 20 bytes |
| `Address.AddressPayload` | src/util/script.rs:29-51 | the data exists exactly for P2PKH and P2SH scripts; it is the network's version byte followed by bytes 3..23 (P2PKH) or 2..22 (P2SH), 21 bytes in all |
| `Address.VersionBytes` | src/util/script.rs:42-48 | the version byte is 16 / 5 for P2PKH / P2SH on `Network::Bitcoin` and 111 / 196 on every other network |
| `Address.ToAddressStr` | src/util/script.rs:29-54 | an address exists exactly for P2PKH and P2SH scripts, and Base58Check-decodes to the version byte and hash |
| `Address.AddressUnique` | src/util/script.rs:29-54 | the address is the only string that Base58Check-decodes to the script's version byte and hash |
| `Address.NoAddressForOtherScripts` | src/util/script.rs:31-37 | any other script, P2WSH included, has no address |
| `Address.MainnetP2pkhRoundTrip` | src/util/script.rs:29-53 | a main-network P2PKH address of a 20-byte hash decodes to version 16 and that hash |
| `Address.TestnetP2shRoundTrip` | src/util/script.rs:29-53 | a P2SH address of a 20-byte hash on any other network decodes to version 196 and that hash |

## Left out

- `ScriptToAsm::to_asm` (lines 14-22) is left out. It slices the `Debug`
  text of a foreign script type, and that format is not part of this model.
- The `liquid` builds are left out: the elements address impl (lines 56-62)
  and the `script_witness` field access (lines 84-85, 91). Both delegate to
  the elements library's address and witness types.
- SHA-256 is a parameter of `ToAddressStr`, `EncodeCheck` and `DecodeCheck`.
  It is a cryptographic hash inside a foreign library.
- The Base58 alphabet is given by its six character ranges in `DigitChar` and
  `DigitValue`. There is no lemma that they equal the 58-character literal.
- `Network`'s variants besides `Bitcoin` (here `Testnet`, `Regtest` and
  `Signet`) are assumed. The chain's network definition is not part of this
  model, and only `Bitcoin` versus every other variant matters here.
- `TxIn` and `TxOut` keep only `script_sig`, the witness stack and
  `script_pubkey`. The other fields are never read here.
- Opcode mnemonics and the meaning of non-push opcodes are left out. Only
  push, opcode or error matters for the final instruction.
- rust-bitcoin's optional minimal-push checking is not modelled, because
  `instructions()` does not perform it.
- The mutable `version` of `to_address_str` (lines 40-48) and the `Vec`
  built in place (lines 50-51) are modelled as the value `[v] + hash`. The
  order of the writes is not modelled; only the final bytes are.
- Rust's copying of the pushed bytes and the witness item into new `Script`
  values is modelled as passing the same byte sequence along.
