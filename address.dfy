/**
 * Legacy address strings of locking scripts: the hash of a P2PKH or P2SH
 * script, behind a version byte that depends on the network and the
 * pattern, in Base58Check. This chain's version bytes are its own: 16 and 5
 * on its main network, 111 and 196 elsewhere.
 */
module Address {
  import opened Wrappers
  import opened Bytes
  import opened Script
  import Base58

  /** The network a node serves; only the main network has its own version bytes. */
  datatype Network = Bitcoin | Testnet | Regtest | Signet

  datatype AddressType = P2pkh | P2sh

  /** The version byte per network and pattern. */
  function VersionByte(network: Network, kind: AddressType): byte
  {
    match (network, kind)
    case (Bitcoin, P2pkh) => 16
    case (Bitcoin, P2sh) => 5
    case (_, P2pkh) => 111
    case (_, P2sh) => 196
  }

  /** `<[u8]>::get(lo..hi)`: the bytes lo..hi, or nothing when the range is out of bounds. */
  function Slice(s: seq<byte>, lo: nat, hi: nat): Option<seq<byte>>
  {
    if lo <= hi <= |s| then Some(s[lo..hi]) else None
  }

  /**
   * The bytes handed to Base58Check: the version byte followed by the
   * 20-byte public-key or script hash. The testnet byte is chosen with the
   * pattern and replaced on the main network, re-testing the pattern.
   */
  function AddressPayload(script: Script, network: Network): (r: Option<seq<byte>>)
    ensures r.Some? <==> IsP2pkh(script) || IsP2sh(script)
    ensures IsP2pkh(script) ==> r == Some([VersionByte(network, P2pkh)] + script[3..23])
    ensures IsP2sh(script) ==> r == Some([VersionByte(network, P2sh)] + script[2..22])
    ensures r.Some? ==> |r.value| == 21
  {
    var payload: Option<(byte, seq<byte>)> :=
      if IsP2pkh(script) then
        match Slice(script, 3, 23)
        case Some(hash) => Some((111, hash))
        case None => None
      else if IsP2sh(script) then
        match Slice(script, 2, 22)
        case Some(hash) => Some((196, hash))
        case None => None
      else None;
    match payload
    case None => None
    case Some((version, hash)) =>
      var v := if network == Bitcoin then (if IsP2pkh(script) then 16 else 5) else version;
      Some([v] + hash)
  }

  /** The address string of a locking script, with SHA-256 supplied by the caller. */
  function ToAddressStr(script: Script, network: Network, sha256: seq<byte> -> Base58.Digest): (r: Option<string>)
    ensures r.Some? <==> IsP2pkh(script) || IsP2sh(script)
    ensures r.Some? ==> Base58.DecodeCheck(sha256, r.value) == AddressPayload(script, network)
  {
    match AddressPayload(script, network)
    case None => None
    case Some(data) => Some(Base58.EncodeCheck(sha256, data))
  }

  /** The address is the only string that Base58Check-decodes to the script's payload. */
  lemma AddressUnique(script: Script, network: Network, sha256: seq<byte> -> Base58.Digest, s: string)
    requires Base58.DecodeCheck(sha256, s).Some? && Base58.DecodeCheck(sha256, s) == AddressPayload(script, network)
    ensures ToAddressStr(script, network, sha256) == Some(s)
  {
    Base58.EncodeCheckUnique(sha256, s);
  }

  /** The hash slices are always in bounds for a script that matched its pattern. */
  lemma SlicesInBounds(script: Script)
    ensures IsP2pkh(script) ==> Slice(script, 3, 23) == Some(script[3..23]) && |script[3..23]| == 20
    ensures IsP2sh(script) ==> Slice(script, 2, 22) == Some(script[2..22]) && |script[2..22]| == 20
  {
  }

  /** The four version bytes, as the address payload carries them. */
  lemma VersionBytes(script: Script, network: Network)
    ensures IsP2pkh(script) && network == Bitcoin ==> AddressPayload(script, network).value[0] == 16
    ensures IsP2sh(script) && network == Bitcoin ==> AddressPayload(script, network).value[0] == 5
    ensures IsP2pkh(script) && network != Bitcoin ==> AddressPayload(script, network).value[0] == 111
    ensures IsP2sh(script) && network != Bitcoin ==> AddressPayload(script, network).value[0] == 196
  {
  }

  /** Scripts of any other shape, P2WSH included, have no legacy address. */
  lemma NoAddressForOtherScripts(script: Script, network: Network, sha256: seq<byte> -> Base58.Digest)
    requires !IsP2pkh(script) && !IsP2sh(script)
    ensures ToAddressStr(script, network, sha256) == None
  {
  }

  /** A main-network P2PKH address decodes to version 16 and the public-key hash. */
  lemma MainnetP2pkhRoundTrip(hash: seq<byte>, sha256: seq<byte> -> Base58.Digest)
    requires |hash| == 20
    ensures ToAddressStr(P2pkhScript(hash), Bitcoin, sha256).Some?
    ensures Base58.DecodeCheck(sha256, ToAddressStr(P2pkhScript(hash), Bitcoin, sha256).value) == Some([16] + hash)
  {
    PatternsCharacterised(P2pkhScript(hash));
    assert P2pkhScript(hash)[3..23] == hash;
  }

  /** A P2SH address on any other network decodes to version 196 and the script hash. */
  lemma TestnetP2shRoundTrip(hash: seq<byte>, network: Network, sha256: seq<byte> -> Base58.Digest)
    requires |hash| == 20 && network != Bitcoin
    ensures ToAddressStr(P2shScript(hash), network, sha256).Some?
    ensures Base58.DecodeCheck(sha256, ToAddressStr(P2shScript(hash), network, sha256).value) == Some([196] + hash)
  {
    PatternsCharacterised(P2shScript(hash));
    assert P2shScript(hash)[2..22] == hash;
  }
}
