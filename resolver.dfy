/**
 * Recovering the scripts a spend is wrapped in: the P2SH redeem script
 * (BIP 16), revealed as the last push of the spending input's script_sig,
 * and the P2WSH witness script (BIP 141, native or nested in P2SH),
 * revealed as the last item of the input's witness stack.
 */
module Resolver {
  import opened Wrappers
  import opened Bytes
  import opened Script

  /** The parts of a spending input this core reads. */
  datatype TxIn = TxIn(scriptSig: Script, witnessStack: seq<seq<byte>>)

  /** The parts of the spent output this core reads. */
  datatype TxOut = TxOut(scriptPubkey: Script)

  datatype InnerScripts = InnerScripts(redeemScript: Option<Script>, witnessScript: Option<Script>)

  /** The payload of the last instruction of a script, when that is a push. */
  function LastPush(s: Script): Option<seq<byte>>
  {
    match LastInstruction(s)
    case Some(Ok(PushBytes(b))) => Some(b)
    case _ => None
  }

  /**
   * Appending one encoded instruction to any cleanly decoding script_sig
   * decides the payload: the pushed bytes for a push, nothing for an opcode.
   */
  lemma LastPushAppended(p: Script, i: Instruction)
    requires DecodesCleanly(p) && Encodable(i)
    ensures LastPush(p + EncodeInstruction(i)) == (if i.PushBytes? then Some(i.data) else None)
  {
    StepEncoded(i);
    InstructionsUnfold(EncodeInstruction(i));
    LastInstructionOfSuffix(p, EncodeInstruction(i));
  }

  /** Whether the witness stack holds the witness script of this spend. */
  predicate WitnessApplies(prevout: TxOut, redeemScript: Option<Script>) {
    IsP2wsh(prevout.scriptPubkey) || (redeemScript.Some? && IsP2wsh(redeemScript.value))
  }

  function GetInnerScripts(txin: TxIn, prevout: TxOut): (r: InnerScripts)
    ensures r.redeemScript.Some? ==> IsP2sh(prevout.scriptPubkey)
    ensures IsP2sh(prevout.scriptPubkey) ==> r.redeemScript == LastPush(txin.scriptSig)
    ensures r.witnessScript.Some? ==> WitnessApplies(prevout, r.redeemScript)
    ensures WitnessApplies(prevout, r.redeemScript) ==> r.witnessScript == Last(txin.witnessStack)
  {
    var redeemScript := if IsP2sh(prevout.scriptPubkey) then LastPush(txin.scriptSig) else None;
    var witnessScript := if WitnessApplies(prevout, redeemScript) then Last(txin.witnessStack) else None;
    InnerScripts(redeemScript, witnessScript)
  }

  /** For a P2SH output, the redeem script is the payload of a final push and nothing else. */
  lemma RedeemScriptCases(txin: TxIn, prevout: TxOut)
    requires IsP2sh(prevout.scriptPubkey)
    ensures txin.scriptSig == [] ==> GetInnerScripts(txin, prevout).redeemScript == None
    ensures forall b :: LastInstruction(txin.scriptSig) == Some(Ok(PushBytes(b)))
              ==> GetInnerScripts(txin, prevout).redeemScript == Some(b)
    ensures forall c :: LastInstruction(txin.scriptSig) == Some(Ok(Op(c)))
              ==> GetInnerScripts(txin, prevout).redeemScript == None
    ensures forall e :: LastInstruction(txin.scriptSig) == Some(Err(e))
              ==> GetInnerScripts(txin, prevout).redeemScript == None
  {
  }

  /** Whatever the input holds, a prevout that is neither P2SH nor P2WSH wraps nothing. */
  lemma UnwrappedPrevout(txin: TxIn, prevout: TxOut)
    requires !IsP2sh(prevout.scriptPubkey) && !IsP2wsh(prevout.scriptPubkey)
    ensures GetInnerScripts(txin, prevout) == InnerScripts(None, None)
  {
  }

  /** A witness script is only found next to a P2WSH prevout or a P2WSH redeem script. */
  lemma WitnessScriptSource(txin: TxIn, prevout: TxOut)
    ensures GetInnerScripts(txin, prevout).witnessScript.Some? ==>
      txin.witnessStack != [] &&
      (IsP2wsh(prevout.scriptPubkey) ||
       (IsP2sh(prevout.scriptPubkey) && LastPush(txin.scriptSig).Some? && IsP2wsh(LastPush(txin.scriptSig).value)))
    ensures WitnessApplies(prevout, GetInnerScripts(txin, prevout).redeemScript) && txin.witnessStack == [] ==>
      GetInnerScripts(txin, prevout).witnessScript == None
  {
  }

  /**
   * Only one level of P2SH is unwrapped: a redeem script that is itself
   * P2SH is returned as it is, and no witness script goes with it.
   */
  lemma SingleP2shLevel(txin: TxIn, prevout: TxOut)
    requires IsP2sh(prevout.scriptPubkey)
    requires LastPush(txin.scriptSig).Some? && IsP2sh(LastPush(txin.scriptSig).value)
    ensures GetInnerScripts(txin, prevout) == InnerScripts(LastPush(txin.scriptSig), None)
  {
    PatternsExclusive(prevout.scriptPubkey);
    PatternsExclusive(LastPush(txin.scriptSig).value);
  }

  /**
   * Instructions before the final one never matter: prefixing the
   * script_sig with any cleanly decoding script changes nothing.
   */
  lemma EarlierInstructionsIgnored(txin: TxIn, prevout: TxOut, prefix: Script)
    requires DecodesCleanly(prefix) && txin.scriptSig != []
    ensures GetInnerScripts(TxIn(prefix + txin.scriptSig, txin.witnessStack), prevout)
         == GetInnerScripts(txin, prevout)
  {
    LastInstructionOfSuffix(prefix, txin.scriptSig);
  }

  /** A P2SH spend whose script_sig ends by pushing the redeem script reveals that script. */
  lemma P2shSpend(prevout: TxOut, sigOps: seq<Instruction>, redeem: Script, witnessStack: seq<seq<byte>>)
    requires IsP2sh(prevout.scriptPubkey)
    requires AllEncodable(sigOps + [PushBytes(redeem)])
    ensures GetInnerScripts(TxIn(Serialize(sigOps + [PushBytes(redeem)]), witnessStack), prevout).redeemScript
         == Some(redeem)
  {
    LastInstructionSerialize(sigOps + [PushBytes(redeem)]);
  }

  /**
   * P2SH-wrapped P2WSH: the script_sig pushes a P2WSH redeem script, and
   * both the redeem script and the last witness item are returned.
   */
  lemma P2shP2wshSpend(prevout: TxOut, redeem: Script, witnessStack: seq<seq<byte>>)
    requires IsP2sh(prevout.scriptPubkey) && IsP2wsh(redeem) && witnessStack != []
    ensures GetInnerScripts(TxIn(Serialize([PushBytes(redeem)]), witnessStack), prevout)
         == InnerScripts(Some(redeem), Some(witnessStack[|witnessStack| - 1]))
  {
    assert AllEncodable([PushBytes(redeem)]);
    LastInstructionSerialize([PushBytes(redeem)]);
  }

  /** Native P2WSH: no redeem script, and the witness script is the last witness item. */
  lemma P2wshSpend(txin: TxIn, prevout: TxOut)
    requires IsP2wsh(prevout.scriptPubkey)
    ensures GetInnerScripts(txin, prevout) == InnerScripts(None, Last(txin.witnessStack))
  {
    PatternsExclusive(prevout.scriptPubkey);
  }
}
