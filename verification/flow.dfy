/**
 * Ledger transactions (src/core/flow.rs): the fluent builder, the RLP
 * envelope that is signed, envelope signing under the domain tag, and the
 * address helpers. The gRPC client is not modelled; the polling loop that
 * waits for a transaction to be sealed is in module Seal.
 */
module Flow {
  import opened Bytes
  import opened Wrappers
  import opened Errors
  import Crypto
  import Utf8
  import Hex
  import Rlp
  import Text
  import KeyVault

  const U32Limit: nat := 0x1_0000_0000
  const U64Limit: nat := 0x1_0000_0000_0000_0000

  /** Rust's `u32` and `u64`. */
  type u32 = n: nat | n < U32Limit
  type u64 = n: nat | n < U64Limit

  /** The protobuf messages of the access API that the program fills in. */
  datatype ProposalKey = ProposalKey(address: seq<byte>, keyIndex: u32, sequenceNumber: u64)

  datatype TransactionSignature = TransactionSignature(address: seq<byte>, keyIndex: u32, signature: seq<byte>)

  datatype Transaction = Transaction(
    script: seq<byte>,
    arguments: seq<seq<byte>>,
    referenceBlockId: seq<byte>,
    gasLimit: u64,
    proposalKey: Option<ProposalKey>,
    payer: seq<byte>,
    authorizers: seq<seq<byte>>,
    payloadSignatures: seq<TransactionSignature>,
    envelopeSignatures: seq<TransactionSignature>)

  /** The builder's accumulated fields. */
  datatype TransactionBuilder = TransactionBuilder(
    script: seq<byte>,
    arguments: seq<seq<byte>>,
    referenceBlockId: seq<byte>,
    gasLimit: u64,
    proposalKeyAddress: seq<byte>,
    proposalKeyIndex: u32,
    proposalKeySequenceNumber: u64,
    payer: seq<byte>,
    authorizers: seq<seq<byte>>)

  const DefaultGasLimit: u64 := 9999

  // ---------------------------------------------------------------------
  // The builder
  // ---------------------------------------------------------------------

  /** `TransactionBuilder::new`: the script's UTF-8 bytes, the default gas
      limit, and every other field empty or zero. */
  function NewBuilder(script: string): (b: TransactionBuilder)
    ensures Utf8.Decode(b.script) == Some(script)
    ensures b.gasLimit == DefaultGasLimit
    ensures b.arguments == [] && b.referenceBlockId == [] && b.payer == [] && b.authorizers == []
    ensures b.proposalKeyAddress == [] && b.proposalKeyIndex == 0 && b.proposalKeySequenceNumber == 0
  {
    Utf8.RoundTrip(script);
    TransactionBuilder(Utf8.Encode(script), [], [], DefaultGasLimit, [], 0, 0, [], [])
  }

  /** `add_argument`: appends, keeping earlier arguments in order. */
  function AddArgument(b: TransactionBuilder, arg: seq<byte>): (r: TransactionBuilder)
    ensures |r.arguments| == |b.arguments| + 1 && r.arguments[|b.arguments|] == arg
    ensures r.arguments[..|b.arguments|] == b.arguments
    ensures r.(arguments := b.arguments) == b
  {
    b.(arguments := b.arguments + [arg])
  }

  /** `add_authorizer`: appends, keeping earlier authorizers in order. */
  function AddAuthorizer(b: TransactionBuilder, address: seq<byte>): (r: TransactionBuilder)
    ensures |r.authorizers| == |b.authorizers| + 1 && r.authorizers[|b.authorizers|] == address
    ensures r.authorizers[..|b.authorizers|] == b.authorizers
    ensures r.(authorizers := b.authorizers) == b
  {
    b.(authorizers := b.authorizers + [address])
  }

  /** `reference_block_id`: overwrites that field only. */
  function SetReferenceBlockId(b: TransactionBuilder, blockId: seq<byte>): (r: TransactionBuilder)
    ensures r.referenceBlockId == blockId
    ensures r.(referenceBlockId := b.referenceBlockId) == b
  {
    b.(referenceBlockId := blockId)
  }

  /** `gas_limit`: overwrites that field only. */
  function SetGasLimit(b: TransactionBuilder, limit: u64): (r: TransactionBuilder)
    ensures r.gasLimit == limit
    ensures r.(gasLimit := b.gasLimit) == b
  {
    b.(gasLimit := limit)
  }

  /** `proposal_key`: overwrites the three proposal-key fields only. */
  function SetProposalKey(b: TransactionBuilder, address: seq<byte>, keyIndex: u32, sequenceNumber: u64): (r: TransactionBuilder)
    ensures r.proposalKeyAddress == address && r.proposalKeyIndex == keyIndex && r.proposalKeySequenceNumber == sequenceNumber
    ensures r.(proposalKeyAddress := b.proposalKeyAddress, proposalKeyIndex := b.proposalKeyIndex,
               proposalKeySequenceNumber := b.proposalKeySequenceNumber) == b
  {
    b.(proposalKeyAddress := address, proposalKeyIndex := keyIndex, proposalKeySequenceNumber := sequenceNumber)
  }

  /** `payer`: overwrites that field only. */
  function SetPayer(b: TransactionBuilder, address: seq<byte>): (r: TransactionBuilder)
    ensures r.payer == address
    ensures r.(payer := b.payer) == b
  {
    b.(payer := address)
  }

  /** Calls `add_argument` once per element of `args`, in order. */
  function AddArguments(b: TransactionBuilder, args: seq<seq<byte>>): TransactionBuilder
    decreases |args|
  {
    if args == [] then b else AddArguments(AddArgument(b, args[0]), args[1..])
  }

  /** `build`: never fails; the proposal key is always present and there are
      no signatures yet. */
  function Build(b: TransactionBuilder): (tx: Transaction)
    ensures tx.proposalKey == Some(ProposalKey(b.proposalKeyAddress, b.proposalKeyIndex, b.proposalKeySequenceNumber))
    ensures tx.payloadSignatures == [] && tx.envelopeSignatures == []
    ensures tx.script == b.script && tx.arguments == b.arguments && tx.referenceBlockId == b.referenceBlockId
    ensures tx.gasLimit == b.gasLimit && tx.payer == b.payer && tx.authorizers == b.authorizers
  {
    Transaction.Transaction(
      b.script, b.arguments, b.referenceBlockId, b.gasLimit,
      Some(ProposalKey(b.proposalKeyAddress, b.proposalKeyIndex, b.proposalKeySequenceNumber)),
      b.payer, b.authorizers, [], [])
  }

  /** Adding arguments one by one appends them all, in order, and touches
      nothing else. */
  lemma {:induction false} AddArgumentsAppends(b: TransactionBuilder, args: seq<seq<byte>>)
    ensures AddArguments(b, args).arguments == b.arguments + args
    ensures AddArguments(b, args).(arguments := b.arguments) == b
    decreases |args|
  {
    if args != [] {
      var b' := AddArgument(b, args[0]);
      AddArgumentsAppends(b', args[1..]);
      assert b.arguments + [args[0]] + args[1..] == b.arguments + args;
    }
  }

  // ---------------------------------------------------------------------
  // The envelope
  // ---------------------------------------------------------------------

  const ProposalKeyRequired: Error := Error.Transaction("Proposal key is required")

  /** A list of byte strings as RLP items. */
  function Strings(xs: seq<seq<byte>>): (r: seq<Rlp.Item>)
    ensures |r| == |xs|
    ensures forall i :: 0 <= i < |xs| ==> r[i] == Rlp.Str(xs[i])
  {
    seq(|xs|, i requires 0 <= i < |xs| => Rlp.Str(xs[i]))
  }

  /** The seven envelope fields in the order the ledger defines: script,
      arguments, reference block, gas limit, proposal key (address, key
      index, sequence number), payer, authorizers. */
  function EnvelopeItem(tx: Transaction, key: ProposalKey): Rlp.Item
  {
    Rlp.List([
      Rlp.Str(tx.script),
      Rlp.List(Strings(tx.arguments)),
      Rlp.Str(tx.referenceBlockId),
      Rlp.Uint(tx.gasLimit),
      Rlp.List([Rlp.Str(key.address), Rlp.Uint(key.keyIndex), Rlp.Uint(key.sequenceNumber)]),
      Rlp.Str(tx.payer),
      Rlp.List(Strings(tx.authorizers))])
  }

  /** `encode_transaction_envelope`: fails exactly when the proposal key is
      missing. */
  function EncodeEnvelope(tx: Transaction): (r: Result<seq<byte>>)
    ensures r.Err? <==> tx.proposalKey.None?
    ensures r.Err? ==> r.error == ProposalKeyRequired
  {
    match tx.proposalKey
    case None => Err(ProposalKeyRequired)
    case Some(key) => Ok(Rlp.Encode(EnvelopeItem(tx, key)))
  }

  /** The envelope's lengths all fit the encoder's 64-bit length fields. */
  predicate EnvelopeFits(tx: Transaction) {
    tx.proposalKey.Some? && Rlp.Fits(EnvelopeItem(tx, tx.proposalKey.value))
  }

  /** The envelope reads back, with an RLP decoder, as the seven-field list. */
  lemma EnvelopeRoundTrip(tx: Transaction)
    requires EnvelopeFits(tx)
    ensures EncodeEnvelope(tx).Ok?
    ensures Rlp.Decode(EncodeEnvelope(tx).value) == Some(EnvelopeItem(tx, tx.proposalKey.value))
  {
    Rlp.RoundTrip(EnvelopeItem(tx, tx.proposalKey.value));
  }

  /** The seven fields the envelope covers agree. */
  predicate SameEnvelopeFields(t: Transaction, u: Transaction) {
    && t.script == u.script
    && t.arguments == u.arguments
    && t.referenceBlockId == u.referenceBlockId
    && t.gasLimit == u.gasLimit
    && t.proposalKey == u.proposalKey
    && t.payer == u.payer
    && t.authorizers == u.authorizers
  }

  lemma StringsInjective(xs: seq<seq<byte>>, ys: seq<seq<byte>>)
    requires Strings(xs) == Strings(ys)
    ensures xs == ys
  {
    assert |xs| == |ys|;
    forall i | 0 <= i < |xs| ensures xs[i] == ys[i] {
      assert Strings(xs)[i] == Strings(ys)[i];
    }
  }

  lemma UintInjective(m: nat, n: nat)
    requires Rlp.Uint(m) == Rlp.Uint(n)
    ensures m == n
  {
    BigEndianRoundTrip(m);
    BigEndianRoundTrip(n);
  }

  /** Two transactions with the same envelope agree on every field it
      covers, so a signature over the envelope binds all seven fields. */
  lemma EnvelopeInjective(t: Transaction, u: Transaction)
    requires EnvelopeFits(t) && EnvelopeFits(u)
    requires EncodeEnvelope(t) == EncodeEnvelope(u)
    ensures SameEnvelopeFields(t, u)
  {
    var kt, ku := t.proposalKey.value, u.proposalKey.value;
    Rlp.Injective(EnvelopeItem(t, kt), EnvelopeItem(u, ku));
    var it, iu := EnvelopeItem(t, kt).items, EnvelopeItem(u, ku).items;
    assert it[1] == iu[1] && it[3] == iu[3] && it[4] == iu[4] && it[6] == iu[6];
    StringsInjective(t.arguments, u.arguments);
    StringsInjective(t.authorizers, u.authorizers);
    UintInjective(t.gasLimit, u.gasLimit);
    assert it[4].items[1] == iu[4].items[1] && it[4].items[2] == iu[4].items[2];
    UintInjective(kt.keyIndex, ku.keyIndex);
    UintInjective(kt.sequenceNumber, ku.sequenceNumber);
  }

  /** The envelope is a function of the seven fields alone: the payload and
      envelope signatures never change it. With EnvelopeInjective, two
      transactions have the same envelope exactly when they agree on
      these fields. */
  lemma EnvelopeDependsOnFieldsOnly(t: Transaction, u: Transaction)
    requires SameEnvelopeFields(t, u)
    ensures EncodeEnvelope(t) == EncodeEnvelope(u)
  {
    if t.proposalKey.Some? {
      assert EnvelopeItem(t, t.proposalKey.value) == EnvelopeItem(u, u.proposalKey.value);
    }
  }

  /** Every transaction `build` returns has an envelope. */
  lemma BuildEncodes(b: TransactionBuilder)
    ensures EncodeEnvelope(Build(b)).Ok?
    ensures EncodeEnvelope(Build(b)).value
            == Rlp.Encode(EnvelopeItem(Build(b), ProposalKey(b.proposalKeyAddress, b.proposalKeyIndex, b.proposalKeySequenceNumber)))
  {
  }

  // ---------------------------------------------------------------------
  // Signing
  // ---------------------------------------------------------------------

  /** The domain tag prefixed to the envelope before signing. */
  const DomainTag: string := "FLOW-V0.0-transaction"

  /** The tag is 21 ASCII bytes. */
  lemma DomainTagBytes()
    ensures |Utf8.Encode(DomainTag)| == 21
    ensures forall k :: 0 <= k < 21 ==> Utf8.Encode(DomainTag)[k] == DomainTag[k] as int
  {
    assert Utf8.IsAscii(DomainTag) by {
      forall k | 0 <= k < |DomainTag| ensures DomainTag[k] as int < 0x80 {
        assert DomainTag[k] <= 'z';
      }
    }
    Utf8.AsciiEncoding(DomainTag);
  }

  /** The bytes that are signed: the 21 ASCII bytes of the tag, unpadded,
      then the envelope. */
  function SigningMessage(envelope: seq<byte>): (m: seq<byte>)
    ensures |m| == 21 + |envelope|
    ensures forall k :: 0 <= k < 21 ==> m[k] == DomainTag[k] as int
    ensures m[21..] == envelope
  {
    DomainTagBytes();
    Utf8.Encode(DomainTag) + envelope
  }

  /** Different envelopes give different signed messages. */
  lemma SigningMessageInjective(envelope: seq<byte>, envelope': seq<byte>)
    requires SigningMessage(envelope) == SigningMessage(envelope')
    ensures envelope == envelope'
  {
    assert SigningMessage(envelope)[21..] == SigningMessage(envelope')[21..];
  }

  /** `sign_transaction`: returns the transaction after the call, with the
      call's outcome. On success exactly one envelope signature, by
      `signer` with `keyIndex` over the tagged envelope, is appended and
      nothing else changes; on failure the transaction is unchanged. */
  function SignTransaction(
    tx: Transaction, key: seq<byte>, signer: seq<byte>, keyIndex: u32, p: Crypto.Primitives): (r: (Transaction, Result<()>))
    ensures r.1.Err? <==> tx.proposalKey.None?
    ensures r.1.Err? ==> r.1.error == ProposalKeyRequired && r.0 == tx
    ensures r.1.Ok? ==>
      && |r.0.envelopeSignatures| == |tx.envelopeSignatures| + 1
      && r.0.envelopeSignatures[..|tx.envelopeSignatures|] == tx.envelopeSignatures
      && r.0.(envelopeSignatures := tx.envelopeSignatures) == tx
      && var s := r.0.envelopeSignatures[|tx.envelopeSignatures|];
         && s.address == signer && s.keyIndex == keyIndex
         && s.signature == KeyVault.SignMessage(p, key, Utf8.Encode(DomainTag) + EncodeEnvelope(tx).value)
  {
    match EncodeEnvelope(tx)
    case Err(e) => (tx, Err(e))
    case Ok(payload) =>
      var signature := KeyVault.SignMessage(p, key, SigningMessage(payload));
      (tx.(envelopeSignatures := tx.envelopeSignatures + [TransactionSignature(signer, keyIndex, signature)]), Ok(()))
  }

  /** Signing does not change the envelope, so a second signer signs the
      same message as the first. */
  lemma SigningKeepsEnvelope(
    tx: Transaction, key: seq<byte>, signer: seq<byte>, keyIndex: u32, p: Crypto.Primitives)
    ensures EncodeEnvelope(SignTransaction(tx, key, signer, keyIndex, p).0) == EncodeEnvelope(tx)
  {
    EnvelopeDependsOnFieldsOnly(SignTransaction(tx, key, signer, keyIndex, p).0, tx);
  }

  // ---------------------------------------------------------------------
  // Address helpers
  // ---------------------------------------------------------------------

  /** `format_address`: "0x" and lowercase hex. */
  function FormatAddress(address: seq<byte>): (r: string)
    ensures Text.StartsWith(r, "0x")
    ensures |r| == 2 + 2 * |address|
  {
    "0x" + Hex.Encode(address)
  }

  /** `parse_address`: drops one leading "0x" if present and decodes the
      rest as hex. */
  function ParseAddress(address: string): (r: Result<seq<byte>>)
    ensures r.Err? <==> Hex.Decode(Text.StripPrefix(address, "0x")).Invalid?
    ensures r.Err? ==> r.error.Flow?
  {
    match Hex.Decode(Text.StripPrefix(address, "0x"))
    case Invalid(e) => Err(Flow("Invalid address: " + Hex.Message(e)))
    case Bytes(b) => Ok(b)
  }

  /** Parsing a formatted address gives the bytes back. */
  lemma ParseFormatAddress(address: seq<byte>)
    ensures ParseAddress(FormatAddress(address)) == Ok(address)
  {
    var f := FormatAddress(address);
    assert f[..2] == "0x" && f[2..] == Hex.Encode(address);
    Hex.RoundTrip(address);
  }

  /** The prefix is optional: with or without it the same text parses to
      the same result. */
  lemma PrefixOptional(s: string)
    requires !Text.StartsWith(s, "0x")
    ensures ParseAddress("0x" + s) == ParseAddress(s)
  {
    assert ("0x" + s)[..2] == "0x" && ("0x" + s)[2..] == s;
  }

  /** Only one prefix is dropped: a doubled "0x0x" never parses. */
  lemma OnePrefixOnly(s: string)
    ensures ParseAddress("0x0x" + s).Err?
  {
    var t := "0x0x" + s;
    assert t[..2] == "0x" && t[2..] == "0x" + s;
    Utf8.EncodeAppend("0x", s);
    Utf8.AsciiEncoding("0x");
    var h := Utf8.Encode("0x" + s);
    assert h[1] == 120;
    assert !Hex.IsHexByte(h[1]);
  }

  const MainnetExplorer: string := "https://flowscan.org/transaction"
  const TestnetExplorer: string := "https://testnet.flowscan.org/transaction"

  /** `flowscan_link`: the explorer page of a transaction. */
  function FlowscanLink(txId: seq<byte>, isMainnet: bool): (r: string)
    ensures var base := if isMainnet then MainnetExplorer else TestnetExplorer;
      Text.StartsWith(r, base + "/") && |r| == |base| + 1 + 2 * |txId|
  {
    var base := if isMainnet then MainnetExplorer else TestnetExplorer;
    base + "/" + Hex.Encode(txId)
  }

  /** The link names the transaction: what follows the base and the slash
      decodes to its id. */
  lemma FlowscanLinkNamesTransaction(txId: seq<byte>, isMainnet: bool)
    ensures var base := if isMainnet then MainnetExplorer else TestnetExplorer;
      Hex.Decode(FlowscanLink(txId, isMainnet)[|base| + 1..]) == Hex.Bytes(txId)
  {
    var base := if isMainnet then MainnetExplorer else TestnetExplorer;
    assert FlowscanLink(txId, isMainnet)[|base| + 1..] == Hex.Encode(txId);
    Hex.RoundTrip(txId);
  }
}
