/**
 * The `mint` command (src/core/mint.rs): uploads a file, builds the minting
 * transaction from the active profile, and, unless it is a dry run, signs
 * it with the profile's key, submits it and waits for it to be sealed.
 * Everything the command asks the outside world is an input, in
 * `Environment` and `Submission`: each step's answer, or the error it
 * fails with.
 */
module Mint {
  import opened Wrappers
  import opened Errors
  import opened Bytes
  import Text
  import Hex
  import Json
  import Utf8
  import Crypto
  import Cadence
  import Flow
  import Seal
  import KeyVault
  import opened Configuration

  const DefaultDescription: string := "A unique NFT"
  const SealAttempts: Flow.u32 := 30
  const KeyIndex: Flow.u32 := 0

  const NoAddress: Error := Error.Config("No Flow address configured")
  const NoKeyAlias: Error := Error.Config("No key alias configured")
  const NoPassphraseInJson: Error := Auth("Cannot prompt for passphrase in JSON mode. Use interactive mode.")

  function Required(prompt: string): Error {
    InvalidInput(prompt + " is required")
  }

  function TransactionFailed(message: string): Error {
    Error.Transaction("Transaction failed: " + message)
  }

  /** What the outside world answers while the transaction is prepared,
      in the order the command asks. */
  datatype Environment = Environment(
    fileCheck: Result<()>,                     // utils::validate_file
    stored: Result<Config>,                    // Config::load
    nameLine: string,                          // the answer to the "NFT Name" prompt
    descriptionLine: string,                   // the answer to the "NFT Description" prompt
    upload: Result<string>,                    // storage::upload: the content id
    mintScript: string,                        // the embedded "mint" template
    connect: Result<()>,                       // FlowClient::connect
    latestBlock: Result<seq<byte>>,            // the id of the latest block
    account: Result<seq<Flow.u32>>)            // the signer account's keys' sequence numbers

  /** What it answers while the transaction is signed and submitted. */
  datatype Submission = Submission(
    passphrase: string,                        // the passphrase typed in
    keys: KeyVault.KeyDir,                     // the key directory
    primitives: Crypto.Primitives,             // the cryptography
    submit: Result<seq<byte>>,                 // send_transaction: the transaction id
    responses: nat -> Result<Seal.TransactionResult>)  // the answers to the seal polls

  /** What `mint` prints on success: the result of a dry run is the
      transaction it would have signed, that of a mint the transaction it
      submitted and the `MintResult`. */
  datatype MintResult = MintResult(transactionId: string, flowscanLink: string, ipfsCid: string, nftName: string)

  datatype Outcome = DryRun(transaction: Flow.Transaction) | Minted(transaction: Flow.Transaction, result: MintResult)

  // ---------------------------------------------------------------------
  // The pieces
  // ---------------------------------------------------------------------

  /** `prompt_input` of `mint`: the trimmed line, or on an empty answer the
      default; without a default an empty answer is an error. */
  function PromptInput(line: string, prompt: string, default: Option<string>): (r: Result<string>)
    ensures r.Err? <==> Text.Trim(line) == [] && default.None?
    ensures r.Err? ==> r.error == Required(prompt)
    ensures r.Ok? ==> r.value == (if Text.Trim(line) == [] then default.value else Text.Trim(line))
  {
    var input := Text.Trim(line);
    if input == [] then
      if default.Some? then Ok(default.value) else Err(Required(prompt))
    else Ok(input)
  }

  /** The two `prompt_input`s agree whenever `mint`'s succeeds; they differ
      only on an empty answer without a default, where `init`'s gives "". */
  lemma PromptInputsAgree(line: string, prompt: string, default: Option<string>)
    ensures PromptInput(line, prompt, default).Ok? ==>
              PromptInput(line, prompt, default).value == Configuration.PromptInput(line, default)
    ensures PromptInput(line, prompt, default).Err? ==> Configuration.PromptInput(line, default) == ""
  {
  }

  /** The recipient: the `to` option, else the profile's address. */
  function Recipient(to: Option<string>, profile: Profile): (r: Result<string>)
    ensures r.Ok? <==> to.Some? || profile.flow.address.Some?
    ensures r.Ok? && to.Some? ==> r.value == to.value
    ensures r.Ok? && to.None? ==> r.value == profile.flow.address.value
    ensures r.Err? ==> r.error == NoAddress
  {
    if to.Some? then Ok(to.value)
    else if profile.flow.address.Some? then Ok(profile.flow.address.value)
    else Err(NoAddress)
  }

  /** The proposal key's sequence number: that of the account's first key,
      or 0 for an account without keys. */
  function SequenceNumber(keys: seq<Flow.u32>): (n: Flow.u64)
    ensures keys != [] ==> n == keys[0]
    ensures keys == [] ==> n == 0
  {
    if keys == [] then 0 else keys[0]
  }

  /** The `ipfs://` URL of a content id. */
  function IpfsUrl(cid: string): string {
    "ipfs://" + cid
  }

  /** The four string parameters of the mint script that follow the
      recipient: name, description, thumbnail URL and content id. */
  function StringParameters(name: string, description: string, cid: string): seq<string> {
    [name, description, IpfsUrl(cid), cid]
  }

  /** The five arguments of the mint script: the recipient's address, then
      the four string parameters. */
  function Arguments(recipient: string, name: string, description: string, cid: string): seq<seq<byte>>
  {
    [Cadence.EncodeAddress(recipient).value] + StringArguments(StringParameters(name, description, cid))
  }

  /** JSON-Cadence strings, one per text. */
  function StringArguments(ss: seq<string>): (args: seq<seq<byte>>)
    ensures |args| == |ss|
    ensures forall i :: 0 <= i < |ss| ==> Json.FromBytes(args[i]) == Some(Cadence.Cdc("String", Json.String(ss[i])))
  {
    seq(|ss|, i requires 0 <= i < |ss| => Cadence.EncodeString(ss[i]).value)
  }

  /** Each argument reads back as the JSON-Cadence value the script
      expects: an address with exactly one "0x", then the four strings. */
  lemma ArgumentsReadBack(recipient: string, name: string, description: string, cid: string)
    ensures var args := Arguments(recipient, name, description, cid);
      && |args| == 5
      && Json.FromBytes(args[0]) == Some(Cadence.Cdc("Address", Json.String("0x" + Text.StripPrefix(recipient, "0x"))))
      && forall k :: 1 <= k < 5 ==>
           Json.FromBytes(args[k]) == Some(Cadence.Cdc("String", Json.String(StringParameters(name, description, cid)[k - 1])))
  {
    var strings := StringArguments(StringParameters(name, description, cid));
    var args := Arguments(recipient, name, description, cid);
    assert forall k :: 1 <= k < 5 ==> args[k] == strings[k - 1];
  }

  /** The transaction the builder chain of `mint` produces, with the
      arguments put in afterwards. */
  function Assemble(script: string, blockId: seq<byte>, signer: seq<byte>, sequence: Flow.u64, args: seq<seq<byte>>)
    : (tx: Flow.Transaction)
    ensures Utf8.Decode(tx.script) == Some(script)
    ensures tx.referenceBlockId == blockId
    ensures tx.gasLimit == 9999
    ensures tx.proposalKey == Some(Flow.ProposalKey(signer, KeyIndex, sequence))
    ensures tx.payer == signer && tx.authorizers == [signer]
    ensures tx.arguments == args
    ensures tx.payloadSignatures == [] && tx.envelopeSignatures == []
  {
    var b := Flow.NewBuilder(script);
    var b := Flow.SetReferenceBlockId(b, blockId);
    var b := Flow.SetGasLimit(b, 9999);
    var b := Flow.SetProposalKey(b, signer, KeyIndex, sequence);
    var b := Flow.SetPayer(b, signer);
    var b := Flow.AddAuthorizer(b, signer);
    Flow.Build(b).(arguments := args)
  }

  /** The check after sealing: a non-zero status code or an error message
      fails the mint. */
  function AcceptSealed(result: Seal.TransactionResult): (r: Result<()>)
    ensures r.Ok? <==> result.statusCode == 0 && result.errorMessage == []
    ensures r.Err? ==> r.error == TransactionFailed(result.errorMessage)
  {
    if result.statusCode != 0 || result.errorMessage != [] then Err(TransactionFailed(result.errorMessage))
    else Ok(())
  }

  // ---------------------------------------------------------------------
  // The command
  // ---------------------------------------------------------------------

  /** What the command has gathered once the transaction is built. */
  datatype Prepared = Prepared(
    profile: Profile, nftName: string, description: string, recipient: string, cid: string,
    signer: seq<byte>, transaction: Flow.Transaction)

  /** The name and description: the options when given, else the answers
      to the prompts; the description's prompt defaults to
      `DefaultDescription`, so only the name's can fail. */
  function Details(name: Option<string>, description: Option<string>, env: Environment): (r: Result<(string, string)>)
    ensures r.Err? <==> name.None? && Text.Trim(env.nameLine) == []
    ensures r.Err? ==> r.error == Required("NFT Name")
    ensures r.Ok? && name.Some? ==> r.value.0 == name.value
    ensures r.Ok? && name.None? ==> r.value.0 == Text.Trim(env.nameLine)
    ensures r.Ok? && description.Some? ==> r.value.1 == description.value
    ensures r.Ok? && description.None? && Text.Trim(env.descriptionLine) == [] ==> r.value.1 == DefaultDescription
    ensures r.Ok? && description.None? && Text.Trim(env.descriptionLine) != [] ==> r.value.1 == Text.Trim(env.descriptionLine)
  {
    var nftName :- if name.Some? then Ok(name.value) else PromptInput(env.nameLine, "NFT Name", None);
    var nftDescription :=
      if description.Some? then description.value
      else PromptInput(env.descriptionLine, "NFT Description", Some(DefaultDescription)).value;
    Ok((nftName, nftDescription))
  }

  /** The values gathered before the transaction is built, in the order the
      command asks for them: name and description, recipient, and the
      uploaded file's content id. The first failing step's error is the
      result. */
  function Inputs(profile: Profile, name: Option<string>, description: Option<string>, to: Option<string>,
                  env: Environment): (r: Result<(string, string, string, string)>)
    ensures Details(name, description, env).Err? ==> r == Err(Details(name, description, env).error)
    ensures Details(name, description, env).Ok? && Recipient(to, profile).Err? ==> r == Err(NoAddress)
    ensures Details(name, description, env).Ok? && Recipient(to, profile).Ok? && env.upload.Err? ==>
              r == Err(env.upload.error)
    ensures r.Ok? <==> Details(name, description, env).Ok? && Recipient(to, profile).Ok? && env.upload.Ok?
    ensures r.Ok? ==> && (r.value.0, r.value.1) == Details(name, description, env).value
                      && r.value.2 == Recipient(to, profile).value && r.value.3 == env.upload.value
  {
    var details :- Details(name, description, env);
    var recipient :- Recipient(to, profile);
    var cid :- env.upload;
    Ok((details.0, details.1, recipient, cid))
  }

  /** The ledger answers the transaction needs: after connecting, the latest
      block's id, the signer's address from the profile, and the sequence
      numbers of the signer account's keys. The first failing step's error
      is the result. */
  function Chain(profile: Profile, env: Environment): (r: Result<(seq<byte>, seq<byte>, seq<Flow.u32>)>)
    ensures env.connect.Err? ==> r == Err(env.connect.error)
    ensures env.connect.Ok? && env.latestBlock.Err? ==> r == Err(env.latestBlock.error)
    ensures env.connect.Ok? && env.latestBlock.Ok? && profile.flow.address.None? ==> r == Err(NoAddress)
    ensures env.connect.Ok? && env.latestBlock.Ok? && profile.flow.address.Some? ==>
              var signer := Flow.ParseAddress(profile.flow.address.value);
              && (signer.Err? ==> r == Err(signer.error))
              && (signer.Ok? && env.account.Err? ==> r == Err(env.account.error))
              && (signer.Ok? && env.account.Ok? ==> r == Ok((env.latestBlock.value, signer.value, env.account.value)))
    ensures r.Ok? ==> env.connect.Ok? && env.latestBlock.Ok? && profile.flow.address.Some? && env.account.Ok?
  {
    var connected :- env.connect;
    var blockId :- env.latestBlock;
    var signerAddress :- if profile.flow.address.Some? then Ok(profile.flow.address.value) else Err(NoAddress);
    var signer :- Flow.ParseAddress(signerAddress);
    var keys :- env.account;
    Ok((blockId, signer, keys))
  }

  /** Everything up to and including building the transaction: the steps a
      dry run shares with a real mint. Loading the "mint" template cannot
      fail. */
  function Prepare(name: Option<string>, description: Option<string>, to: Option<string>, env: Environment)
    : (r: Result<Prepared>)
    ensures env.fileCheck.Err? ==> r == Err(env.fileCheck.error)
    ensures env.fileCheck.Ok? && env.stored.Err? ==> r == Err(env.stored.error)
    ensures env.fileCheck.Ok? && env.stored.Ok? && GetActiveProfile(env.stored.value).Err? ==>
              r == Err(GetActiveProfile(env.stored.value).error)
    ensures env.fileCheck.Ok? && env.stored.Ok? && GetActiveProfile(env.stored.value).Ok? ==>
              var profile := GetActiveProfile(env.stored.value).value;
              var inputs := Inputs(profile, name, description, to, env);
              && (inputs.Err? ==> r == Err(inputs.error))
              && (inputs.Ok? && Chain(profile, env).Err? ==> r == Err(Chain(profile, env).error))
              && (inputs.Ok? && Chain(profile, env).Ok? ==> r.Ok?)
    ensures r.Ok? ==> && env.stored.Ok? && GetActiveProfile(env.stored.value) == Ok(r.value.profile)
                      && Inputs(r.value.profile, name, description, to, env)
                         == Ok((r.value.nftName, r.value.description, r.value.recipient, r.value.cid))
                      && Chain(r.value.profile, env).Ok? && Chain(r.value.profile, env).value.1 == r.value.signer
    ensures r.Ok? ==> r.value.transaction == Assemble(env.mintScript, env.latestBlock.value, r.value.signer,
                                                      SequenceNumber(env.account.value),
                                                      Arguments(r.value.recipient, r.value.nftName, r.value.description, r.value.cid))
  {
    var fileChecked :- env.fileCheck;
    var config :- env.stored;
    var profile :- GetActiveProfile(config);
    var inputs :- Inputs(profile, name, description, to, env);
    var script := Cadence.LoadTemplate("mint", env.mintScript).value;
    var chain :- Chain(profile, env);
    var args := Arguments(inputs.2, inputs.0, inputs.1, inputs.3);
    var tx := Assemble(script, chain.0, chain.1, SequenceNumber(chain.2), args);
    Ok(Prepared(profile, inputs.0, inputs.1, inputs.2, inputs.3, chain.1, tx))
  }

  /** The steps after a dry run would have stopped: the profile's key alias
      is required, and JSON mode is refused because it cannot ask for the
      passphrase. */
  function Submit(prep: Prepared, json: bool, sub: Submission): (r: Result<Outcome>)
    requires prep.transaction.proposalKey.Some?
    ensures prep.profile.flow.keyAlias.None? ==> r == Err(NoKeyAlias)
    ensures json && prep.profile.flow.keyAlias.Some? ==> r == Err(NoPassphraseInJson)
    ensures !json && prep.profile.flow.keyAlias.Some? ==> r == SignAndSend(prep, prep.profile.flow.keyAlias.value, sub)
  {
    var alias :- if prep.profile.flow.keyAlias.Some? then Ok(prep.profile.flow.keyAlias.value) else Err(NoKeyAlias);
    if json then Err(NoPassphraseInJson) else SignAndSend(prep, alias, sub)
  }

  /** The key is unlocked, the envelope signed (which cannot fail, see
      AssembledIsSignable), the transaction submitted and awaited for up to
      30 polls, and the sealed result checked. */
  function SignAndSend(prep: Prepared, alias: string, sub: Submission): (r: Result<Outcome>)
    requires prep.transaction.proposalKey.Some?
    ensures var key := KeyVault.LoadSigningKey(sub.keys, alias, sub.passphrase, sub.primitives);
      key.Err? ==> r == Err(key.error)
    ensures KeyVault.LoadSigningKey(sub.keys, alias, sub.passphrase, sub.primitives).Ok? && sub.submit.Err? ==>
              r == Err(sub.submit.error)
    ensures KeyVault.LoadSigningKey(sub.keys, alias, sub.passphrase, sub.primitives).Ok? && sub.submit.Ok? ==>
              var sealed := Seal.Expected(sub.responses, SealAttempts).0;
              && (sealed.Err? ==> r == Err(sealed.error))
              && (sealed.Ok? && AcceptSealed(sealed.value).Err? ==> r == Err(AcceptSealed(sealed.value).error))
              && (sealed.Ok? && AcceptSealed(sealed.value).Ok? ==> r.Ok?)
    ensures r.Ok? ==>
      && r.value.Minted?
      && KeyVault.LoadSigningKey(sub.keys, alias, sub.passphrase, sub.primitives).Ok?
      && |r.value.transaction.envelopeSignatures| == |prep.transaction.envelopeSignatures| + 1
      && r.value.transaction.envelopeSignatures[|prep.transaction.envelopeSignatures|].address == prep.signer
      && r.value.transaction.envelopeSignatures[|prep.transaction.envelopeSignatures|].keyIndex == KeyIndex
      && r.value.transaction.(envelopeSignatures := prep.transaction.envelopeSignatures) == prep.transaction
      && sub.submit.Ok?
      && Seal.Expected(sub.responses, SealAttempts).0.Ok?
      && AcceptSealed(Seal.Expected(sub.responses, SealAttempts).0.value).Ok?
      && r.value.result == MintResult(Hex.Encode(sub.submit.value),
                                      Flow.FlowscanLink(sub.submit.value, prep.profile.network == Mainnet),
                                      prep.cid, prep.nftName)
  {
    var key :- KeyVault.LoadSigningKey(sub.keys, alias, sub.passphrase, sub.primitives);
    var signed := Flow.SignTransaction(prep.transaction, key, prep.signer, KeyIndex, sub.primitives).0;
    var txId :- sub.submit;
    var sealed :- Seal.Expected(sub.responses, SealAttempts).0;
    var accepted :- AcceptSealed(sealed);
    Ok(Minted(signed, MintResult(Hex.Encode(txId), Flow.FlowscanLink(txId, prep.profile.network == Mainnet),
                                 prep.cid, prep.nftName)))
  }

  /** `mint`: a dry run ends once the transaction is built; otherwise the
      built transaction is submitted. */
  function Mint(name: Option<string>, description: Option<string>, to: Option<string>,
                json: bool, dryRun: bool, env: Environment, sub: Submission): (r: Result<Outcome>)
    ensures r.Ok? ==> Prepare(name, description, to, env).Ok?
    ensures Prepare(name, description, to, env).Err? ==> r == Err(Prepare(name, description, to, env).error)
    ensures dryRun && Prepare(name, description, to, env).Ok? ==>
              r == Ok(DryRun(Prepare(name, description, to, env).value.transaction))
    ensures !dryRun && Prepare(name, description, to, env).Ok? ==>
              r == Submit(Prepare(name, description, to, env).value, json, sub)
  {
    var prep :- Prepare(name, description, to, env);
    if dryRun then Ok(DryRun(prep.transaction)) else Submit(prep, json, sub)
  }

  // ---------------------------------------------------------------------
  // Properties
  // ---------------------------------------------------------------------

  /** The assembled transaction always has an envelope, so signing it in
      `mint` never fails. */
  lemma AssembledIsSignable(script: string, blockId: seq<byte>, signer: seq<byte>, sequence: Flow.u64, args: seq<seq<byte>>,
                            key: seq<byte>, p: Crypto.Primitives)
    ensures Flow.EncodeEnvelope(Assemble(script, blockId, signer, sequence, args)).Ok?
    ensures Flow.SignTransaction(Assemble(script, blockId, signer, sequence, args), key, signer, KeyIndex, p).1.Ok?
  {
  }

  /** A dry run asks nothing of the key directory, the passphrase, the
      cryptography, the submission or the seal polls, and ends with the
      built transaction whenever preparing it succeeds. */
  lemma DryRunTouchesNoKey(name: Option<string>, description: Option<string>, to: Option<string>, json: bool,
                           env: Environment, sub: Submission, other: Submission)
    ensures Mint(name, description, to, json, true, env, sub) == Mint(name, description, to, json, true, env, other)
    ensures Mint(name, description, to, json, true, env, sub).Ok? <==> Prepare(name, description, to, env).Ok?
  {
  }

  /** In JSON mode a real mint always fails, before any key is loaded: the
      error does not depend on what signing and submitting would answer. */
  lemma JsonModeLoadsNoKey(name: Option<string>, description: Option<string>, to: Option<string>,
                           env: Environment, sub: Submission, other: Submission)
    ensures Mint(name, description, to, true, false, env, sub).Err?
    ensures Mint(name, description, to, true, false, env, sub) == Mint(name, description, to, true, false, env, other)
  {
  }

  /** A sealed transaction that reports an error fails the mint with that
      error's message, even though it was sealed. */
  lemma SealedWithErrorFails(prep: Prepared, alias: string, sub: Submission, sealed: Seal.TransactionResult)
    requires prep.transaction.proposalKey.Some?
    requires KeyVault.LoadSigningKey(sub.keys, alias, sub.passphrase, sub.primitives).Ok?
    requires sub.submit.Ok?
    requires Seal.Expected(sub.responses, SealAttempts).0 == Ok(sealed)
    requires sealed.statusCode != 0 || sealed.errorMessage != []
    ensures SignAndSend(prep, alias, sub) == Err(TransactionFailed(sealed.errorMessage))
  {
  }

  /** A transaction still pending after 30 polls fails the mint with the
      timeout error. */
  lemma PendingTooLongFails(prep: Prepared, alias: string, sub: Submission)
    requires prep.transaction.proposalKey.Some?
    requires KeyVault.LoadSigningKey(sub.keys, alias, sub.passphrase, sub.primitives).Ok?
    requires sub.submit.Ok?
    requires forall i :: 0 <= i < 30 ==> sub.responses(i) == Ok(Seal.TransactionResult(1, 0, ""))
    ensures SignAndSend(prep, alias, sub) == Err(Seal.NotSealed(30))
  {
    Seal.NoStop(sub.responses, 30);
  }

  /** The minted transaction carries the assembled fields unchanged, and
      its envelope, the message its one signature is over, is that of the
      built transaction. */
  lemma MintedTransactionCarriesArguments(name: Option<string>, description: Option<string>, to: Option<string>,
                                          env: Environment, sub: Submission)
    ensures Mint(name, description, to, false, false, env, sub).Ok? ==>
      var prep := Prepare(name, description, to, env).value;
      var tx := Mint(name, description, to, false, false, env, sub).value.transaction;
      && tx.arguments == Arguments(prep.recipient, prep.nftName, prep.description, prep.cid)
      && tx.proposalKey == Some(Flow.ProposalKey(prep.signer, KeyIndex, SequenceNumber(env.account.value)))
      && tx.payer == prep.signer && tx.authorizers == [prep.signer]
      && |tx.envelopeSignatures| == 1
      && Flow.EncodeEnvelope(tx) == Flow.EncodeEnvelope(prep.transaction)
  {
    if Mint(name, description, to, false, false, env, sub).Ok? {
      var prep := Prepare(name, description, to, env).value;
      var tx := Mint(name, description, to, false, false, env, sub).value.transaction;
      assert tx.(envelopeSignatures := prep.transaction.envelopeSignatures) == prep.transaction;
      Flow.EnvelopeDependsOnFieldsOnly(tx, prep.transaction);
    }
  }
}
