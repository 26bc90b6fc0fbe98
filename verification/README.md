# mtmf core, modelled in Dafny

mtmf is a command-line tool that mints NFTs on the Flow blockchain. It uploads a
file to IPFS, builds a Cadence transaction, signs it with a P-256 key kept
encrypted on disk, submits it and then polls until the transaction is sealed.
This project models the deterministic core of that program as pure Dafny
functions over immutable values, and proves what each part promises.

The modules follow the program's structure:

- `Flow` (src/core/flow.rs) covers the transaction builder, the RLP
  transaction envelope, signing with the `FLOW-V0.0-transaction` domain tag,
  and the address helpers and Flowscan link.
- `Seal` (`FlowClient::wait_for_seal`) is the bounded polling loop. It is a
  method driven by a status oracle `responses(i)`, the answer to the i-th
  poll, and it counts polls and sleeps. `Seal.Expected` is the independent
  specification it is proved against.
- `KeyVault` (src/core/key.rs) models the key directory as a map from file
  name to key file. It covers generate, import, export, list and loading a
  signing key, with encryption, key derivation and the curve kept abstract.
- `Cadence` (src/core/cadence.rs) covers templates and JSON-Cadence argument
  encoding over a small JSON datatype.
- `Configuration` (src/core/config.rs) covers profiles, defaults, the active
  profile lookup, the prompt rules and `init`.
- `Profiles` (src/core/profile.rs) covers `list`, `create`, `switch` and
  `delete` as functions from the loaded configuration to the one saved.
- `Mint` (src/core/mint.rs) is the mint pipeline. The network, the upload and
  the stored files are inputs.
- The supporting modules stand in for the crates the code calls:
  - `Rlp` (the `rlp` crate);
  - `Hex` (the `hex` crate);
  - `Json` (`serde_json` writing and reading a value);
  - `Utf8` (`str::as_bytes`);
  - `Text` (trimming, prefixes, decimal numbers);
  - `Bytes` (big-endian integers);
  - `Crypto` (the primitives as a record of functions, plus the idealised
    properties `Sound` that the round-trip lemmas assume).
- `Errors` mirrors the error variants of src/errors.rs. It adds `Panic` for
  the places where the Rust code would panic.

Randomness (salts, nonces, fresh private keys) is passed in as fixed-length
inputs. Each prompt answer is passed in as the line the user typed. Each
network answer is passed in as a `Result`.

The model follows the code on these points, each easy to misread:

- **Signing hashes twice.** `sign_message` hashes with SHA3-256 and then
  calls p256's `Signer::sign`. That function hashes its input again with
  SHA-256. The primitive `ecdsaSign` stands for `Signer::sign` itself.
- **A malformed record can panic.** Decryption reports a wrong passphrase
  and a tampered ciphertext as the one "Decryption failed" error. A stored
  nonce that is not 12 bytes, however, makes `Nonce::from_slice` panic
  (src/core/key.rs:240). Likewise, `list` panics on a public key shorter
  than 8 bytes (src/core/key.rs:269). Both appear as `Error.Panic`.
- **Expiry and timeout share a variant.** Expiry and "not sealed after n
  attempts" are both `Transaction` errors and differ only in their message.
- **`list` returns lines, not pairs.** Key `list` returns formatted lines
  `"<stem> (<16 hex digits>...)"`, not (alias, prefix) pairs.
- **`mint` returns a value here.** `mint` prints its result and returns
  `()`. The model returns the transaction and the `MintResult` it prints.

## Model

| member | source | states |
|---|---|---|
| Flow.NewBuilder | src/core/flow.rs:180-192 | the script holds the UTF-8 bytes of the text; the gas limit is 9999; every other byte field and list is empty; the key index and sequence number are 0 |
| Flow.AddArgument | src/core/flow.rs:194-197 | the argument goes last, the earlier arguments keep their order, and no other field changes |
| Flow.AddAuthorizer | src/core/flow.rs:226-229 | the authorizer goes last, the earlier ones keep their order, and no other field changes |
| Flow.SetReferenceBlockId | src/core/flow.rs:199-202 | only the reference block id changes |
| Flow.SetGasLimit | src/core/flow.rs:204-207 | only the gas limit changes |
| Flow.SetProposalKey | src/core/flow.rs:209-219 | only the three proposal-key fields change |
| Flow.SetPayer | src/core/flow.rs:221-224 | only the payer changes |
| Flow.Build | src/core/flow.rs:231-247 | building never fails; the proposal key is always present and made from the builder's address, index and sequence number; both signature lists are empty; every other field is copied |
| Flow.AddArgumentsAppends | src/core/flow.rs:194-197 | adding many arguments one by one appends them all in order and touches nothing else |
| Flow.EncodeEnvelope | src/core/flow.rs:300-309 | the envelope encoder fails exactly when the proposal key is absent, with the "Proposal key is required" error |
| Flow.EnvelopeRoundTrip | src/core/flow.rs:280-321 | decoding the encoded envelope as RLP gives back the 7-item list [script, [arguments], reference block, gas limit, [key address, key index, sequence number], payer, [authorizers]] |
| Flow.EnvelopeInjective | src/core/flow.rs:280-321 | two transactions with the same envelope agree on all seven encoded fields |
| Flow.EnvelopeDependsOnFieldsOnly | src/core/flow.rs:280-321 | the envelope depends only on those seven fields, so the payload and envelope signatures do not change it |
| Flow.BuildEncodes | src/core/flow.rs:231-247 | every built transaction can be encoded |
| Flow.DomainTagBytes | src/core/flow.rs:261-264 | the domain tag is the 21 ASCII bytes of "FLOW-V0.0-transaction" |
| Flow.SigningMessage | src/core/flow.rs:259-264 | the signed bytes are the 21 ASCII bytes of "FLOW-V0.0-transaction", unpadded, then the envelope |
| Flow.SigningMessageInjective | src/core/flow.rs:259-264 | different envelopes give different signed messages |
| Flow.SignTransaction | src/core/flow.rs:251-277 | with no proposal key, it returns the encoder's error and the transaction unchanged; otherwise it appends exactly one envelope signature by the given signer and key index over the tag followed by the envelope, and nothing else changes |
| Flow.SigningKeepsEnvelope | src/core/flow.rs:251-277 | signing does not change the envelope, so signing twice signs the same message |
| Flow.FormatAddress | src/core/flow.rs:324-326 | the text is "0x" followed by two hex digits per byte |
| Flow.ParseAddress | src/core/flow.rs:335-338 | parsing fails, with a Flow error, exactly when the text left after one optional "0x" is not valid hex |
| Flow.ParseFormatAddress | src/core/flow.rs:324-338 | parsing a formatted address gives the bytes back |
| Flow.PrefixOptional | src/core/flow.rs:335-338 | an address parses the same with or without a leading "0x" |
| Flow.OnePrefixOnly | src/core/flow.rs:335-338 | only one prefix is stripped, so "0x0x…" is rejected |
| Flow.FlowscanLink | src/core/flow.rs:341-348 | the link is the network's explorer base, a slash and two hex digits per byte of the id |
| Flow.FlowscanLinkNamesTransaction | src/core/flow.rs:341-348 | the text after the base and the slash decodes back to the transaction id |
| Seal.FirstStop | src/core/flow.rs:132-153 | finds the first poll that ends the loop (sealed, expired or a transport error), or the budget when there is none |
| Seal.WaitForSeal | src/core/flow.rs:129-159 | the loop returns what the specification `Expected` gives; it polls at most `max_attempts` times; it sleeps once between polls and never after the last; a success is always a sealed status |
| Seal.StopAt | src/core/flow.rs:132-153 | the loop stops at the first sealed, expired or failed poll |
| Seal.NoStop | src/core/flow.rs:132-153 | with no such poll, all the attempts are used |
| Seal.ZeroBudget | src/core/flow.rs:155-158 | with zero attempts it polls nothing and fails with "not sealed after 0 attempts" |
| Seal.ExpiredAtOnce | src/core/flow.rs:142-145 | an expired first poll fails at once, after one poll and no sleep |
| Seal.PendingThenSealed | src/core/flow.rs:129-159 | after m pending polls a sealed status is returned after m+1 polls and m sleeps, if m is within the budget; otherwise the result is the "not sealed" error |
| KeyVault.PublicKey | src/core/key.rs:56-60 | the stored public key is the 65-byte point without its leading format byte, so it is 64 bytes |
| KeyVault.EncryptAndSave | src/core/key.rs:88-143 | writes exactly one file, for the alias, and leaves every other file alone; the record holds the alias, a 32-byte salt, a 12-byte nonce and the public key; under sound primitives it decrypts to the private key with the passphrase |
| KeyVault.Generate | src/core/key.rs:39-86 | an existing alias fails before anything else; then an empty passphrase fails; then a mismatched confirmation fails; otherwise it succeeds, stores the key and returns its 64-byte public key |
| KeyVault.Import | src/core/key.rs:145-194 | an existing alias fails first; the trimmed text must be hex (else the hex error as a Key error); decoded bytes that are not 32 long are the Key "Invalid key length" error; 32 bytes that are not a valid scalar are the Crypto "Invalid private key" error; then an empty passphrase fails; no confirmation is asked for; success stores the key and returns its public key |
| KeyVault.DecryptKey | src/core/key.rs:226-250 | a nonce that is not 12 bytes panics; every other failure is the single "Decryption failed" error |
| KeyVault.ReadRecord | src/core/key.rs:196-204 | a missing file is the Key "not found" error; reading succeeds exactly when the file exists and parses |
| KeyVault.Export | src/core/key.rs:196-224 | an unknown alias is the Key "not found" error |
| KeyVault.LoadSigningKey | src/core/key.rs:281-296 | an unknown alias is the Key "not found" error; a loaded key is always a valid scalar |
| KeyVault.ListFiles | src/core/key.rs:261-276 | listing succeeds unless a listed record's public key is under 8 bytes; every parsed `*.key` file in the directory order gets its line; every line comes from such a file; no line repeats when no name repeats |
| KeyVault.ListFilesOne | src/core/key.rs:261-276 | an entry that is not a parsed key file lists nothing; a parsed one lists exactly its own line |
| KeyVault.ListFilesAppend | src/core/key.rs:261-276 | listing follows the directory order: the listing of two consecutive runs of entries is the first run's lines followed by the second's, or the first panic |
| KeyVault.ShowsOne | src/core/key.rs:269 | two different files never produce the same line, since the line fixes the stem and the stem fixes the file name |
| KeyVault.Entry | src/core/key.rs:269 | the line is the stem, " (", 16 hex digits that decode to the first 8 bytes of the public key, and "...)" |
| KeyVault.List | src/core/key.rs:252-278 | a missing directory lists nothing; otherwise the directory, read once per file, lists in read order; it succeeds exactly when every parsed key file has a public key of at least 8 bytes, and then shows every parsed key file's line exactly once and no other line |
| KeyVault.SignMessage | src/core/key.rs:298-311 | the signature is 64 bytes |
| KeyVault.SignsTheDigest | src/core/key.rs:298-311 | the signature depends on the message only through its SHA3-256 digest |
| KeyVault.OpensOnlyWithItsPassphrase | src/core/key.rs:226-250 | a saved record decrypts to its private key with its own passphrase and gives "Decryption failed" with any other |
| KeyVault.GenerateThenLoad | src/core/key.rs:281-296 | after `generate`, loading or exporting with the right passphrase gives the key (as hex for export), and with a wrong one gives "Decryption failed" |
| KeyVault.ImportReadsExport | src/core/key.rs:156-161 | the hex that export writes survives import's trimming and decodes to the same bytes |
| KeyVault.GenerateExportImport | src/core/key.rs:145-224 | exporting a generated key and importing the text under a new alias gives the same public key and the same signing key |
| KeyVault.GenerateThenList | src/core/key.rs:252-278 | after `generate`, the key list includes the new alias with the prefix of its public key |
| Rlp.Encode | src/core/flow.rs:280-321 | every item encodes to at least one byte |
| Rlp.DecodeItem | src/core/flow.rs:280-321 | a decoded item never consumes more bytes than there are |
| Rlp.RoundTrip | src/core/flow.rs:280-321 | decoding an encoded item (lengths below 2^64) gives the item back |
| Rlp.Injective | src/core/flow.rs:280-321 | distinct items have distinct encodings |
| Bytes.BigEndianRoundTrip | src/core/flow.rs:296-297 | the minimal big-endian bytes of an integer read back as the integer |
| Hex.Encode | src/core/flow.rs:324-326 | the result has two ASCII characters per byte |
| Hex.EncodePrefix | src/core/key.rs:269 | the first 2n digits of the hex of some bytes are the hex of their first n bytes |
| Hex.Decode | src/core/flow.rs:335-338 | decoding fails with the odd-length error exactly when the text has an odd number of bytes |
| Hex.RoundTrip | src/core/key.rs:213 | decoding encoded bytes gives them back |
| Json.Get | src/core/cadence.rs:14-22 | a found value is a field of the object under that key, and a missing key names no field |
| Json.Serialize | src/core/cadence.rs:14-22 | the written JSON is never empty |
| Json.RoundTrip | src/core/cadence.rs:14-22 | parsing the written JSON gives the value back |
| Json.BytesRoundTrip | src/core/cadence.rs:14-22 | the same holds through the UTF-8 bytes |
| Json.Injective | src/core/cadence.rs:14-22 | distinct values are written as distinct bytes |
| Utf8.RoundTrip | src/core/flow.rs:180-192 | decoding the UTF-8 bytes of a text gives the text back |
| Utf8.Injective | src/core/flow.rs:180-192 | distinct texts have distinct bytes |
| Text.StripPrefix | src/core/flow.rs:335-338 | with the prefix present, the prefix followed by the result is the input; without it, the input is unchanged |
| Text.TrimSpec | src/core/config.rs:208-231 | the trimmed text is empty exactly when the input is all whitespace; otherwise it neither starts nor ends with whitespace and is a contiguous part of the input |
| Text.TrimIdempotent | src/core/config.rs:208-231 | trimming twice is trimming once |
| Text.NatToStringRoundTrip | src/core/cadence.rs:14-22 | the decimal digits of a number read back as the number |
| Cadence.LoadTemplate | src/core/cadence.rs:3-11 | succeeds exactly for "mint" and gives its script; any other name is the InvalidInput "Unknown template" error |
| Cadence.InferCadenceType | src/core/cadence.rs:24-33 | strings are "String", numbers "UInt64", booleans "Bool", arrays "Array", objects "Dictionary" and null "Optional", each name for its kind only |
| Cadence.InferredTypeNamesKind | src/core/cadence.rs:24-33 | two values get the same Cadence type name exactly when they are of the same JSON kind |
| Cadence.Cdc | src/core/cadence.rs:14-22 | the argument object's "type" field holds the type name and its "value" field holds the value |
| Cadence.EncodeArgument | src/core/cadence.rs:14-22 | never fails; the bytes read back as the object with the inferred type and the value |
| Cadence.EncodeAddress | src/core/cadence.rs:36-45 | never fails; the bytes read back as an "Address" whose value is "0x" followed by the input without one leading "0x" |
| Cadence.EncodeString | src/core/cadence.rs:48-56 | never fails; the bytes read back as a "String" holding the input |
| Cadence.ArgumentReadsBack | tests/cadence_tests.rs:56-93 | an encoded argument's "type" is the inferred type name and its "value" is the value |
| Cadence.ArgumentInjective | src/core/cadence.rs:14-22 | distinct values give distinct arguments |
| Cadence.StringIsArgument | src/core/cadence.rs:48-56 | `encode_string(s)` equals `encode_argument` of the JSON string s |
| Cadence.AddressValue | tests/cadence_tests.rs:33-54 | the encoded address is typed "Address", and an input already starting with "0x" is kept as it is |
| Cadence.AddressPrefixOptional | tests/cadence_tests.rs:33-54 | an address encodes the same with or without its "0x" prefix |
| Cadence.AddressOnePrefixOnly | src/core/cadence.rs:36-45 | only one prefix is removed and no hex check is made, so "0x0x…" stays as it is |
| Configuration.FindProfile | src/core/config.rs:94-101 | gives the position of the first profile with the name, or the length when no profile has it |
| Configuration.GetActiveProfile | src/core/config.rs:94-101 | succeeds exactly when some profile has the active name, and gives the first such profile; otherwise it is the Config "not found" error |
| Configuration.GetActiveProfileMut | src/core/config.rs:103-111 | selects the same profile, by position, and fails in the same cases |
| Configuration.ActiveIsTheNamedProfile | src/core/config.rs:94-101 | with unique names, the active profile is the one profile carrying the active name |
| Configuration.DefaultProfile | src/core/config.rs:124-141 | the default profile is named "default" and is self-custodial on testnet with Pinata, no API key, no address or key alias, and the devnet access node |
| Configuration.DefaultConfig | src/core/config.rs:114-122 | the default configuration is version "1.0", active "default", with the one default profile |
| Configuration.DefaultResolves | tests/config_tests.rs:42-51 | the default configuration's active profile resolves, to the default profile at position 0 |
| Configuration.PromptInput | src/core/config.rs:208-231 | the trimmed answer, or the default (or empty text) when the trimmed answer is empty |
| Configuration.PromptInputIdempotent | src/core/config.rs:208-231 | answering with a previous result gives that result again |
| Configuration.ModeOf | src/core/config.rs:233-245 | only "2" selects Managed; every other answer is SelfCustodial |
| Configuration.NetworkOf | src/core/config.rs:247-259 | only "2" selects Mainnet; every other answer is Testnet |
| Configuration.ProviderOf | src/core/config.rs:261-275 | "2" selects Lighthouse and "3" Arweave; every other answer is Pinata |
| Configuration.ChoicesRoundTrip | src/core/config.rs:233-275 | each option's menu number maps back to that option |
| Configuration.PromptsTrim | src/core/config.rs:233-275 | each menu trims the answer before choosing, and an empty answer picks the first option |
| Configuration.AccessNode | src/core/config.rs:169-172 | the devnet access node exactly for testnet; the mainnet node otherwise |
| Configuration.Init | src/core/config.rs:143-206 | fails exactly when a configuration exists and `force` is not set; otherwise it builds one profile from the answers and makes it active, with the access node chosen by network and an API key only for Pinata or Lighthouse and a non-empty answer |
| Configuration.InitWithDefaults | src/core/config.rs:143-206 | answering every prompt with an empty line gives the default configuration |
| Configuration.InitForced | src/core/config.rs:146-150 | an existing configuration blocks `init` unless it is forced |
| Profiles.Entry | src/core/profile.rs:9-15 | a line is the profile's name, followed by " (active)" exactly when it is the active name |
| Profiles.List | src/core/profile.rs:4-18 | one line per profile, in the stored order |
| Profiles.ListMarksActive | src/core/profile.rs:4-18 | with unique names, exactly the active profile's line is marked, and none is when the active name resolves to no profile |
| Profiles.Create | src/core/profile.rs:20-38 | fails exactly when the name is taken; otherwise it appends a default profile with that name and keeps the rest, the version and the active name |
| Profiles.CreateKeepsProfilesApart | src/core/profile.rs:20-38 | creating keeps names unique, the new name finds the new profile, and the active profile stays the same |
| Profiles.FindAppend | src/core/profile.rs:31-37 | appending a profile does not change where an existing name is first found |
| Profiles.Switch | src/core/profile.rs:44-53 | fails exactly when no profile has the name; otherwise only the active name changes, and it then resolves to that name |
| Profiles.SwitchSelects | src/core/profile.rs:44-53 | after switching, the active profile is the first profile with that name |
| Profiles.Retain | src/core/profile.rs:69-71 | keeps exactly the profiles with other names, and shrinks exactly when the name was present |
| Profiles.RetainOne | src/core/profile.rs:69-71 | a single profile is dropped exactly when it has the name |
| Profiles.RetainAppend | src/core/profile.rs:69-71 | retaining is an in-order filter: retaining from two lists one after the other is retaining from each, in order |
| Profiles.Delete | src/core/profile.rs:59-77 | refuses the active profile, then fails when no profile has the name; otherwise the saved profiles are the in-order filter that removes every profile with the name and keeps all the others, in their order and multiplicity |
| Profiles.RetainKeepsFirst | src/core/profile.rs:69-71 | removing one name keeps the first profile of any other name |
| Profiles.DeleteKeepsActive | src/core/profile.rs:59-77 | deleting never changes the active profile |
| Profiles.RetainUnique | src/core/profile.rs:69-71 | removing profiles keeps the names unique |
| Profiles.ProfileNamesStayUnique | src/core/profile.rs:20-77 | no command that succeeds makes two profiles share a name |
| Mint.PromptInput | src/core/mint.rs:220-246 | the trimmed answer, or the default when the answer is blank; with no default, a blank answer is the InvalidInput "is required" error |
| Mint.PromptInputsAgree | src/core/mint.rs:220-246 | where the mint prompt succeeds it agrees with the configuration prompt |
| Mint.Recipient | src/core/mint.rs:41-49 | the given recipient, else the configured address; it is a Config error when there is neither |
| Mint.SequenceNumber | src/core/mint.rs:97-103 | the first account key's sequence number, or 0 when the account has no keys |
| Mint.StringArguments | src/core/mint.rs:106-112 | one argument per text, each reading back as a Cadence "String" of that text |
| Mint.ArgumentsReadBack | src/core/mint.rs:106-112 | exactly five arguments: the recipient's address, the name, the description, "ipfs://" with the CID, and the CID |
| Mint.Assemble | src/core/mint.rs:115-128 | the transaction has gas 9999, proposal key (signer, 0, sequence number), the signer as payer and sole authorizer, the latest block as reference, exactly the given arguments, and no signatures |
| Mint.AcceptSealed | src/core/mint.rs:189-194 | a sealed result is accepted exactly when its status code is 0 and its error message is empty; otherwise it is a Transaction error carrying the message |
| Mint.Details | src/core/mint.rs:29-39 | a given name or description is used as given; otherwise the typed answer, trimmed; the name is required; a blank description falls back to "A unique NFT" |
| Mint.Inputs | src/core/mint.rs:29-63 | the name and description, then the recipient, then the upload, each failure returned as it occurs; success exactly when all three succeed |
| Mint.Chain | src/core/mint.rs:82-103 | connecting, the latest block, the configured address, its parsing and the account lookup, in that order, each failure returned as it occurs; success exactly when all succeed, giving the block id, the signer and the account's sequence numbers |
| Mint.Prepare | src/core/mint.rs:22-128 | the file check, the configuration load, the active profile, the inputs and the chain queries fail in that order with their own errors; it succeeds exactly when all succeed, and then the active profile was used, the upload gave the CID, the signer is the profile's parsed address, and the transaction is the assembled one |
| Mint.Submit | src/core/mint.rs:156-169 | a missing key alias is a Config error; JSON mode is an Auth error before any key is loaded; otherwise it signs and sends |
| Mint.SignAndSend | src/core/mint.rs:172-217 | loading the key, submitting, waiting for the seal and accepting the result fail in that order with their own errors, and it succeeds exactly when all four succeed; success means the key loaded, exactly one envelope signature by the signer was added, submission succeeded, the transaction sealed within 30 polls and was accepted, and the result names the hex id, its Flowscan link, the CID and the name |
| Mint.Mint | src/core/mint.rs:13-218 | failures of the preparation steps propagate; a dry run returns the prepared transaction; otherwise the outcome is submission's |
| Mint.AssembledIsSignable | src/core/mint.rs:115-128 | the assembled transaction always has a proposal key, so its signing cannot fail |
| Mint.DryRunTouchesNoKey | src/core/mint.rs:130-148 | a dry run's outcome does not depend on the keys, passphrase or network submission, and it succeeds exactly when preparation does |
| Mint.JsonModeLoadsNoKey | src/core/mint.rs:163-169 | JSON mode without a dry run always fails, whatever the keys and passphrase are |
| Mint.SealedWithErrorFails | src/core/mint.rs:189-194 | a sealed result with a non-zero status code or an error message fails the mint with that message |
| Mint.PendingTooLongFails | src/core/mint.rs:186 | a transaction still pending after 30 polls fails with "not sealed after 30 attempts" |
| Mint.MintedTransactionCarriesArguments | src/core/mint.rs:106-186 | a minted transaction carries the five arguments, the proposal key, the payer and authorizer, one signature, and the envelope of the prepared transaction |

## Left out

- The gRPC transport of `FlowClient` is not modelled: connect, ping, get_account, get_latest_block, send_transaction and get_transaction_result (src/core/flow.rs:17-127). Their answers are inputs: the latest block, the account's key sequence numbers, the submitted id, and the poll oracle.
- The cryptographic primitives (PBKDF2-HMAC-SHA3-256 with 600,000 iterations, AES-256-GCM, P-256 ECDSA, SHA3-256) are uninterpreted functions. Their round-trip and authenticity properties are the predicate `Crypto.Sound`, which only lemmas assume. OS randomness is passed in as fixed-length salts, nonces and scalars.
- The filesystem and persistence are modelled as in-memory values: TOML `Config::load`/`save`, pretty-printed key files and the keys directory. `load` failing becomes the stored `Result` input. Read errors on single key files show up as unparsed entries.
- Interactive I/O (stdin prompts, `rpassword`, `println!`, `tracing`) is not modelled. Each answer is a line passed in, and the printed output is not modelled.
- Zeroization of the derived key and of the secret buffers has no meaning for immutable values, so it is not modelled. Note that the code zeroizes the derived key only on its success paths.
- `format_balance` (src/core/flow.rs:329-332) and `utils::format_bytes` are not modelled, because both use floating-point arithmetic.
- Several source files are not part of this model:
  - src/core/storage.rs: the HTTP upload clients. Their answer, the CID, is an input.
  - src/core/utils.rs: file hashing and validation. The validation answer is an input.
  - src/core/doctor.rs, src/main.rs, src/lib.rs and build.rs: these are CLI, diagnostics and build glue.
- The `mint.cdc` template text is embedded at build time. It is a parameter of `Cadence.LoadTemplate`.
- Serialization errors from `serde_json::to_vec` on a `Value` cannot happen, so `Cadence.EncodeArgument`, `EncodeAddress` and `EncodeString` always succeed.
- Rlp.RoundTrip: holds for items whose lengths are below 2^64. Longer items cannot occur for a Rust `usize` length.
- Json.RoundTrip: JSON numbers are integers only, since the program encodes no floating-point values.
- Flow.SignTransaction: the signature is the value of the abstract `ecdsaSign`. That ECDSA verifies it is not stated.
- Mint.Mint: the signing error that follows `sign_transaction` in `mint` is never reached, because the assembled transaction always has a proposal key (`Mint.AssembledIsSignable`). The model does not carry that branch.
- KeyVault.Export: stated here only for the unknown alias. Its success and decryption behaviour is stated by `KeyVault.GenerateThenLoad`.
- KeyVault.LoadSigningKey: stated here only for the unknown alias and the result's validity. Its round trip is stated by `KeyVault.GenerateThenLoad` and `KeyVault.GenerateExportImport`.
- KeyVault.List: the directory order of `read_dir` is an input, since the file system fixes it. It is required to name every file of the directory exactly once, as a directory read does.
- Json.Serialize: fields are written in the order the object lists them. `serde_json`'s default map keeps unique keys in sorted order, so the model agrees with it only for objects whose keys are strictly sorted. The one object the program builds, `Cadence.Cdc`, has the keys "type" and "value", which are.
- Hex.Message: the invalid-character error shows the character as written. The `hex` crate formats it with Rust's `{:?}`, which escapes quotes, backslashes and non-printable characters; printability depends on Unicode tables, which are not modelled.
- KeyVault.Import: the Crypto error for a 32-byte value that is not a valid scalar is "Invalid private key". The code appends ": " and the `p256` error text (src/core/key.rs:171, and src/core/key.rs:293 for `load_signing_key`). That text comes from a foreign crate, so it is not modelled.
- `sign_message` is deterministic (section 3.2 of RFC 6979). The model makes it a function, so determinism holds by construction and needs no lemma.
