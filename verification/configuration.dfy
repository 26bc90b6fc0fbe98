/**
 * The configuration file's contents (src/core/config.rs): named profiles and
 * the name of the active one, their defaults, the active-profile lookup, and
 * the interactive `init` that builds a first configuration from the answers
 * to its prompts. Reading and writing `config.toml` and the terminal are
 * not modelled: the file's presence and each prompt's input line are
 * parameters.
 */
module Configuration {
  import opened Wrappers
  import opened Errors
  import Text

  datatype Mode = SelfCustodial | Managed
  datatype Network = Testnet | Mainnet
  datatype StorageProvider = Pinata | Lighthouse | Arweave

  datatype StorageConfig = StorageConfig(provider: StorageProvider, apiKey: Option<string>)
  datatype FlowConfig = FlowConfig(address: Option<string>, keyAlias: Option<string>, accessNode: string)

  datatype Profile = Profile(name: string, mode: Mode, network: Network, storage: StorageConfig, flow: FlowConfig)

  datatype Config = Config(version: string, activeProfile: string, profiles: seq<Profile>)

  const Version: string := "1.0"
  const DefaultName: string := "default"
  const TestnetAccessNode: string := "access.devnet.nodes.onflow.org:9000"
  const MainnetAccessNode: string := "access.mainnet.nodes.onflow.org:9000"

  const AlreadyExists: Error := Error.Config("Configuration already exists. Use --force to overwrite.")

  function ActiveNotFound(name: string): Error {
    Error.Config("Active profile '" + name + "' not found")
  }

  // ---------------------------------------------------------------------
  // Lookup
  // ---------------------------------------------------------------------

  predicate HasProfile(profiles: seq<Profile>, name: string) {
    exists k :: 0 <= k < |profiles| && profiles[k].name == name
  }

  /** Index of the first profile called `name`, or |profiles| when there is
      none (`Iterator::find` scans from the front). */
  function FindProfile(profiles: seq<Profile>, name: string): (i: nat)
    ensures i <= |profiles|
    ensures forall k :: 0 <= k < i ==> profiles[k].name != name
    ensures i < |profiles| ==> profiles[i].name == name
    ensures i < |profiles| <==> HasProfile(profiles, name)
  {
    FindFrom(profiles, name, 0)
  }

  function FindFrom(profiles: seq<Profile>, name: string, from: nat): (i: nat)
    requires from <= |profiles|
    ensures from <= i <= |profiles|
    ensures forall k :: from <= k < i ==> profiles[k].name != name
    ensures i < |profiles| ==> profiles[i].name == name
    decreases |profiles| - from
  {
    if from == |profiles| || profiles[from].name == name then from else FindFrom(profiles, name, from + 1)
  }

  /** `get_active_profile`: the first profile named like the active one. */
  function GetActiveProfile(c: Config): (r: Result<Profile>)
    ensures r.Ok? <==> HasProfile(c.profiles, c.activeProfile)
    ensures r.Ok? ==> r.value.name == c.activeProfile
    ensures r.Ok? ==> exists k :: 0 <= k < |c.profiles| && c.profiles[k] == r.value
                                  && forall m :: 0 <= m < k ==> c.profiles[m].name != c.activeProfile
    ensures r.Err? ==> r.error == ActiveNotFound(c.activeProfile)
  {
    var i := FindProfile(c.profiles, c.activeProfile);
    if i < |c.profiles| then Ok(c.profiles[i]) else Err(ActiveNotFound(c.activeProfile))
  }

  /** `get_active_profile_mut`: the position of the profile a caller may
      change in place. It is the element `get_active_profile` returns. */
  function GetActiveProfileMut(c: Config): (r: Result<nat>)
    ensures r.Ok? <==> GetActiveProfile(c).Ok?
    ensures r.Ok? ==> r.value < |c.profiles| && c.profiles[r.value] == GetActiveProfile(c).value
    ensures r.Err? ==> r.error == GetActiveProfile(c).error
  {
    var i := FindProfile(c.profiles, c.activeProfile);
    if i < |c.profiles| then Ok(i) else Err(ActiveNotFound(c.activeProfile))
  }

  /** When profile names are unique, the active profile is the only profile
      with its name. */
  lemma ActiveIsTheNamedProfile(c: Config, k: nat)
    requires forall a, b :: 0 <= a < b < |c.profiles| ==> c.profiles[a].name != c.profiles[b].name
    requires k < |c.profiles| && c.profiles[k].name == c.activeProfile
    ensures GetActiveProfile(c) == Ok(c.profiles[k])
  {
    var i := FindProfile(c.profiles, c.activeProfile);
    assert i <= k;
  }

  // ---------------------------------------------------------------------
  // Defaults
  // ---------------------------------------------------------------------

  /** `Profile::default()`. */
  function DefaultProfile(): (p: Profile)
    ensures p.name == DefaultName
  {
    Profile(DefaultName, SelfCustodial, Testnet, StorageConfig(Pinata, None), FlowConfig(None, None, TestnetAccessNode))
  }

  /** `Config::default()`. */
  function DefaultConfig(): (c: Config)
    ensures c.version == Version && |c.profiles| == 1
  {
    Config.Config(Version, DefaultName, [DefaultProfile()])
  }

  /** The default configuration's active profile is its only profile. */
  lemma DefaultResolves()
    ensures GetActiveProfile(DefaultConfig()) == Ok(DefaultProfile())
    ensures GetActiveProfileMut(DefaultConfig()) == Ok(0)
  {
    assert DefaultConfig().profiles[0].name == DefaultConfig().activeProfile;
  }

  // ---------------------------------------------------------------------
  // Prompts
  // ---------------------------------------------------------------------

  /** `prompt_input` of `init`: the trimmed line, or on an empty answer the
      default, or "" when there is none. */
  function PromptInput(line: string, default: Option<string>): (r: string)
    ensures Text.Trim(line) != [] ==> r == Text.Trim(line)
    ensures Text.Trim(line) == [] ==> r == default.GetOr("")
  {
    var input := Text.Trim(line);
    if input == [] then default.GetOr("") else input
  }

  /** Answering a prompt with its own answer gives the same answer again,
      as long as the default is itself trimmed. */
  lemma PromptInputIdempotent(line: string, default: Option<string>)
    requires default.Some? ==> Text.Trim(default.value) == default.value
    ensures PromptInput(PromptInput(line, default), default) == PromptInput(line, default)
  {
    var r := PromptInput(line, default);
    Text.TrimIdempotent(line);
    if Text.Trim(line) == [] && default.Some? && default.value == [] {
      assert r == [];
    }
  }

  /** The choice shown for a mode, "1" or "2". */
  function ModeChoice(m: Mode): string {
    match m
    case SelfCustodial => "1"
    case Managed => "2"
  }

  /** `prompt_mode`'s mapping: "2" chooses `Managed`, anything else the
      first option. */
  function ModeOf(choice: string): (m: Mode)
    ensures m == Managed <==> choice == ModeChoice(Managed)
  {
    match choice
    case "1" => SelfCustodial
    case "2" => Managed
    case _ => SelfCustodial
  }

  function NetworkChoice(n: Network): string {
    match n
    case Testnet => "1"
    case Mainnet => "2"
  }

  /** `prompt_network`'s mapping: "2" chooses `Mainnet`, anything else the
      first option. */
  function NetworkOf(choice: string): (n: Network)
    ensures n == Mainnet <==> choice == NetworkChoice(Mainnet)
  {
    match choice
    case "1" => Testnet
    case "2" => Mainnet
    case _ => Testnet
  }

  function ProviderChoice(p: StorageProvider): string {
    match p
    case Pinata => "1"
    case Lighthouse => "2"
    case Arweave => "3"
  }

  /** `prompt_storage_provider`'s mapping: "2" and "3" choose the second
      and third provider, anything else the first. */
  function ProviderOf(choice: string): (p: StorageProvider)
    ensures p == Lighthouse <==> choice == ProviderChoice(Lighthouse)
    ensures p == Arweave <==> choice == ProviderChoice(Arweave)
  {
    match choice
    case "1" => Pinata
    case "2" => Lighthouse
    case "3" => Arweave
    case _ => Pinata
  }

  /** Each option is chosen by its own number: the mappings invert the menu. */
  lemma ChoicesRoundTrip(m: Mode, n: Network, p: StorageProvider)
    ensures ModeOf(ModeChoice(m)) == m
    ensures NetworkOf(NetworkChoice(n)) == n
    ensures ProviderOf(ProviderChoice(p)) == p
  {
  }

  /** The menus' prompts: "1" is the default answer. */
  function PromptMode(line: string): Mode {
    ModeOf(PromptInput(line, Some("1")))
  }

  function PromptNetwork(line: string): Network {
    NetworkOf(PromptInput(line, Some("1")))
  }

  function PromptStorageProvider(line: string): StorageProvider {
    ProviderOf(PromptInput(line, Some("1")))
  }

  /** Blank space around the answer does not matter, and a blank answer
      picks the first option. */
  lemma PromptsTrim(line: string)
    ensures PromptMode(line) == ModeOf(Text.Trim(line))
    ensures PromptNetwork(line) == NetworkOf(Text.Trim(line))
    ensures PromptStorageProvider(line) == ProviderOf(Text.Trim(line))
    ensures Text.Trim(line) == [] ==>
              PromptMode(line) == SelfCustodial && PromptNetwork(line) == Testnet && PromptStorageProvider(line) == Pinata
  {
  }

  // ---------------------------------------------------------------------
  // init
  // ---------------------------------------------------------------------

  /** The access node for a network. */
  function AccessNode(n: Network): (a: string)
    ensures (a == TestnetAccessNode) <==> n == Testnet
  {
    match n
    case Testnet => TestnetAccessNode
    case Mainnet => MainnetAccessNode
  }

  /** Only the IPFS pinning services ask for an API key. */
  predicate AsksForApiKey(p: StorageProvider) {
    p == Pinata || p == Lighthouse
  }

  /** `init`: refuses to overwrite an existing configuration unless forced;
      otherwise builds one profile from the answers to the prompts (profile
      name, mode, network, storage provider, and the API key when the
      provider asks for one) and makes it the active profile. The result is
      what `init` saves. */
  function Init(configExists: bool, force: bool, nameLine: string, modeLine: string,
                networkLine: string, storageLine: string, apiKeyLine: string): (r: Result<Config>)
    ensures r.Err? <==> configExists && !force
    ensures r.Err? ==> r.error == AlreadyExists
    ensures r.Ok? ==> |r.value.profiles| == 1 && r.value.version == Version
    ensures r.Ok? ==> GetActiveProfile(r.value) == Ok(r.value.profiles[0])
    ensures r.Ok? ==> var p := r.value.profiles[0];
      && p.name == PromptInput(nameLine, Some(DefaultName))
      && p.mode == PromptMode(modeLine)
      && p.network == PromptNetwork(networkLine)
      && p.storage.provider == PromptStorageProvider(storageLine)
      && p.flow.accessNode == AccessNode(p.network)
      && p.flow.address.None? && p.flow.keyAlias.None?
      && (p.storage.apiKey.Some? <==> AsksForApiKey(p.storage.provider) && Text.Trim(apiKeyLine) != [])
      && (p.storage.apiKey.Some? ==> p.storage.apiKey.value == Text.Trim(apiKeyLine))
  {
    if configExists && !force then Err(AlreadyExists)
    else
      var name := PromptInput(nameLine, Some(DefaultName));
      var mode := PromptMode(modeLine);
      var network := PromptNetwork(networkLine);
      var provider := PromptStorageProvider(storageLine);
      var apiKey :=
        if AsksForApiKey(provider) then
          var key := PromptInput(apiKeyLine, None);
          if key == [] then None else Some(key)
        else None;
      var profile := Profile(name, mode, network, StorageConfig(provider, apiKey), FlowConfig(None, None, AccessNode(network)));
      var c := Config.Config(Version, name, [profile]);
      assert c.profiles[0].name == c.activeProfile;
      Ok(c)
  }

  /** Accepting every default in `init` gives the default configuration. */
  lemma InitWithDefaults(force: bool)
    ensures Init(false, force, "", "", "", "", "") == Ok(DefaultConfig())
  {
    assert Text.Trim("") == [];
  }

  /** `init` on an existing configuration succeeds exactly when forced, and
      then does not depend on what was there. */
  lemma InitForced(nameLine: string, modeLine: string, networkLine: string, storageLine: string, apiKeyLine: string)
    ensures Init(true, false, nameLine, modeLine, networkLine, storageLine, apiKeyLine) == Err(AlreadyExists)
    ensures Init(true, true, nameLine, modeLine, networkLine, storageLine, apiKeyLine)
         == Init(false, false, nameLine, modeLine, networkLine, storageLine, apiKeyLine)
  {
  }
}
