/**
 * The key vault (src/core/key.rs): P-256 private keys kept one JSON file
 * per alias, `<alias>.key`, in a keys directory, each encrypted under a key
 * derived from a passphrase. The directory is an in-memory value here; the
 * cryptography is the `Crypto.Primitives` record; random bytes, the
 * passphrase prompts and the imported file's text are parameters.
 */
module KeyVault {
  import opened Bytes
  import opened Wrappers
  import opened Errors
  import Crypto
  import Hex
  import Utf8
  import Text

  /** The JSON record stored for an alias. */
  datatype EncryptedKey = EncryptedKey(
    alias: string,
    salt: seq<byte>,
    nonce: seq<byte>,
    ciphertext: seq<byte>,
    publicKey: seq<byte>)

  /** What reading a directory entry yields: a record, or the reason the
      read or the JSON parse failed. */
  datatype KeyFile = Parsed(record: EncryptedKey) | Unreadable(reason: string) | Malformed(reason: string)

  /** The keys directory, which may not have been created yet. */
  datatype KeyDir = Absent | Present(files: map<string, KeyFile>)

  function FileName(alias: string): string
  {
    alias + ".key"
  }

  /** `key_path(alias).exists()`. */
  predicate Exists(dir: KeyDir, alias: string) {
    dir.Present? && FileName(alias) in dir.files
  }

  function Files(dir: KeyDir): map<string, KeyFile>
  {
    if dir.Present? then dir.files else map[]
  }

  function AlreadyExists(alias: string): Error
  {
    Key("Key '" + alias + "' already exists. Use a different alias or delete the existing key.")
  }

  function AlreadyExistsOnImport(alias: string): Error
  {
    Key("Key '" + alias + "' already exists. Use a different alias.")
  }

  function NotFound(alias: string): Error
  {
    Key("Key '" + alias + "' not found")
  }

  const EmptyPassphrase: Error := Key("Passphrase cannot be empty")
  const PassphraseMismatch: Error := Key("Passphrases do not match")
  const BadHex: Error := Key("Invalid key format. Expected hex-encoded private key.")
  const BadLength: Error := Key("Invalid key length. Expected 32 bytes for P-256 private key.")
  const InvalidScalar: Error := Crypto("Invalid private key")
  const DecryptionFailed: Error := Crypto("Decryption failed. Incorrect passphrase?")

  /** The public key in the ledger's form: the uncompressed point without
      its leading format byte, that is X followed by Y. */
  function PublicKey(p: Crypto.Primitives, scalar: seq<byte>): (r: seq<byte>)
    ensures |r| == 64
    ensures [p.publicPoint(scalar)[0]] + r == p.publicPoint(scalar)
  {
    p.publicPoint(scalar)[1..]
  }

  /** The AES key derived from a passphrase's UTF-8 bytes and a salt. */
  function DeriveKey(p: Crypto.Primitives, passphrase: string, salt: seq<byte>): seq<byte>
  {
    p.pbkdf2(Utf8.Encode(passphrase), salt, Crypto.Pbkdf2Iterations)
  }

  /** `encrypt_and_save`: writes the record for `alias`, creating the
      directory if needed, and leaves every other file as it was. */
  function EncryptAndSave(
    dir: KeyDir, alias: string, privateKey: seq<byte>, publicKey: seq<byte>,
    passphrase: string, salt: Crypto.Salt, nonce: Crypto.Nonce, p: Crypto.Primitives): (r: KeyDir)
    ensures r.Present?
    ensures r.files.Keys == Files(dir).Keys + {FileName(alias)}
    ensures forall f :: f in Files(dir) && f != FileName(alias) ==> r.files[f] == Files(dir)[f]
    ensures var file := r.files[FileName(alias)];
      && file.Parsed?
      && file.record.alias == alias
      && |file.record.salt| == 32 && |file.record.nonce| == 12
      && file.record.publicKey == publicKey
      && (Crypto.Sound(p) ==> DecryptKey(file.record, passphrase, p) == Ok(privateKey))
  {
    var ciphertext := p.aesGcmEncrypt(DeriveKey(p, passphrase, salt), nonce, privateKey);
    var record := EncryptedKey(alias, salt, nonce, ciphertext, publicKey);
    Present(Files(dir)[FileName(alias) := Parsed(record)])
  }

  /** `generate`: refuses an alias that has a file, then takes the freshly
      drawn scalar `secret`, then the passphrase and its confirmation.
      Returns the new directory and the public key it prints. */
  function Generate(
    dir: KeyDir, alias: string, secret: Crypto.Scalar, passphrase: string, confirmation: string,
    salt: Crypto.Salt, nonce: Crypto.Nonce, p: Crypto.Primitives): (r: Result<(KeyDir, seq<byte>)>)
    ensures Exists(dir, alias) ==> r == Err(AlreadyExists(alias))
    ensures !Exists(dir, alias) && passphrase == "" ==> r == Err(EmptyPassphrase)
    ensures !Exists(dir, alias) && passphrase != "" && confirmation != passphrase ==> r == Err(PassphraseMismatch)
    ensures r.Ok? <==> !Exists(dir, alias) && passphrase != "" && confirmation == passphrase
    ensures r.Ok? ==> r.value.1 == PublicKey(p, secret) && |r.value.1| == 64
    ensures r.Ok? ==> Exists(r.value.0, alias)
  {
    if Exists(dir, alias) then Err(AlreadyExists(alias))
    else
      var publicKey := PublicKey(p, secret);
      if passphrase == "" then Err(EmptyPassphrase)
      else if passphrase != confirmation then Err(PassphraseMismatch)
      else Ok((EncryptAndSave(dir, alias, secret, publicKey, passphrase, salt, nonce, p), publicKey))
  }

  /** What `import` accepts as key file content: trimmed text that decodes
      as hex to exactly 32 bytes forming a valid scalar. */
  predicate ValidImport(content: string, p: Crypto.Primitives) {
    var decoded := Hex.Decode(Text.Trim(content));
    decoded.Bytes? && |decoded.value| == 32 && p.isScalar(decoded.value)
  }

  /** `import`: refuses an alias that has a file, then validates the hex
      private key in `content` (the text of the key file), then asks for a
      passphrase, without confirmation. */
  function Import(
    dir: KeyDir, alias: string, content: string, passphrase: string,
    salt: Crypto.Salt, nonce: Crypto.Nonce, p: Crypto.Primitives): (r: Result<(KeyDir, seq<byte>)>)
    ensures Exists(dir, alias) ==> r == Err(AlreadyExistsOnImport(alias))
    ensures !Exists(dir, alias) && Hex.Decode(Text.Trim(content)).Invalid? ==> r == Err(BadHex)
    ensures !Exists(dir, alias) && Hex.Decode(Text.Trim(content)).Bytes? ==>
              var key := Hex.Decode(Text.Trim(content)).value;
              && (|key| != 32 ==> r == Err(BadLength))
              && (|key| == 32 && !p.isScalar(key) ==> r == Err(InvalidScalar))
    ensures !Exists(dir, alias) && ValidImport(content, p) && passphrase == "" ==> r == Err(EmptyPassphrase)
    ensures r.Ok? <==> !Exists(dir, alias) && ValidImport(content, p) && passphrase != ""
    ensures r.Ok? ==> r.value.1 == PublicKey(p, Hex.Decode(Text.Trim(content)).value)
    ensures r.Ok? ==> Exists(r.value.0, alias)
  {
    if Exists(dir, alias) then Err(AlreadyExistsOnImport(alias))
    else
      match Hex.Decode(Text.Trim(content))
      case Invalid(_) => Err(BadHex)
      case Bytes(privateKey) =>
        if |privateKey| != 32 then Err(BadLength)
        else if !p.isScalar(privateKey) then Err(InvalidScalar)
        else
          var publicKey := PublicKey(p, privateKey);
          if passphrase == "" then Err(EmptyPassphrase)
          else
            Ok((EncryptAndSave(dir, alias, privateKey, publicKey, passphrase, salt, nonce, p), publicKey))
  }

  /** `decrypt_key`: derives the key from the passphrase and the record's
      salt and opens the ciphertext. Every authentication failure is the one
      generic error. A stored nonce that is not 12 bytes long makes
      `Nonce::from_slice` panic. */
  function DecryptKey(record: EncryptedKey, passphrase: string, p: Crypto.Primitives): (r: Result<seq<byte>>)
    ensures |record.nonce| != Crypto.NonceLength ==> r.Err? && r.error.Panic?
    ensures r.Err? && |record.nonce| == Crypto.NonceLength ==> r.error == DecryptionFailed
  {
    if |record.nonce| != Crypto.NonceLength then Err(Panic("nonce length mismatch in Nonce::from_slice"))
    else
      match p.aesGcmDecrypt(DeriveKey(p, passphrase, record.salt), record.nonce, record.ciphertext)
      case None => Err(DecryptionFailed)
      case Some(plaintext) => Ok(plaintext)
  }

  /** Reads the record of an alias, as `export` and `load_signing_key` do:
      a missing file is "not found", an unreadable one an I/O error, and
      one that does not parse a serialization error. */
  function ReadRecord(dir: KeyDir, alias: string): (r: Result<EncryptedKey>)
    ensures !Exists(dir, alias) <==> r == Err(NotFound(alias))
    ensures r.Ok? <==> Exists(dir, alias) && dir.files[FileName(alias)].Parsed?
  {
    if !Exists(dir, alias) then Err(NotFound(alias))
    else
      match dir.files[FileName(alias)]
      case Unreadable(reason) => Err(Io(reason))
      case Malformed(reason) => Err(Serialization(reason))
      case Parsed(record) => Ok(record)
  }

  /** `export`: the private key of an alias as lowercase hex (written to a
      file or printed; the destination is not modelled). */
  function Export(dir: KeyDir, alias: string, passphrase: string, p: Crypto.Primitives): (r: Result<string>)
    ensures !Exists(dir, alias) ==> r == Err(NotFound(alias))
  {
    var record :- ReadRecord(dir, alias);
    var privateKey :- DecryptKey(record, passphrase, p);
    Ok(Hex.Encode(privateKey))
  }

  /** `load_signing_key`: the decrypted private scalar of an alias, checked
      to be a valid P-256 scalar. */
  function LoadSigningKey(dir: KeyDir, alias: string, passphrase: string, p: Crypto.Primitives): (r: Result<seq<byte>>)
    ensures !Exists(dir, alias) ==> r == Err(NotFound(alias))
    ensures r.Ok? ==> p.isScalar(r.value)
  {
    var record :- ReadRecord(dir, alias);
    var privateKey :- DecryptKey(record, passphrase, p);
    if !p.isScalar(privateKey) then Err(InvalidScalar) else Ok(privateKey)
  }

  /** `sign_message`: the signature over the SHA3-256 digest of `message`,
      as its 64 fixed-size bytes. */
  function SignMessage(p: Crypto.Primitives, key: seq<byte>, message: seq<byte>): (r: seq<byte>)
    ensures |r| == 64
  {
    p.ecdsaSign(key, p.sha3(message))
  }

  /** What is signed is the digest: messages with the same SHA3-256 digest
      get the same signature under one key, and the signature is a function
      of key and message alone (p256 signs deterministically). */
  lemma SignsTheDigest(p: Crypto.Primitives, key: seq<byte>, m: seq<byte>, m': seq<byte>)
    requires p.sha3(m) == p.sha3(m')
    ensures SignMessage(p, key, m) == SignMessage(p, key, m')
  {
  }

  /** A name `list` treats as a key file: its extension, in the sense of
      Rust's `Path::extension`, is `key`, so the stem before ".key" is not
      empty. */
  predicate IsKeyFileName(name: string) {
    |name| > 4 && name[|name| - 4..] == ".key"
  }

  function Stem(name: string): string
    requires IsKeyFileName(name)
  {
    name[..|name| - 4]
  }

  /** A directory entry `list` shows: a key file whose record parses. */
  predicate Listed(files: map<string, KeyFile>, name: string) {
    IsKeyFileName(name) && name in files && files[name].Parsed?
  }

  /** One line of the listing: the stem, then in parentheses the first 16
      hex digits of the public key (its first 8 bytes) and an ellipsis. */
  function Entry(stem: string, publicKey: seq<byte>): (e: string)
    requires |publicKey| >= 8
    ensures |e| == |stem| + 22
    ensures e[..|stem|] == stem && e[|stem|..|stem| + 2] == " (" && e[|stem| + 18..] == "...)"
    ensures Hex.Decode(e[|stem| + 2..|stem| + 18]) == Hex.Bytes(publicKey[..8])
  {
    var digits := Hex.Encode(publicKey)[..16];
    Hex.EncodePrefix(publicKey, 8);
    Hex.RoundTrip(publicKey[..8]);
    var e := stem + " (" + digits + "...)";
    assert e[|stem| + 2..|stem| + 18] == digits;
    e
  }

  function EntryOf(files: map<string, KeyFile>, name: string): string
    requires Listed(files, name) && |files[name].record.publicKey| >= 8
  {
    Entry(Stem(name), files[name].record.publicKey)
  }

  /** Whether every listed entry among `order` has a public key long enough
      for its 16-digit prefix. */
  predicate PrefixesFit(files: map<string, KeyFile>, order: seq<string>) {
    forall i :: 0 <= i < |order| && Listed(files, order[i]) ==> |files[order[i]].record.publicKey| >= 8
  }

  /** `entry` is the line `list` shows for the directory entry `name`. */
  predicate Shows(files: map<string, KeyFile>, name: string, entry: string) {
    Listed(files, name) && |files[name].record.publicKey| >= 8 && entry == EntryOf(files, name)
  }

  /** Different directory entries are shown as different lines: the line
      has a fixed-length tail after the stem, and the stem fixes the name. */
  lemma ShowsOne(files: map<string, KeyFile>, a: string, b: string, entry: string)
    requires Shows(files, a, entry) && Shows(files, b, entry)
    ensures a == b
  {
    assert |Stem(a)| == |Stem(b)|;
    assert Stem(a) == entry[..|Stem(a)|] == Stem(b);
    assert a == Stem(a) + ".key";
    assert b == Stem(b) + ".key";
  }

  /** No element occurs twice. */
  predicate Distinct(xs: seq<string>) {
    forall i, j :: 0 <= i < j < |xs| ==> xs[i] != xs[j]
  }

  /** `order` is a reading of the directory: every file exactly once. */
  predicate Enumerates(files: map<string, KeyFile>, order: seq<string>) {
    && (forall name :: name in files ==> name in order)
    && (forall i :: 0 <= i < |order| ==> order[i] in files)
    && Distinct(order)
  }

  /** Every line of `entries` is the entry of a listed name in `order`. */
  predicate ComeFrom(files: map<string, KeyFile>, order: seq<string>, entries: seq<string>) {
    forall e :: e in entries ==> exists name :: name in order && Shows(files, name, e)
  }

  lemma ComeFromTail(files: map<string, KeyFile>, order: seq<string>, entries: seq<string>)
    requires order != [] && ComeFrom(files, order[1..], entries)
    ensures ComeFrom(files, order, entries)
  {
    forall e | e in entries
      ensures exists name :: name in order && Shows(files, name, e)
    {
      var name :| name in order[1..] && Shows(files, name, e);
      assert name in order;
    }
  }

  lemma ComeFromCons(files: map<string, KeyFile>, order: seq<string>, entry: string, entries: seq<string>)
    requires order != [] && Shows(files, order[0], entry) && ComeFrom(files, order, entries)
    ensures ComeFrom(files, order, [entry] + entries)
  {
    forall e | e in [entry] + entries
      ensures exists name :: name in order && Shows(files, name, e)
    {
      if e == entry {
        assert order[0] in order;
      }
    }
  }

  /** The listing of the entries `order` names, in that order (the order in
      which the directory is read). Entries that are not key files, cannot
      be read or do not parse are skipped; a short public key panics. */
  function ListFiles(files: map<string, KeyFile>, order: seq<string>): (r: Result<seq<string>>)
    ensures r.Ok? <==> PrefixesFit(files, order)
    ensures r.Err? ==> r.error.Panic?
    ensures r.Ok? ==> |r.value| <= |order|
    ensures r.Ok? ==> forall i :: 0 <= i < |order| && Listed(files, order[i]) ==> EntryOf(files, order[i]) in r.value
    ensures r.Ok? ==> ComeFrom(files, order, r.value)
    ensures r.Ok? && Distinct(order) ==> Distinct(r.value)
  {
    if order == [] then Ok([])
    else
      var name := order[0];
      var rest := ListFiles(files, order[1..]);
      assert forall i :: 1 <= i < |order| ==> order[i] == order[1..][i - 1];
      assert Distinct(order) ==> Distinct(order[1..]) && name !in order[1..];
      assert rest.Ok? ==> ComeFrom(files, order, rest.value) by {
        if rest.Ok? {
          ComeFromTail(files, order, rest.value);
        }
      }
      if Listed(files, name) then
        if |files[name].record.publicKey| < 8 then Err(Panic("byte index 16 is out of bounds"))
        else
          match rest
          case Err(e) => Err(e)
          case Ok(entries) =>
            assert ComeFrom(files, order, [EntryOf(files, name)] + entries) by {
              ComeFromCons(files, order, EntryOf(files, name), entries);
            }
            assert Distinct(order) ==> Distinct([EntryOf(files, name)] + entries) by {
              if Distinct(order) {
                NotShownByRest(files, order, entries);
              }
            }
            Ok([EntryOf(files, name)] + entries)
      else rest
  }

  /** The head of a duplicate-free `order` is not shown again by the lines
      of its tail. */
  lemma NotShownByRest(files: map<string, KeyFile>, order: seq<string>, entries: seq<string>)
    requires order != [] && Distinct(order) && ComeFrom(files, order[1..], entries) && Distinct(entries)
    requires Listed(files, order[0]) && |files[order[0]].record.publicKey| >= 8
    ensures Distinct([EntryOf(files, order[0])] + entries)
  {
    var head := EntryOf(files, order[0]);
    if head in entries {
      var other :| other in order[1..] && Shows(files, other, head);
      ShowsOne(files, order[0], other, head);
      assert false;
    }
    var all := [head] + entries;
    forall i, j | 0 <= i < j < |all| ensures all[i] != all[j] {
      assert all[j] == entries[j - 1];
      if i > 0 {
        assert all[i] == entries[i - 1];
      }
    }
  }

  /** The listing follows `order`: listing a single entry gives its line
      when it is a parsed key file and nothing otherwise, and listing two
      parts of `order` one after the other gives their lines one after the
      other (or the first part's panic). */
  lemma ListFilesOne(files: map<string, KeyFile>, name: string)
    ensures !Listed(files, name) ==> ListFiles(files, [name]) == Ok([])
    ensures Listed(files, name) && |files[name].record.publicKey| >= 8 ==>
              ListFiles(files, [name]) == Ok([EntryOf(files, name)])
  {
    assert [name][1..] == [];
    if Listed(files, name) && |files[name].record.publicKey| >= 8 {
      assert [EntryOf(files, name)] + [] == [EntryOf(files, name)];
    }
  }

  /** The listing computation alone, without the facts `ListFiles` states
      about it. */
  function Lines(files: map<string, KeyFile>, order: seq<string>): Result<seq<string>> {
    if order == [] then Ok([])
    else
      var rest := Lines(files, order[1..]);
      if Listed(files, order[0]) then
        if |files[order[0]].record.publicKey| < 8 then Err(Panic("byte index 16 is out of bounds"))
        else if rest.Err? then rest
        else Ok([EntryOf(files, order[0])] + rest.value)
      else rest
  }

  lemma {:induction false} LinesAgree(files: map<string, KeyFile>, order: seq<string>)
    ensures ListFiles(files, order) == Lines(files, order)
  {
    if order != [] {
      LinesAgree(files, order[1..]);
    }
  }

  lemma {:induction false} LinesAppend(files: map<string, KeyFile>, a: seq<string>, b: seq<string>)
    ensures Lines(files, a + b) ==
              if Lines(files, a).Err? then Lines(files, a)
              else if Lines(files, b).Err? then Lines(files, b)
              else Ok(Lines(files, a).value + Lines(files, b).value)
  {
    if a == [] {
      assert a + b == b;
      if Lines(files, b).Ok? {
        assert [] + Lines(files, b).value == Lines(files, b).value;
      }
    } else {
      assert (a + b)[0] == a[0];
      assert (a + b)[1..] == a[1..] + b;
      LinesAppend(files, a[1..], b);
      var tail := Lines(files, a[1..]);
      if Listed(files, a[0]) && |files[a[0]].record.publicKey| >= 8 && tail.Ok? && Lines(files, b).Ok? {
        var head := [EntryOf(files, a[0])];
        assert head + (tail.value + Lines(files, b).value) == (head + tail.value) + Lines(files, b).value;
      }
    }
  }

  lemma ListFilesAppend(files: map<string, KeyFile>, a: seq<string>, b: seq<string>)
    ensures ListFiles(files, a + b) ==
              if ListFiles(files, a).Err? then ListFiles(files, a)
              else if ListFiles(files, b).Err? then ListFiles(files, b)
              else Ok(ListFiles(files, a).value + ListFiles(files, b).value)
  {
    LinesAgree(files, a + b);
    LinesAgree(files, a);
    LinesAgree(files, b);
    LinesAppend(files, a, b);
  }

  /** `list`: nothing when the directory does not exist; otherwise one line
      for each parsed `*.key` file, in the order the directory is read,
      unless one of them has a public key too short for its prefix. */
  function List(dir: KeyDir, order: seq<string>): (r: Result<seq<string>>)
    requires dir.Present? ==> Enumerates(dir.files, order)
    ensures dir.Absent? ==> r == Ok([])
    ensures dir.Present? ==> r == ListFiles(dir.files, order)
    ensures dir.Present? ==>
              (r.Ok? <==> forall name :: Listed(dir.files, name) ==> |dir.files[name].record.publicKey| >= 8)
    ensures r.Ok? && dir.Present? ==>
              && Distinct(r.value)
              && (forall name :: Listed(dir.files, name) ==>
                    |dir.files[name].record.publicKey| >= 8 && EntryOf(dir.files, name) in r.value)
              && (forall e :: e in r.value ==> exists name :: Shows(dir.files, name, e))
  {
    if dir.Absent? then Ok([])
    else
      var r := ListFiles(dir.files, order);
      assert PrefixesFit(dir.files, order) <==>
             forall name :: Listed(dir.files, name) ==> |dir.files[name].record.publicKey| >= 8 by {
        if PrefixesFit(dir.files, order) {
          forall name | Listed(dir.files, name) ensures |dir.files[name].record.publicKey| >= 8 {
            var i :| 0 <= i < |order| && order[i] == name;
          }
        }
      }
      r
  }

  /** A stored record opens under its own passphrase and under no other:
      the key derivation separates passphrases and decryption under a wrong
      key fails authentication. */
  lemma {:induction false} OpensOnlyWithItsPassphrase(
    dir: KeyDir, alias: string, privateKey: seq<byte>, publicKey: seq<byte>, passphrase: string,
    salt: Crypto.Salt, nonce: Crypto.Nonce, p: Crypto.Primitives, attempt: string)
    requires Crypto.Sound(p)
    ensures var record := EncryptAndSave(dir, alias, privateKey, publicKey, passphrase, salt, nonce, p).files[FileName(alias)].record;
      DecryptKey(record, attempt, p) == if attempt == passphrase then Ok(privateKey) else Err(DecryptionFailed)
  {
    if attempt != passphrase {
      if Utf8.Encode(attempt) == Utf8.Encode(passphrase) {
        Utf8.Injective(attempt, passphrase);
      }
      assert DeriveKey(p, attempt, salt) != DeriveKey(p, passphrase, salt);
    }
  }

  /** A generated key loads back, and exports as its hex, under the
      passphrase it was saved with; any other passphrase is refused with the
      one decryption error. */
  lemma GenerateThenLoad(
    dir: KeyDir, alias: string, secret: Crypto.Scalar, passphrase: string,
    salt: Crypto.Salt, nonce: Crypto.Nonce, p: Crypto.Primitives, attempt: string)
    requires Crypto.Sound(p) && p.isScalar(secret)
    requires Generate(dir, alias, secret, passphrase, passphrase, salt, nonce, p).Ok?
    ensures var saved := Generate(dir, alias, secret, passphrase, passphrase, salt, nonce, p).value.0;
      && (attempt == passphrase ==> LoadSigningKey(saved, alias, attempt, p) == Ok(secret))
      && (attempt == passphrase ==> Export(saved, alias, attempt, p) == Ok(Hex.Encode(secret)))
      && (attempt != passphrase ==> LoadSigningKey(saved, alias, attempt, p) == Err(DecryptionFailed))
      && (attempt != passphrase ==> Export(saved, alias, attempt, p) == Err(DecryptionFailed))
  {
    OpensOnlyWithItsPassphrase(dir, alias, secret, PublicKey(p, secret), passphrase, salt, nonce, p, attempt);
  }

  /** Hex text as `export` writes it is read back by `import` unchanged. */
  lemma ImportReadsExport(key: seq<byte>)
    ensures Text.Trim(Hex.Encode(key)) == Hex.Encode(key)
    ensures Hex.Decode(Text.Trim(Hex.Encode(key))) == Hex.Bytes(key)
  {
    Hex.EncodeLowercase(key);
    Text.TrimUntouched(Hex.Encode(key));
    Hex.RoundTrip(key);
  }

  /** Exporting a generated key and importing the text under a new alias
      gives the same public key, and the new alias then loads the same
      private key under the new passphrase. */
  lemma GenerateExportImport(
    dir: KeyDir, alias: string, secret: Crypto.Scalar, passphrase: string,
    salt: Crypto.Salt, nonce: Crypto.Nonce, p: Crypto.Primitives,
    alias': string, passphrase': string, salt': Crypto.Salt, nonce': Crypto.Nonce)
    requires Crypto.Sound(p) && p.isScalar(secret)
    requires Generate(dir, alias, secret, passphrase, passphrase, salt, nonce, p).Ok?
    requires !Exists(Generate(dir, alias, secret, passphrase, passphrase, salt, nonce, p).value.0, alias')
    requires passphrase' != ""
    ensures var (saved, publicKey) := Generate(dir, alias, secret, passphrase, passphrase, salt, nonce, p).value;
      var exported := Export(saved, alias, passphrase, p);
      && exported.Ok?
      && var imported := Import(saved, alias', exported.value, passphrase', salt', nonce', p);
      && imported.Ok?
      && imported.value.1 == publicKey
      && LoadSigningKey(imported.value.0, alias', passphrase', p) == Ok(secret)
  {
    var saved := Generate(dir, alias, secret, passphrase, passphrase, salt, nonce, p).value.0;
    GenerateThenLoad(dir, alias, secret, passphrase, salt, nonce, p, passphrase);
    ImportReadsExport(secret);
    OpensOnlyWithItsPassphrase(saved, alias', secret, PublicKey(p, secret), passphrase', salt', nonce', p, passphrase');
  }

  /** After `generate` the listing, read in any order that includes the new
      file, shows the alias with the prefix of its public key. An empty
      alias is excluded: its file ".key" has no extension and is never
      listed. */
  lemma GenerateThenList(
    dir: KeyDir, alias: string, secret: Crypto.Scalar, passphrase: string,
    salt: Crypto.Salt, nonce: Crypto.Nonce, p: Crypto.Primitives, order: seq<string>)
    requires alias != ""
    requires Generate(dir, alias, secret, passphrase, passphrase, salt, nonce, p).Ok?
    requires Enumerates(Generate(dir, alias, secret, passphrase, passphrase, salt, nonce, p).value.0.files, order)
    requires PrefixesFit(Files(dir), order)
    ensures var (saved, publicKey) := Generate(dir, alias, secret, passphrase, passphrase, salt, nonce, p).value;
      && List(saved, order).Ok?
      && Entry(alias, publicKey) in List(saved, order).value
  {
    var (saved, publicKey) := Generate(dir, alias, secret, passphrase, passphrase, salt, nonce, p).value;
    var name := FileName(alias);
    assert IsKeyFileName(name) && Stem(name) == alias by {
      assert name[|name| - 4..] == ".key";
      assert name[..|name| - 4] == alias;
    }
    assert PrefixesFit(saved.files, order) by {
      forall i | 0 <= i < |order| && Listed(saved.files, order[i])
        ensures |saved.files[order[i]].record.publicKey| >= 8
      {
        if order[i] != name {
          assert Listed(Files(dir), order[i]);
        }
      }
    }
    var i :| 0 <= i < |order| && order[i] == name;
    assert EntryOf(saved.files, order[i]) == Entry(alias, publicKey);
  }
}
