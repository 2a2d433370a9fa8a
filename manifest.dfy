/** Reading and replacing a repository's signed manifest
    (src/repo/manifest_io.rs). A repository directory is a map from file
    name to contents; YAML parsing, key decoding and ed25519 verification
    are parameters. */
module Manifest {
  import opened Base
  import opened Types

  /** The files of one repository directory. */
  type Files = map<string, Bytes>

  const ManifestFile := "manifest.yml"
  const SignatureFile := "manifest.yml.sig"

  /** A decoded ed25519 verifying key, as raw bytes. */
  type VerifyingKey = Bytes

  /** The signature scheme: decoding a key's text form
      (`deserialize_verifying_key`) and checking a signature over a text
      (`verify_signature`). */
  datatype Crypto = Crypto(decodeKey: string -> Option<VerifyingKey>, verify: (Bytes, Bytes, VerifyingKey) -> bool)

  /** `serde_yaml::from_str::<RepoManifest>`; `None` when the text is not a
      manifest. */
  type Parser = Bytes -> Option<RepoManifest>

  /** `sig` is a valid signature of `text` under the key written `keyText`. */
  predicate SignedUnder(crypto: Crypto, text: Bytes, sig: Bytes, keyText: string)
  {
    crypto.decodeKey(keyText).Some? && crypto.verify(text, sig, crypto.decodeKey(keyText).value)
  }

  /** `read_manifest`: parse first, then check the signature file against
      the key the manifest itself names. */
  function ReadManifest(dir: Files, parse: Parser, crypto: Crypto): (r: Result<RepoManifest>)
    ensures r.Ok? <==>
      && ManifestFile in dir && SignatureFile in dir
      && parse(dir[ManifestFile]).Some?
      && SignedUnder(crypto, dir[ManifestFile], dir[SignatureFile], parse(dir[ManifestFile]).value.publicKey)
    ensures r.Ok? ==> parse(dir[ManifestFile]) == Some(r.value)
  {
    if ManifestFile !in dir then Err("manifest.yml: No such file or directory")
    else if SignatureFile !in dir then Err("manifest.yml.sig: No such file or directory")
    else
      var text := dir[ManifestFile];
      match parse(text)
      case None => Err("invalid manifest")
      case Some(m) =>
        match crypto.decodeKey(m.publicKey)
        case None => Err("invalid public key")
        case Some(key) =>
          if crypto.verify(text, dir[SignatureFile], key) then Ok(m) else Err("Signature verification failed")
  }

  /** `read_manifest_unsigned`: parse without any signature check. */
  function ReadManifestUnsigned(dir: Files, parse: Parser): (r: Result<RepoManifest>)
    ensures r.Ok? <==> ManifestFile in dir && parse(dir[ManifestFile]).Some?
    ensures r.Ok? ==> parse(dir[ManifestFile]) == Some(r.value)
  {
    if ManifestFile !in dir then Err("manifest.yml: No such file or directory")
    else
      match parse(dir[ManifestFile])
      case None => Err("invalid manifest")
      case Some(m) => Ok(m)
  }

  /** `read_manifest_signed`: the signature is checked against the caller's
      key before the text is parsed. */
  function ReadManifestSigned(dir: Files, keyText: string, parse: Parser, crypto: Crypto): (r: Result<RepoManifest>)
    ensures r.Ok? <==>
      && ManifestFile in dir && SignatureFile in dir
      && SignedUnder(crypto, dir[ManifestFile], dir[SignatureFile], keyText)
      && parse(dir[ManifestFile]).Some?
    ensures r.Ok? ==> parse(dir[ManifestFile]) == Some(r.value)
  {
    if ManifestFile !in dir then Err("manifest.yml: No such file or directory")
    else if SignatureFile !in dir then Err("manifest.yml.sig: No such file or directory")
    else
      var text := dir[ManifestFile];
      match crypto.decodeKey(keyText)
      case None => Err("invalid public key")
      case Some(key) =>
        if !crypto.verify(text, dir[SignatureFile], key) then Err("Signature verification failed")
        else
          match parse(text)
          case None => Err("invalid manifest")
          case Some(m) => Ok(m)
  }

  /** Unverified text never reaches the parser: when the signature does not
      verify under the caller's key, the outcome is the same whatever the
      parser would make of the text. */
  lemma SignedNeverParsesUnverified(dir: Files, keyText: string, parse1: Parser, parse2: Parser, crypto: Crypto)
    requires ManifestFile in dir && SignatureFile in dir
    requires !SignedUnder(crypto, dir[ManifestFile], dir[SignatureFile], keyText)
    ensures ReadManifestSigned(dir, keyText, parse1, crypto).Err?
    ensures ReadManifestSigned(dir, keyText, parse1, crypto) == ReadManifestSigned(dir, keyText, parse2, crypto)
  {
  }

  /** A manifest `read_manifest` accepts is also accepted by
      `read_manifest_signed` under its own public key, with the same value. */
  lemma ReadSignedAgreesWithRead(dir: Files, parse: Parser, crypto: Crypto)
    requires ReadManifest(dir, parse, crypto).Ok?
    ensures ReadManifestSigned(dir, ReadManifest(dir, parse, crypto).value.publicKey, parse, crypto)
      == ReadManifest(dir, parse, crypto)
  {
  }

  /** `atomic_replace`: write `{name}.new`, then rename it over `name`. */
  method AtomicReplace(dir: Files, name: string, contents: Bytes) returns (dir': Files)
    ensures name in dir' && dir'[name] == contents
    ensures name + ".new" !in dir'
    ensures dir'.Keys == dir.Keys - {name + ".new"} + {name}
    ensures forall f :: f in dir && f != name && f != name + ".new" ==> dir'[f] == dir[f]
  {
    var tmp := name + ".new";
    assert |tmp| == |name| + 4;
    var staged := dir[tmp := contents];
    dir' := (staged - {tmp})[name := staged[tmp]];
  }

  /** The directory after both files have been replaced. */
  function Installed(dir: Files, text: Bytes, sig: Bytes): Files
  {
    (dir - {ManifestFile + ".new", SignatureFile + ".new"})[ManifestFile := text][SignatureFile := sig]
  }

  /** After both replacements the manifest and signature files hold the new
      bytes, no `.new` file is left, and every other file is untouched. */
  lemma InstalledFiles(dir: Files, text: Bytes, sig: Bytes)
    ensures var d := Installed(dir, text, sig);
      && d[ManifestFile] == text && d[SignatureFile] == sig
      && ManifestFile + ".new" !in d && SignatureFile + ".new" !in d
      && forall f :: f in dir && f !in {ManifestFile, SignatureFile, ManifestFile + ".new", SignatureFile + ".new"} ==>
           f in d && d[f] == dir[f]
  {
    assert (ManifestFile + ".new")[13] == 'n' && SignatureFile[13] == 's';
    assert |SignatureFile + ".new"| == 20;
  }

  /** Every check `update_manifest` makes: the current manifest parses (its
      own signature is not consulted), the new text is signed under the
      current manifest's key, and the new text parses. */
  predicate UpdateAccepted(dir: Files, text: Bytes, sig: Bytes, parse: Parser, crypto: Crypto)
  {
    && ReadManifestUnsigned(dir, parse).Ok?
    && SignedUnder(crypto, text, sig, ReadManifestUnsigned(dir, parse).value.publicKey)
    && parse(text).Some?
  }

  /** `update_manifest`: every check comes before the first write, so a
      rejected update leaves the directory as it was. */
  method UpdateManifest(dir: Files, text: Bytes, sig: Bytes, parse: Parser, crypto: Crypto)
    returns (r: Result<()>, dir': Files)
    ensures r.Ok? <==> UpdateAccepted(dir, text, sig, parse, crypto)
    ensures r.Err? ==> dir' == dir
    ensures r.Ok? ==> dir' == Installed(dir, text, sig)
  {
    dir' := dir;
    var current := ReadManifestUnsigned(dir, parse);
    if current.Err? {
      return Err(current.msg), dir';
    }
    var key := crypto.decodeKey(current.value.publicKey);
    if key.None? {
      return Err("invalid public key"), dir';
    }
    if !crypto.verify(text, sig, key.value) {
      return Err("Signature verification failed"), dir';
    }
    if parse(text).None? {
      return Err("invalid manifest"), dir';
    }
    dir' := AtomicReplace(dir', ManifestFile, text);
    dir' := AtomicReplace(dir', SignatureFile, sig);
    r := Ok(());
  }

  /** The key chain: once an update is installed, the next update is
      judged by the key the installed manifest names, not by the one
      before it. */
  lemma KeyRotation(dir: Files, t1: Bytes, s1: Bytes, t2: Bytes, s2: Bytes, parse: Parser, crypto: Crypto)
    requires UpdateAccepted(dir, t1, s1, parse, crypto)
    ensures UpdateAccepted(Installed(dir, t1, s1), t2, s2, parse, crypto) <==>
      SignedUnder(crypto, t2, s2, parse(t1).value.publicKey) && parse(t2).Some?
  {
    InstalledFiles(dir, t1, s1);
  }

  /** A successful update leaves a repository that `read_manifest` accepts
      exactly when the new manifest is also signed under its own key. */
  lemma UpdateThenRead(dir: Files, text: Bytes, sig: Bytes, parse: Parser, crypto: Crypto)
    requires UpdateAccepted(dir, text, sig, parse, crypto)
    ensures ReadManifest(Installed(dir, text, sig), parse, crypto).Ok? <==>
      SignedUnder(crypto, text, sig, parse(text).value.publicKey)
    ensures ReadManifest(Installed(dir, text, sig), parse, crypto).Ok? ==>
      ReadManifest(Installed(dir, text, sig), parse, crypto).value == parse(text).value
  {
    InstalledFiles(dir, text, sig);
  }

  /** No sequence number and no rollback check: while the key stays the
      same, a manifest and signature that were once current are accepted
      again after a newer update, and put the old text back. */
  lemma RollbackAccepted(dir: Files, t0: Bytes, s0: Bytes, t1: Bytes, s1: Bytes, parse: Parser, crypto: Crypto)
    requires ManifestFile in dir && dir[ManifestFile] == t0 && parse(t0).Some?
    requires SignedUnder(crypto, t0, s0, parse(t0).value.publicKey)
    requires UpdateAccepted(dir, t1, s1, parse, crypto)
    requires parse(t1).value.publicKey == parse(t0).value.publicKey
    ensures UpdateAccepted(Installed(dir, t1, s1), t0, s0, parse, crypto)
    ensures Installed(Installed(dir, t1, s1), t0, s0)[ManifestFile] == t0
  {
    InstalledFiles(dir, t1, s1);
    InstalledFiles(Installed(dir, t1, s1), t0, s0);
  }

  /** The stored signature plays no part in accepting an update. */
  lemma StoredSignatureIgnored(dir: Files, anySig: Bytes, text: Bytes, sig: Bytes, parse: Parser, crypto: Crypto)
    ensures UpdateAccepted(dir[SignatureFile := anySig], text, sig, parse, crypto)
      == UpdateAccepted(dir, text, sig, parse, crypto)
    ensures SignatureFile in dir ==>
      UpdateAccepted(dir - {SignatureFile}, text, sig, parse, crypto) == UpdateAccepted(dir, text, sig, parse, crypto)
  {
    assert ManifestFile != SignatureFile;
  }
}
