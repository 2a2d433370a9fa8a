/** Adding and refreshing a repository from a mirror (src/repo/network.rs).
    The transport is the function `fetch`: the body a URL returns, or
    `None` when the request fails. */
module RepoSync {
  import opened Base
  import opened Types
  import opened Manifest

  /** `add_repository`: fetch the manifest and its signature, check them
      against the caller's key when one is given, parse, require the
      manifest to be signed under its own key, and only then write both
      files. */
  method AddRepository(dir: Files, mirror: string, trusted: Option<VerifyingKey>,
                       fetch: string -> Option<Bytes>, parse: Parser, crypto: Crypto)
    returns (r: Result<RepoManifest>, dir': Files)
    ensures var text := fetch(mirror + "/manifest.yml");
      var sig := fetch(mirror + "/manifest.yml.sig");
      r.Ok? <==>
        && text.Some? && sig.Some?
        && (trusted.Some? ==> crypto.verify(text.value, sig.value, trusted.value))
        && parse(text.value).Some?
        && SignedUnder(crypto, text.value, sig.value, parse(text.value).value.publicKey)
    ensures r.Err? ==> dir' == dir
    ensures r.Ok? ==>
      var text := fetch(mirror + "/manifest.yml").value;
      && r.value == parse(text).value
      && dir' == Installed(dir, text, fetch(mirror + "/manifest.yml.sig").value)
  {
    dir' := dir;
    var text := fetch(mirror + "/manifest.yml");
    var sig := fetch(mirror + "/manifest.yml.sig");
    if text.None? || sig.None? {
      return Err("error sending request"), dir';
    }
    if trusted.Some? && !crypto.verify(text.value, sig.value, trusted.value) {
      return Err("Signature verification failed"), dir';
    }
    var parsed := parse(text.value);
    if parsed.None? {
      return Err("invalid manifest"), dir';
    }
    var manifest := parsed.value;
    var key := crypto.decodeKey(manifest.publicKey);
    if key.None? {
      return Err("invalid public key"), dir';
    }
    if !crypto.verify(text.value, sig.value, key.value) {
      return Err("Signature verification failed"), dir';
    }
    dir' := AtomicReplace(dir', ManifestFile, text.value);
    dir' := AtomicReplace(dir', SignatureFile, sig.value);
    r := Ok(manifest);
  }

  /** Trust on first use holds together: a repository `add_repository`
      has just written is one `read_manifest` accepts, with the same
      manifest. */
  lemma AddedRepositoryReads(dir: Files, text: Bytes, sig: Bytes, parse: Parser, crypto: Crypto)
    requires parse(text).Some? && SignedUnder(crypto, text, sig, parse(text).value.publicKey)
    ensures ReadManifest(Installed(dir, text, sig), parse, crypto) == Ok(parse(text).value)
  {
    InstalledFiles(dir, text, sig);
  }

  /** `update_repository`: read the current manifest (checked under its own
      key), and when it lists mirrors, fetch from the first one only and
      hand the result to `update_manifest`. Reports whether the manifest
      changed. */
  method UpdateRepository(dir: Files, fetch: string -> Option<Bytes>, parse: Parser, crypto: Crypto)
    returns (r: Result<bool>, dir': Files)
    ensures r.Err? ==> dir' == dir
    ensures ReadManifest(dir, parse, crypto).Err? ==> r.Err?
    ensures ReadManifest(dir, parse, crypto).Ok? && ReadManifest(dir, parse, crypto).value.mirrors == [] ==>
      r == Ok(false) && dir' == dir
    ensures ReadManifest(dir, parse, crypto).Ok? && ReadManifest(dir, parse, crypto).value.mirrors != [] ==>
      var current := ReadManifest(dir, parse, crypto).value;
      var first := current.mirrors[0];
      var text := fetch(first + "/manifest.yml");
      var sig := fetch(first + "/manifest.yml.sig");
      && (r.Ok? <==> text.Some? && sig.Some? && UpdateAccepted(dir, text.value, sig.value, parse, crypto))
      && (r.Ok? ==> r.value == (current != parse(text.value).value) && dir' == Installed(dir, text.value, sig.value))
  {
    dir' := dir;
    var current := ReadManifest(dir, parse, crypto);
    if current.Err? {
      return Err(current.msg), dir';
    }
    if current.value.mirrors == [] {
      return Ok(false), dir';
    }
    var first := current.value.mirrors[0];
    var text := fetch(first + "/manifest.yml");
    var sig := fetch(first + "/manifest.yml.sig");
    if text.None? || sig.None? {
      return Err("error sending request"), dir';
    }
    var updated;
    updated, dir' := UpdateManifest(dir, text.value, sig.value, parse, crypto);
    if updated.Err? {
      return Err(updated.msg), dir';
    }
    r := Ok(current.value != parse(text.value).value);
  }
}
