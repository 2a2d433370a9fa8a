/** The manifest records a repository publishes (src/repo/types.rs). They
    carry no behaviour of their own. */
module Types {
  import opened Base
  import opened Chunks

  /** User-visible descriptive fields; none of them is ever compared. */
  datatype Metadata = Metadata(
    title: Option<string>,
    description: Option<string>,
    homepageUrl: Option<string>,
    version: Option<string>,
    license: Option<string>)

  /** One package: its id, its files as chunks, its launchable commands
      (paths relative to the installed tree, as text) and its runtime
      environment. */
  datatype PackageManifest = PackageManifest(
    metadata: Metadata,
    id: string,
    aliases: seq<string>,
    chunks: seq<Chunk>,
    commands: seq<string>,
    env: Option<map<string, string>>)

  /** A repository's signed manifest. `publicKey` is the text encoding of
      the key that must sign this manifest and its successor. */
  datatype RepoManifest = RepoManifest(
    metadata: Metadata,
    packages: seq<PackageManifest>,
    publicKey: string,
    mirrors: seq<string>,
    edition: string,
    hashKind: HashKind)

  /** `get_package`: the first package whose id is `id`. */
  function GetPackage(m: RepoManifest, id: string): (r: Result<PackageManifest>)
    ensures r.Ok? <==> exists i :: 0 <= i < |m.packages| && m.packages[i].id == id
    ensures r.Ok? ==> r.value.id == id && r.value in m.packages
  {
    FirstWithId(m.packages, id)
  }

  function FirstWithId(ps: seq<PackageManifest>, id: string): (r: Result<PackageManifest>)
    ensures r.Ok? <==> exists i :: 0 <= i < |ps| && ps[i].id == id
    ensures r.Ok? ==> r.value.id == id && r.value in ps
  {
    if ps == [] then Err("Package not found")
    else if ps[0].id == id then Ok(ps[0])
    else
      var r := FirstWithId(ps[1..], id);
      assert forall i :: 1 <= i < |ps| ==> ps[i] == ps[1..][i - 1];
      r
  }
}
