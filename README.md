# Flint package manager core, modelled in Dafny

Flint installs packages from signed repositories. A package's files are
stored once each in a content-addressed *chunk store*. A package manifest
lists the chunks of its tree. A repository directory holds `manifest.yml`
and its signature `manifest.yml.sig`, and new manifests are accepted only
under the key named by the manifest currently installed.

This project models the sequential logic of that core:

- the chunk store: store names, `save_tree`/`load_tree`, cleaning and verified fetching;
- the manifest trust chain: reading, updating and adding repositories;
- installation layout: versions, `start`/`install`, quicklaunch launchers and repository resolution;
- the self-extracting bundle header codec and `build_bundle`;
- the arrangement of build sources: `get_sources`, `pull_local`, `unwrap_tar_contents` and `fix_dir_times`.

The filesystem is a value. A directory tree is a map from component paths
to nodes (`Fs.Tree`), and a flat directory is a map from names to bytes. An
operation that changes the filesystem is a method taking the old state and
returning the new one, proved equal to a specification function. The
properties are proved about those functions.

The libraries are function-typed parameters:

- Blake3;
- ed25519 verification and key decoding;
- YAML parsing and serialisation;
- the HTTP transport;
- `canonicalize`;
- the tar writer;
- the directory-walk and `read_dir` orders;
- the interactive repository chooser.

The modules are:

- `Base`: bytes, decimal rendering and splitting;
- `Fs`: directory trees;
- `Chunks`, `ChunkTree`, `ChunkClean`, `ChunkFetch`: `src/chunks`;
- `Types`, `Manifest`, `RepoSync`, `Versions`: `src/repo`;
- `PathText`: `Path` component semantics;
- `Run`, `Quicklaunch`: `src/run`;
- `Resolve`: `src/utils`;
- `Bundle`, `BuildBundle`: `src/bundle`, `src/build/bundle.rs`;
- `Sources`: `src/build/sources.rs`.

Notes on the code:

- Bundle blocks are 64 KiB (`CHUNK_SIZE`).
- The filler byte is 4.
- A manifest has no sequence number, and there is no rollback check. `Manifest.RollbackAccepted` proves that an old signed manifest is accepted again.
- Installing is not all-or-nothing. A failed `load_tree` leaves the partly loaded tree (`Versions.PlacedMetaLast`).
- `update_repository` fetches from the first mirror only.

## Model

| member | source | states |
|---|---|---|
| Base.Decimal | src/chunks/mod.rs:30 | `u32::to_string`: at least one digit, all digits, no leading zero except for 0 |
| Base.ParseDecimalInvertsDecimal | src/chunks/mod.rs:27-33 | the decimal rendering parses back to the number |
| Base.DecimalInjective | src/chunks/mod.rs:27-33 | two numbers have the same rendering exactly when they are equal |
| Base.Split | src/repo/versions.rs:86 | `str::split('-')` gives at least one piece and no piece contains the separator |
| Base.JoinSplit | src/repo/versions.rs:86-89 | joining the pieces of a split with the separator gives the string back |
| Base.SplitAround | src/repo/versions.rs:86 | splitting `a + [c] + b` is splitting `a` then `b` |
| Base.SplitWithout | src/repo/versions.rs:86 | a string without the separator splits into itself alone |
| Base.JoinPath | src/utils/mod.rs:12 | `Path::join`: an absolute piece replaces the base; otherwise the base is a prefix and the piece a suffix |
| Fs.CreateDirAll | src/build/sources.rs:47 | `create_dir_all` succeeds exactly when no prefix of the path is a non-directory; every prefix is then a directory, old entries are kept, and new entries are directories above or at the path |
| Fs.WriteFile | src/build/sources.rs:59 | `fs::write`/`fs::copy` succeeds exactly when the target is not a directory and its parent is a directory (or it is top-level); it then sets exactly that entry |
| Fs.Subtree | src/build/sources.rs:111 | `strip_prefix`: the entries strictly below a directory, keyed by their relative path |
| Chunks.Hash | src/chunks/hash.rs:8-14 | the two unimplemented kinds always give the empty string |
| Chunks.ChunkFilenameParses | src/chunks/mod.rs:27-33 | the store name is the hash followed by one or more digits that parse back to the permissions |
| Chunks.ChunkFilenameIsDecimal | src/chunks/tree.rs:160-166 | `("a8sf799a8s6fa7f5", 0o777)` gives `"a8sf799a8s6fa7f5511"` |
| Chunks.ChunkFilenameInjective | src/chunks/mod.rs:27-33 | for hashes of one length, equal names mean equal hash and permissions, and conversely |
| Chunks.ChunkFilenameAmbiguousAcrossLengths | src/chunks/mod.rs:27-33 | hashes of different lengths can share a name: `("ab1", 1)` and `("ab", 11)` |
| ChunkTree.SaveTree | src/chunks/tree.rs:20-78 | a single file gives one chunk named after the file; a directory gives one chunk per walked regular file; every file's bytes land in the store under its chunk's name |
| ChunkTree.SaveWalk | src/chunks/tree.rs:50-74 | the walk loop skips non-files and is the saved chunk list and store of its prefix |
| ChunkTree.SavedStep | src/chunks/tree.rs:50-74 | one more walked entry appends its chunk and writes its store entry |
| ChunkTree.SavedChunksDescribeFiles | src/chunks/tree.rs:57-73 | each chunk has the file's relative path, permissions `mode & 0o777` (at most 0o777), size `len / 1024` and the hash of its bytes; every walked regular file has its chunk |
| ChunkTree.SavedChunkPathsDistinct | src/chunks/tree.rs:50-74 | a walk visiting each entry once yields chunks with distinct paths |
| ChunkTree.Blake3SeparatesContents | src/chunks/tree.rs:63 | with Blake3 and no digest collision on the tree's files, a store name never stands for two contents |
| ChunkTree.UnimplementedKindsShareEntries | src/chunks/hash.rs:11-12 | with Sha512 or Sha256, two files with equal permission bits share one store entry whatever their bytes |
| ChunkTree.SavedStoreHoldsFiles | src/chunks/tree.rs:63-66 | after saving, each chunk's store entry holds the bytes of its file, and only chunk entries were added or changed |
| ChunkTree.LoadTree | src/chunks/tree.rs:85-106 | the chunks are materialised in order below the target; the first failure ends the loop with its error |
| ChunkTree.LoadStopsAtError | src/chunks/tree.rs:86-103 | once a prefix of the chunks fails, later chunks change nothing |
| ChunkTree.LoadChunkExtends | src/chunks/tree.rs:87-102 | a chunk neither above nor below a materialised chunk loads: parents are created, and its path gets the store bytes with mode `permissions & 0o777` |
| ChunkTree.LoadMaterialises | src/chunks/tree.rs:85-106 | prefix-free chunks whose bytes are all in the store load into an empty directory, which then holds exactly those files and their parent directories |
| ChunkTree.FilesNotNested | src/chunks/tree.rs:50-55 | in a well-formed tree no regular file lies above another |
| ChunkTree.SavedChunksPrefixFree | src/chunks/tree.rs:50-74 | the chunk paths of a directory are prefix-free |
| ChunkTree.SavedChunksCoverFiles | src/chunks/tree.rs:50-74 | every regular file below the root has a chunk at its relative path |
| ChunkTree.SaveThenLoad | src/chunks/tree.rs:211-274 | loading the saved chunks from the filled store into an empty directory reproduces every regular file with its bytes and permission bits, and nothing but directories besides |
| ChunkTree.MissingMembers | src/chunks/tree.rs:122-127 | a chunk is kept by the filter exactly when it is one of the given chunks and its store entry is absent; the filter never returns more chunks than given |
| ChunkTree.MissingChunks | src/chunks/tree.rs:120-127 | the loop in `install_tree` computes that filter |
| ChunkTree.TotalSizeAppend | src/chunks/tree.rs:145-147 | the size of a list extended by one chunk grows by that chunk's size |
| ChunkTree.EstimateTreeSize | src/chunks/tree.rs:142-150 | `estimate_tree_size` is the sum of the chunk sizes, 0 for no chunks |
| ChunkTree.TreeSizeExample | src/chunks/tree.rs:277-296 | files of 1024 and 4096 bytes estimate to 5 |
| ChunkClean.AllowedNames | src/chunks/utils.rs:59-62 | the whitelist is exactly the store names of the allowed chunks |
| ChunkClean.Clean | src/chunks/utils.rs:58-77 | afterwards every UTF-8 name is whitelisted, whitelisted and non-UTF-8 entries are untouched, and nothing is created |
| ChunkClean.CleanedIdempotent | src/chunks/utils.rs:58-77 | cleaning twice with the same whitelist changes nothing the second time |
| ChunkClean.CleanExample | src/chunks/utils.rs:86-121 | entries of the two allowed chunks stay and the third is removed |
| ChunkClean.CleanWith | src/chunks/utils.rs:16-55 | `clean_unused`/`clean_used`: the first failing repository aborts before the store is touched; otherwise the store is cleaned with the chunks of all packages |
| ChunkClean.AppendPackageChunks | src/chunks/utils.rs:23-27 | the two inner loops push every chunk of every package, in order |
| ChunkClean.CleanKeepsReferenced | src/chunks/utils.rs:16-31 | a UTF-8 entry survives exactly when some package of some repository has a chunk of that name |
| ChunkClean.RepoChunksSound | src/chunks/utils.rs:19-28 | every collected chunk belongs to a package of some repository |
| ChunkClean.RepoChunksComplete | src/chunks/utils.rs:19-28 | every chunk of every package of every repository is collected |
| ChunkFetch.InstallChunk | src/chunks/network.rs:13-33 | the body is written under the chunk's store name, fetched from `{mirror}/chunks/{name}`, only when its hash matches; otherwise an error and the store unchanged |
| ChunkFetch.FirstServing | src/chunks/network.rs:58-63 | the index of the first mirror serving a matching body, and no earlier one serves |
| ChunkFetch.InstallFromMirrors | src/chunks/network.rs:58-73 | mirrors are tried in order and the first serving one wins; when none does, "All mirrors failed" and the store is unchanged |
| ChunkFetch.InstallChunks | src/chunks/network.rs:42-81 | the chunks are installed one after another with the mirror loop, stopping at the first failure |
| ChunkFetch.FetchAllStops | src/chunks/network.rs:77 | once a prefix has failed, the whole run has the prefix's outcome |
| ChunkFetch.FetchAllSucceeds | src/chunks/network.rs:42-81 | installing succeeds exactly when every chunk has a serving mirror |
| ChunkFetch.FetchAllFailsFirst | src/chunks/network.rs:73-77 | a failed install names the first chunk no mirror serves |
| ChunkFetch.FetchAllStoresEvery | src/chunks/network.rs:42-81 | after a successful install every requested chunk has an entry |
| ChunkFetch.FetchAllOnlyVerified | src/chunks/network.rs:24-32 | whatever the outcome, every added or changed entry is a requested chunk's name holding a body that hashes to its hash |
| ChunkFetch.InstalledChunksVerify | src/chunks/network.rs:24-28 | with no two requested chunks sharing a name under different hashes, a successful install leaves every requested chunk verified |
| ChunkFetch.InstallTree | src/chunks/tree.rs:110-138 | only chunks with no store entry are fetched, present entries are never rewritten, and on success every chunk has an entry |
| Types.GetPackage | src/utils/mod.rs:43 | succeeds exactly when some package has the id, and returns such a package |
| Manifest.ReadManifest | src/repo/manifest_io.rs:19-31 | succeeds exactly when the text parses and its signature verifies under the key the parsed manifest names |
| Manifest.ReadManifestUnsigned | src/repo/manifest_io.rs:33-39 | the parse of `manifest.yml`, with no signature check |
| Manifest.ReadManifestSigned | src/repo/manifest_io.rs:47-59 | succeeds exactly when the signature verifies under the caller's key and the text then parses |
| Manifest.SignedNeverParsesUnverified | src/repo/manifest_io.rs:51-57 | when the signature does not verify, the outcome is the same whatever the parser would do |
| Manifest.ReadSignedAgreesWithRead | src/repo/manifest_io.rs:159-170 | a manifest `read_manifest` accepts is accepted by `read_manifest_signed` under its own key, with the same value |
| Manifest.AtomicReplace | src/repo/manifest_io.rs:96-103 | afterwards the file holds the new bytes, `{name}.new` is gone, and every other entry is unchanged |
| Manifest.InstalledFiles | src/repo/manifest_io.rs:85-91 | after both replacements the two files hold the new bytes, no `.new` file is left, and other files are untouched |
| Manifest.UpdateManifest | src/repo/manifest_io.rs:68-94 | accepted exactly when the old manifest parses, the new text verifies under the old manifest's key and parses; a rejected update changes nothing |
| Manifest.KeyRotation | src/repo/manifest_io.rs:73-80 | after an update is installed, the next update is judged by the key the newly installed manifest names |
| Manifest.UpdateThenRead | src/repo/manifest_io.rs:129-156 | after a successful update, `read_manifest` accepts the repository exactly when the new text is also signed under its own key |
| Manifest.RollbackAccepted | src/repo/manifest_io.rs:68-94 | while the key stays the same, a once-current manifest and signature are accepted again and restore the old text |
| Manifest.StoredSignatureIgnored | src/repo/manifest_io.rs:73-80 | the stored signature plays no part in accepting an update |
| RepoSync.AddRepository | src/repo/network.rs:44-85 | a given key must verify before parsing, the manifest must verify under its own key, and both files are written only after every check |
| RepoSync.AddedRepositoryReads | src/repo/network.rs:73-82 | a repository just added is one `read_manifest` accepts, with the returned manifest |
| RepoSync.UpdateRepository | src/repo/network.rs:18-34 | no mirror gives false and no change; otherwise the first mirror's bytes go through `update_manifest`, and the result is whether the manifest changed |
| Versions.VersionOfIff | src/repo/versions.rs:86-92 | parsing a name inverts `{id}-{hash}` for hashes without `-`; otherwise it accepts only hash-only names for an empty id |
| Versions.SplitThreePieces | src/repo/versions.rs:86 | three dash-free pieces joined by `-` split back into those pieces |
| Versions.LongerIdNotAVersion | src/repo/versions.rs:88-89 | a version of package `a-b` is never taken for a version of `a` |
| Versions.GetVersions | src/repo/versions.rs:79-97 | the hashes reported are those the listing gives in order; names that are not UTF-8 are skipped |
| Versions.VersionsListedMembers | src/repo/versions.rs:82-94 | a hash is reported exactly when some UTF-8 entry is `{id}-{hash}` with a dash-free hash |
| Versions.PlaceTree | src/repo/versions.rs:40-46 | the tree is loaded, then `install.meta` gets the serialised manifest; other directories are untouched |
| Versions.PlacedMetaLast | src/repo/versions.rs:40-46 | `install.meta` is written only after the whole tree loads; a failure leaves nothing or the partly loaded tree; a failed load reports "Failed to rebuild the tree." |
| Versions.FreshPlacement | src/repo/versions.rs:40-46 | a fresh directory is always placed when every chunk is stored and the chunk paths are proper; each chunk's bytes are at its path |
| Versions.InstallVersion | src/repo/versions.rs:26-49 | the tree is placed at `versions/{id}-{h}` with `h` the hash of the serialised package manifest, and `h` is returned; an unreadable manifest gives its error, a missing package "Failed to get package from Repository.", a failed load "Failed to rebuild the tree.", and a failed `install.meta` write its own error |
| Versions.InstalledVersionListed | src/repo/versions.rs:26-97 | a version just installed is reported by `get_versions` for that package when its hash has no `-` |
| Versions.SwitchVersion | src/repo/versions.rs:56-68 | `installed/{id}` becomes a link to `../versions/{id}-{hash}` via `{id}.tmp`, without checking that the version exists; other entries are kept; an existing `{id}.tmp` makes the link fail and changes nothing; a real directory at `installed/{id}` makes the rename fail and leaves `{id}.tmp` behind |
| Versions.RemoveVersion | src/repo/versions.rs:105-114 | deletes exactly the entry `{id}-{hash}` of `versions/` when present, otherwise fails with "The version {hash} is not installed for package {id}" and changes nothing |
| PathText.Normals | src/run/mod.rs:39 | the components of a path: empty pieces and interior `.` are dropped |
| PathText.EverythingEndsWithEmpty | src/run/mod.rs:39 | every path ends with the empty path |
| PathText.ComponentsOfTwo | src/utils/mod.rs:21 | the components of `b`, `a/b` and `/a/b` for normal pieces |
| PathText.ComponentWiseSuffix | src/run/mod.rs:39 | `ends_with` compares whole components: `a/b` ends with `c/b` only when `a == c`, and `/a/b` ends with `b` |
| PathText.FileName | src/run/quicklaunch.rs:30-32 | `Path::file_name`: the last component when it is normal |
| PathText.WithNewExtensionShape | src/run/quicklaunch.rs:36-37 | the staging name ends in `.new`, and equals the name exactly when the name already has the extension `new` |
| PathText.TemporaryNamesCollide | src/run/quicklaunch.rs:36-37 | `a` and `a.new` share the staging name `a.new` |
| Run.FirstEndingWith | src/run/mod.rs:36-43 | the index of the first command, in manifest order, ending with the entrypoint component-wise |
| Run.EmptyEntrypointSelectsFirst | src/run/mod.rs:36-43 | an empty entrypoint selects the first command |
| Run.TrimStartSlashes | src/run/mod.rs:46 | the result is a suffix with no leading `/`, and only `/` were removed |
| Run.ReplaceDotSlashLength | src/run/mod.rs:59 | every occurrence of `./` is replaced: the length grows by the replacement's length minus 2 per occurrence |
| Run.ContainsIffCount | src/run/mod.rs:53 | `contains("./")` holds exactly when there is an occurrence |
| Run.NoDotSlashUnchanged | src/run/mod.rs:53-59 | a value without `./` is left as it is |
| Run.RewriteEnv | src/run/mod.rs:48-61 | every value containing `./` has each occurrence replaced by `{installed}/`; keys and other values are unchanged |
| Run.Start | src/run/mod.rs:27-73 | no matching command gives "Entrypoint does not exist."; otherwise the program is `installed/{id}/` plus the first match without leading `/`, with the rewritten environment |
| Run.Install | src/run/mod.rs:81-112 | the manifest is read, the package found, missing chunks fetched, then the tree rebuilt at `installed/{id}` and `install.meta` written, each step only after the previous one succeeded; the failures report the manifest's error, "Failed to get package from Repository.", "Failed to install package.", "Failed to rebuild the tree." or the `install.meta` write's error |
| Run.InstallSucceeds | src/run/mod.rs:81-112 | a first install succeeds when every missing chunk is served by some mirror and the chunk paths form a proper tree |
| Quicklaunch.InstallLauncher | src/run/quicklaunch.rs:30-58 | one command: the script is written to the staging name, renamed to the command's file name and made mode 0o755 |
| Quicklaunch.Restrict | src/run/quicklaunch.rs:63-70 | the directory keeping exactly the allowed entries |
| Quicklaunch.RemoveStale | src/run/quicklaunch.rs:63-70 | every entry whose name is not allowed is deleted, whatever the listing order |
| Quicklaunch.WriteCommandLaunchers | src/run/quicklaunch.rs:29-59 | the loop over one package's commands |
| Quicklaunch.WritePackageLaunchers | src/run/quicklaunch.rs:28-60 | the loop over the packages of one manifest |
| Quicklaunch.WriteRepoLaunchers | src/run/quicklaunch.rs:21-61 | the loop over the repositories in listing order; an unreadable manifest aborts |
| Quicklaunch.UpdateQuicklaunch | src/run/quicklaunch.rs:18-73 | every launcher is written, then what is not allowed is deleted |
| Quicklaunch.CommandNamesSound | src/run/quicklaunch.rs:28-34 | every allowed name is the file name of a command |
| Quicklaunch.CommandNamesComplete | src/run/quicklaunch.rs:28-34 | the file name of every command is allowed |
| Quicklaunch.PackageNamesSound | src/run/quicklaunch.rs:28-34 | every allowed name is that of a command of a package |
| Quicklaunch.PackageNamesComplete | src/run/quicklaunch.rs:28-34 | the file name of every command of every package is allowed |
| Quicklaunch.WriteLauncherName | src/run/quicklaunch.rs:30-34 | a launcher write that succeeds allows the command's file name |
| Quicklaunch.WriteReposNames | src/run/quicklaunch.rs:21-61 | a successful first phase allows exactly the file names of all commands of all packages of every repository |
| Quicklaunch.WriteReposReadsAll | src/run/quicklaunch.rs:24 | every manifest has been read when the first phase succeeds |
| Quicklaunch.UpdateLeavesExactlyLaunchers | src/run/quicklaunch.rs:18-73 | when no staging name is another command's name, success leaves exactly one entry per allowed name and nothing else, each the mode-0o755 script `{exe} run {id} -- {name} $@` with `id` the owner that `ReposOwners` gives for the name |
| Quicklaunch.InPlaceKeepsEveryLauncher | src/run/quicklaunch.rs:52-53 | staging in place, success leaves exactly the launchers of all command names, each running the package that owns the name |
| Quicklaunch.ReposOwnersKeys | src/run/quicklaunch.rs:28-34 | the names with an owner are exactly the allowed names |
| Quicklaunch.ReposOwnersSound | src/run/quicklaunch.rs:28-50 | the owner of a name is the id of a package of a readable repository that has a command with that file name |
| Quicklaunch.ReposOwnersLast | src/run/quicklaunch.rs:21-53 | the owner of a name is the id of the last package, in listing order of the repositories and then manifest order, with a command of that file name: its script is the one written last |
| Quicklaunch.PackageOwnersLast | src/run/quicklaunch.rs:28-53 | within one manifest, the last package with a command of that file name owns it |
| Quicklaunch.CommandOwnersTakeOver | src/run/quicklaunch.rs:29-53 | a package's commands make it the owner of their file names and leave every other name's owner as it was |
| Quicklaunch.WriteLauncherEffect | src/run/quicklaunch.rs:52-58 | a launcher write succeeds when its two names are not directories; the staging entry is gone and the name holds the executable script |
| Quicklaunch.StagingClobbersLauncher | src/run/quicklaunch.rs:36-53 | as written, commands `a.new` and `a` leave `a.new` allowed but missing after a successful update |
| Resolve.ResolveRepo | src/utils/mod.rs:11-26 | canonicalisation failures give their messages; success exactly when the canonical candidate lies component-wise under the canonical base, and it is returned |
| Resolve.SiblingIsOutside | src/utils/mod.rs:21 | `/a/c` is under `/a/b` only when `b == c`, even when `b` is a textual prefix of `c` |
| Resolve.ChildIsInside | src/utils/mod.rs:21 | `/a/b` is under `/a` |
| Resolve.CandidatesOk | src/utils/mod.rs:39-51 | the search succeeds exactly when every manifest is readable |
| Resolve.CandidatesSound | src/utils/mod.rs:39-51 | every candidate is a listed repository whose manifest holds the package and which passes the filter |
| Resolve.CandidatesComplete | src/utils/mod.rs:39-51 | every such repository is a candidate |
| Resolve.CollectCandidates | src/utils/mod.rs:37-51 | the loop computes the candidates, stopping at the first unreadable manifest |
| Resolve.ResolvePackage | src/utils/mod.rs:29-62 | an unreadable manifest is an error; no candidate gives "No Repositories contain that package."; one is returned; among several the chooser's pick is returned |
| Resolve.ResolvedIsGenuine | src/utils/mod.rs:43-48 | a resolved package has the id asked for and comes from a listed repository holding it that passes the filter |
| Bundle.Pad | src/bundle/mod.rs:42-54 | succeeds exactly below 31 × 65536 bytes; the header is a prefix, the length the next multiple of 65536 strictly above, and every added byte is 4 |
| Bundle.PadHeader | src/bundle/mod.rs:42-54 | the resizing loop computes that padding |
| Bundle.FirstMagic | src/bundle/mod.rs:24-32 | the lowest block below 32 whose window at offset 257 reads `ustar`; no earlier block does |
| Bundle.TarOf | src/bundle/mod.rs:23-35 | found exactly when some block below 32 carries the magic; the result is the suffix from the first such block |
| Bundle.GetTar | src/bundle/mod.rs:23-35 | the scan loop computes that suffix |
| Bundle.ShortDataHasNoTar | src/bundle/mod.rs:27 | data too short for the first window has no tar |
| Bundle.NoMagicAcrossFiller | src/bundle/mod.rs:45 | a window reaching into the filler cannot read `ustar` |
| Bundle.PaddedHeaderHasNoMagic | src/bundle/mod.rs:42-54 | no block inside the padded header carries the magic when the header itself has none |
| Bundle.TarStartsAtBoundary | src/bundle/mod.rs:24-30 | a tar after a padded header starts at a block boundary with its magic there |
| Bundle.RoundTrip | src/bundle/mod.rs:23-54 | the tar after a padded header is found again exactly |
| BuildBundle.TopFiles | src/build/bundle.rs:20 | the top-level regular files by name, with their bytes |
| BuildBundle.ArchivedSound | src/build/bundle.rs:41-50 | every archived entry is a walked regular file with its bytes and mode |
| BuildBundle.ArchivedComplete | src/build/bundle.rs:41-50 | every walked regular file is archived |
| BuildBundle.Compress | src/build/bundle.rs:38-54 | the walk loop archives the regular files in walk order |
| BuildBundle.Bundled | src/build/bundle.rs:16-36 | a too-large header, no package or several packages, or a package not installed is an error; otherwise the padded header followed by the archive |
| BuildBundle.BuildBundle | src/build/bundle.rs:16-36 | `build_bundle` step by step computes that result |
| BuildBundle.BundleYieldsArchive | src/build/bundle.rs:16-36 | the extractor finds exactly the archive in a built bundle |
| Sources.FilesOf | src/build/sources.rs:114 | the regular files of a tree |
| Sources.WellFormedFilesPrefixFree | src/build/sources.rs:108-121 | the files of a well-formed tree are prefix-free |
| Sources.EmptyLayout | src/build/sources.rs:386-398 | a layout of no files is the empty tree |
| Sources.PlaceInLayout | src/build/sources.rs:114-119 | placing a file (parents first) keeps the target a layout of the files so far plus it |
| Sources.Visited | src/build/sources.rs:108-121 | the walked regular files, keyed by their path |
| Sources.CopyFilesLayout | src/build/sources.rs:108-121 | copying a walk of prefix-free files succeeds and leaves a layout of the files so far plus those visited |
| Sources.CopyFilesStop | src/build/sources.rs:108-121 | once a prefix of the walk fails, the rest changes nothing |
| Sources.CopyWalk | src/build/sources.rs:108-121 | the walk loop computes the copy |
| Sources.CopyEntriesStop | src/build/sources.rs:132-156 | once an entry fails, the later entries change nothing |
| Sources.CopyOne | src/build/sources.rs:133-155 | one top-level entry: a directory is copied below its name, a file under its name, anything else is refused |
| Sources.UnwrapTarContents | src/build/sources.rs:95-160 | the single-directory, single-entry and general cases, each as specified |
| Sources.UnwrapSoleDirectory | src/build/sources.rs:302-330 | a sole top-level directory leaves exactly its files at the root with the name stripped, with parent directories only |
| Sources.UnwrapSoleFile | src/build/sources.rs:334-350 | a sole top-level file is copied under its own name and nothing else appears |
| Sources.CopyEntriesLayout | src/build/sources.rs:130-156 | copying the entries leaves a layout of all files below them, under their own names |
| Sources.UnwrapEntries | src/build/sources.rs:353-398 | with no single directory, the target holds exactly the source's files with parents; an empty source leaves it empty |
| Sources.PulledStop | src/build/sources.rs:51-61 | once a prefix of the walk fails, the rest changes nothing |
| Sources.PullLocal | src/build/sources.rs:40-64 | the target starts empty, then directories are created and files copied in walk order |
| Sources.CopyableInit | src/build/sources.rs:51-61 | a walk that copies entries only after their parents keeps that property without its last entry |
| Sources.PulledSeen | src/build/sources.rs:51-61 | a walk with parents first reproduces exactly the walked entries |
| Sources.PullLocalCopies | src/build/sources.rs:275-299 | a walk covering the source reproduces the source exactly |
| Sources.Latest | src/build/sources.rs:252-261 | at least 0 and every child mtime, and either 0 or one of them: the latest mtime, epoch 0 for none |
| Sources.Fixed | src/build/sources.rs:242-266 | a file is unchanged, and a directory keeps its children's names and kinds, in order; its new mtime is stated by `Sources.FixedIsLatestFile` |
| Sources.FixedChildren | src/build/sources.rs:244-265 | the children of a directory, each fixed |
| Sources.FixDirTimes | src/build/sources.rs:242-266 | the nested loops and recursion compute `Fixed` for every child; a file is "Not a directory" |
| Sources.LatestConcat | src/build/sources.rs:252-261 | the latest of a concatenation is the latest of the two latests |
| Sources.FixedIsLatestFile | src/build/sources.rs:242-266 | a fixed directory's mtime is the latest mtime of any file below it, or 0 |
| Sources.FetchedStop | src/build/sources.rs:12-33 | once a source fails, the later sources change nothing |
| Sources.GetSources | src/build/sources.rs:11-36 | the sources are pulled in order, each failure wrapped with its context |
| Sources.FetchedFailsWithContext | src/build/sources.rs:14-28 | a failure carries the context message of the kind of some source |
| Sources.LastLocalSourceWins | src/build/sources.rs:26-28 | when the last source is local, the result is a copy of the local tree |

## Left out

- I/O errors other than those the model names are left out: permissions, a full disk, and `fs::read` or `metadata` failures.
- Hard links are modelled as writes of the same bytes, so sharing between a store entry and a loaded file is not captured.
- `u64` size overflow is not modelled.
- `buffer_unordered(8)` is left out; chunks are fetched one after another.
- Blake3, ed25519 verification and key decoding are function parameters; src/crypto is not part of this model.
- YAML parsing and serialisation are function parameters. Non-UTF-8 manifest text is not distinguished.
- The HTTP transport is a function parameter from URL to an optional body. Transport errors are the empty result.
- `choose_repo` (src/utils/mod.rs:64-86) is interactive. It is a chooser parameter that must pick one of the candidates or fail.
- The process spawned by `start` is left out; `Run.Start` returns the program path and environment it would run.
- `pull_git` and `pull_tar` shell out to git and download archives. `Sources.GetSources` takes their outcomes as parameters; `try_pull_cache` is not part of this model.
- `extract_bundle` drives the tar library and is not part of this model. `BuildBundle.BundleYieldsArchive` stops at the extracted archive bytes.
- The tar writer of `compress` is a function from the archived entries to bytes.
- `Sources.FixDirTimes` works on a separate tree of mtimes (`Stamped`), not on the trees the other operations build. Mtimes of files are inputs.
- `Sources.UnwrapTarContents` moves files out of the temporary tree with `fs::rename`. The model copies them and does not describe the temporary tree afterwards.
- Symbolic links are not modelled as links: a tree node is a file, a directory or some other entry. `fs::copy` follows links, but `Sources.PullLocal` and `Sources.CopyOne` report any non-regular, non-directory entry as an error.
- BuildBundle.Compress and BuildBundle.Archived archive only regular-file nodes. `path.is_file()` follows symbolic links, so Flint also archives a link to a regular file, with the target's bytes; the model skips it.
- Walk orders and `read_dir` orders are parameters (sequences of paths). `Sources.PullLocalCopies` assumes the walk lists parents before their children, as `WalkDir` does.
- `get_installed_package` and `get_all_installed_packages` are not part of this model; their outcomes are parameters. `get_package` is not in the source either, and `Types.GetPackage` models it as the first package with that id.
- Error chains from `anyhow::Context` keep only the outermost context message.
- Chunks.Chunk, ChunkTree.LoadTree, Versions.FreshPlacement and Run.Install: manifest chunk paths are taken to be relative and made of normal components. A chunk path is a sequence of component names, so an absolute path or a `..` component, which `load_path.join(&chunk.path)` would resolve outside the target, cannot be expressed.
- Versions.InstallVersion, Versions.SwitchVersion and Versions.RemoveVersion take package ids and version hashes to contain no `/` and not to be `.` or `..`. `{id}-{hash}`, `{id}` and `{id}.tmp` are single entry names in the model, whereas `Path::join` reads a `/` as a nested path and `..` as the parent, so `remove_version` with the hash `../../y` deletes outside `versions/` where the model reports the version as not installed.
- Run.Install takes the package id to contain no `/` and not to be `.` or `..`; `installed/{id}` is one entry name in the model.
- ChunkFetch.InstallChunk, ChunkTree.SaveTree and ChunkTree.LoadTree take chunk hashes to contain no `/` and not to be `.` or `..`, so that `{hash}{permissions}` (`Chunks.StoreKey`) names one entry directly in the chunk store.
- Quicklaunch.InstallLauncher gives a newly staged script the mode 0o644, the mode under a umask of 0o022; the process umask is not modelled. A launcher that is renamed into place is then set to 0o755, so only the state an update leaves after a failed rename shows it.
- Run.Install and Versions.SwitchVersion describe `installed/` separately. In the first it maps names to rebuilt trees; in the second a rebuilt tree is one `RealDir` entry.
- `Sources.GetSources` requires every kind to be handled; the `unimplemented!` panic on an unknown kind is that precondition.
- The `network` build feature is a boolean parameter of `Sources.GetSources`; `Run.Install` always fetches missing chunks.
- `Source` at src/build/mod.rs:40-47 has no `commit` field, though `pull_git` reads one. The git step is a parameter, so this does not arise.
- `update_manifest` returns `()`, yet `update_repository` compares its result with the old manifest. `RepoSync.UpdateRepository` reports whether the old manifest differs from the parsed new one.
- The script text uses the canonical current executable, which is a parameter.

## Findings

| source | as written | input that shows it | evidently intended | confidence | as-written member | corrected member |
|---|---|---|---|---|---|---|
| src/run/quicklaunch.rs:36-53 | each launcher is staged at the command name with its extension set to `new` and then renamed over the name | one package with commands `bin/a.new` then `bin/a`: writing `a` stages at `a.new`, overwriting the launcher of `a.new` and renaming it to `a`; both names are allowed, so the update returns Ok with `a.new` missing | every allowed name has its launcher after a successful update | not executed | Quicklaunch.StagingClobbersLauncher | Quicklaunch.InPlaceKeepsEveryLauncher |
