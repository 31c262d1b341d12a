# paperdoll-tar: the naming policy and the per-entry loops of `save` and `read`

paperdoll-tar stores a paperdoll project as a tar archive. The archive holds a
YAML manifest and one image file per doll and per fragment. This project
models the decision logic of `src/lib.rs` and proves what it does:

- **The file-name policy of `save`** (module `Naming`, `naming.dfy`). An entry's
  image is written to `doll_{id}.{ext}` or `fragment_{id}.{ext}`. `ext` is the
  extension of the entry's current path, read as Rust's `Path::file_name` and
  `Path::extension` read it. It is `png` when the path is empty or has no
  extension, and `png` in place of a literal, case-sensitive `webp`. The
  policy is a pure function. It comes with a parser for the names it
  produces, so injectivity and doll/fragment disjointness are proved by
  reading names back.
- **The save loops and the read loops on values** (module `Passes`,
  `passes.dfy`). `SaveList`/`LoadList` describe one loop over one collection.
  `SaveManifest`/`LoadManifest` describe the two loops, dolls then fragments.
  The lemmas cover fail-fast behaviour, the exact partial state at the first
  failure, which entries are skipped, what is kept, staging, and the
  save-then-read and re-save round trips. The save loop is stated for any
  `Namer`. `save` uses `NameFor(kind)`, that is `GeneratedName`, and the
  facts the loop lemmas need about it are proved in `NameForDistinct`,
  `NameForSettles` and `DollNameIsNoFragmentName`.
- **The loops as they run** (module `PaperdollTar`, `paperdoll_tar.dfy`).
  `Manifest` holds the two entry lists and updates them in place, one entry
  per loop turn. The turn for a skipped entry returns without touching it,
  and the loop returns early at the first error. `StagingDir` is the temporary directory, a map
  from file name to the image written under it. Each method's postcondition
  says its final state is exactly the one the `Passes` functions compute.

Encoding (`image::save_buffer`) and decoding (`image::open(..).into_rgba8()`)
are oracles passed in as function values:

- `Encoder` maps a name and an image to `Pass` or `Fail(message)`;
- `Decoder` maps a path to `Ok(image)` or `Err(message)`.

An error stops the loop and is returned as it came from the oracle, as `?`
does in the source.

## Model

| member | source | states |
|---|---|---|
| Naming.FileName | src/lib.rs:103-104 | the final component of a path as `Path::file_name` gives it: never contains `/`, never empty, `.` or `..` |
| Naming.FileNameOfLastComponent | src/lib.rs:103-104 | for every directory text and every ordinary name `n` (no `/`, not empty, `.` or `..`), the file name of `dir/n` and of `n` is `n` |
| Naming.FileNameSkipsTrailingSlash | src/lib.rs:103-104 | for every path, a trailing `/` does not change the file name |
| Naming.FileNameSkipsTrailingDot | src/lib.rs:103-104 | for every path, a trailing `/.` component does not change the file name |
| Naming.FileNameOfTrailingDotDot | src/lib.rs:103-104 | for every path, a trailing `/..` component leaves no file name |
| Naming.Extension | src/lib.rs:104 | the extension of a file name as `Path::extension` gives it: made of characters of the name, never containing `.` |
| Naming.PathExtension | src/lib.rs:103-105 | the extension of a path's final component contains neither `/` nor `.` |
| Naming.ExtensionIsTextAfterLastDot | src/lib.rs:104 | a name has extension `ext` exactly when it is `stem.ext` with a non-empty stem and no dot in `ext` (both directions) |
| Naming.ChooseExtension | src/lib.rs:101-116 | the chosen extension is never `webp` and contains no `.` or `/` |
| Naming.ChooseExtensionCases | src/lib.rs:101-116 | `png` is chosen exactly for an empty path, a path without extension, `png` or `webp`; any other result is the path's own extension (both directions) |
| Naming.WebpBecomesPng | src/lib.rs:110-111 | `layers/body.webp` gets `png` |
| Naming.WebpTestIsCaseSensitive | src/lib.rs:110-113 | `body.WEBP` keeps `WEBP` |
| Naming.TrailingDotGivesEmptyExtension | src/lib.rs:103-113 | `foo.` keeps the empty extension |
| Naming.LeadingDotGivesPng | src/lib.rs:103-116 | `.bashrc` has no extension and gets `png` |
| Naming.LastDotCounts | src/lib.rs:103-113 | `archive.tar.gz` keeps `gz` |
| Naming.DirectoryDotIgnored | src/lib.rs:103-116 | `v1.2/body` gets `png`: a dot in a directory is not the file's extension |
| Naming.DotDotGivesPng | src/lib.rs:103-116 | a path ending in `..` gets `png` |
| Naming.TrailingSlashSkipped | src/lib.rs:103-113 | `dir/body.jpg/` keeps `jpg` |
| Naming.DecimalDigits | src/lib.rs:118 | the id is written as a non-empty string of decimal digits, with no leading zero unless the id is 0 |
| Naming.ParseDecimalInvertsDecimalDigits | src/lib.rs:118 | reading the decimal digits of an id gives the id back |
| Naming.KindPrefix | src/lib.rs:118 | the prefix of a doll name is `doll` and of a fragment name `fragment`; `ComposedNameParses` shows the two prefixes are told apart |
| Naming.GeneratedName | src/lib.rs:118 | the name `{kind}_{id}.{ext}`; `GeneratedNameParses`, `GeneratedNameInjective`, `GeneratedNameExtension` and `GeneratedNameFixpoint` state what it promises |
| Naming.GeneratedNameParses | src/lib.rs:118 | a generated name reads back as its kind, its id and the chosen extension |
| Naming.ComposedNameParses | src/lib.rs:155 | `{kind}_{digits}.{ext}` reads back as that kind, the number of the digits and `ext`, for either prefix |
| Naming.GeneratedNameExamples | src/lib.rs:118 | doll 1 with an empty path becomes `doll_1.png`; fragment 12 with path `a/b.webp` becomes `fragment_12.png` |
| Naming.GeneratedNameInjective | src/lib.rs:155 | equal generated names have the same kind, the same id and the same chosen extension, so distinct ids give distinct names and doll and fragment names never meet |
| Naming.GeneratedNameExtension | src/lib.rs:101-118 | a generated name is its own final component and its extension is the chosen one |
| Naming.GeneratedNameFixpoint | src/lib.rs:101-118 | choosing a name again for a path that is already the generated name gives the same name |
| Passes.IsEmpty | src/lib.rs:97 | an image is empty when it has no pixel bytes, whatever its width and height; `SavedEntry` and `SaveListEntries` show that such entries are skipped |
| Passes.NameFor | src/lib.rs:118 | the namer of each save loop is `GeneratedName` for that loop's kind; `NameForDistinct`, `NameForSettles` and `DollNameIsNoFragmentName` state what the loop lemmas need of it |
| Passes.SavedEntry | src/lib.rs:97-122 | a visited entry keeps its id and image, and an entry with an empty image is left exactly as it was |
| Passes.SaveList | src/lib.rs:96-131 | one save loop over one collection keeps the number of entries; `SaveListStatus`, `SaveListEntries` and the other `SaveList` lemmas state the rest |
| Passes.FirstEncodeFailure | src/lib.rs:124-130 | the least index whose non-empty image the encoder refuses, or the length when there is none |
| Passes.SaveListStep | src/lib.rs:96-131 | one more loop turn: an empty image is skipped; otherwise the path is the generated name, the encoder's result is the status, and the file is staged only if it passed |
| Passes.SaveListStopsAtFailure | src/lib.rs:130 | after a failure, later entries are kept as they are and nothing more is written |
| Passes.SaveListStatus | src/lib.rs:96-131 | a save loop passes exactly when no image is refused; otherwise its error is the encoder's for the first refused entry |
| Passes.SaveListEntries | src/lib.rs:96-131 | entries up to and including the first refused one carry their generated names (the path is set before encoding); later entries are untouched; empty images are skipped |
| Passes.SaveListStopsAtFirstFailure | src/lib.rs:120-130 | the status and the list left behind by a save loop, together |
| Passes.SaveListKeepsIdsAndImages | src/lib.rs:96-131 | a save loop keeps the length, the order, every id and every image |
| Passes.SaveListWritesOwnNames | src/lib.rs:120-130 | a save loop writes only the names of its own entries; every other file is left as it was |
| Passes.SaveListStagesEachImage | src/lib.rs:120-130 | with distinct names, each non-empty image before the first failure is staged under its entry's name |
| Passes.SavedPathsNameStagedImages | src/lib.rs:120-130 | after a passing save loop, each non-empty entry's new path names a staged file holding its image |
| Passes.NameForDistinct | src/lib.rs:118 | distinct ids give distinct generated names within a collection |
| Passes.NameForSettles | src/lib.rs:101-118 | every entry's generated name, used as its path, generates itself |
| Passes.DollNameIsNoFragmentName | src/lib.rs:155 | no doll name is the name of any fragment |
| Passes.LoadedEntry | src/lib.rs:59-68 | a loaded entry keeps its id and path, and an entry with an empty path is left exactly as it was |
| Passes.LoadList | src/lib.rs:58-69 | one read loop over one collection keeps the number of entries; `LoadListStopsAtFirstFailure` and the other `LoadList` lemmas state the rest |
| Passes.FirstDecodeFailure | src/lib.rs:63-64 | the least index whose non-empty path the decoder fails on, or the length when there is none |
| Passes.LoadListStep | src/lib.rs:58-69 | one more loop turn: an empty path is skipped; a decode error stops the loop and leaves the entry as it was; otherwise width, height and pixels are the decoded ones |
| Passes.LoadListStopsAtFailure | src/lib.rs:64 | after a failure, later entries are kept as they are |
| Passes.LoadListStopsAtFirstFailure | src/lib.rs:58-69 | a read loop passes exactly when every non-empty path decodes; otherwise its error is the decoder's for the first failing entry; entries before it carry decoded images, it and later ones are untouched |
| Passes.LoadListKeepsIdsAndPaths | src/lib.rs:58-69 | a read loop keeps the length, the order, every id and every path |
| Passes.LoadListOfOwnImages | src/lib.rs:58-69 | a read loop whose decoder returns each entry's own image changes nothing and passes |
| Passes.SaveManifest | src/lib.rs:96-168 | the two save loops keep the number of dolls and of fragments; `SaveManifestIsFailFast` states the rest |
| Passes.LoadManifest | src/lib.rs:58-82 | the two read loops keep the number of dolls and of fragments; `LoadManifestIsFailFast` states the rest |
| Passes.SaveManifestKeepsIdsAndImages | src/lib.rs:96-168 | `save` keeps the order and number of dolls and fragments, and every id and image |
| Passes.SaveManifestIsFailFast | src/lib.rs:96-168 | `save` passes exactly when no doll and no fragment image is refused; a refused doll leaves all fragments untouched; in each collection, entries up to the refused one are renamed and later ones are untouched |
| Passes.LoadManifestIsFailFast | src/lib.rs:58-82 | `read` passes exactly when every non-empty doll and fragment path decodes; a failing doll leaves all fragments untouched; in each collection, entries before the failure are loaded and later ones are untouched |
| Passes.DollFilesSurviveFragments | src/lib.rs:96-168 | after a passing `save`, every non-empty doll's new path names a staged file holding its image; the fragment loop overwrites none |
| Passes.LoadOfSavedManifestPasses | src/lib.rs:58-168 | when both save loops pass with distinct ids and each staged file decodes to the image encoded into it, `read` passes and leaves the saved manifest unchanged |
| Passes.SaveThenLoadRestoresImages | src/lib.rs:58-168 | under the same conditions, `read` of what `save` wrote passes, and every doll and fragment it yields has the id and image of the original entry at the same position |
| Passes.SaveListResaveKeepsPaths | src/lib.rs:58-131 | with any namer whose names settle, saving again after a read keeps the paths a passing save chose |
| Passes.ResaveKeepsPaths | src/lib.rs:58-131 | saving again after a read keeps every path a passing `save` gave a collection |
| PaperdollTar.StagingDir.constructor | src/lib.rs:94 | a new staging directory is empty |
| PaperdollTar.StagingDir.SaveBuffer | src/lib.rs:124-130 | the status is the encoder's, and the file exists afterwards exactly when encoding passed |
| PaperdollTar.Manifest.constructor | src/lib.rs:90 | the manifest holds the given doll and fragment lists |
| PaperdollTar.Manifest.SetEntry | src/lib.rs:122 | one entry of one list is replaced; the other list is unchanged |
| PaperdollTar.Manifest.SaveEntryAt | src/lib.rs:96-131 | one loop turn in place: an empty image is skipped; otherwise the path is assigned, then the image is encoded under it |
| PaperdollTar.Manifest.SavePass | src/lib.rs:96-131 | the in-place save loop leaves exactly the list, staged files and status that `SaveList` describes, and does not touch the other list |
| PaperdollTar.Manifest.SaveImages | src/lib.rs:96-168 | the doll loop, then the fragment loop only if it passed, leave exactly what `SaveManifest` describes |
| PaperdollTar.Manifest.LoadEntryAt | src/lib.rs:58-69 | one loop turn in place: an empty path is skipped; a decode error leaves the list as it was; otherwise width, height and pixels are replaced |
| PaperdollTar.Manifest.LoadPass | src/lib.rs:58-69 | the in-place read loop leaves exactly the list and status that `LoadList` describes, and does not touch the other list |
| PaperdollTar.Manifest.InjectImages | src/lib.rs:58-82 | the doll loop, then the fragment loop only if it passed, leave exactly what `LoadManifest` describes |
| PaperdollTar.Save | src/lib.rs:94-168 | a fresh staging directory and the two save loops: the manifest ends as `SaveManifest` describes, and the staged files are delivered only when every encode passed |

## Left out

- Tar archive building and unpacking, the YAML manifest, `File::open`/`File::create` and `write`: these are byte-stream and filesystem I/O in foreign libraries. `save`'s result covers only the images staged for the archive; `read` starts from a manifest already parsed.
- `TempDir` creation and `close`: they are not modelled as failing steps. The staging directory starts empty.
- Image codecs: encoding and decoding are the `Encoder` and `Decoder` oracles. Pixel formats and file contents are not modelled. A failing encode leaves no file in the model; a partial file it might leave on disk is not modelled.
- `PaperdollFactory::from_manifest` and the other fields of dolls and fragments: they belong to another crate. An entry holds only its id, path and image.
- `to_string_lossy` on non-UTF-8 extensions, Windows separators and drive prefixes: paths are `/`-separated strings of characters.
- `Path::join` replacing the staging directory when the joined path is absolute: the decoder is keyed by the entry's path as written.
- The source's error values carry no entry id or path: the model passes the oracle's message through unchanged, as the code does.
