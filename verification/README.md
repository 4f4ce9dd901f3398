# Office 365 endpoint export: a Dafny model

This project models the data-shaping core of a timer-triggered Azure Function. The function
fetches the Office 365 "worldwide endpoints" list, reorganises it, writes it to text files,
and moves those files to and from blob storage. The model covers four pieces:

- **Service-area grouping.** `EndpointsClient.get_o365_endpoints` in
  `src/Get-ClientIps/__init__.py` groups the records' IP ranges by `serviceAreaDisplayName`
  into an insertion-ordered dictionary (module `IpGrouping`). `export_locally` writes one
  `<prefix><service area>.txt` per key, one range per line (module `IpExport`).
- **URL flattening.** The debugging script `debug.py` collects the `urls` value of every
  record that has the key, passes the collection through `json.loads(json.dumps(...))`, and
  flattens it. Its `export_locally` writes the flat list to a single file (module
  `UrlFlattening`). The JSON step is modelled by a codec for the document shape it sees,
  with Python's default escaping (module `JsonCodec`).
- **Last-match selection.** `get_o365_endpoints_urls` in `get-azure-endpoints-minimal.py`
  keeps the `urls` of the last record whose `ips` is not None (module `UrlSelection`).
- **Blob paths.** `upload_dir`, `download`, `download_file` and `ls_files` compute blob names
  and local paths (module `BlobPaths`, on top of a POSIX `os.path` subset in `PosixPath`).
  The same methods appear verbatim in `debug.py` and are modelled once.

Shared pieces:

- `Common` holds the record type, the exceptions and a `Result` type.
- `OrderedMaps` is the insertion-ordered dictionary: a sequence of key/value pairs.
- `TextFiles` models the file system as a map from path to content. `JoinLines` and
  `SplitLines` are the written text and its reading.

The grouping, the URL flattening and the last-match selection each have a reference
definition (`Grouped` with `IpsFor`, `Concat(PresentUrls(..))`, `LastQualifying`), and lemmas
tie the loop or function to it. The path functions are tied to their inverses instead.
Round-trip lemmas cover:

- file name back to key;
- written lines back to the list;
- `loads(dumps(x))`;
- prefix plus relative name back to the blob name.

Behaviour of the code worth knowing:

- **Grouping mutates its input.** The dictionary stores the first contributing record's own
  `ips` list, and later records `extend` it in place. `GetO365Endpoints` therefore also
  returns the records as the loop leaves them: each service area's first contributor holds
  the whole group. The grouping is not a pure function of its input.
- **A failed grouping leaves a partial dictionary.** `sorted_ip_list` is filled in place.
  When a record without a name raises KeyError, the object keeps the groups of the records
  before it, and a later `export_locally` writes those.
- **Empty `ips` lists.** A record whose `ips` is missing, null or `[]` adds no key, because
  the grouping tests truthiness. The minimal script tests `is not None`, so there an
  `"ips": []` record does qualify.
- **Missing service-area name.** A record without `serviceAreaDisplayName` raises KeyError,
  even when it has no ranges.
- **URL flattening is by key presence.** A record with `"urls": []` is collected and adds
  nothing. A record with `"urls": null` is collected too, and flattening then fails because
  `None` is not iterable.
- **Stale `urls_output`.** `urls_output` is assigned only inside the loop, and `clear()`
  never resets it. A response with no `urls` key at all returns the previous call's URLs, or
  raises AttributeError on a fresh client.
- **The URL export truncates before fetching.** The debugging export opens its file before
  it fetches. A failing fetch therefore leaves an empty file behind.
- **Empty destinations.** Only `download` checks for an empty destination. `download_file`
  with `""` fails at `os.makedirs("")`, like any bare file name. `upload_dir` accepts an
  empty `dest` and falls back to the artifacts directory for an empty `source`.
- **`download_file` to a bare file name fails.** With a destination that has no `/` and does
  not end in `.`, the empty one included, `os.makedirs("")` raises.
- **Names ending in `.`.** A listed blob whose name ends in `.` is written into a directory of
  that name, because the directory rule of `download_file` also applies to targets that
  `download` computes.

## Model

| member | source | states |
|---|---|---|
| `IpGrouping.GetO365Endpoints` | src/Get-ClientIps/__init__.py:54-62 | The loop fails with KeyError("serviceAreaDisplayName") exactly when some record has no name. Otherwise it returns the reference dictionary `Grouped`. In both cases `sorted_ip_list` is left holding the grouping of the records before the first unnamed one. The records it leaves behind are the inputs, with each service area's first contributor holding that area's full list, up to the first unnamed record. |
| `IpGrouping.GroupKeysMembers` | src/Get-ClientIps/__init__.py:55-61 | A name is a key if and only if some record under that name has a present, non-null, non-empty `ips` list. |
| `IpGrouping.GroupKeysDistinct` | src/Get-ClientIps/__init__.py:59-60 | No key occurs twice. |
| `IpGrouping.GroupKeysOrder` | src/Get-ClientIps/__init__.py:59-60 | Keys appear in the order of their first contributing record. |
| `IpGrouping.GroupedCharacterised` | src/Get-ClientIps/__init__.py:54-62 | The dictionary has distinct keys. Its keys are exactly the contributing names, in first-appearance order. Each value is the concatenation, in record order, of that name's `ips` lists. |
| `IpGrouping.IpsForNone` | src/Get-ClientIps/__init__.py:59-62 | A name with no contributing record accumulates no ranges. |
| `IpGrouping.GroupedKeepsEveryRange` | src/Get-ClientIps/__init__.py:54-62 | The dictionary's values hold, as a multiset, exactly the ranges of all contributing records: nothing is lost, deduplicated or invented. |
| `IpGrouping.AllValuesAppendAt` | src/Get-ClientIps/__init__.py:62 | Extending one key's list adds exactly the new ranges to the dictionary's values. |
| `IpGrouping.GroupedSnocUnnamedOrEmpty` | src/Get-ClientIps/__init__.py:55-61 | A record whose `ips` is missing, null or empty leaves the dictionary unchanged. |
| `IpGrouping.GroupedSnocNew` | src/Get-ClientIps/__init__.py:59-60 | A record with ranges under a new name appends that name, with the record's list, at the end. |
| `IpGrouping.GroupedSnocExtend` | src/Get-ClientIps/__init__.py:61-62 | A record with ranges under an existing name appends its ranges to that key's list. The keys and the other values are unchanged. |
| `IpGrouping.GroupedSharesFirstList` | src/Get-ClientIps/__init__.py:60-62 | After grouping, the first contributing record of each key holds that key's whole list: the aliasing of the stored list. |
| `IpGrouping.AfterGroupingOnlyExtends` | src/Get-ClientIps/__init__.py:60-62 | The grouping changes only `ips` lists, and only those of each area's first contributor. Such a list keeps its own ranges at the front and only gains ranges after them. |
| `IpGrouping.IpsForStartsWithFirst` | src/Get-ClientIps/__init__.py:60-62 | An area's concatenated list starts with its first contributor's own ranges. |
| `IpGrouping.ExchangeExample` | src/Get-ClientIps/__init__.py:54-62 | Two Exchange records and one Skype record without `ips` give `{"Exchange": [both ranges]}`. The first Exchange record is changed by the grouping. |
| `OrderedMaps.Extend` | src/Get-ClientIps/__init__.py:62 | `list.extend` on one key: same keys in the same order, that key's value followed by the new items, every other entry unchanged. |
| `OrderedMaps.IndexOf` | src/Get-ClientIps/__init__.py:62 | The dictionary lookup finds the first entry with the key. |
| `IpExport.FileName` | src/Get-ClientIps/__init__.py:70 | The exported path lies inside the artifacts directory. When neither the prefix nor the key holds a `/`, its base name is `<prefix><key>.txt`. |
| `IpExport.KeyOfFileName` | src/Get-ClientIps/__init__.py:70 | Recovering a key from a path gives a key whose file name is that path. |
| `IpExport.KeyOfFileNameRoundTrip` | src/Get-ClientIps/__init__.py:70 | The key is recovered from `artifacts_path/<prefix><key>.txt`. |
| `IpExport.ExportLocally` | src/Get-ClientIps/__init__.py:64-73 | One file per key, in key order. Each file's name gives back its key. Each file holds the key's items, each followed by `\n`: its size is the items' lengths plus one newline each, and when no item contains a newline its lines give back the key's list. |
| `IpExport.ExportedFile` | src/Get-ClientIps/__init__.py:69-73 | One key's file: its name gives back the key, its size is the items' lengths plus one newline each, and its lines are the items when none contains a newline. |
| `IpExport.ExportedPathsDistinct` | src/Get-ClientIps/__init__.py:68-70 | Distinct keys get distinct files, so no export overwrites another. |
| `IpExport.ExportOfGroupedResponse` | src/Get-ClientIps/__init__.py:54-73 | After grouping and export, every service area with ranges has a file whose lines are its ranges in record order. Every file the export created belongs to such an area. Every file outside the export keeps its content. That includes a stale `<prefix><area>.txt` of an area that no record contributes to. |
| `IpExport.StaleAreaFileKept` | src/Get-ClientIps/__init__.py:64-73 | The file of a service area without ranges in this response is neither removed nor emptied by the export. |
| `IpExport.MainExportNames` | src/Get-ClientIps/__init__.py:196-203 | The timer function exports to `/tmp/artifacts/<service area>.txt` with the empty default prefix. |
| `TextFiles.JoinLines` | src/Get-ClientIps/__init__.py:72-73 | The written text is empty exactly when there are no items. Otherwise it starts with the first item and ends in a newline. |
| `TextFiles.SplitJoinLines` | src/Get-ClientIps/__init__.py:72-73 | Text written as `item + "\n"` per item reads back as the items, when no item contains a newline. |
| `TextFiles.JoinLinesLength` | src/Get-ClientIps/__init__.py:72-73 | The file's size is the sum of the items' lengths plus one newline each. |
| `TextFiles.WriteAll` | src/Get-ClientIps/__init__.py:68-71 | Writing files adds exactly their paths to the file system. |
| `TextFiles.WriteAllOverlay` | src/Get-ClientIps/__init__.py:68-71 | An export overlays its files on the file system and touches nothing else. |
| `TextFiles.WriteAllIdempotent` | src/Get-ClientIps/__init__.py:68-73 | Exporting the same files twice gives the same file system as exporting them once. |
| `TextFiles.WriteAllContents` | src/Get-ClientIps/__init__.py:68-73 | With distinct paths, each file holds its own content afterwards and every other path keeps its old content. |
| `Common.ConcatLength` | debug.py:42 | The flat list is as long as the sub-lists together. |
| `UrlFlattening.UrlsValue` | debug.py:39 | `key["urls"]` gives None exactly for a `null` value, and the list otherwise. |
| `UrlFlattening.CollectUrls` | debug.py:36-40 | The collection is empty exactly when no record has a `urls` key. It holds a `null` exactly when some record has `"urls": null`. |
| `UrlFlattening.Flatten` | debug.py:42 | The comprehension fails, with the not-iterable error, exactly when some sub-list is `null`. |
| `UrlFlattening.FlattenSnoc` | debug.py:42 | Flattening one more sub-list appends its items, or fails if it is `null`. |
| `UrlFlattening.FlattenCollected` | debug.py:37-42 | Flattening the collection is concatenating, in record order, the URL lists present in the response, unless some record has `"urls": null`. |
| `UrlFlattening.GetO365Endpoints` | debug.py:25-43 | `urls_output` is set exactly when a record has the key or it was set before. A response without the key leaves the client unchanged. The call fails with AttributeError exactly on a fresh client and a response without the key; any other failure is the not-iterable error. |
| `UrlFlattening.CallWithUrls` | debug.py:35-43 | With some `urls` key present, the client keeps this response's collection. The result is the concatenation of the present lists, of their total length, unless a value is `null`. |
| `UrlFlattening.FreshCall` | debug.py:11-43 | On a fresh client the call succeeds if and only if some record has a `urls` key and none has `null`. |
| `UrlFlattening.StaleOutput` | debug.py:37-41 | A second call whose response has no `urls` key repeats the first call's client and result. |
| `UrlFlattening.KeyPresenceExample` | debug.py:38-42 | On a fresh client, `"urls": []` gives `[]`, `"urls": null` fails as not iterable, and a missing key fails with AttributeError. |
| `UrlFlattening.ExportUrls` | debug.py:45-53 | The export creates or truncates `artifacts_path/<prefix>.txt` and changes no other file. A failed fetch leaves that file empty. Otherwise the file holds each URL of the flat list followed by `\n`: its size is the URLs' lengths plus one newline each, and its lines are the flat list unless a URL contains a newline. |
| `UrlFlattening.UrlFileName` | debug.py:49-50 | The URL file is the file the IP export would write for an empty key with the same prefix. It lies inside the artifacts directory, and its base name is `<prefix>.txt` when the prefix holds no `/`. |
| `UrlFlattening.ExportReadsBack` | debug.py:45-53 | When some record has a `urls` key, the export succeeds exactly when no value is `null`. Its file then reads back as the concatenated URL lists. |
| `UrlFlattening.FreshExportWithoutUrls` | debug.py:49-53 | On a fresh client and a response without `urls`, the export fails with AttributeError and leaves an empty file. |
| `UrlFlattening.ScriptFileName` | debug.py:176 | The script writes `./artifacts/urls.txt`. |
| `JsonCodec.LoadsDumps` | debug.py:41 | `json.loads(json.dumps(x)) == x` for every list of `null`s and lists of strings. |
| `JsonCodec.DumpsIsAscii` | debug.py:41 | The encoded document consists of printable ASCII only (`ensure_ascii`). |
| `JsonCodec.EntryListRoundTrip` | debug.py:41 | The decoder reads an encoded list back completely, with nothing left over. |
| `JsonCodec.EscapeStringRoundTrip` | debug.py:41 | Every string, escaped and closed by a quote, decodes back to itself followed by the rest of the input. |
| `JsonCodec.DumpStringRoundTrip` | debug.py:41 | A quoted string literal decodes back to the string. |
| `JsonCodec.SurrogatePairRoundTrip` | debug.py:41 | A character beyond the Basic Multilingual Plane, written as a surrogate pair, decodes back to that character. |
| `JsonCodec.Hex4RoundTrip` | debug.py:41 | The four hex digits of a `\u` escape decode back to the code unit. |
| `UrlSelection.LastQualifying` | get-azure-endpoints-minimal.py:65-67 | The position found is a record whose `ips` is not None, and no later record among the first `n` has one. |
| `UrlSelection.GetO365EndpointsUrls` | get-azure-endpoints-minimal.py:64-68 | The loop fails with KeyError("urls") exactly when a qualifying record lacks `urls`. With no qualifying record it keeps the whole response. Otherwise it holds the `urls` of the last qualifying record. |
| `UrlSelection.EmptyIpsContrast` | get-azure-endpoints-minimal.py:66 | A record with `"ips": []` qualifies for selection but contributes nothing to the grouping. |
| `PosixPath.WithTrailingSlash` | src/Get-ClientIps/__init__.py:185-186 | A path ending in `/` is kept as it is. Any other non-empty path gets exactly one `/` appended. The empty path stays empty. |
| `PosixPath.Basename` | src/Get-ClientIps/__init__.py:173 | `os.path.basename`: the longest suffix without `/`, preceded by a `/` unless it is the whole path. |
| `PosixPath.Dirname` | src/Get-ClientIps/__init__.py:175 | `os.path.dirname` is a prefix of the path, and is empty exactly when the path has no `/`. |
| `PosixPath.Join` | src/Get-ClientIps/__init__.py:140 | `os.path.join`: an absolute second part replaces the first; otherwise the parts are joined with one `/`. |
| `PosixPath.Normpath` | src/Get-ClientIps/__init__.py:158 | `os.path.normpath` of the empty path is `.`. A path with some character other than `/` loses exactly its trailing slashes. The result is never empty. |
| `PosixPath.RelPath` | src/Get-ClientIps/__init__.py:190 | `os.path.relpath` fails only on the empty path. The path itself as start gives `.`. Any other path gives `.` exactly when what follows `start/` is empty or `.` once trailing slashes are dropped. Otherwise the result is non-empty, has no trailing `/`, and follows `start/` in the path, with only slashes after it. |
| `PosixPath.RelPathOfJoin` | src/Get-ClientIps/__init__.py:138 | The walk root `join(source, sub)` is relative to the source as `sub`. |
| `PosixPath.RelPathOfPrefixed` | src/Get-ClientIps/__init__.py:161 | `relpath(start/ + rel, start)` gives back `rel`. |
| `BlobPaths.UploadSource` | src/Get-ClientIps/__init__.py:132-133 | A non-empty source is walked as given. An empty source falls back to the artifacts directory under the working path. |
| `BlobPaths.UploadPrefix` | src/Get-ClientIps/__init__.py:134-135 | The blob-name prefix always ends in `/`. |
| `BlobPaths.UploadPrefixParts` | src/Get-ClientIps/__init__.py:134-135 | Without a destination the prefix is the source's base name plus `/`. A destination `d` is put in front of that as `d/`. |
| `BlobPaths.DirPart` | src/Get-ClientIps/__init__.py:138-139 | The directory part, computed through `relpath` of the walk root, is empty for the source itself and the sub-directory with a `/` otherwise. |
| `BlobPaths.EntryUploads` | src/Get-ClientIps/__init__.py:137-142 | One upload per file of a walk step. |
| `BlobPaths.UploadDir` | src/Get-ClientIps/__init__.py:128-142 | One upload per file of the walk. |
| `BlobPaths.JoinWalkRoot` | src/Get-ClientIps/__init__.py:140 | Joining the walk root and a file name is joining the source and the file's relative path. |
| `BlobPaths.UploadOfFile` | src/Get-ClientIps/__init__.py:136-142 | Each uploaded file lies under the source. Its blob name is the prefix followed by its path relative to the source. Blob and file have the same base name. |
| `BlobPaths.UploadBlobIsRelPath` | src/Get-ClientIps/__init__.py:128-142 | Every upload pairs a file under the source with the prefix plus its relative path, and keeps the base name. |
| `BlobPaths.UploadCoversWalk` | src/Get-ClientIps/__init__.py:128-142 | Every file of the walk is uploaded, to the prefix plus its path relative to the source. |
| `BlobPaths.TimerUploadExample` | src/Get-ClientIps/__init__.py:196-206 | The timer function's `upload_dir()` sends `/tmp/artifacts/<file>` to the blob `artifacts/<file>`. |
| `BlobPaths.TrailingSlashSource` | src/Get-ClientIps/__init__.py:134-135 | A source given with a trailing `/` has an empty base name, so without a destination the prefix is `/`. |
| `BlobPaths.Matching` | src/Get-ClientIps/__init__.py:187 | The listing holds exactly the container's names that start with the prefix. |
| `BlobPaths.ListRelative` | src/Get-ClientIps/__init__.py:188-193 | The loop fails exactly when a listed name is empty. It keeps at most one entry per name, and one per name when recursive. |
| `BlobPaths.ListRelativeMembers` | src/Get-ClientIps/__init__.py:188-192 | The entries are exactly the listed names' relative paths, and only those without `/` unless recursive. |
| `BlobPaths.LsFiles` | src/Get-ClientIps/__init__.py:181-193 | `ls_files` fails, with the empty-path error, exactly when the path is empty and the container holds a blob with the empty name. |
| `BlobPaths.LsFilesLists` | src/Get-ClientIps/__init__.py:181-193 | `ls_files` fails only for an empty path over a container holding an empty name. Otherwise it lists exactly the relative names of the blobs under `path/`, only direct children unless recursive. |
| `BlobPaths.RecursiveListingRebuildsNames` | src/Get-ClientIps/__init__.py:185-192 | In recursive mode, prefix plus entry `i` rebuilds the `i`-th listed name, unless that name is the prefix or ends in `/`. |
| `BlobPaths.LocalTarget` | src/Get-ClientIps/__init__.py:171-173 | A destination ending in `/` is a directory, and the target is the destination followed by the blob's base name. A destination ending in `.` is a directory too, and the target keeps the blob's base name. Any other destination is the target itself. |
| `BlobPaths.TargetOfDotDest` | src/Get-ClientIps/__init__.py:171-173 | A destination ending in `.` gets `/` and the blob's base name appended. |
| `BlobPaths.DownloadFile` | src/Get-ClientIps/__init__.py:166-175 | `download_file` fails, as `os.makedirs("")` does, exactly when the target has no `/`. Otherwise it reads the source into the target. |
| `BlobPaths.BareFileNameFails` | src/Get-ClientIps/__init__.py:173-175 | A destination without `/` and not ending in `.`, the empty destination included, fails. |
| `BlobPaths.DownloadDir` | src/Get-ClientIps/__init__.py:153-158 | The download directory ends in `/` and contains one. |
| `BlobPaths.DownloadDirOfSource` | src/Get-ClientIps/__init__.py:153-158 | For a source `dir/name` followed by any number of `/`, the download directory is `dest/` followed by `name/`. |
| `BlobPaths.DownloadAll` | src/Get-ClientIps/__init__.py:159-162 | A successful loop makes one transfer per listed blob. |
| `BlobPaths.DownloadAllPlaces` | src/Get-ClientIps/__init__.py:159-162 | Every listed blob not ending in `/` or `.` is fetched under its full name and written below the download directory at its relative name. |
| `BlobPaths.DotNameQuirk` | src/Get-ClientIps/__init__.py:161-173 | A listed blob `b` ending in `.` is written to `dir/b/b`. |
| `BlobPaths.Download` | src/Get-ClientIps/__init__.py:148-149 | An empty destination fails before anything is listed. |
| `BlobPaths.DownloadSingle` | src/Get-ClientIps/__init__.py:150-164 | With nothing listed under `source/`, `download` is `download_file(source, dest)`. |
| `BlobPaths.DownloadFetchesListed` | src/Get-ClientIps/__init__.py:148-162 | A recursive download fetches exactly the listed blobs, in listing order. Each goes to the download directory plus its `ls_files` entry, and prefix plus entry rebuilds the blob name. |

## Left out

- HTTP calls, the random request identifier and printing are left out. The decoded Office 365
  response is a parameter.
- The blob SDK is left out: `upload_blob`, `download_blob`, `list_blobs`, `get_blob_client` and
  content settings. The container's blob names, in listing order, are a parameter. A transfer
  is the pair of names it connects, and file contents are not modelled.
- `os.walk` is a parameter: a sequence of (sub-directory relative to the source, file names)
  steps. Symbolic links, permissions and walk order are the caller's.
- `os.mkdir` and `os.makedirs` are left out, except that `makedirs("")` raises. Other
  directory-creation failures and write errors are not modelled.
- `new_main_page`, `upload_main_page`, `upload` and `upload_file` are left out. They depend on
  the clock, a directory listing and the SDK, and only pass names through.
- `get_azure_endpoints` and the Azure export are left out. The Azure payload is opaque JSON
  that is never reshaped. The key and value types modelled are those of the Office 365
  grouping.
- The no-op `clear()` and the other functions of the minimal script only print a response.
  They are left out.
- `os.path` is modelled for POSIX paths only:
  - `basename`, `dirname` and `join` are exact for the inputs used.
  - `normpath` only removes trailing slashes.
  - `relpath` only strips a prefix that the path starts with. `..`, repeated separators and
    resolution against the working directory are not modelled.
- `JsonCodec` covers the one document shape the URL collection produces: a list of `null`s
  and lists of strings. Other JSON values decode to an error. Surrogate halves that do not
  form a pair cannot occur in a Dafny `char` and are not modelled.
- A JSON `null` service-area name is not modelled. A missing name is.
- BlobPaths.UploadPrefix: the contract states only the trailing `/`. Its value is stated by
  `BlobPaths.UploadPrefixParts`.
- BlobPaths.EntryUploads: the contract states the count only. The content of each upload is
  stated by `BlobPaths.UploadOfFile` and `BlobPaths.UploadCoversWalk`.
- BlobPaths.UploadDir: the contract states the count only. The content is stated by
  `BlobPaths.UploadBlobIsRelPath` and `BlobPaths.UploadCoversWalk`.
- BlobPaths.DownloadDir: the contract states the shape only. Its value for a source whose
  last component holds a character other than `/` is stated by
  `BlobPaths.DownloadDirOfSource`. Its use is stated by `BlobPaths.DownloadFetchesListed`.
- BlobPaths.DownloadAll: the contract states the count only. The placement is stated by
  `BlobPaths.DownloadAllPlaces` and `BlobPaths.DotNameQuirk`.
- BlobPaths.Download: the contract states the empty-destination error only. The two
  branches are stated by `BlobPaths.DownloadSingle` and `BlobPaths.DownloadFetchesListed`.
- BlobPaths.DownloadFetchesListed: it requires that no listed name is the prefix itself or
  ends in `/` or `.`. Those names are covered separately by `BlobPaths.DotNameQuirk` or
  left out.
