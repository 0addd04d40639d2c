# ghafuse in Dafny

ghafuse mounts the GitHub releases of one repository as a read-only
filesystem. The mount root (inode 1) has one directory per release tag. Each
tag directory has one regular file per release asset. Every file reads as a
short placeholder text that embeds its inode number.

This project models three parts of ghafuse and proves properties about them:

- `github.dfy` (module `GitHubApi`) models the API client. The `GitHub` class
  keeps optional basic-auth credentials and a per-endpoint ETag cache, a map
  field that `CachedGet` updates in place. A GET is conditional only when the
  endpoint has a cache entry: the request then carries `If-None-Match` with the
  cached validator, and otherwise none. A 200 response is
  returned, and stored when it carries an ETag. A 304 response is answered from
  the cache. `Releases` is the cached GET of `repos/<owner>/<repo>/releases`,
  decoded into releases.
- `mappings.dfy` (module `Mappings`) models inode assignment.
  - `GenerateReleaseMappings` walks the catalog with one counter, using two
    nested loops as in the source.
  - Each tag gets inode id + 1 and the counter value reached after its assets.
    Each asset gets inode id + 1 and the next counter value.
  - A Rust `HashMap` is a sequence of entries with distinct keys, in one fixed
    iteration order. When a key repeats, the later entry overwrites the earlier
    one in place.
  - `FindReleaseMapping` returns the first tag, in iteration order, that has a
    given id.
- `filesystem.dfy` (module `GhaFs`) models the four filesystem callbacks.
  `lookup`, `getattr` and `read` are functions from their arguments to the
  reply. `readdir` is a method that skips `offset` entries of the full listing
  and adds the rest.

The method contracts tie each method to a specification function:

- `GenerateReleaseMappings` to `Collect(ReleaseEntries(rs))`;
- `CachedGet` to `CacheStep` applied to `BuildRequest`;
- `ReadDir` to `Skip(Listing(..), AsUsize(offset))`.

Lemmas then prove properties of those functions:

- offsets are distinct and cover the walk;
- the later tag or asset wins;
- the map's keys are exactly the catalog's tags;
- the ETag round trip: a 304 after a 200 with ETag `e` returns the stored body;
- endpoints are injective;
- decimal printing round-trips;
- the listing's shape.

Some behaviours of the code are easy to miss, and the model keeps them as
written:

- `read` slices from `offset` and panics past the end of the content. The
  panic is a precondition of `Read`.
- `read` answers ENOENT only for inode 1. Tag inodes read placeholder text like
  files do.
- `lookup` under any parent other than the root ignores the name. When the
  parent is a tag's id, it answers with a regular file that carries the tag's
  own id (src/main.rs:248-259).
- `getattr` reports every inode other than 1 as a regular file, tag
  directories included (src/main.rs:293-296).
- A listing puts its children first, then `.` and `..`. An inode that is
  neither the root nor a tag lists as empty, with no error.
- The declared file size is always 13. The content is 12 bytes plus the
  decimal digits of the inode, so it is longer than 13 bytes from inode 10 on
  (see Findings).

## Model

| member | source | states |
|---|---|---|
| GitHubApi.BuildRequest | src/github.rs:77-91 | The URL is the API root, `/`, then the endpoint. Basic auth is present exactly when credentials are configured. `If-None-Match: h` is sent exactly when the endpoint is cached with validator `h`. |
| GitHubApi.CacheStep | src/github.rs:97-131 | Only the requested endpoint's entry can change, and only on a 200 carrying an ETag. The call succeeds exactly on 200, or on 304 with a cache entry. It returns the fresh body on 200 and the cached body on 304. The failures are 304 without an entry, and any other status. |
| GitHubApi.FreshResponseIsStored | src/github.rs:98-115 | A 200 with ETag `e` and body `b` returns `b` and caches `(e, b)` under the endpoint. |
| GitHubApi.FreshResponseWithoutEtagKeepsCache | src/github.rs:98-115 | A 200 without ETag returns its body and leaves the cache unchanged. |
| GitHubApi.EntrySurvivesOtherCalls | src/github.rs:108-111 | A run of calls that never answers this endpoint with a 200 carrying an ETag leaves its entry, or its absence, as it was. |
| GitHubApi.NotModifiedReturnsStoredBody | src/github.rs:88-126 | Round trip: after a 200 with ETag `e` and body `b`, and any calls that do not refresh the endpoint, the next request carries `If-None-Match: e`. A 304 to it returns `b` and leaves the cache unchanged. |
| GitHubApi.ConditionalProtocolNeverMisses | src/github.rs:117-123 | If the server sends 304 only in answer to a conditional request, the "304 without cache entry" failure never happens. |
| GitHubApi.ReleasesEndpoint | src/github.rs:135 | The endpoint is `repos/`, then owner, `/` and repo, then `/releases`. |
| GitHubApi.ReleasesEndpointInjective | src/github.rs:135 | For slash-free owners, different (owner, repo) pairs use different endpoints, so they never share a cache entry. |
| GitHubApi.GitHub.constructor | src/github.rs:60-66 | A new client has no credentials and an empty cache. |
| GitHubApi.GitHub.WithCreds | src/github.rs:68-74 | A new client has the given credentials and an empty cache. |
| GitHubApi.GitHub.CachedGet | src/github.rs:76-132 | The result and the new cache are those of `CacheStep` on the response to `BuildRequest`. The credentials are unchanged. |
| GitHubApi.GitHub.Releases | src/github.rs:134-140 | `CachedGet` is applied to `repos/<owner>/<repo>/releases`. The body is decoded into releases, and a body that does not decode is an error. |
| Mappings.Get | src/main.rs:235 | `HashMap::get`: the value of the entry with the key, if any. Its properties are the `Get*` lemmas below. |
| Mappings.Insert | src/main.rs:163 | `HashMap::insert`: a present key has its value replaced in place, and a new key is added at the end. Its properties are the `Insert*` lemmas below. |
| Mappings.Collect | src/main.rs:163-174 | `collect` into a `HashMap`: the pairs inserted in order. Its properties are the `Collect*` lemmas below. |
| Mappings.GetDefinedOnKeys | src/main.rs:235 | `get` finds a value exactly for the keys of the map. |
| Mappings.GetEntry | src/main.rs:235 | With distinct keys, `get` of an entry's key returns that entry's value. |
| Mappings.GetFindsEntry | src/main.rs:235 | Whatever `get` returns is an entry of the map under that key. |
| Mappings.InsertSpec | src/main.rs:163 | After `insert`, the key is present with the new value, no other key is added, and keys stay distinct. |
| Mappings.InsertKeepsOthers | src/main.rs:163 | `insert` leaves every other key's value unchanged. |
| Mappings.InsertEntries | src/main.rs:163 | `insert` adds the inserted pair and no other new entry. |
| Mappings.CollectKeys | src/main.rs:163 | A collected map has distinct keys, and they are exactly the keys of the collected pairs. |
| Mappings.CollectLastWins | src/main.rs:174 | A collected map holds, for each key, the value of that key's last occurrence. |
| Mappings.CollectKeepsEntries | src/main.rs:174 | Every entry of a collected map is one of the collected pairs. |
| Mappings.AssetOffset | src/main.rs:156-161 | Asset `j` of release `i` gets an offset just after the counter value reached before release `i`, within that release's asset range. |
| Mappings.ReleaseOffset | src/main.rs:165-168 | A release's offset is one past its last asset's offset, above every one of its asset offsets, and at most the length of the whole walk. |
| Mappings.GenerateReleaseMappings | src/main.rs:147-177 | The nested counter loops build exactly the map collected from the per-release entries of the counter walk. |
| Mappings.OffsetsDistinct | src/main.rs:148-168 | Every asset and every release gets an offset in `1..#assets+#releases`, and no two get the same one. |
| Mappings.OffsetsCoverWalk | src/main.rs:148-168 | Every counter value in `1..#assets+#releases` is the offset of some asset or release. |
| Mappings.AssetOffsetsIncrease | src/main.rs:155-161 | Within a release, asset offsets increase in catalog order. |
| Mappings.ReleaseOffsetsIncrease | src/main.rs:150-168 | Later releases get larger offsets. |
| Mappings.EntriesCarryWalk | src/main.rs:158-172 | Each entry carries its tag or asset name, the remote id plus one, and the counter value of its position in the walk. |
| Mappings.LaterReleaseWins | src/main.rs:172-174 | Looking up a tag finds the last release carrying it, with that release's id plus one, its own offset and its own asset map. |
| Mappings.LaterAssetWins | src/main.rs:158-163 | Within a release, looking up an asset name finds the last asset carrying it, with that asset's id plus one and its offset. |
| Mappings.MappingsMatchCatalog | src/main.rs:147-177 | The map's keys are exactly the catalog's tag names, each once. Every entry comes from a release with that tag, with id = release id + 1 in `1..2^32`. |
| Mappings.FirstWithId | src/main.rs:183-185 | Returns the first position at or after `from` whose mapping has the id, or the end of the map if there is none. |
| Mappings.FindReleaseMapping | src/main.rs:179-186 | A result has the requested id and is the first such mapping in iteration order. The result is none exactly when no mapping has the id. |
| GhaFs.CreateDirAttr | src/main.rs:75-92 | A directory with the given inode, size 0, 1 block, 2 links, mode 0755, uid 501, gid 20, and rdev the inode's low 32 bits. |
| GhaFs.CreateFileAttr | src/main.rs:94-111 | A regular file with the given inode, size 13, 1 block, 1 link, mode 0644, uid 501, gid 20, and rdev the inode's low 32 bits. |
| GhaFs.RootAttrIsDirAttr | src/main.rs:58-73 | `HELLO_DIR_ATTR` is inode 1 with the attributes `create_dir_attr(1)` would give, except for two fields: it has 0 blocks instead of 1, and rdev 0 instead of 1. |
| GhaFs.Lookup | src/main.rs:233-266 | The reply is an entry or ENOENT. Under the root, it is an entry exactly for a tag name, with that tag's directory attributes. Under another parent, it is an entry exactly when some tag has the parent's id: a file carrying the parent's own id. |
| GhaFs.LookupAgreesWithRootListing | src/main.rs:233-246 | Every tag listed at the root is found by lookup under the root, as a directory with the listed inode. |
| GhaFs.LookupUnderTagIgnoresName | src/main.rs:247-265 | Under a non-root parent, lookup gives the same reply for every name. |
| GhaFs.Getattr | src/main.rs:289-297 | The reply is always attributes with the asked inode. Inode 1 is a directory with size 0, 2 links and mode 0755. Any other inode is a regular file with size 13, 1 link and mode 0644. |
| GhaFs.GetattrCallsTagsFiles | src/main.rs:289-297 | A tag that lookup reports as a directory (src/main.rs:243) is reported by getattr as a regular file, unless its id is 1. |
| GhaFs.Digits | src/main.rs:282 | Decimal printing gives at least one byte, and every byte is an ASCII digit. Numbers below 10 print as one digit, and larger ones have no leading zero. |
| GhaFs.CanonicalDigitsArePrinted | src/main.rs:282 | Every non-empty digit string without a leading zero is the printing of the number it reads as. With `DigitsRoundTrip`, this makes `Digits` exactly canonical decimal. |
| GhaFs.DigitsRoundTrip | src/main.rs:282 | The printed digits read back as the number. |
| GhaFs.Content | src/main.rs:282 | The content is the 11 bytes `HelloWorld-`, then the inode's decimal digits, then a newline. |
| GhaFs.AsUsize | src/main.rs:283 | `offset as usize` is the value in `0..2^64` that equals the offset, or the offset plus 2^64. |
| GhaFs.AsUsizeRange | src/main.rs:283 | `offset as usize` keeps a non-negative offset and turns a negative one into at least 2^63. |
| GhaFs.Read | src/main.rs:269-287 | Inode 1 gives ENOENT, and only inode 1 does. Any other inode gives the suffix of its content from `offset`. |
| GhaFs.ReadEmbedsIno | src/main.rs:281-283 | Read from offset 0, a file is `HelloWorld-`, then its inode number in decimal (which reads back as that number), then a newline. |
| GhaFs.ReadAtEndIsEmpty | src/main.rs:283 | A read at the content's length returns no bytes. |
| GhaFs.ReadsAreConsistent | src/main.rs:283 | A read at a later offset is the matching suffix of a read at an earlier one. |
| GhaFs.ContentFitsDeclaredSize | src/main.rs:94-97 | The content is at least 13 bytes. It is exactly the declared 13 bytes if and only if the inode is below 10. |
| GhaFs.SizedFileAttr | src/main.rs:94-111 | The attributes differ from `create_file_attr` only in size, and that size is exactly the number of bytes a read from offset 0 returns. |
| GhaFs.Listing | src/main.rs:327-380 | The root lists one entry per tag, plus two. A non-root inode lists nothing exactly when no tag has its id. Every non-empty listing ends with `.` (with the listed inode) and then `..` as (1, 1). |
| GhaFs.Skip | src/main.rs:391 | `skip(n)` keeps the entries from position `n` on, in order, and keeps nothing when `n` is past the end. |
| GhaFs.ReadDir | src/main.rs:299-404 | The reply is the full listing with its first `offset as usize` entries skipped. |
| GhaFs.RootListingShape | src/main.rs:327-347 | The root lists every tag once, as a directory with the tag's id and offset and with no name repeated, then `.` and `..` as (1, 1). |
| GhaFs.RootListingIsCatalogTags | src/main.rs:327-347 | For a mounted catalog, the names before `.` and `..` are exactly the catalog's tag names, with none repeated. |
| GhaFs.TagListingShape | src/main.rs:350-375 | A tag lists its assets as regular files, then `.` with the tag's id and offset, then `..` as (1, 1). |
| GhaFs.UnknownInoListsEmpty | src/main.rs:376-379 | An inode that is neither the root nor a tag lists as empty at every offset. |
| GhaFs.PagingResumes | src/main.rs:391 | After receiving the first `n` entries of the page at position `k`, asking at `k + n` gives exactly the rest of that page. |
| GhaFs.ResumeAtEntryOffsetRepeats | src/main.rs:337-346 | With an empty catalog, resuming at the offset carried by `..` lists `..` again. |
| GhaFs.ResumableListing | src/main.rs:391-400 | The same entries with offsets renumbered by position. Resuming at any entry's offset yields exactly the entries after it. |

## Left out

- The FUSE mount, the command line, `inner_main` and logging: these are I/O and are not modelled. `GhaFs::new` (src/main.rs:198-212) is one call to `releases`, then `generate_release_mappings`, and panics on failure. Both parts are modelled; their composition is not.
- The HTTP transport is a parameter `send` from request to response. Network errors and the `expect("Send error")` panic are not modelled.
- A 200 response whose body is not JSON makes the source panic (`rsp.json().expect`, src/github.rs:99-100). The model does not capture this panic: any body `send` returns is accepted, and only `decode` can reject it.
- JSON decoding of the body is a parameter `decode`. The body is an opaque string that stands in for `serde_json::Value`. Release and asset fields other than id, tag name, name and assets are left out.
- GitHubApi.GitHub.CachedGet: the source panics on a 304 without a cache entry and on any other status (`unimplemented!`). The model returns `NotModifiedWithoutEntry` or `UnexpectedStatus` errors instead. A failed ETag header conversion (`expect`) is not modelled.
- The `Arc<RwLock<Vec<Release>>>` copy of the catalog, which the callbacks never read, and any concurrency: not modelled.
- Mappings.IdOffset: the `i64` offset counter is an unbounded integer. Overflow would need 2^63 catalog entries.
- A Rust `HashMap`'s iteration order is unspecified. The model fixes one order: insertion order, with an overwritten key keeping its place. The lemmas about listings hold for that order.
- GhaFs.Read: the slice panic for an offset past the end of the content is a precondition, not a modelled panic. The `size` argument is ignored, as in the source.
- GhaFs.ReadDir: `ReplyDirectory::add` reports a full buffer, and the source ignores that report. The model adds every remaining entry.
- File times and the reply TTL are constants the model leaves out. `rdev` is kept: 0 for the root, and the inode number truncated to 32 bits otherwise. `uid`, `gid`, `perm` and `flags` are kept.
- GhaFs.Lookup: names are strings, so the `to_str` conversion panic on non-UTF-8 names is not modelled.

## Findings

| source | as written | input that shows it | evidently intended | confidence | as-written member | corrected member |
|---|---|---|---|---|---|---|
| src/main.rs:94-97 | Every file declares size 13, but its content is `HelloWorld-<ino>\n`, which is 12 bytes plus the inode's digits. | ino = 10: content `HelloWorld-10\n` is 14 bytes, and the declared size is 13. | The declared size equals the content length, so the whole content is readable. | medium, not executed | GhaFs.ContentFitsDeclaredSize | GhaFs.SizedFileAttr |
| src/main.rs:338-346, 366, 391-400 | Each listed entry carries the walk's counter value as its offset, but `readdir` resumes by skipping that many positions. | Empty catalog: `readdir(1, 0)` lists `.` and `..`, both with offset 1. Resuming at 1 lists `..` again. | Resuming at an entry's offset lists exactly the entries after it. | medium, not executed | GhaFs.ResumeAtEntryOffsetRepeats | GhaFs.ResumableListing |
