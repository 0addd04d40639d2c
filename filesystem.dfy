/**
 * The four filesystem callbacks of ghafuse (`lookup`, `getattr`, `read`,
 * `readdir`) as functions from the inode mappings and the call's arguments to
 * the reply the callback sends. Inode 1 is the mount root; tag directories and
 * asset files carry the ids `generate_release_mappings` gave them.
 */
module GhaFs {
  import opened Wrappers
  import opened GitHubApi
  import opened Mappings

  type byte = x: int | 0 <= x < 256

  type i64 = x: int | -0x8000_0000_0000_0000 <= x < 0x8000_0000_0000_0000

  const ENOENT := 2
  const ROOT_INO: u64 := 1

  datatype FileKind = Directory | RegularFile

  /** The attribute fields the callbacks set; all times are the epoch and are left out. */
  datatype FileAttr = FileAttr(
    ino: u64, size: u64, blocks: u64, kind: FileKind,
    perm: nat, nlink: nat, uid: nat, gid: nat, rdev: nat, flags: nat)

  /** `ino as u32`: the low 32 bits of the inode number. */
  function AsU32(ino: u64): nat
  {
    ino % 0x1_0000_0000
  }

  const PERM_DIR := 0x1ED   // 0o755
  const PERM_FILE := 0x1A4  // 0o644

  /** The root directory's attributes (`HELLO_DIR_ATTR`). */
  const HELLO_DIR_ATTR := FileAttr(1, 0, 0, Directory, PERM_DIR, 2, 501, 20, 0, 0)

  /** `create_dir_attr`: a tag directory with the given inode number. */
  function CreateDirAttr(ino: u64): (a: FileAttr)
    ensures a.ino == ino && a.kind == Directory && a.size == 0 && a.blocks == 1
    ensures a.nlink == 2 && a.perm == PERM_DIR && a.uid == 501 && a.gid == 20
    ensures a.rdev == AsU32(ino) && a.rdev < 0x1_0000_0000
  {
    FileAttr(ino, 0, 1, Directory, PERM_DIR, 2, 501, 20, AsU32(ino), 0)
  }

  /** `create_file_attr`: every file is declared 13 bytes long. */
  function CreateFileAttr(ino: u64): (a: FileAttr)
    ensures a.ino == ino && a.kind == RegularFile && a.size == 13 && a.blocks == 1
    ensures a.nlink == 1 && a.perm == PERM_FILE && a.uid == 501 && a.gid == 20
    ensures a.rdev == AsU32(ino) && a.rdev < 0x1_0000_0000
  {
    FileAttr(ino, 13, 1, RegularFile, PERM_FILE, 1, 501, 20, AsU32(ino), 0)
  }

  /**
   * The root's attributes are those `create_dir_attr` gives inode 1, except
   * that the root has 0 blocks instead of 1 and rdev 0 instead of 1.
   */
  lemma RootAttrIsDirAttr()
    ensures HELLO_DIR_ATTR.ino == ROOT_INO
    ensures CreateDirAttr(ROOT_INO).blocks == 1 && CreateDirAttr(ROOT_INO).rdev == 1
    ensures HELLO_DIR_ATTR == CreateDirAttr(ROOT_INO).(blocks := 0, rdev := 0)
  {
  }

  /** One directory entry as handed to `ReplyDirectory::add`. */
  datatype DirEntry = DirEntry(ino: u64, offset: int, kind: FileKind, name: string)

  /** What a callback answers. */
  datatype Reply =
    | Entry(attr: FileAttr)
    | Attr(attr: FileAttr)
    | Data(bytes: seq<byte>)
    | Dir(entries: seq<DirEntry>)
    | Error(errno: int)

  // ---------------------------------------------------------------------------
  // lookup and getattr

  /**
   * `lookup`: under the root, a tag name gives that tag's directory attributes;
   * under any other parent that is some tag's id, the answer is a file carrying
   * the parent's own id, whatever the name; everything else is ENOENT.
   */
  function Lookup(ms: ReleaseMappings, parent: u64, name: string): (r: Reply)
    ensures r.Entry? || r == Error(ENOENT)
    ensures parent == ROOT_INO ==> (r.Entry? <==> name in Keys(ms))
    ensures parent == ROOT_INO && r.Entry? ==> exists m :: (name, m) in ms && r.attr == CreateDirAttr(m.idOffset.id)
    ensures parent != ROOT_INO ==> (r.Entry? <==> exists i :: 0 <= i < |ms| && ms[i].1.idOffset.id == parent)
    ensures parent != ROOT_INO && r.Entry? ==> r.attr == CreateFileAttr(parent)
  {
    if parent == ROOT_INO then
      GetDefinedOnKeys(ms, name);
      match Get(ms, name)
      case Some(m) =>
        GetFindsEntry(ms, name);
        Entry(CreateDirAttr(m.idOffset.id))
      case None => Error(ENOENT)
    else
      match FindReleaseMapping(ms, parent)
      case Some(m) => Entry(CreateFileAttr(m.idOffset.id))
      case None => Error(ENOENT)
  }

  /**
   * `getattr`: the root's attributes for inode 1, and for every other inode a
   * 13-byte regular file with that inode number; never ENOENT.
   */
  function Getattr(ino: u64): (r: Reply)
    ensures r.Attr? && r.attr.ino == ino
    ensures ino == ROOT_INO ==> r.attr.kind == Directory && r.attr.size == 0 && r.attr.nlink == 2 && r.attr.perm == PERM_DIR
    ensures ino != ROOT_INO ==> r.attr.kind == RegularFile && r.attr.size == 13 && r.attr.nlink == 1 && r.attr.perm == PERM_FILE
  {
    if ino == ROOT_INO then Attr(HELLO_DIR_ATTR) else Attr(CreateFileAttr(ino))
  }

  /**
   * Every tag entry of the root listing is found by lookup under the root, as
   * a directory with the inode number the listing gives it.
   */
  lemma LookupAgreesWithRootListing(ms: ReleaseMappings, i: nat)
    requires DistinctKeys(ms) && i < |ms|
    ensures var e := Listing(ms, ROOT_INO)[i];
            e.kind == Directory && Lookup(ms, ROOT_INO, e.name) == Entry(CreateDirAttr(e.ino))
  {
    GetEntry(ms, i);
  }

  /** Under a tag, lookup ignores the name: every name gives the same reply. */
  lemma LookupUnderTagIgnoresName(ms: ReleaseMappings, parent: u64, name: string, name': string)
    requires parent != ROOT_INO
    ensures Lookup(ms, parent, name) == Lookup(ms, parent, name')
  {
  }

  /**
   * A tag directory found by lookup under the root is reported by getattr as a
   * regular file (unless its id is 1): the two callbacks disagree on its kind.
   */
  lemma GetattrCallsTagsFiles(ms: ReleaseMappings, name: string)
    requires Lookup(ms, ROOT_INO, name).Entry?
    ensures var a := Lookup(ms, ROOT_INO, name).attr;
            a.kind == Directory &&
            (a.ino != ROOT_INO ==> Getattr(a.ino).attr.kind == RegularFile)
  {
  }

  // ---------------------------------------------------------------------------
  // read

  /** `format!("{}", n)` as ASCII bytes: canonical decimal, without leading zeros. */
  function Digits(n: nat): (d: seq<byte>)
    ensures |d| >= 1
    ensures forall i :: 0 <= i < |d| ==> 48 <= d[i] <= 57
    ensures n < 10 ==> |d| == 1
    ensures n >= 10 ==> d[0] != 48
    decreases n
  {
    if n < 10 then [48 + n] else Digits(n / 10) + [48 + n % 10]
  }

  /** The value of a string of ASCII decimal digits. */
  function ParseDigits(d: seq<byte>): nat
    requires forall i :: 0 <= i < |d| ==> 48 <= d[i] <= 57
    decreases |d|
  {
    if d == [] then 0 else 10 * ParseDigits(d[..|d| - 1]) + (d[|d| - 1] - 48)
  }

  /** Decimal printing round-trips: the digits read back as the number. */
  lemma {:induction false} DigitsRoundTrip(n: nat)
    ensures ParseDigits(Digits(n)) == n
    decreases n
  {
    if n >= 10 {
      var d := Digits(n);
      assert d[..|d| - 1] == Digits(n / 10);
      DigitsRoundTrip(n / 10);
    }
  }

  /**
   * Canonical decimal is unique: every non-empty digit string without a
   * leading zero is the printing of the number it reads as.
   */
  lemma {:induction false} CanonicalDigitsArePrinted(d: seq<byte>)
    requires |d| >= 1 && forall i :: 0 <= i < |d| ==> 48 <= d[i] <= 57
    requires |d| == 1 || d[0] != 48
    ensures Digits(ParseDigits(d)) == d
    decreases |d|
  {
    if |d| > 1 {
      var p := d[..|d| - 1];
      assert p[0] == d[0];
      CanonicalDigitsArePrinted(p);
      var n := ParseDigits(d);
      assert n / 10 == ParseDigits(p) && n % 10 == d[|d| - 1] - 48;
      assert d == p + [d[|d| - 1]];
    }
  }

  /** A number has at most n / 10 + 1 digits (a loose bound, enough to keep contents small). */
  lemma {:induction false} DigitsShort(n: nat)
    ensures |Digits(n)| <= n / 10 + 1
    decreases n
  {
    if n >= 10 {
      DigitsShort(n / 10);
      assert n / 10 / 10 + 1 <= n / 10;
    }
  }

  /** A number of ten or more prints as at least two digits. */
  lemma DigitsLength(n: nat)
    ensures n >= 10 ==> |Digits(n)| >= 2
  {
  }

  function Ascii(s: string): seq<byte>
    requires forall i :: 0 <= i < |s| ==> s[i] as int < 128
  {
    seq(|s|, i requires 0 <= i < |s| => s[i] as int)
  }

  const HELLO_TXT_CONTENT := "HelloWorld"

  /** The fixed text before the inode number. */
  const CONTENT_PREFIX: seq<byte> := Ascii(HELLO_TXT_CONTENT + "-")

  /** The bytes of `format!("{}-{}\n", HELLO_TXT_CONTENT, ino)`. */
  function Content(ino: u64): (c: seq<byte>)
    ensures |c| == |CONTENT_PREFIX| + |Digits(ino)| + 1 && |CONTENT_PREFIX| == 11
    ensures c[..11] == CONTENT_PREFIX && c[11..|c| - 1] == Digits(ino) && c[|c| - 1] == 10
  {
    CONTENT_PREFIX + Digits(ino) + Ascii("\n")
  }

  /** The content is the 12 fixed bytes plus the digits, far below 2^63 bytes. */
  lemma ContentLength(ino: u64)
    ensures |Content(ino)| == 12 + |Digits(ino)| < 0x8000_0000_0000_0000
  {
    DigitsShort(ino);
  }

  /** `offset as usize` on a 64-bit target: a negative offset wraps to a huge one. */
  function AsUsize(x: i64): (r: nat)
    ensures r < 0x1_0000_0000_0000_0000
    ensures r == x || r == x + 0x1_0000_0000_0000_0000
  {
    x % 0x1_0000_0000_0000_0000
  }

  /** A non-negative offset is unchanged by the cast; a negative one becomes at least 2^63. */
  lemma AsUsizeRange(x: i64)
    ensures 0 <= x ==> AsUsize(x) == x
    ensures x < 0 ==> AsUsize(x) >= 0x8000_0000_0000_0000
  {
  }

  /**
   * `read`: inode 1 is ENOENT; any other inode reads its placeholder content
   * from `offset` to the end. An offset past the end makes the source's slice
   * panic, which the precondition excludes.
   */
  function Read(ino: u64, offset: i64): (r: Reply)
    requires ino == ROOT_INO || AsUsize(offset) <= |Content(ino)|
    ensures ino == ROOT_INO <==> r == Error(ENOENT)
    ensures ino != ROOT_INO ==> r.Data? && 0 <= offset && Content(ino)[..offset] + r.bytes == Content(ino)
  {
    if ino != ROOT_INO then
      AsUsizeRange(offset);
      ContentLength(ino);
      var content := Content(ino);
      Data(content[AsUsize(offset)..])
    else
      Error(ENOENT)
  }

  /**
   * Read from the start, a file's content is "HelloWorld-", the decimal digits
   * of its inode number, and a newline.
   */
  lemma ReadEmbedsIno(ino: u64)
    requires ino != ROOT_INO
    ensures Read(ino, 0) == Data(CONTENT_PREFIX + Digits(ino) + [10])
    ensures |CONTENT_PREFIX| == 11 && ParseDigits(Digits(ino)) == ino
  {
    assert Ascii("\n") == [10];
    DigitsRoundTrip(ino);
  }

  /** Reading at the end of the content gives an empty slice. */
  lemma ReadAtEndIsEmpty(ino: u64, offset: i64)
    requires ino != ROOT_INO && offset == |Content(ino)|
    ensures Read(ino, offset) == Data([])
  {
  }

  /** Reads at two offsets are suffixes of the same content. */
  lemma ReadsAreConsistent(ino: u64, offset: i64, offset': i64)
    requires ino != ROOT_INO && 0 <= offset <= offset' <= |Content(ino)|
    ensures Read(ino, offset').bytes == Read(ino, offset).bytes[offset' - offset..]
  {
  }

  /**
   * The content is exactly the declared 13 bytes only for inode numbers below
   * ten; for every larger inode it is longer than getattr declares.
   */
  lemma ContentFitsDeclaredSize(ino: u64)
    ensures |Content(ino)| >= 13
    ensures |Content(ino)| == CreateFileAttr(ino).size <==> ino < 10
  {
    DigitsLength(ino);
  }

  /**
   * File attributes whose size is the content's real length: reading from the
   * start returns exactly `size` bytes, for every inode.
   */
  function SizedFileAttr(ino: u64): (a: FileAttr)
    ensures ino != ROOT_INO ==> |Read(ino, 0).bytes| == a.size
    ensures a.size >= CreateFileAttr(ino).size
    ensures a == CreateFileAttr(ino).(size := a.size)
  {
    ContentLength(ino);
    ContentFitsDeclaredSize(ino);
    CreateFileAttr(ino).(size := |Content(ino)|)
  }

  // ---------------------------------------------------------------------------
  // readdir

  /** One directory entry per tag, in the map's iteration order. */
  function TagDirEntries(ms: ReleaseMappings): seq<DirEntry>
  {
    seq(|ms|, i requires 0 <= i < |ms| => DirEntry(ms[i].1.idOffset.id, ms[i].1.idOffset.offset, Directory, ms[i].0))
  }

  /** One regular-file entry per asset, in the map's iteration order. */
  function AssetDirEntries(assets: seq<(string, IdOffset)>): seq<DirEntry>
  {
    seq(|assets|, i requires 0 <= i < |assets| => DirEntry(assets[i].1.id, assets[i].1.offset, RegularFile, assets[i].0))
  }

  /**
   * The full listing `readdir` builds before skipping: the children first, then
   * `.` and `..`; empty for an inode that is neither the root nor a tag.
   */
  function Listing(ms: ReleaseMappings, ino: u64): (l: seq<DirEntry>)
    ensures ino == ROOT_INO ==> |l| == |ms| + 2
    ensures l == [] <==> ino != ROOT_INO && forall i :: 0 <= i < |ms| ==> ms[i].1.idOffset.id != ino
    ensures l != [] ==> |l| >= 2 && l[|l| - 2].name == "." && l[|l| - 2].ino == ino && l[|l| - 1] == DirEntry(1, 1, Directory, "..")
  {
    if ino == ROOT_INO then
      TagDirEntries(ms) + [DirEntry(1, 1, Directory, "."), DirEntry(1, 1, Directory, "..")]
    else
      match FindReleaseMapping(ms, ino)
      case Some(m) =>
        AssetDirEntries(m.assetMappings) + [DirEntry(ino, m.idOffset.offset, Directory, "."), DirEntry(1, 1, Directory, "..")]
      case None => []
  }

  /** `Iterator::skip(n)` on a listing. */
  function Skip(s: seq<DirEntry>, n: nat): (r: seq<DirEntry>)
    ensures |r| == if n <= |s| then |s| - n else 0
    ensures forall i :: 0 <= i < |r| ==> r[i] == s[n + i]
  {
    if n <= |s| then s[n..] else []
  }

  /**
   * `readdir`: build the listing, pass over the first `offset` positions and
   * add every later entry to the reply, which always ends in `ok`.
   */
  method ReadDir(ms: ReleaseMappings, ino: u64, offset: i64) returns (reply: Reply)
    ensures reply == Dir(Skip(Listing(ms, ino), AsUsize(offset)))
  {
    var entries := Listing(ms, ino);
    var skip := AsUsize(offset);
    var added: seq<DirEntry> := [];
    var k := 0;
    while k < |entries|
      invariant 0 <= k <= |entries|
      invariant k <= skip ==> added == []
      invariant skip < k ==> added == entries[skip..k]
    {
      if k >= skip {
        added := added + [entries[k]];
      }
      k := k + 1;
    }
    reply := Dir(added);
  }

  /**
   * The root listing: every tag of the map once, as a directory with the tag's
   * id and offset, then `.` and `..`, both inode 1.
   */
  lemma RootListingShape(ms: ReleaseMappings)
    requires DistinctKeys(ms)
    ensures var l := Listing(ms, ROOT_INO);
            |l| == |ms| + 2 &&
            (forall i :: 0 <= i < |ms| ==>
               l[i] == DirEntry(ms[i].1.idOffset.id, ms[i].1.idOffset.offset, Directory, ms[i].0)) &&
            (forall i, j :: 0 <= i < j < |ms| ==> l[i].name != l[j].name) &&
            l[|ms|] == DirEntry(1, 1, Directory, ".") && l[|ms| + 1] == DirEntry(1, 1, Directory, "..")
  {
    forall i, j | 0 <= i < j < |ms| ensures ms[i].0 != ms[j].0 {
      DistinctKeysAt(ms, i, j);
    }
  }

  /**
   * Listing the root of a mounted catalog shows each of its tag names exactly
   * once and nothing else before `.` and `..`.
   */
  lemma RootListingIsCatalogTags(rs: seq<Release>)
    ensures var ms := Collect(ReleaseEntries(rs));
            var l := Listing(ms, ROOT_INO);
            |l| == |ms| + 2 &&
            (set i | 0 <= i < |ms| :: l[i].name) == (set i | 0 <= i < |rs| :: rs[i].tagName) &&
            (forall i, j :: 0 <= i < j < |ms| ==> l[i].name != l[j].name)
  {
    var ms := Collect(ReleaseEntries(rs));
    MappingsMatchCatalog(rs);
    RootListingShape(ms);
    KeysAsSet(ms);
    var l := Listing(ms, ROOT_INO);
    assert (set i | 0 <= i < |ms| :: l[i].name) == (set i | 0 <= i < |ms| :: ms[i].0) by {
      forall i | 0 <= i < |ms| ensures l[i].name == ms[i].0 { }
    }
  }

  /**
   * A tag's listing: its assets as regular files, then `.` with the tag's id
   * and offset, then `..` as (1, 1).
   */
  lemma TagListingShape(ms: ReleaseMappings, i: nat)
    requires i < |ms| && ms[i].1.idOffset.id != ROOT_INO
    requires forall k :: 0 <= k < i ==> ms[k].1.idOffset.id != ms[i].1.idOffset.id
    ensures var m := ms[i].1;
            var l := Listing(ms, m.idOffset.id);
            |l| == |m.assetMappings| + 2 &&
            (forall j :: 0 <= j < |m.assetMappings| ==>
               l[j] == DirEntry(m.assetMappings[j].1.id, m.assetMappings[j].1.offset, RegularFile, m.assetMappings[j].0)) &&
            l[|m.assetMappings|] == DirEntry(m.idOffset.id, m.idOffset.offset, Directory, ".") &&
            l[|m.assetMappings| + 1] == DirEntry(1, 1, Directory, "..")
  {
    var id := ms[i].1.idOffset.id;
    var r := FindReleaseMapping(ms, id);
    var k :| 0 <= k < |ms| && ms[k].1 == r.value && forall j :: 0 <= j < k ==> ms[j].1.idOffset.id != id;
    assert k == i;
  }

  /** An inode that is neither the root nor a tag lists as empty, not as an error. */
  lemma UnknownInoListsEmpty(ms: ReleaseMappings, ino: u64, offset: nat)
    requires ino != ROOT_INO && forall i :: 0 <= i < |ms| ==> ms[i].1.idOffset.id != ino
    ensures Listing(ms, ino) == [] && Skip(Listing(ms, ino), offset) == []
  {
  }

  /**
   * Paging by position: after receiving the first `n` entries of the page at
   * `k`, asking again at `k + n` yields exactly the rest of that page.
   */
  lemma PagingResumes(l: seq<DirEntry>, k: nat, n: nat)
    requires n <= |Skip(l, k)|
    ensures Skip(l, k) == Skip(l, k)[..n] + Skip(l, k + n)
  {
  }

  // ---------------------------------------------------------------------------
  // Resumption by entry offset

  /**
   * As written, the offset each entry carries is the counter value, not its
   * position. With an empty catalog the root lists `.` and `..`, both with
   * offset 1; resuming after `..` at the offset it carries lists `..` again.
   */
  lemma ResumeAtEntryOffsetRepeats()
    ensures var l := Listing([], ROOT_INO);
            |l| == 2 && l[1].name == ".." &&
            Skip(l, l[1].offset) == [l[1]]
  {
  }

  /**
   * The listing with each entry's offset set to its position plus one, so that
   * resuming at the offset of any delivered entry yields exactly the entries
   * after it.
   */
  function ResumableListing(ms: ReleaseMappings, ino: u64): (r: seq<DirEntry>)
    ensures |r| == |Listing(ms, ino)|
    ensures forall k :: 0 <= k < |r| ==>
              var e := Listing(ms, ino)[k];
              r[k] == DirEntry(e.ino, k + 1, e.kind, e.name)
    ensures forall k :: 0 <= k < |r| ==> r[k].offset >= 0 && Skip(r, r[k].offset) == r[k + 1..]
  {
    var l := Listing(ms, ino);
    seq(|l|, k requires 0 <= k < |l| => DirEntry(l[k].ino, k + 1, l[k].kind, l[k].name))
  }
}
