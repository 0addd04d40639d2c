/**
 * Inode assignment for ghafuse: `generate_release_mappings` walks the release
 * catalog with one counter and builds, per tag name, the tag's id and offset
 * together with a map from asset name to the asset's id and offset.
 *
 * A Rust `HashMap<String, V>` is modelled as a sequence of entries with
 * distinct keys, in one fixed iteration order: inserting a key that is
 * present replaces its value in place, a new key goes to the end.
 */
module Mappings {
  import opened Wrappers
  import opened GitHubApi

  type u64 = x: int | 0 <= x < 0x1_0000_0000_0000_0000

  /** An inode number and the directory offset the counter gave it. */
  datatype IdOffset = IdOffset(id: u64, offset: int)

  datatype ReleaseMapping = ReleaseMapping(idOffset: IdOffset, assetMappings: seq<(string, IdOffset)>)

  type ReleaseMappings = seq<(string, ReleaseMapping)>

  // ---------------------------------------------------------------------------
  // HashMap<String, V> as a sequence of entries

  function Keys<V>(m: seq<(string, V)>): set<string>
    decreases |m|
  {
    if m == [] then {} else {m[0].0} + Keys(m[1..])
  }

  predicate DistinctKeys<V>(m: seq<(string, V)>)
    decreases |m|
  {
    m == [] || (m[0].0 !in Keys(m[1..]) && DistinctKeys(m[1..]))
  }

  lemma {:induction false} KeyAt<V>(m: seq<(string, V)>, i: nat)
    requires i < |m|
    ensures m[i].0 in Keys(m)
    decreases |m|
  {
    if i > 0 {
      assert m[1..][i - 1] == m[i];
      KeyAt(m[1..], i - 1);
    }
  }

  lemma {:induction false} KeyHasEntry<V>(m: seq<(string, V)>, k: string) returns (i: nat)
    requires k in Keys(m)
    ensures i < |m| && m[i].0 == k
    decreases |m|
  {
    if m[0].0 == k {
      i := 0;
    } else {
      var i' := KeyHasEntry(m[1..], k);
      i := i' + 1;
    }
  }

  lemma {:induction false} KeysAppend<V>(a: seq<(string, V)>, b: seq<(string, V)>)
    ensures Keys(a + b) == Keys(a) + Keys(b)
    decreases |a|
  {
    if a != [] {
      assert (a + b)[1..] == a[1..] + b;
      KeysAppend(a[1..], b);
    } else {
      assert a + b == b;
    }
  }

  lemma KeysAsSet<V>(m: seq<(string, V)>)
    ensures Keys(m) == set i | 0 <= i < |m| :: m[i].0
  {
    forall k | k in Keys(m) ensures k in set i | 0 <= i < |m| :: m[i].0 {
      var i := KeyHasEntry(m, k);
    }
    forall i | 0 <= i < |m| ensures m[i].0 in Keys(m) {
      KeyAt(m, i);
    }
  }

  /** `HashMap::get`. */
  function Get<V>(m: seq<(string, V)>, k: string): Option<V>
    decreases |m|
  {
    if m == [] then None
    else if m[0].0 == k then Some(m[0].1)
    else Get(m[1..], k)
  }

  /** `Get` finds something exactly for the keys of the map. */
  lemma {:induction false} GetDefinedOnKeys<V>(m: seq<(string, V)>, k: string)
    ensures Get(m, k).Some? <==> k in Keys(m)
    decreases |m|
  {
    if m != [] && m[0].0 != k {
      GetDefinedOnKeys(m[1..], k);
    }
  }

  /** With distinct keys, `Get` finds every entry under its own key. */
  lemma {:induction false} GetEntry<V>(m: seq<(string, V)>, i: nat)
    requires DistinctKeys(m) && i < |m|
    ensures Get(m, m[i].0) == Some(m[i].1)
    decreases |m|
  {
    if i > 0 {
      assert m[1..][i - 1] == m[i];
      KeyAt(m[1..], i - 1);
      GetEntry(m[1..], i - 1);
    }
  }

  /** Distinct keys, stated by position. */
  lemma {:induction false} DistinctKeysAt<V>(m: seq<(string, V)>, i: nat, j: nat)
    requires DistinctKeys(m) && i < j < |m|
    ensures m[i].0 != m[j].0
    decreases |m|
  {
    assert m[1..][j - 1] == m[j];
    if i == 0 {
      KeyAt(m[1..], j - 1);
    } else {
      assert m[1..][i - 1] == m[i];
      DistinctKeysAt(m[1..], i - 1, j - 1);
    }
  }

  /** What `Get` finds is an entry of the map. */
  lemma {:induction false} GetFindsEntry<V>(m: seq<(string, V)>, k: string)
    requires Get(m, k).Some?
    ensures (k, Get(m, k).value) in m
    decreases |m|
  {
    if m[0].0 != k {
      GetFindsEntry(m[1..], k);
    }
  }

  /** `HashMap::insert`: a present key has its value replaced in place, a new key is appended. */
  function Insert<V>(m: seq<(string, V)>, k: string, v: V): seq<(string, V)>
    decreases |m|
  {
    if m == [] then [(k, v)]
    else if m[0].0 == k then [(k, v)] + m[1..]
    else [m[0]] + Insert(m[1..], k, v)
  }

  /** Inserting adds `k` to the keys, makes `k` find `v`, and keeps keys distinct. */
  lemma {:induction false} InsertSpec<V>(m: seq<(string, V)>, k: string, v: V)
    ensures Keys(Insert(m, k, v)) == Keys(m) + {k}
    ensures Get(Insert(m, k, v), k) == Some(v)
    ensures DistinctKeys(m) ==> DistinctKeys(Insert(m, k, v))
    decreases |m|
  {
    var r := Insert(m, k, v);
    if m == [] {
      assert r[1..] == [];
    } else if m[0].0 == k {
      assert r[1..] == m[1..];
    } else {
      InsertSpec(m[1..], k, v);
      assert r[1..] == Insert(m[1..], k, v);
    }
  }

  /** Inserting under `k` leaves every other key's value as it was. */
  lemma {:induction false} InsertKeepsOthers<V>(m: seq<(string, V)>, k: string, v: V, k': string)
    requires k' != k
    ensures Get(Insert(m, k, v), k') == Get(m, k')
    decreases |m|
  {
    if m != [] && m[0].0 != k && m[0].0 != k' {
      InsertKeepsOthers(m[1..], k, v, k');
    }
  }

  /** Inserting adds the entry `(k, v)` and nothing else. */
  lemma {:induction false} InsertEntries<V>(m: seq<(string, V)>, k: string, v: V, p: (string, V))
    requires p in Insert(m, k, v)
    ensures p in m || p == (k, v)
    decreases |m|
  {
    if m != [] && m[0].0 != k && p != m[0] {
      InsertEntries(m[1..], k, v, p);
    }
  }

  /** Entry `i` of `kvs` is the last one with its key. */
  predicate LastWithKey<V>(kvs: seq<(string, V)>, i: nat)
    requires i < |kvs|
  {
    forall j :: i < j < |kvs| ==> kvs[j].0 != kvs[i].0
  }

  /**
   * `.collect::<HashMap<_, _>>()`: the entries inserted in order, so that when
   * a key repeats the later value overwrites the earlier one.
   */
  function Collect<V>(kvs: seq<(string, V)>): seq<(string, V)>
    decreases |kvs|
  {
    if kvs == [] then [] else Insert(Collect(kvs[..|kvs| - 1]), kvs[|kvs| - 1].0, kvs[|kvs| - 1].1)
  }

  /** Collecting one more entry is one more insert. */
  lemma CollectSnoc<V>(kvs: seq<(string, V)>, p: (string, V))
    ensures Collect(kvs + [p]) == Insert(Collect(kvs), p.0, p.1)
  {
    assert (kvs + [p])[..|kvs|] == kvs;
  }

  /** A collected map has distinct keys, and exactly the keys of the entries collected. */
  lemma {:induction false} CollectKeys<V>(kvs: seq<(string, V)>)
    ensures DistinctKeys(Collect(kvs))
    ensures Keys(Collect(kvs)) == Keys(kvs)
    decreases |kvs|
  {
    if kvs != [] {
      var n := |kvs| - 1;
      assert kvs == kvs[..n] + [kvs[n]];
      KeysAppend(kvs[..n], [kvs[n]]);
      assert Keys([kvs[n]]) == {kvs[n].0};
      CollectKeys(kvs[..n]);
      InsertSpec(Collect(kvs[..n]), kvs[n].0, kvs[n].1);
    }
  }

  /** Collecting keeps, for each key, the value of its last occurrence. */
  lemma {:induction false} CollectLastWins<V>(kvs: seq<(string, V)>, i: nat)
    requires i < |kvs| && LastWithKey(kvs, i)
    ensures Get(Collect(kvs), kvs[i].0) == Some(kvs[i].1)
    decreases |kvs|
  {
    var n := |kvs| - 1;
    if i == n {
      InsertSpec(Collect(kvs[..n]), kvs[n].0, kvs[n].1);
    } else {
      var init := kvs[..n];
      assert init[i] == kvs[i];
      assert LastWithKey(init, i);
      CollectLastWins(init, i);
      InsertKeepsOthers(Collect(init), kvs[n].0, kvs[n].1, kvs[i].0);
    }
  }

  /** Every entry of a collected map is one of the entries collected. */
  lemma {:induction false} CollectKeepsEntries<V>(kvs: seq<(string, V)>, p: (string, V))
    requires p in Collect(kvs)
    ensures p in kvs
    decreases |kvs|
  {
    var n := |kvs| - 1;
    InsertEntries(Collect(kvs[..n]), kvs[n].0, kvs[n].1, p);
    if p != kvs[n] {
      CollectKeepsEntries(kvs[..n], p);
    }
  }

  // ---------------------------------------------------------------------------
  // The counter walk of generate_release_mappings

  /**
   * How far the counter has advanced after walking `rs`: one step per asset and
   * one per release, i.e. `#assets + #releases`.
   */
  function Span(rs: seq<Release>): nat
    decreases |rs|
  {
    if rs == [] then 0 else Span(rs[..|rs| - 1]) + |rs[|rs| - 1].assets| + 1
  }

  /** The counter only grows along the catalog. */
  lemma {:induction false} SpanGrows(rs: seq<Release>, i: nat, k: nat)
    requires i < k <= |rs|
    ensures Span(rs[..i]) + |rs[i].assets| + 1 <= Span(rs[..k])
    decreases k
  {
    assert rs[..k][..k - 1] == rs[..k - 1];
    if i < k - 1 {
      SpanGrows(rs, i, k - 1);
    }
  }

  /** The offset the counter gives asset `j` of release `i`. */
  function AssetOffset(rs: seq<Release>, i: nat, j: nat): (o: nat)
    requires i < |rs| && j < |rs[i].assets|
    ensures Span(rs[..i]) < o <= Span(rs[..i]) + |rs[i].assets|
  {
    Span(rs[..i]) + j + 1
  }

  /**
   * The offset the counter gives release `i`: one past its assets' offsets, and
   * at most the length of the whole walk.
   */
  function ReleaseOffset(rs: seq<Release>, i: nat): (o: nat)
    requires i < |rs|
    ensures o <= Span(rs)
    ensures forall j :: 0 <= j < |rs[i].assets| ==> AssetOffset(rs, i, j) < o
    ensures |rs[i].assets| > 0 ==> o == AssetOffset(rs, i, |rs[i].assets| - 1) + 1
  {
    SpanGrows(rs, i, |rs|);
    assert rs[..|rs|] == rs;
    Span(rs[..i]) + |rs[i].assets| + 1
  }

  /** The asset-name map of one release whose walk starts at counter value `base`. */
  function AssetEntries(assets: seq<Asset>, base: nat): seq<(string, IdOffset)>
  {
    seq(|assets|, j requires 0 <= j < |assets| => (assets[j].name, IdOffset(assets[j].id + 1, base + j + 1)))
  }

  /** The tag entry of one release whose walk starts at counter value `base`. */
  function ReleaseEntry(r: Release, base: nat): (string, ReleaseMapping)
  {
    (r.tagName, ReleaseMapping(IdOffset(r.id + 1, base + |r.assets| + 1), Collect(AssetEntries(r.assets, base))))
  }

  /** The tag entries in catalog order, before they are collected into the map. */
  function ReleaseEntries(rs: seq<Release>): seq<(string, ReleaseMapping)>
  {
    seq(|rs|, i requires 0 <= i < |rs| => ReleaseEntry(rs[i], Span(rs[..i])))
  }

  /** One more release walked: the counter passes its assets and itself. */
  lemma SpanStep(rs: seq<Release>, i: nat)
    requires i < |rs|
    ensures Span(rs[..i + 1]) == Span(rs[..i]) + |rs[i].assets| + 1
  {
    assert rs[..i + 1][..i] == rs[..i];
  }

  /** The entries of one more release are the entries so far plus that release's. */
  lemma ReleaseEntriesSnoc(rs: seq<Release>, i: nat)
    requires i < |rs|
    ensures ReleaseEntries(rs[..i + 1]) == ReleaseEntries(rs[..i]) + [ReleaseEntry(rs[i], Span(rs[..i]))]
  {
    var a, b := ReleaseEntries(rs[..i + 1]), ReleaseEntries(rs[..i]);
    forall k | 0 <= k < i ensures a[k] == b[k] {
      assert rs[..i + 1][..k] == rs[..k] == rs[..i][..k];
    }
    assert rs[..i + 1][..i] == rs[..i];
  }

  /** One more release walked: its tag entry is inserted into the map. */
  lemma ReleaseStep(rs: seq<Release>, i: nat)
    requires i < |rs|
    ensures Collect(ReleaseEntries(rs[..i + 1])) ==
            Insert(Collect(ReleaseEntries(rs[..i])), rs[i].tagName,
                   ReleaseMapping(IdOffset(rs[i].id + 1, Span(rs[..i]) + |rs[i].assets| + 1),
                                  Collect(AssetEntries(rs[i].assets, Span(rs[..i])))))
  {
    ReleaseEntriesSnoc(rs, i);
    CollectSnoc(ReleaseEntries(rs[..i]), ReleaseEntry(rs[i], Span(rs[..i])));
  }

  /**
   * `generate_release_mappings`: one counter, advanced once per asset (whose
   * offset is the advanced value) and once more per release (likewise).
   */
  method GenerateReleaseMappings(releases: seq<Release>) returns (mappings: ReleaseMappings)
    ensures mappings == Collect(ReleaseEntries(releases))
  {
    var offset := 0;
    mappings := [];
    var i := 0;
    while i < |releases|
      invariant 0 <= i <= |releases|
      invariant offset == Span(releases[..i])
      invariant mappings == Collect(ReleaseEntries(releases[..i]))
    {
      var release := releases[i];
      ghost var base := offset;
      ghost var entries := AssetEntries(release.assets, base);
      var assetMappings := [];
      var j := 0;
      while j < |release.assets|
        invariant 0 <= j <= |release.assets|
        invariant offset == base + j
        invariant assetMappings == Collect(entries[..j])
      {
        var asset := release.assets[j];
        offset := offset + 1;
        assert entries[..j + 1] == entries[..j] + [entries[j]];
        CollectSnoc(entries[..j], entries[j]);
        assetMappings := Insert(assetMappings, asset.name, IdOffset(asset.id + 1, offset));
        j := j + 1;
      }
      assert entries[..j] == entries;
      offset := offset + 1;
      var releaseMapping := ReleaseMapping(IdOffset(release.id + 1, offset), assetMappings);
      assert releaseMapping == ReleaseEntry(release, base).1;
      SpanStep(releases, i);
      ReleaseStep(releases, i);
      mappings := Insert(mappings, release.tagName, releaseMapping);
      assert mappings == Collect(ReleaseEntries(releases[..i + 1]));
      i := i + 1;
    }
    assert releases[..i] == releases;
  }

  // ---------------------------------------------------------------------------
  // Properties of the walk

  /** A position of the walk: an asset of a release, or the release itself. */
  datatype Slot = AssetSlot(release: nat, asset: nat) | ReleaseSlot(release: nat)

  predicate ValidSlot(rs: seq<Release>, s: Slot)
  {
    s.release < |rs| && (s.AssetSlot? ==> s.asset < |rs[s.release].assets|)
  }

  function SlotOffset(rs: seq<Release>, s: Slot): nat
    requires ValidSlot(rs, s)
  {
    match s
    case AssetSlot(i, j) => AssetOffset(rs, i, j)
    case ReleaseSlot(i) => ReleaseOffset(rs, i)
  }

  /** Every asset and every release gets an offset in `1..Span(rs)`, and no two share one. */
  lemma OffsetsDistinct(rs: seq<Release>, s: Slot, t: Slot)
    requires ValidSlot(rs, s) && ValidSlot(rs, t) && s != t
    ensures 1 <= SlotOffset(rs, s) <= Span(rs)
    ensures SlotOffset(rs, s) != SlotOffset(rs, t)
  {
    var i, k := s.release, t.release;
    var _ := ReleaseOffset(rs, i);
    if i < k {
      SpanGrows(rs, i, k);
    } else if k < i {
      SpanGrows(rs, k, i);
    }
  }

  /** Within a release, asset offsets increase in catalog order. */
  lemma AssetOffsetsIncrease(rs: seq<Release>, i: nat, j: nat, j': nat)
    requires i < |rs| && j < j' < |rs[i].assets|
    ensures AssetOffset(rs, i, j) < AssetOffset(rs, i, j')
  {
  }

  /** Releases later in the catalog get larger offsets. */
  lemma ReleaseOffsetsIncrease(rs: seq<Release>, i: nat, k: nat)
    requires i < k < |rs|
    ensures ReleaseOffset(rs, i) < ReleaseOffset(rs, k)
  {
    SpanGrows(rs, i, k);
  }

  /** Every counter value in `1..Span(rs)` is the offset of some asset or release. */
  lemma {:induction false} OffsetsCoverWalk(rs: seq<Release>, n: nat)
    requires 1 <= n <= Span(rs)
    ensures exists s :: ValidSlot(rs, s) && SlotOffset(rs, s) == n
    decreases |rs|
  {
    var last := |rs| - 1;
    var init := rs[..last];
    SpanStep(rs, last);
    assert rs[..|rs|] == rs;
    if n <= Span(init) {
      OffsetsCoverWalk(init, n);
      var s :| ValidSlot(init, s) && SlotOffset(init, s) == n;
      assert rs[..s.release] == init[..s.release];
      assert rs[s.release] == init[s.release];
      assert ValidSlot(rs, s);
      if s.AssetSlot? {
        assert AssetOffset(rs, s.release, s.asset) == AssetOffset(init, s.release, s.asset);
      } else {
        assert ReleaseOffset(rs, s.release) == ReleaseOffset(init, s.release);
      }
    } else if n == Span(rs) {
      assert SlotOffset(rs, ReleaseSlot(last)) == n;
    } else {
      assert SlotOffset(rs, AssetSlot(last, n - Span(init) - 1)) == n;
    }
  }

  /** The entries carry the counter's offsets and the remote ids plus one. */
  lemma EntriesCarryWalk(rs: seq<Release>, i: nat)
    requires i < |rs|
    ensures ReleaseEntries(rs)[i].0 == rs[i].tagName
    ensures ReleaseEntries(rs)[i].1.idOffset == IdOffset(rs[i].id + 1, SlotOffset(rs, ReleaseSlot(i)))
    ensures forall j :: 0 <= j < |rs[i].assets| ==>
              AssetEntries(rs[i].assets, Span(rs[..i]))[j] ==
              (rs[i].assets[j].name, IdOffset(rs[i].assets[j].id + 1, SlotOffset(rs, AssetSlot(i, j))))
  {
  }

  /**
   * Keyed by tag name, the later release wins: looking up a tag finds the last
   * release carrying it, with that release's id plus one and its own offset.
   */
  lemma LaterReleaseWins(rs: seq<Release>, i: nat)
    requires i < |rs|
    requires forall k :: i < k < |rs| ==> rs[k].tagName != rs[i].tagName
    ensures var m := Get(Collect(ReleaseEntries(rs)), rs[i].tagName);
            m.Some? &&
            m.value.idOffset == IdOffset(rs[i].id + 1, ReleaseOffset(rs, i)) &&
            m.value.assetMappings == Collect(AssetEntries(rs[i].assets, Span(rs[..i])))
  {
    assert LastWithKey(ReleaseEntries(rs), i);
    CollectLastWins(ReleaseEntries(rs), i);
  }

  /**
   * Within a release, keyed by asset name, the later asset wins: looking up a
   * name finds the last asset carrying it, with its id plus one and its offset.
   */
  lemma LaterAssetWins(rs: seq<Release>, i: nat, j: nat)
    requires i < |rs| && j < |rs[i].assets|
    requires forall k :: j < k < |rs[i].assets| ==> rs[i].assets[k].name != rs[i].assets[j].name
    ensures Get(Collect(AssetEntries(rs[i].assets, Span(rs[..i]))), rs[i].assets[j].name) ==
            Some(IdOffset(rs[i].assets[j].id + 1, AssetOffset(rs, i, j)))
  {
    assert LastWithKey(AssetEntries(rs[i].assets, Span(rs[..i])), j);
    CollectLastWins(AssetEntries(rs[i].assets, Span(rs[..i])), j);
  }

  /**
   * Every tag in the map comes from a release of the catalog, with that
   * release's id plus one (at most 2^32, so it fits the inode's 64 bits), and
   * every tag of the catalog is in the map exactly once.
   */
  lemma MappingsMatchCatalog(rs: seq<Release>)
    ensures var ms := Collect(ReleaseEntries(rs));
            DistinctKeys(ms) &&
            Keys(ms) == (set i | 0 <= i < |rs| :: rs[i].tagName) &&
            forall p :: p in ms ==>
              exists i :: 0 <= i < |rs| && rs[i].tagName == p.0 && p.1.idOffset.id == rs[i].id + 1 &&
                          1 <= p.1.idOffset.id <= 0x1_0000_0000
  {
    var es := ReleaseEntries(rs);
    var ms := Collect(es);
    CollectKeys(es);
    forall x | x in Keys(es) ensures x in (set i | 0 <= i < |rs| :: rs[i].tagName) {
      var i := KeyHasEntry(es, x);
    }
    forall i | 0 <= i < |rs| ensures rs[i].tagName in Keys(es) {
      KeyAt(es, i);
    }
    forall p | p in ms
      ensures exists i :: 0 <= i < |rs| && rs[i].tagName == p.0 && p.1.idOffset.id == rs[i].id + 1 &&
                          1 <= p.1.idOffset.id <= 0x1_0000_0000
    {
      CollectKeepsEntries(es, p);
      var i :| 0 <= i < |es| && es[i] == p;
      assert rs[i].tagName == p.0 && p.1.idOffset.id == rs[i].id + 1;
    }
  }

  // ---------------------------------------------------------------------------
  // find_release_mapping

  /** The first position, from `from` on, whose mapping has id `id`, or `|ms|`. */
  function FirstWithId(ms: ReleaseMappings, id: u64, from: nat): (k: nat)
    requires from <= |ms|
    ensures from <= k <= |ms|
    ensures k < |ms| ==> ms[k].1.idOffset.id == id
    ensures forall j :: from <= j < k ==> ms[j].1.idOffset.id != id
    decreases |ms| - from
  {
    if from == |ms| || ms[from].1.idOffset.id == id then from
    else FirstWithId(ms, id, from + 1)
  }

  /**
   * `find_release_mapping`: the first mapping, in iteration order, whose tag id
   * is `id`; none exactly when no mapping has that id.
   */
  function FindReleaseMapping(ms: ReleaseMappings, id: u64): (r: Option<ReleaseMapping>)
    ensures r.Some? ==> r.value.idOffset.id == id
    ensures r.Some? ==> exists i :: 0 <= i < |ms| && ms[i].1 == r.value &&
                                    forall j :: 0 <= j < i ==> ms[j].1.idOffset.id != id
    ensures r.None? <==> forall i :: 0 <= i < |ms| ==> ms[i].1.idOffset.id != id
  {
    var k := FirstWithId(ms, id, 0);
    if k < |ms| then Some(ms[k].1) else None
  }
}
