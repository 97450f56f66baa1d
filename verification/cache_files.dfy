/**
  The candidate list of `get_cache_files`: one recursive glob per video
  extension over the cache tree, the four results concatenated in extension
  order. The tree walk itself is an input: `entries` holds every path below
  the cache root in the order the walk visits them.
 */
module Candidates {
  import opened Strings
  import opened Settings

  /** The entries a glob `*<ext>` matches, in walk order. */
  function WithSuffix(entries: seq<string>, ext: string): (r: seq<string>)
    decreases |entries|
  {
    if entries == [] then []
    else (if EndsWith(entries[0], ext) then [entries[0]] else []) + WithSuffix(entries[1..], ext)
  }

  /** The globs for `exts`, one after the other. */
  function Gather(entries: seq<string>, exts: seq<string>): (r: seq<string>)
    decreases |exts|
  {
    if exts == [] then [] else WithSuffix(entries, exts[0]) + Gather(entries, exts[1..])
  }

  /** The candidate files of one pass. */
  function CacheFiles(entries: seq<string>): (r: seq<string>) {
    Gather(entries, VideoExtensions)
  }

  /** The name ends with one of the four video extensions. */
  predicate HasVideoExtension(f: string) {
    EndsWith(f, ".mp4") || EndsWith(f, ".mkv") || EndsWith(f, ".avi") || EndsWith(f, ".m4v")
  }

  /** Index of the first of `exts` that `f` ends with; `|exts|` when none. */
  function ExtIndex(f: string, exts: seq<string>): (r: nat)
    ensures r <= |exts|
    decreases |exts|
  {
    if exts == [] then 0
    else if EndsWith(f, exts[0]) then 0
    else 1 + ExtIndex(f, exts[1..])
  }

  /** Position of the file's extension in the gathering order; 4 for any other name. */
  function ExtensionRank(f: string): (r: nat) {
    ExtIndex(f, VideoExtensions)
  }

  /** Extensions of one common length, no two equal: no name ends with two of them. */
  predicate Exclusive(exts: seq<string>) {
    forall a, b :: 0 <= a < b < |exts| ==> |exts[a]| == |exts[b]| && exts[a] != exts[b]
  }

  /** The names of `g` appear in the order of their extensions in `exts`. */
  predicate RankSorted(g: seq<string>, exts: seq<string>) {
    forall a, b :: 0 <= a <= b < |g| ==> ExtIndex(g[a], exts) <= ExtIndex(g[b], exts)
  }

  /** A glob keeps exactly the entries with the suffix. */
  lemma {:induction false} WithSuffixSpec(entries: seq<string>, ext: string)
    ensures forall f :: f in WithSuffix(entries, ext) <==> f in entries && EndsWith(f, ext)
    ensures forall k :: 0 <= k < |WithSuffix(entries, ext)| ==> EndsWith(WithSuffix(entries, ext)[k], ext)
    decreases |entries|
  {
    if entries != [] {
      WithSuffixSpec(entries[1..], ext);
      assert entries == [entries[0]] + entries[1..];
    }
  }

  /** `ExtIndex` finds the first extension the name ends with. */
  lemma {:induction false} ExtIndexSpec(f: string, exts: seq<string>)
    ensures ExtIndex(f, exts) < |exts| ==> EndsWith(f, exts[ExtIndex(f, exts)])
    ensures forall m :: 0 <= m < ExtIndex(f, exts) ==> !EndsWith(f, exts[m])
    decreases |exts|
  {
    if exts != [] && !EndsWith(f, exts[0]) {
      ExtIndexSpec(f, exts[1..]);
      forall m | 1 <= m < ExtIndex(f, exts)
        ensures !EndsWith(f, exts[m])
      {
        assert exts[m] == exts[1..][m - 1];
      }
    }
  }

  lemma SuffixesOfEqualLength(f: string, x: string, y: string)
    requires |x| == |y| && EndsWith(f, x) && EndsWith(f, y)
    ensures x == y
  {
  }

  lemma {:induction false} WithSuffixAppend(a: seq<string>, b: seq<string>, ext: string)
    ensures WithSuffix(a + b, ext) == WithSuffix(a, ext) + WithSuffix(b, ext)
    decreases |a|
  {
    if a == [] {
      assert a + b == b;
    } else {
      TailOfAppend(a, b);
      WithSuffixAppend(a[1..], b, ext);
      AppendAssoc(if EndsWith(a[0], ext) then [a[0]] else [], WithSuffix(a[1..], ext), WithSuffix(b, ext));
    }
  }

  lemma {:induction false} WithSuffixOfNone(a: seq<string>, ext: string)
    requires forall k :: 0 <= k < |a| ==> !EndsWith(a[k], ext)
    ensures WithSuffix(a, ext) == []
    decreases |a|
  {
    if a != [] {
      assert !EndsWith(a[0], ext);
      WithSuffixOfNone(a[1..], ext);
    }
  }

  lemma {:induction false} WithSuffixOfAll(a: seq<string>, ext: string)
    requires forall k :: 0 <= k < |a| ==> EndsWith(a[k], ext)
    ensures WithSuffix(a, ext) == a
    decreases |a|
  {
    if a != [] {
      assert EndsWith(a[0], ext);
      WithSuffixOfAll(a[1..], ext);
      assert a == [a[0]] + a[1..];
    }
  }

  /** A gathered name is an entry that ends with one of the extensions. */
  lemma {:induction false} GatherMembership(entries: seq<string>, exts: seq<string>)
    ensures forall f :: f in Gather(entries, exts) <==> f in entries && ExtIndex(f, exts) < |exts|
    decreases |exts|
  {
    if exts != [] {
      WithSuffixSpec(entries, exts[0]);
      GatherMembership(entries, exts[1..]);
    }
  }

  /** A name from a later glob does not end with the first extension. */
  lemma GatherTailIndex(entries: seq<string>, exts: seq<string>, f: string)
    requires exts != [] && Exclusive(exts)
    requires f in Gather(entries, exts[1..])
    ensures !EndsWith(f, exts[0])
    ensures ExtIndex(f, exts) == 1 + ExtIndex(f, exts[1..])
  {
    GatherMembership(entries, exts[1..]);
    var m := ExtIndex(f, exts[1..]);
    ExtIndexSpec(f, exts[1..]);
    assert exts[1..][m] == exts[m + 1];
    if EndsWith(f, exts[0]) {
      SuffixesOfEqualLength(f, exts[0], exts[m + 1]);
      assert false;
    }
  }

  /** Every name of the first glob has rank 0, every later one rank one more than in the rest. */
  lemma GatherBlockRanks(entries: seq<string>, exts: seq<string>)
    requires exts != [] && Exclusive(exts)
    ensures forall k :: 0 <= k < |WithSuffix(entries, exts[0])| ==> ExtIndex(WithSuffix(entries, exts[0])[k], exts) == 0
    ensures forall k :: 0 <= k < |Gather(entries, exts[1..])| ==>
      ExtIndex(Gather(entries, exts[1..])[k], exts) == 1 + ExtIndex(Gather(entries, exts[1..])[k], exts[1..])
  {
    WithSuffixSpec(entries, exts[0]);
    var rest := Gather(entries, exts[1..]);
    forall k | 0 <= k < |rest|
      ensures ExtIndex(rest[k], exts) == 1 + ExtIndex(rest[k], exts[1..])
    {
      GatherTailIndex(entries, exts, rest[k]);
    }
  }

  /** Rank 0 names followed by names sorted on the remaining extensions are sorted. */
  lemma RankSortedAppend(w: seq<string>, rest: seq<string>, exts: seq<string>)
    requires exts != []
    requires forall k :: 0 <= k < |w| ==> ExtIndex(w[k], exts) == 0
    requires forall k :: 0 <= k < |rest| ==> ExtIndex(rest[k], exts) == 1 + ExtIndex(rest[k], exts[1..])
    requires RankSorted(rest, exts[1..])
    ensures RankSorted(w + rest, exts)
  {
    var g := w + rest;
    forall a, b | 0 <= a <= b < |g|
      ensures ExtIndex(g[a], exts) <= ExtIndex(g[b], exts)
    {
      if a < |w| {
        assert g[a] == w[a];
      } else {
        assert g[a] == rest[a - |w|] && g[b] == rest[b - |w|];
      }
    }
  }

  /** Gathered names are grouped by extension, in the order of `exts`. */
  lemma {:induction false} GatherSorted(entries: seq<string>, exts: seq<string>)
    requires Exclusive(exts)
    ensures RankSorted(Gather(entries, exts), exts)
    decreases |exts|
  {
    if exts != [] {
      assert Exclusive(exts[1..]);
      GatherSorted(entries, exts[1..]);
      var w, rest := WithSuffix(entries, exts[0]), Gather(entries, exts[1..]);
      GatherBlockRanks(entries, exts);
      RankSortedAppend(w, rest, exts);
    }
  }

  /** The later globs hold no name with the first extension. */
  lemma LaterGlobsLackFirst(entries: seq<string>, exts: seq<string>)
    requires exts != [] && Exclusive(exts)
    ensures WithSuffix(Gather(entries, exts[1..]), exts[0]) == []
  {
    var rest := Gather(entries, exts[1..]);
    forall k | 0 <= k < |rest|
      ensures !EndsWith(rest[k], exts[0])
    {
      GatherTailIndex(entries, exts, rest[k]);
    }
    WithSuffixOfNone(rest, exts[0]);
  }

  /** The first glob holds no name with a later extension. */
  lemma FirstGlobLacksLater(entries: seq<string>, exts: seq<string>, m: nat)
    requires Exclusive(exts) && 0 < m < |exts|
    ensures WithSuffix(WithSuffix(entries, exts[0]), exts[m]) == []
  {
    var w := WithSuffix(entries, exts[0]);
    WithSuffixSpec(entries, exts[0]);
    forall k | 0 <= k < |w|
      ensures !EndsWith(w[k], exts[m])
    {
      if EndsWith(w[k], exts[m]) {
        SuffixesOfEqualLength(w[k], exts[0], exts[m]);
      }
    }
    WithSuffixOfNone(w, exts[m]);
  }

  /** Keeping only one extension of the gathered list gives that extension's glob. */
  lemma {:induction false} GatherPerExtension(entries: seq<string>, exts: seq<string>, m: nat)
    requires Exclusive(exts) && m < |exts|
    ensures WithSuffix(Gather(entries, exts), exts[m]) == WithSuffix(entries, exts[m])
    decreases |exts|
  {
    var w := WithSuffix(entries, exts[0]);
    var rest := Gather(entries, exts[1..]);
    WithSuffixAppend(w, rest, exts[m]);
    if m == 0 {
      assert WithSuffix(w, exts[0]) == w by {
        WithSuffixSpec(entries, exts[0]);
        WithSuffixOfAll(w, exts[0]);
      }
      LaterGlobsLackFirst(entries, exts);
      assert w + [] == w;
    } else {
      FirstGlobLacksLater(entries, exts, m);
      assert Exclusive(exts[1..]);
      GatherPerExtension(entries, exts[1..], m - 1);
      assert exts[1..][m - 1] == exts[m];
      assert [] + WithSuffix(rest, exts[m]) == WithSuffix(rest, exts[m]);
    }
  }

  lemma VideoExtensionsExclusive()
    ensures Exclusive(VideoExtensions)
  {
  }

  /** The rank spelled out: `.mp4` is 0, `.mkv` 1, `.avi` 2, `.m4v` 3, anything else 4. */
  lemma ExtensionRankByName(f: string)
    ensures ExtensionRank(f) ==
      if EndsWith(f, ".mp4") then 0
      else if EndsWith(f, ".mkv") then 1
      else if EndsWith(f, ".avi") then 2
      else if EndsWith(f, ".m4v") then 3
      else 4
  {
    var v := VideoExtensions;
    assert v[1..][1..][1..][1..] == [];
  }

  /** A path is a candidate exactly when it is in the tree and has a video extension. */
  lemma CacheFilesMembership(entries: seq<string>)
    ensures forall f :: f in CacheFiles(entries) <==> f in entries && HasVideoExtension(f)
  {
    GatherMembership(entries, VideoExtensions);
    forall f: string
      ensures HasVideoExtension(f) <==> ExtIndex(f, VideoExtensions) < |VideoExtensions|
    {
      ExtensionRankByName(f);
    }
  }

  /** All `.mp4` candidates come first, then `.mkv`, then `.avi`, then `.m4v`. */
  lemma CacheFilesGroupedByExtension(entries: seq<string>)
    ensures var c := CacheFiles(entries);
      forall a, b :: 0 <= a <= b < |c| ==> ExtensionRank(c[a]) <= ExtensionRank(c[b])
  {
    var v := VideoExtensions;
    assert Exclusive(v) by {
      VideoExtensionsExclusive();
    }
    GatherSorted(entries, v);
  }

  /** Within one extension the candidates keep the walk order, none lost, none added. */
  lemma CacheFilesPerExtension(entries: seq<string>, ext: string)
    requires ext in VideoExtensions
    ensures WithSuffix(CacheFiles(entries), ext) == WithSuffix(entries, ext)
  {
    VideoExtensionsExclusive();
    var m :| 0 <= m < |VideoExtensions| && VideoExtensions[m] == ext;
    GatherPerExtension(entries, VideoExtensions, m);
  }
}
