/**
  Where a cache file is moved: its path with every occurrence of the cache
  root replaced by the array root, anywhere in the string, as `str.replace`
  does. With the roots of a loaded configuration that is every `/mnt/cache`
  becoming `/mnt/user`.
 */
module Destinations {
  import opened Strings
  import opened Settings

  /** The destination of a cache file. */
  function Destination(roots: Roots, source: string): (r: string) {
    ReplaceAll(source, roots.cachePath, roots.arrayPath)
  }

  /**
    Each replaced occurrence changes the length by the difference of the
    roots; with the default roots it shortens the path by one character.
   */
  lemma {:induction false} DestinationLength(roots: Roots, source: string)
    requires roots.cachePath != []
    ensures |Destination(roots, source)| == |source| + CountOccurrences(source, roots.cachePath) * (|roots.arrayPath| - |roots.cachePath|)
    ensures roots == DefaultRoots ==> |Destination(roots, source)| == |source| - CountOccurrences(source, CachePath)
  {
    ReplaceAllLength(source, roots.cachePath, roots.arrayPath);
  }

  lemma NonzeroProduct(n: int, d: int)
    requires n != 0 && d != 0
    ensures n * d != 0
  {
  }

  /**
    With roots of different lengths, a path is its own destination exactly
    when the cache root does not occur in it.
   */
  lemma DestinationFixedIffNoCacheRoot(roots: Roots, source: string)
    requires roots.cachePath != [] && |roots.arrayPath| != |roots.cachePath|
    ensures Destination(roots, source) == source <==> !Contains(source, roots.cachePath)
  {
    if Contains(source, roots.cachePath) {
      var n := CountOccurrences(source, roots.cachePath);
      var d := |roots.arrayPath| - |roots.cachePath|;
      CountZeroIffAbsent(source, roots.cachePath);
      DestinationLength(roots, source);
      NonzeroProduct(n, d);
    } else {
      ReplaceAllWithoutOccurrence(source, roots.cachePath, roots.arrayPath);
    }
  }

  /**
    A path that starts at the cache root goes to the array root, followed by
    the destination of the rest of the path.
   */
  lemma DestinationOfCacheRootPath(roots: Roots, source: string)
    requires roots.cachePath != [] && IsPrefix(roots.cachePath, source)
    ensures Destination(roots, source) == roots.arrayPath + Destination(roots, source[|roots.cachePath|..])
    ensures IsPrefix(roots.arrayPath, Destination(roots, source))
  {
    ReplaceAllAtOccurrence(source, roots.cachePath, roots.arrayPath);
  }

  /**
    The usual case: the cache root occurs only at the start of the path.
    Then the destination is the array root followed by the unchanged
    remainder, and swapping the root back recovers the source.
   */
  lemma DestinationSwapsRootOnly(roots: Roots, rest: string)
    requires roots.cachePath != [] && !Contains(rest, roots.cachePath)
    ensures Destination(roots, roots.cachePath + rest) == roots.arrayPath + rest
    ensures roots.cachePath + Destination(roots, roots.cachePath + rest)[|roots.arrayPath|..] == roots.cachePath + rest
  {
    var source := roots.cachePath + rest;
    assert source[|roots.cachePath|..] == rest;
    DestinationOfCacheRootPath(roots, source);
    ReplaceAllWithoutOccurrence(rest, roots.cachePath, roots.arrayPath);
    assert (roots.arrayPath + rest)[|roots.arrayPath|..] == rest;
  }

  /** A stretch in which no cache root starts is copied into the destination unchanged. */
  lemma DestinationPiecewise(roots: Roots, a: string, b: string)
    requires roots.cachePath != []
    requires forall k :: 0 <= k < |a| ==> !OccursAt(a + b, roots.cachePath, k)
    ensures Destination(roots, a + b) == a + Destination(roots, b)
  {
    ReplaceAllPrefixFree(a, b, roots.cachePath, roots.arrayPath);
  }

  /**
    A second cache root deeper in the path is replaced as well, not only
    the leading one.
   */
  lemma DestinationReplacesInnerOccurrence(roots: Roots, middle: string, rest: string)
    requires roots.cachePath != []
    requires forall k :: 0 <= k < |middle| ==> !OccursAt(middle + roots.cachePath + rest, roots.cachePath, k)
    requires !Contains(rest, roots.cachePath)
    ensures Destination(roots, roots.cachePath + middle + roots.cachePath + rest)
         == roots.arrayPath + middle + roots.arrayPath + rest
  {
    var c, a := roots.cachePath, roots.arrayPath;
    var tail := middle + (c + rest);
    assert Destination(roots, c + tail) == a + Destination(roots, tail) by {
      assert (c + tail)[|c|..] == tail;
      DestinationOfCacheRootPath(roots, c + tail);
    }
    assert Destination(roots, tail) == middle + Destination(roots, c + rest) by {
      assert middle + c + rest == tail;
      DestinationPiecewise(roots, middle, c + rest);
    }
    assert Destination(roots, c + rest) == a + rest by {
      DestinationSwapsRootOnly(roots, rest);
    }
    assert c + middle + c + rest == c + tail by {
      AppendAssoc(middle, c, rest);
      AppendAssoc(c, middle + c, rest);
      AppendAssoc(c, middle, c);
    }
    assert a + (middle + (a + rest)) == a + middle + a + rest by {
      AppendAssoc(middle, a, rest);
      AppendAssoc(a, middle + a, rest);
      AppendAssoc(a, middle, a);
    }
  }

  /**
    An instance with the default roots: `/mnt/cache/a/mnt/cache/b.mkv` goes
    to `/mnt/user/a/mnt/user/b.mkv`, both roots swapped.
   */
  lemma DoubleRootExample()
    ensures Destination(DefaultRoots, CachePath + "/a" + CachePath + "/b.mkv") == ArrayPath + "/a" + ArrayPath + "/b.mkv"
  {
    var c := CachePath;
    var middle := "/a";
    var rest := "/b.mkv";
    assert forall k :: 0 <= k < |middle| ==> !OccursAt(middle + c + rest, c, k) by {
      var s := middle + c + rest;
      assert s[1] == 'a';
      MismatchIsNoOccurrence(s, c, 0, 1);
      MismatchIsNoOccurrence(s, c, 1, 0);
    }
    assert !Contains(rest, c) by {
      ShorterThanNeedle(rest, c);
    }
    DestinationReplacesInnerOccurrence(DefaultRoots, middle, rest);
  }
}
