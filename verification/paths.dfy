/**
  POSIX `os.path.dirname`, which `move_file` applies to the destination
  before creating its parent directories. The functions carry no contracts
  of their own; the lemmas below state what they compute, so that callers
  that only pass a directory name along do not pay for those facts.
 */
module Paths {

  /** Every character of `h` is a path separator. */
  predicate AllSeparators(h: string) {
    forall k :: 0 <= k < |h| ==> h[k] == '/'
  }

  /** One past the index of the last `/` among the first `n` characters, or 0 (`p.rfind('/', 0, n) + 1`). */
  function AfterLastSeparator(p: string, n: nat): (r: nat)
    requires n <= |p|
    ensures r <= n
  {
    if n == 0 then 0
    else if p[n - 1] == '/' then n
    else AfterLastSeparator(p, n - 1)
  }

  /** The length of `p[..n].rstrip('/')`. */
  function StrippedEnd(p: string, n: nat): (r: nat)
    requires n <= |p|
    ensures r <= n
  {
    if n > 0 && p[n - 1] == '/' then StrippedEnd(p, n - 1) else n
  }

  /**
    `os.path.dirname(p)`: the head up to and including the last `/`, with
    its trailing separators removed unless it consists of separators only.
   */
  function Dirname(p: string): (r: string) {
    var head := AfterLastSeparator(p, |p|);
    var stripped := StrippedEnd(p, head);
    if stripped > 0 then p[..stripped] else p[..head]
  }

  /** The split point is right after the last separator, and nothing after it is one. */
  lemma {:induction false} AfterLastSeparatorSpec(p: string, n: nat)
    requires n <= |p|
    ensures AfterLastSeparator(p, n) <= n
    ensures AfterLastSeparator(p, n) == 0 <==> forall k :: 0 <= k < n ==> p[k] != '/'
    ensures AfterLastSeparator(p, n) > 0 ==> p[AfterLastSeparator(p, n) - 1] == '/'
    ensures forall k :: AfterLastSeparator(p, n) <= k < n ==> p[k] != '/'
  {
    if n > 0 && p[n - 1] != '/' {
      AfterLastSeparatorSpec(p, n - 1);
    }
  }

  /** Stripping removes only separators and leaves none at the end. */
  lemma {:induction false} StrippedEndSpec(p: string, n: nat)
    requires n <= |p|
    ensures StrippedEnd(p, n) <= n
    ensures StrippedEnd(p, n) > 0 ==> p[StrippedEnd(p, n) - 1] != '/'
    ensures forall k :: StrippedEnd(p, n) <= k < n ==> p[k] == '/'
  {
    if n > 0 && p[n - 1] == '/' {
      StrippedEndSpec(p, n - 1);
    }
  }

  /**
    The directory name is a prefix of the path; it is empty exactly when the
    path has no separator; it ends in a separator only when it is all
    separators (the root); it never reaches past the last separator, and
    only separators lie between the two; and a head made of separators only
    is kept whole.
   */
  lemma DirnameSpec(p: string)
    ensures Dirname(p) <= p
    ensures Dirname(p) == [] <==> '/' !in p
    ensures !AllSeparators(Dirname(p)) ==> Dirname(p)[|Dirname(p)| - 1] != '/'
    ensures |Dirname(p)| <= AfterLastSeparator(p, |p|)
    ensures forall k :: |Dirname(p)| <= k < AfterLastSeparator(p, |p|) ==> p[k] == '/'
    ensures AllSeparators(p[..AfterLastSeparator(p, |p|)]) ==> Dirname(p) == p[..AfterLastSeparator(p, |p|)]
  {
    var head := AfterLastSeparator(p, |p|);
    AfterLastSeparatorSpec(p, |p|);
    StrippedEndSpec(p, head);
    if '/' in p {
      var k :| 0 <= k < |p| && p[k] == '/';
      assert head > 0;
    }
  }
}
