/** Pagination of the match set: the slice a "Show more" click appends, the
    prefix shown after a number of pages, and the count on the button. */
module Paging {

  function Min(a: int, b: int): (m: int) {
    if a <= b then a else b
  }

  /** `Math.max(a, b)`. */
  function Max(a: int, b: int): (m: int) {
    if a >= b then a else b
  }

  /** `s.slice(start, end)` for non-negative bounds: the run of `s` that starts
      at `start`, clipped to the end of `s`, empty when `end <= start`. */
  function Slice<T>(s: seq<T>, start: nat, end: nat): (r: seq<T>)
    ensures |r| == if start < end && start < |s| then Min(end, |s|) - start else 0
    ensures forall i :: 0 <= i < |r| ==> r[i] == s[start + i]
  {
    if start < end && start < |s| then s[start..Min(end, |s|)] else []
  }

  /** The page with 0-based index `k`, as the "Show more" handler slices it:
      from `k * size` up to `(k + 1) * size`. */
  function Page<T>(s: seq<T>, k: nat, size: nat): (r: seq<T>)
    ensures |r| <= size
  {
    assert (k + 1) * size == k * size + size;
    Slice(s, k * size, (k + 1) * size)
  }

  /** The first `pages` pages, one after the other. */
  function Pages<T>(s: seq<T>, pages: nat, size: nat): (r: seq<T>)
    decreases pages
  {
    if pages == 0 then [] else Pages(s, pages - 1, size) + Page(s, pages - 1, size)
  }

  /** How many items the first `pages` pages hold together. */
  function Shown(n: nat, pages: nat, size: nat): (k: nat)
    ensures k <= n && k <= pages * size
    ensures k == n || k == pages * size
  {
    Min(n, pages * size)
  }

  /** The count on the "Show more" button: the items past the first `pages`
      pages. Together with those it makes up the whole match set, and it is
      zero exactly when those pages already reach the end. */
  function Remaining(n: nat, pages: nat, size: nat): (r: nat)
    ensures r + Shown(n, pages, size) == n
    ensures r == 0 <==> n <= pages * size
  {
    if n > pages * size then n - pages * size else 0
  }

  /** Appending page `k` to what the first `k` pages show gives what the first
      `k + 1` pages show. */
  lemma NextPageExtendsPrefix<T>(s: seq<T>, k: nat, size: nat)
    ensures s[..Shown(|s|, k, size)] + Page(s, k, size) == s[..Shown(|s|, k + 1, size)]
  {
    assert (k + 1) * size == k * size + size;
    if k * size < |s| && size > 0 {
      assert s[..Shown(|s|, k + 1, size)] == s[..k * size] + s[k * size..Shown(|s|, k + 1, size)];
    }
  }

  /** The pages concatenate to a prefix of the match set: the first `pages`
      pages are exactly its first `Shown(...)` items, without gap or repeat. */
  lemma {:induction false} PagesArePrefix<T>(s: seq<T>, pages: nat, size: nat)
    ensures Pages(s, pages, size) == s[..Shown(|s|, pages, size)]
    decreases pages
  {
    if pages > 0 {
      PagesArePrefix(s, pages - 1, size);
      NextPageExtendsPrefix(s, pages - 1, size);
    }
  }

  /** Enough pages reconstruct the whole match set. */
  lemma PagesExhaust<T>(s: seq<T>, pages: nat, size: nat)
    requires |s| <= pages * size
    ensures Pages(s, pages, size) == s
  {
    PagesArePrefix(s, pages, size);
  }

  /** With a positive page size, the count on the button is zero exactly when
      the next page would be empty. */
  lemma RemainingZeroIffNextPageEmpty<T>(s: seq<T>, pages: nat, size: nat)
    requires size > 0
    ensures Remaining(|s|, pages, size) == 0 <==> Page(s, pages, size) == []
  {
    assert (pages + 1) * size == pages * size + size;
  }
}
