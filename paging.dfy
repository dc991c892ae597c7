/** The page arithmetic shared by the pager and the response:
    `Skip((page - 1) * pageSize).Take(pageSize)` over a sequence, and
    `Math.Ceiling(count / size)`. */
module Paging {
  import opened Text

  function Min(a: int, b: int): int {
    if a <= b then a else b
  }

  /** `Skip(n)`: a negative count skips nothing. */
  function Skip<T>(s: seq<T>, n: int): (res: seq<T>)
    ensures res == s[Clamp(n, |s|)..]
  {
    if n <= 0 then s else if n >= |s| then [] else s[n..]
  }

  /** `Take(n)`: a non-positive count takes nothing. */
  function Take<T>(s: seq<T>, n: int): (res: seq<T>)
    ensures res == s[..Clamp(n, |s|)]
  {
    if n <= 0 then [] else if n >= |s| then s else s[..n]
  }

  /** `n` forced into `0 .. len`. */
  function Clamp(n: int, len: nat): (c: nat)
    ensures c <= len
    ensures 0 <= n <= len ==> c == n
  {
    if n <= 0 then 0 else Min(n, len)
  }

  /** `(page - 1) * pageSize` in unchecked 32-bit arithmetic (wrapping the
      subtraction first and then the product gives the same value). */
  function Offset(page: Int32, pageSize: Int32): Int32 {
    Wrap32((page - 1) * pageSize)
  }

  /** `Skip((page - 1) * pageSize).Take(pageSize)`. */
  function Window<T>(s: seq<T>, page: Int32, pageSize: Int32): (w: seq<T>)
    ensures |w| <= |s|
    ensures pageSize <= 0 ==> w == []
    ensures 0 <= pageSize ==> |w| <= pageSize
  {
    Take(Skip(s, Offset(page, pageSize)), pageSize)
  }

  /** Whatever the offset, the window is a contiguous slice. */
  lemma WindowIsSlice<T>(s: seq<T>, page: Int32, pageSize: Int32)
    ensures var lo := Clamp(Offset(page, pageSize), |s|);
            Window(s, page, pageSize) == s[lo..lo + Clamp(pageSize, |s| - lo)]
  {
    var lo := Clamp(Offset(page, pageSize), |s|);
    var rest := s[lo..];
    assert rest[..Clamp(pageSize, |rest|)] == s[lo..lo + Clamp(pageSize, |s| - lo)];
  }

  /** When the offset does not overflow, the window is the slice starting at
      `(page - 1) * pageSize` (0 for pages below 1) and holding at most
      `pageSize` elements. */
  lemma WindowSlice<T>(s: seq<T>, page: Int32, pageSize: Int32)
    requires 1 <= pageSize && MinInt32 <= (page - 1) * pageSize <= MaxInt32
    ensures Window(s, page, pageSize)
         == s[Clamp((page - 1) * pageSize, |s|)..Min(Clamp((page - 1) * pageSize, |s|) + pageSize, |s|)]
  {
    var lo := Clamp((page - 1) * pageSize, |s|);
    assert Offset(page, pageSize) == (page - 1) * pageSize;
    var rest := s[lo..];
    assert rest[..Clamp(pageSize, |rest|)] == s[lo..Min(lo + pageSize, |s|)];
  }

  /** Pages 1 and below all show the first `pageSize` elements. */
  lemma FirstPages<T>(s: seq<T>, page: Int32, pageSize: Int32)
    requires 1 <= pageSize && page <= 1 && MinInt32 <= (page - 1) * pageSize
    ensures Window(s, page, pageSize) == s[..Min(pageSize, |s|)]
  {
    var off := (page - 1) * pageSize;
    assert off <= 0 by {
      MulSign(1 - page, pageSize);
      assert (1 - page) * pageSize == -off;
    }
    assert Clamp(off, |s|) == 0;
    WindowSlice(s, page, pageSize);
  }

  lemma MulSign(a: int, b: int)
    requires 0 <= a && 0 <= b
    ensures 0 <= a * b
  {
  }

  lemma MulMono(a: int, b: int, c: int)
    requires a <= b && 0 <= c
    ensures a * c <= b * c
  {
    MulSign(b - a, c);
    assert b * c - a * c == (b - a) * c;
  }

  /** The first `n` pages, one after the other. */
  function Pages<T>(s: seq<T>, pageSize: Int32, n: nat): seq<T>
    requires n <= MaxInt32
  {
    if n == 0 then [] else Pages(s, pageSize, n - 1) + Window(s, n, pageSize)
  }

  /** Page `n >= 1` is the slice from `(n - 1) * pageSize` to `n * pageSize`,
      cut at the end of the sequence. */
  lemma WindowAt<T>(s: seq<T>, n: Int32, pageSize: Int32)
    requires 1 <= pageSize && 1 <= n && (n - 1) * pageSize <= MaxInt32
    ensures n * pageSize == (n - 1) * pageSize + pageSize
    ensures Window(s, n, pageSize) == s[Min((n - 1) * pageSize, |s|)..Min(n * pageSize, |s|)]
  {
    MulSign(n - 1, pageSize);
    WindowSlice(s, n, pageSize);
  }

  /** Reading pages 1, 2, … in turn visits the elements in order, each once:
      the first `n` pages are the first `n * pageSize` elements. */
  lemma {:induction false} PagesArePrefix<T>(s: seq<T>, pageSize: Int32, n: nat)
    requires 1 <= pageSize && n <= MaxInt32
    requires (n - 1) * pageSize <= MaxInt32
    ensures Pages(s, pageSize, n) == s[..Min(n * pageSize, |s|)]
  {
    if n > 0 {
      var lo := (n - 1) * pageSize;
      var hi := n * pageSize;
      MulStep(n, pageSize);
      PagesArePrefix(s, pageSize, n - 1);
      WindowAt(s, n, pageSize);
      var a := Min(lo, |s|);
      var b := Min(hi, |s|);
      Concat(s, a, b);
    }
  }

  lemma Concat<T>(s: seq<T>, a: nat, b: nat)
    requires a <= b <= |s|
    ensures s[..a] + s[a..b] == s[..b]
  {
  }

  lemma MulStep(n: int, c: int)
    requires 1 <= n && 0 <= c
    ensures (n - 2) * c == (n - 1) * c - c
    ensures n * c == (n - 1) * c + c
    ensures 0 <= (n - 1) * c
  {
    MulSign(n - 1, c);
  }

  /** Page `page` comes before the last of `t` pages of size `s` holding `n`
      elements exactly when the first `page` pages leave some over. */
  lemma BeforeLastPage(n: int, page: int, s: int, t: int)
    requires s > 0 && (t - 1) * s < n <= t * s
    ensures page < t <==> page * s < n
  {
    if page < t {
      MulMono(page, t - 1, s);
    } else {
      MulMono(t, page, s);
    }
  }

  /** `Math.Ceiling(a / b)` for a non-zero divisor. */
  function CeilDiv(a: int, b: int): (r: int)
    requires b != 0
    ensures b > 0 ==> (r - 1) * b < a <= r * b
    ensures b < 0 ==> r * b <= a < (r - 1) * b
  {
    if b > 0 then
      var q := (a + b - 1) / b;
      assert a + b - 1 == q * b + (a + b - 1) % b;
      assert (q - 1) * b == q * b - b;
      q
    else
      var q := a / -b;
      assert a == q * -b + a % -b;
      assert -q * b == q * -b;
      assert (-q - 1) * b == q * -b - b;
      -q
  }

  /** The number of pages lies between 0 and the count (between the negated
      count and 0 for a negative size), so it fits the count's width. */
  lemma CeilDivBounds(a: nat, b: int)
    requires b != 0
    ensures b > 0 ==> 0 <= CeilDiv(a, b) <= a
    ensures b < 0 ==> 0 <= CeilDiv(a, b) + a && CeilDiv(a, b) <= 0
  {
    var r := CeilDiv(a, b);
    if b > 0 {
      CeilingBounds(a, b, r);
    } else {
      assert (-r + 1) * -b == (r - 1) * b;
      FloorBounds(a, -b, -r);
    }
  }

  /** The rounded-up quotient of `a >= 0` by `b >= 1` lies in `0 .. a`. */
  lemma CeilingBounds(a: int, b: int, r: int)
    requires 0 <= a && 1 <= b && (r - 1) * b < a <= r * b
    ensures 0 <= r <= a
  {
    if r < 0 { MulMono(r, -1, b); }
    if r > a { MulMono(a, r - 1, b); MulMono(1, b, a); }
  }

  /** The rounded-down quotient of `a >= 0` by `b >= 1` lies in `0 .. a`. */
  lemma FloorBounds(a: int, b: int, r: int)
    requires 0 <= a && 1 <= b && r * b <= a < (r + 1) * b
    ensures 0 <= r <= a
  {
    if r < 0 { MulMono(r + 1, 0, b); }
    if r > a { MulMono(a + 1, r, b); MulMono(1, b, a + 1); }
  }

  /** The pages `1 .. CeilDiv(|s|, pageSize)` cover the sequence exactly. */
  lemma PagesCoverAll<T>(s: seq<T>, pageSize: Int32)
    requires 1 <= pageSize && |s| <= MaxInt32
    ensures CeilDiv(|s|, pageSize) <= MaxInt32
    ensures Pages(s, pageSize, CeilDiv(|s|, pageSize)) == s
  {
    CeilDivBounds(|s|, pageSize);
    var t := CeilDiv(|s|, pageSize);
    if t > 0 {
      PagesArePrefix(s, pageSize, t);
    }
  }

  /** A page past the last one is empty. */
  lemma PastLastPageEmpty<T>(s: seq<T>, page: Int32, pageSize: Int32)
    requires 1 <= pageSize
    requires CeilDiv(|s|, pageSize) < page && (page - 1) * pageSize <= MaxInt32
    ensures Window(s, page, pageSize) == []
  {
    MulMono(CeilDiv(|s|, pageSize), page - 1, pageSize);
    CeilDivBounds(|s|, pageSize);
    MulSign(page - 1, pageSize);
    WindowSlice(s, page, pageSize);
  }
  /** Page `page` holds a full `pageSize` records, or what is left on the
      last page, and nothing past the last page. */
  lemma PageLength<T>(s: seq<T>, page: Int32, pageSize: Int32)
    requires 1 <= pageSize && 1 <= page && (page - 1) * pageSize <= MaxInt32
    ensures |Window(s, page, pageSize)|
         == if page <= CeilDiv(|s|, pageSize) then Min(pageSize, |s| - (page - 1) * pageSize) else 0
  {
    var t := CeilDiv(|s|, pageSize);
    WindowAt(s, page, pageSize);
    MulStep(page, pageSize);
    if page <= t {
      MulMono(page - 1, t - 1, pageSize);
    } else {
      MulMono(t, page - 1, pageSize);
    }
  }
}
