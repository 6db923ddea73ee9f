/** exchange of gnumake/src/getopt.c: two adjacent blocks of argv change places in place. */
module GetoptExchange {

  /** Where position i of the rotation of the blocks [b, m) and [m, t) is read from. */
  function RotateFrom(b: nat, m: nat, t: nat, i: nat): (j: nat)
    requires b <= m <= t
    ensures i < t ==> j < t
    ensures i >= t ==> j == i
  {
    if b <= i < b + (t - m) then i - b + m
    else if b + (t - m) <= i < t then i - (t - m)
    else i
  }

  /** The blocks [b, m) and [m, t) of a sequence in the opposite order. */
  function Rotated<T>(s: seq<T>, b: nat, m: nat, t: nat): seq<T>
    requires b <= m <= t <= |s|
  {
    seq(|s|, i requires 0 <= i < |s| => s[RotateFrom(b, m, t, i)])
  }

  lemma RotatedBlocks<T>(s: seq<T>, b: nat, m: nat, t: nat)
    requires b <= m <= t <= |s|
    ensures Rotated(s, b, m, t) == s[..b] + s[m..t] + s[b..m] + s[t..]
  {}

  /** Where position x is read from after swapping two blocks of length len. */
  function SwapFrom(i: nat, j: nat, len: nat, x: nat): (y: nat)
    requires i + len <= j
    ensures x < j + len ==> y < j + len
    ensures x >= j + len ==> y == x
  {
    if i <= x < i + len then x - i + j
    else if j <= x < j + len then x - j + i
    else x
  }

  /** The blocks of length len at i and at j, swapped. */
  function Swapped<T>(s: seq<T>, i: nat, j: nat, len: nat): seq<T>
    requires i + len <= j && j + len <= |s|
  {
    seq(|s|, x requires 0 <= x < |s| => s[SwapFrom(i, j, len, x)])
  }

  method SwapBlocks<T>(a: array<T>, i: nat, j: nat, len: nat)
    requires i + len <= j && j + len <= a.Length
    modifies a
    ensures a[..] == Swapped(old(a[..]), i, j, len)
  {
    ghost var s := a[..];
    var k := 0;
    while k < len
      invariant 0 <= k <= len
      invariant a[..] == Swapped(s, i, j, k)
    {
      SwapOneMore(s, i, j, k);
      var tem := a[i + k];
      a[i + k] := a[j + k];
      a[j + k] := tem;
      assert a[..] == Swapped(s, i, j, k)[i + k := s[j + k]][j + k := s[i + k]];
      k := k + 1;
    }
  }

  lemma SwapOneMore<T>(s: seq<T>, i: nat, j: nat, k: nat)
    requires i + k < j && j + k < |s|
    ensures Swapped(s, i, j, k)[i + k] == s[i + k] && Swapped(s, i, j, k)[j + k] == s[j + k]
    ensures Swapped(s, i, j, k)[i + k := s[j + k]][j + k := s[i + k]] == Swapped(s, i, j, k + 1)
  {}

  /** Moving a short bottom block to the far end leaves a smaller rotation to do. */
  lemma ShortBottom<T>(s: seq<T>, b: nat, m: nat, t: nat, len: nat, t': nat)
    requires b <= m <= t <= |s| && len == m - b <= t - m && t' == t - len
    ensures Rotated(Swapped(s, b, t', len), b, m, t') == Rotated(s, b, m, t)
  {}

  /** Moving a short top block to the bottom leaves a smaller rotation to do. */
  lemma ShortTop<T>(s: seq<T>, b: nat, m: nat, t: nat)
    requires b <= m <= t <= |s| && t - m <= m - b
    ensures Rotated(Swapped(s, b, m, t - m), b + (t - m), m, t) == Rotated(s, b, m, t)
  {}

  lemma NothingToRotate<T>(s: seq<T>, b: nat, m: nat, t: nat)
    requires b <= m <= t <= |s| && (b == m || m == t)
    ensures Rotated(s, b, m, t) == s
  {}

  /** One round of the loop with a short bottom block. */
  method LowerTop<T>(argv: array<T>, bottom: nat, middle: nat, top: nat) returns (top': nat)
    requires bottom < middle < top <= argv.Length && middle - bottom < top - middle
    modifies argv
    ensures top' == top - (middle - bottom)
    ensures Rotated(argv[..], bottom, middle, top') == Rotated(old(argv[..]), bottom, middle, top)
  {
    var len := middle - bottom;
    top' := top - len;
    ShortBottom(argv[..], bottom, middle, top, len, top');
    SwapBlocks(argv, bottom, top', len);
  }

  /** One round of the loop with a short top block. */
  method RaiseBottom<T>(argv: array<T>, bottom: nat, middle: nat, top: nat)
    requires bottom < middle < top <= argv.Length && top - middle <= middle - bottom
    modifies argv
    ensures Rotated(argv[..], bottom + (top - middle), middle, top) == Rotated(old(argv[..]), bottom, middle, top)
  {
    ShortTop(argv[..], bottom, middle, top);
    SwapBlocks(argv, bottom, middle, top - middle);
  }

  /** The loop of exchange performs exactly one rotation. */
  method Exchange<T>(argv: array<T>, first: nat, last: nat, optind: nat)
    requires first <= last <= optind <= argv.Length
    modifies argv
    ensures argv[..] == Rotated(old(argv[..]), first, last, optind)
  {
    ghost var goal := Rotated(argv[..], first, last, optind);
    var bottom, middle, top := first, last, optind;
    while top > middle && middle > bottom
      invariant first <= bottom <= middle <= top <= optind
      invariant Rotated(argv[..], bottom, middle, top) == goal
      decreases top - bottom
    {
      if top - middle > middle - bottom {
        top := LowerTop(argv, bottom, middle, top);
      } else {
        RaiseBottom(argv, bottom, middle, top);
        bottom := bottom + (top - middle);
      }
    }
    NothingToRotate(argv[..], bottom, middle, top);
  }
}
