/** The row building of the scrolling logo marquee (`getLogoSets`,
    components/main/Animated.tsx:27-47): pad the logo list with copies until
    it has at least fifteen entries, shuffle it, and cut three rows of at
    most eight. */
module Marquee {

  /** One marquee entry (components/main/Animated.tsx:7-11). */
  datatype MarqueeLogo = MarqueeLogo(id: string, name: string, imageUrl: string)

  /** The loop pads until the list has at least this many entries. */
  const MinPadded: nat := 15
  /** Each row holds at most this many entries. */
  const RowLength: nat := 8

  /** The random id suffix of copy `t` in padding round `round`; the model
      treats it as an arbitrary string. */
  type Suffixes = (nat, nat) -> string

  /** The picture a marquee entry shows: everything but its id. */
  function Face(l: MarqueeLogo): (string, string) {
    (l.name, l.imageUrl)
  }

  function Faces(ls: seq<MarqueeLogo>): (fs: seq<(string, string)>)
    ensures |fs| == |ls|
    ensures forall t :: 0 <= t < |ls| ==> fs[t] == Face(ls[t])
  {
    seq(|ls|, t requires 0 <= t < |ls| => Face(ls[t]))
  }

  /** `k` copies of `s`, one after the other. */
  function Repeat<T>(s: seq<T>, k: nat): (r: seq<T>)
    decreases k
    ensures |r| == k * |s|
  {
    if k == 0 then [] else Repeat(s, k - 1) + s
  }

  /** A copy of `l` with a fresh id (lines 33-34): the original id, then
      `-dup-`, then the random suffix. */
  function Duplicate(l: MarqueeLogo, suffix: string): (c: MarqueeLogo)
    ensures Face(c) == Face(l)
    ensures |c.id| > |l.id| && c.id[..|l.id|] == l.id && c.id[|l.id|..] == "-dup-" + suffix
  {
    l.(id := l.id + "-dup-" + suffix)
  }

  /** One pass of the loop body (lines 33-35): a copy of every original,
      in the original order. */
  function CopyRound(logos: seq<MarqueeLogo>, round: nat, suffix: Suffixes): (r: seq<MarqueeLogo>)
    ensures |r| == |logos|
    ensures Faces(r) == Faces(logos)
    ensures forall t :: 0 <= t < |r| ==> r[t] == Duplicate(logos[t], suffix(round, t))
  {
    var r := seq(|logos|, t requires 0 <= t < |logos| => Duplicate(logos[t], suffix(round, t)));
    assert Faces(r) == Faces(logos) by {
      forall t | 0 <= t < |r|
        ensures Faces(r)[t] == Faces(logos)[t]
      {
        assert r[t] == Duplicate(logos[t], suffix(round, t));
      }
    }
    r
  }

  /** The list after `k` passes of the loop body, as written: the body
      appends a copy of the originals whatever the list length. */
  function AfterRounds(logos: seq<MarqueeLogo>, k: nat, suffix: Suffixes): seq<MarqueeLogo>
    decreases k
  {
    if k == 0 then logos else AfterRounds(logos, k - 1, suffix) + CopyRound(logos, k - 1, suffix)
  }

  /** After `k` passes the originals are still an in-order prefix, the list
      is `k + 1` lists long, and its pictures are the originals' pictures
      repeated `k + 1` times: every copy shows an original. */
  lemma {:induction false} AfterRoundsShape(logos: seq<MarqueeLogo>, k: nat, suffix: Suffixes)
    decreases k
    ensures |AfterRounds(logos, k, suffix)| == (k + 1) * |logos|
    ensures AfterRounds(logos, k, suffix)[..|logos|] == logos
    ensures Faces(AfterRounds(logos, k, suffix)) == Repeat(Faces(logos), k + 1)
  {
    if k > 0 {
      var prev := AfterRounds(logos, k - 1, suffix);
      var copies := CopyRound(logos, k - 1, suffix);
      AfterRoundsShape(logos, k - 1, suffix);
      assert AfterRounds(logos, k, suffix) == prev + copies;
      assert (prev + copies)[..|logos|] == prev[..|logos|];
      FacesAppend(prev, copies);
    } else {
      assert Repeat(Faces(logos), 1) == [] + Faces(logos);
    }
  }

  lemma FacesAppend(a: seq<MarqueeLogo>, b: seq<MarqueeLogo>)
    ensures Faces(a + b) == Faces(a) + Faces(b)
  {
  }

  /** With no logos (the default of line 21) the list stays empty however
      many passes run, so the loop guard `length < 15` never fails and the
      loop never ends. */
  lemma EmptyNeverExits(k: nat, suffix: Suffixes)
    ensures |AfterRounds([], k, suffix)| < MinPadded
  {
    AfterRoundsShape([], k, suffix);
  }

  /** The padding loop reaches its exit condition after some number of
      passes exactly when there is at least one logo. */
  lemma PaddingExitsIff(logos: seq<MarqueeLogo>, suffix: Suffixes)
    ensures (exists k: nat :: |AfterRounds(logos, k, suffix)| >= MinPadded) <==> |logos| > 0
  {
    if |logos| > 0 {
      AfterRoundsShape(logos, MinPadded, suffix);
      assert |AfterRounds(logos, MinPadded, suffix)| >= MinPadded;
    } else {
      forall k: nat
        ensures |AfterRounds(logos, k, suffix)| < MinPadded
      {
        EmptyNeverExits(k, suffix);
      }
    }
  }

  /** Whether `len` is the length the padding reaches for `n > 0` logos: the
      smallest multiple `copies * n`, with `copies >= 1`, that is at least 15. */
  predicate IsPaddedLength(n: nat, len: nat, copies: nat) {
    && copies >= 1
    && len == copies * n
    && len >= MinPadded
    && (copies == 1 || (copies - 1) * n < MinPadded)
  }

  /** The length padding reaches from `len` entries, adding `n` at a time. */
  function PadFrom(n: nat, len: nat): nat
    requires n > 0
    decreases MinPadded - len
  {
    if len >= MinPadded then len else PadFrom(n, len + n)
  }

  /** The length of the padded list for `n` logos (zero for none). */
  function PadLength(n: nat): nat {
    if n == 0 then 0 else PadFrom(n, n)
  }

  /** The padded length for `n > 0` logos is the smallest multiple of `n`
      that is at least 15; in particular `n` itself once `n >= 15`. */
  lemma PadLengthSmallest(n: nat) returns (copies: nat)
    requires n > 0
    ensures IsPaddedLength(n, PadLength(n), copies)
    ensures n >= MinPadded ==> PadLength(n) == n && copies == 1
  {
    copies := PadFromSmallest(n, 1);
  }

  lemma {:induction false} PadFromSmallest(n: nat, c: nat) returns (copies: nat)
    requires n > 0 && c >= 1 && (c == 1 || (c - 1) * n < MinPadded)
    decreases MinPadded - c * n
    ensures IsPaddedLength(n, PadFrom(n, c * n), copies)
    ensures c * n >= MinPadded ==> copies == c
  {
    if c * n >= MinPadded {
      copies := c;
    } else {
      assert c * n + n == (c + 1) * n;
      copies := PadFromSmallest(n, c + 1);
    }
  }

  /** Some padded lengths: five logos give exactly fifteen entries and four
      give sixteen, so the third row (entries 17 to 24) is empty. */
  lemma PadLengthExamples()
    ensures PadLength(5) == 15 && PadLength(4) == 16 && PadLength(7) == 21
    ensures PadLength(14) == 28 && PadLength(20) == 20
  {
    assert PadFrom(4, 12) == 16;
    assert PadFrom(4, 8) == 16;
  }

  /** Only one multiple of `n` is the smallest one at least 15. */
  lemma PaddedLengthUnique(n: nat, len1: nat, c1: nat, len2: nat, c2: nat)
    requires n > 0 && IsPaddedLength(n, len1, c1) && IsPaddedLength(n, len2, c2)
    ensures c1 == c2 && len1 == len2
  {
    if c1 < c2 {
      MulMonotone(c1, c2 - 1, n);
    } else if c2 < c1 {
      MulMonotone(c2, c1 - 1, n);
    }
  }

  lemma MulMonotone(a: nat, b: nat, n: nat)
    requires a <= b
    ensures a * n <= b * n
  {
  }

  /** The padding loop of lines 29-36, with an empty list returning at once
      instead of looping for ever. `copies` counts the lists of logos in the
      result (the originals and each pass's copies). */
  method PadLogos(logos: seq<MarqueeLogo>, suffix: Suffixes) returns (padded: seq<MarqueeLogo>, copies: nat)
    ensures |logos| == 0 ==> padded == [] && copies == 0
    ensures |logos| > 0 ==> IsPaddedLength(|logos|, |padded|, copies)
    ensures |logos| > 0 ==> padded == AfterRounds(logos, copies - 1, suffix)
    ensures |padded| == PadLength(|logos|)
    ensures |logos| >= MinPadded ==> padded == logos
    ensures padded[..|logos|] == logos
    ensures Faces(padded) == Repeat(Faces(logos), copies)
  {
    if |logos| == 0 {
      return [], 0;
    }
    padded := logos;
    copies := 1;
    assert Repeat(Faces(logos), 1) == [] + Faces(logos);
    while |padded| < MinPadded
      invariant copies >= 1
      invariant padded == AfterRounds(logos, copies - 1, suffix)
      invariant |padded| == copies * |logos|
      invariant copies == 1 || (copies - 1) * |logos| < MinPadded
      invariant PadFrom(|logos|, |padded|) == PadLength(|logos|)
      invariant padded[..|logos|] == logos
      invariant Faces(padded) == Repeat(Faces(logos), copies)
      decreases MinPadded - |padded|
    {
      var more := CopyRound(logos, copies - 1, suffix);
      FacesAppend(padded, more);
      assert (padded + more)[..|logos|] == padded[..|logos|];
      padded := padded + more;
      copies := copies + 1;
    }
  }

  /** An entry of `k` copies of `s` is an entry of `s`. */
  lemma {:induction false} RepeatMembers<T>(s: seq<T>, k: nat, x: T)
    decreases k
    requires x in Repeat(s, k)
    ensures x in s
  {
    if k > 0 && x !in s {
      RepeatMembers(s, k - 1, x);
    }
  }

  /** `Array.prototype.slice(start, end)` for `0 <= start <= end`: indices past
      the end are cut back to the length. */
  function Slice<T>(s: seq<T>, start: nat, end: nat): (r: seq<T>)
    requires start <= end
    ensures |r| <= end - start
    ensures |r| == 0 || start + |r| <= |s|
    ensures start <= |s| ==> |r| == (if end <= |s| then end else |s|) - start
    ensures forall t :: 0 <= t < |r| ==> r[t] == s[start + t]
  {
    if |s| <= start then [] else if |s| <= end then s[start..] else s[start..end]
  }

  /** The three rows of lines 42-46. */
  function Rows<T>(s: seq<T>): (rows: seq<seq<T>>)
    ensures |rows| == 3
    ensures forall k :: 0 <= k < 3 ==> |rows[k]| <= RowLength
    ensures |s| >= RowLength ==> |rows[0]| == RowLength
  {
    [Slice(s, 0, 8), Slice(s, 8, 16), Slice(s, 16, 24)]
  }

  /** A list of at most sixteen entries leaves the third row empty. */
  lemma ShortListThirdRowEmpty<T>(s: seq<T>)
    requires |s| <= 2 * RowLength
    ensures Rows(s)[2] == []
  {
  }

  /** Read one after another, the rows are the first 24 entries (or all of
      them when there are fewer), in order. */
  lemma RowsCover<T>(s: seq<T>)
    ensures var rows := Rows(s);
            rows[0] + rows[1] + rows[2] == s[..if |s| < 3 * RowLength then |s| else 3 * RowLength]
  {
    var rows := Rows(s);
    var m := if |s| < 3 * RowLength then |s| else 3 * RowLength;
    assert |rows[0] + rows[1] + rows[2]| == m;
    forall t | 0 <= t < m
      ensures (rows[0] + rows[1] + rows[2])[t] == s[t]
    {
      if t < |rows[0]| {
      } else if t < |rows[0]| + |rows[1]| {
        assert (rows[0] + rows[1] + rows[2])[t] == rows[1][t - |rows[0]|];
      } else {
        assert (rows[0] + rows[1] + rows[2])[t] == rows[2][t - |rows[0]| - |rows[1]|];
      }
    }
  }

  /** Exchange the entries at `i` and `j`. */
  function Swap<T>(s: seq<T>, i: nat, j: nat): (r: seq<T>)
    requires i < |s| && j < |s|
    ensures |r| == |s| && multiset(r) == multiset(s)
    ensures r[i] == s[j] && r[j] == s[i]
    ensures forall t :: 0 <= t < |s| && t != i && t != j ==> r[t] == s[t]
  {
    var r := s[i := s[j]][j := s[i]];
    SwapMultiset(s, i, j);
    r
  }

  lemma SwapMultiset<T>(s: seq<T>, i: nat, j: nat)
    requires i < |s| && j < |s|
    ensures multiset(s[i := s[j]][j := s[i]]) == multiset(s)
  {
  }

  /** Every swap stays inside a list of length `n`. */
  predicate SwapsWithin(swaps: seq<(nat, nat)>, n: nat) {
    forall t :: 0 <= t < |swaps| ==> swaps[t].0 < n && swaps[t].1 < n
  }

  /** The shuffle of line 39. Sorting with a random comparator rearranges
      the list by some sequence of exchanges; the model takes that sequence
      as a parameter. */
  function Shuffle<T>(s: seq<T>, swaps: seq<(nat, nat)>): (r: seq<T>)
    requires SwapsWithin(swaps, |s|)
    decreases |swaps|
    ensures |r| == |s| && multiset(r) == multiset(s)
  {
    if |swaps| == 0 then s else Shuffle(Swap(s, swaps[0].0, swaps[0].1), swaps[1..])
  }

  /** Every rearrangement is a shuffle: for any list with the same entries
      there is a sequence of exchanges that produces it. */
  lemma {:induction false} ShuffleComplete<T>(s: seq<T>, t: seq<T>) returns (swaps: seq<(nat, nat)>)
    requires multiset(s) == multiset(t)
    ensures SwapsWithin(swaps, |s|)
    ensures Shuffle(s, swaps) == t
  {
    assert |s| == |multiset(s)| == |multiset(t)| == |t|;
    assert s[..0] == t[..0] && s[0..] == s && t[0..] == t;
    swaps := SwapsFrom(s, t, 0);
  }

  /** Exchanges that turn `s` into `t` when they already agree below `k`. */
  lemma {:induction false} SwapsFrom<T>(s: seq<T>, t: seq<T>, k: nat) returns (swaps: seq<(nat, nat)>)
    requires |s| == |t| && k <= |s|
    requires s[..k] == t[..k] && multiset(s[k..]) == multiset(t[k..])
    decreases |s| - k
    ensures SwapsWithin(swaps, |s|)
    ensures Shuffle(s, swaps) == t
  {
    if k == |s| {
      assert s == s[..k] && t == t[..k];
      return [];
    }
    var p := FixOne(s, t, k);
    var rest := SwapsFrom(Swap(s, k, p), t, k + 1);
    swaps := [(k, p)] + rest;
    assert swaps[0] == (k, p) && swaps[1..] == rest;
  }

  /** One exchange that brings `t[k]` to position `k`, keeping the agreement
      below `k` and the multiset of the rest. */
  lemma FixOne<T>(s: seq<T>, t: seq<T>, k: nat) returns (p: nat)
    requires |s| == |t| && k < |s|
    requires s[..k] == t[..k] && multiset(s[k..]) == multiset(t[k..])
    ensures k <= p < |s|
    ensures Swap(s, k, p)[..k + 1] == t[..k + 1]
    ensures multiset(Swap(s, k, p)[k + 1..]) == multiset(t[k + 1..])
  {
    assert t[k] in multiset(t[k..]) by {
      assert t[k..][0] == t[k];
    }
    assert t[k] in multiset(s[k..]);
    var q :| 0 <= q < |s[k..]| && s[k..][q] == t[k];
    p := k + q;
    var s' := Swap(s, k, p);
    assert s'[..k] == s[..k];
    ExtendPrefix(s', t, k);
    SwapSuffixMultiset(s, k, p);
    DropCommonHead(s', t, k);
  }

  lemma ExtendPrefix<T>(a: seq<T>, b: seq<T>, k: nat)
    requires k < |a| && k < |b| && a[..k] == b[..k] && a[k] == b[k]
    ensures a[..k + 1] == b[..k + 1]
  {
    assert a[..k + 1] == a[..k] + [a[k]];
    assert b[..k + 1] == b[..k] + [b[k]];
  }

  lemma DropCommonHead<T>(a: seq<T>, b: seq<T>, k: nat)
    requires k < |a| && k < |b| && a[k] == b[k]
    requires multiset(a[k..]) == multiset(b[k..])
    ensures multiset(a[k + 1..]) == multiset(b[k + 1..])
  {
    assert a[k..] == [a[k]] + a[k + 1..];
    assert b[k..] == [b[k]] + b[k + 1..];
    assert multiset(a[k..]) == multiset{a[k]} + multiset(a[k + 1..]);
    assert multiset(b[k..]) == multiset{b[k]} + multiset(b[k + 1..]);
    assert multiset(a[k + 1..]) == multiset(a[k..]) - multiset{a[k]};
    assert multiset(b[k + 1..]) == multiset(b[k..]) - multiset{b[k]};
  }

  /** An exchange at or after `k` keeps the entries from `k` on as a multiset. */
  lemma SwapSuffixMultiset<T>(s: seq<T>, k: nat, p: nat)
    requires k <= p < |s|
    ensures multiset(Swap(s, k, p)[k..]) == multiset(s[k..])
  {
    var s' := Swap(s, k, p);
    assert s == s[..k] + s[k..];
    assert s' == s'[..k] + s'[k..];
    assert s'[..k] == s[..k];
  }

  /** The whole of `getLogoSets`: pad, shuffle, cut into rows. Every entry
      shown shows the picture of one of the original logos. */
  method LogoSets(logos: seq<MarqueeLogo>, suffix: Suffixes, swaps: seq<(nat, nat)>)
      returns (rows: seq<seq<MarqueeLogo>>)
    requires SwapsWithin(swaps, PadLength(|logos|))
    ensures |rows| == 3
    ensures forall k :: 0 <= k < 3 ==> |rows[k]| <= RowLength
    ensures |logos| > 0 ==> |rows[0]| == RowLength
    ensures |logos| == 0 ==> rows == [[], [], []]
    ensures forall k, t :: 0 <= k < 3 && 0 <= t < |rows[k]| ==> Face(rows[k][t]) in Faces(logos)
  {
    var padded, copies := PadLogos(logos, suffix);
    var shuffled := Shuffle(padded, swaps);
    rows := Rows(shuffled);
    ShownAreOriginals(logos, padded, copies, shuffled);
  }

  /** Every entry of the rows cut from a shuffle of the padded list shows an
      original logo's picture. */
  lemma ShownAreOriginals(logos: seq<MarqueeLogo>, padded: seq<MarqueeLogo>, copies: nat,
                          shuffled: seq<MarqueeLogo>)
    requires Faces(padded) == Repeat(Faces(logos), copies)
    requires multiset(shuffled) == multiset(padded)
    ensures forall k, t :: 0 <= k < 3 && 0 <= t < |Rows(shuffled)[k]| ==>
              Face(Rows(shuffled)[k][t]) in Faces(logos)
  {
    var rows := Rows(shuffled);
    forall k, t | 0 <= k < 3 && 0 <= t < |rows[k]|
      ensures Face(rows[k][t]) in Faces(logos)
    {
      var x := rows[k][t];
      assert x in multiset(shuffled) by {
        assert x == shuffled[8 * k + t];
      }
      assert x in multiset(padded);
      var q :| 0 <= q < |padded| && padded[q] == x;
      assert Faces(padded)[q] == Face(x);
      RepeatMembers(Faces(logos), copies, Face(x));
    }
  }
}
