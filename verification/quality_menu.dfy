/** `create_quality_keyboard`: the callback data of the quality menu built
    from yt_dlp's format list. Video formats are grouped by height, one kept
    per height (the largest file), the heights sorted from highest to lowest,
    at most six offered, then an audio entry and a cancel entry. */
module QualityMenu {
  import opened Wrappers
  import opened Decimal

  /** The `filesize` entry of a format dictionary: missing, present as
      `None`, or a byte count. */
  datatype FileSize = Missing | Null | Bytes(n: nat)

  /** The part of a yt_dlp format dictionary the menu reads. `vcodec` is
      `None` when the key is missing; `height` is 0 when it is missing,
      `None` or zero (all of which Python treats as false). */
  datatype VideoFormat = VideoFormat(vcodec: Option<string>, height: nat, filesize: FileSize)

  /** `fmt.get('vcodec') != 'none' and fmt.get('height')`: a format with a
      video stream and a known height. */
  predicate IsListed(f: VideoFormat) {
    f.vcodec != Some("none") && f.height > 0
  }

  /** The size used to compare two formats of one height, with a `None` size
      read as 0 just like a missing one. */
  function SizeOf(f: VideoFormat): nat {
    match f.filesize
    case Bytes(n) => n
    case _ => 0
  }

  /** The distinct heights of the listed formats. */
  ghost function ListedHeights(fs: seq<VideoFormat>): set<nat> {
    set i | 0 <= i < |fs| && IsListed(fs[i]) :: fs[i].height
  }

  predicate Distinct(s: seq<nat>) {
    forall i, j :: 0 <= i < j < |s| ==> s[i] != s[j]
  }

  /** The `video_formats` dictionary: its keys in insertion order and the
      format kept for each key. */
  datatype Table = Table(heights: seq<nat>, best: map<nat, VideoFormat>)

  const EmptyTable := Table([], map[])

  /** The keys are listed once each, and every kept format has its key's height. */
  ghost predicate Valid(t: Table) {
    && Distinct(t.heights)
    && (forall h :: h in t.heights <==> h in t.best)
    && (forall h :: h in t.best ==> t.best[h].height == h)
  }

  // ---------------------------------------------------------------------------
  // Grouping by height

  /** One iteration of the grouping loop: a listed format is kept when its
      height is new or when it is strictly larger than the format kept so far.
      Replacing a value keeps its key's position, as a Python dict does. */
  function Offer(t: Table, f: VideoFormat): Table {
    if !IsListed(f) then t
    else if f.height !in t.best then Table(t.heights + [f.height], t.best[f.height := f])
    else if SizeOf(f) > SizeOf(t.best[f.height]) then Table(t.heights, t.best[f.height := f])
    else t
  }

  /** Offering a format keeps a table valid and adds its height to the keys
      when it is listed. */
  lemma OfferValid(t: Table, f: VideoFormat)
    requires Valid(t)
    ensures Valid(Offer(t, f))
    ensures Offer(t, f).best.Keys == t.best.Keys + (if IsListed(f) then {f.height} else {})
  {
  }

  /** The listed heights of a list are those of its front plus its last
      format's height when that format is listed. */
  lemma ListedHeightsSnoc(fs: seq<VideoFormat>)
    requires |fs| > 0
    ensures var f := fs[|fs| - 1];
            ListedHeights(fs) == ListedHeights(fs[..|fs| - 1]) + (if IsListed(f) then {f.height} else {})
  {
    var prefix := fs[..|fs| - 1];
    var f := fs[|fs| - 1];
    forall h | h in ListedHeights(fs) ensures h in ListedHeights(prefix) || (IsListed(f) && h == f.height) {
      var i :| 0 <= i < |fs| && IsListed(fs[i]) && fs[i].height == h;
      if i < |fs| - 1 {
        assert prefix[i] == fs[i];
      }
    }
    forall h | h in ListedHeights(prefix) ensures h in ListedHeights(fs) {
      var i :| 0 <= i < |prefix| && IsListed(prefix[i]) && prefix[i].height == h;
      assert fs[i] == prefix[i];
    }
  }

  /** The grouping loop over the whole format list, in order. */
  function KeepLargest(fs: seq<VideoFormat>): (t: Table)
    ensures Valid(t)
    ensures t.best.Keys == ListedHeights(fs)
    decreases |fs|
  {
    if |fs| == 0 then EmptyTable
    else
      var prefix := fs[..|fs| - 1];
      var f := fs[|fs| - 1];
      ListedHeightsSnoc(fs);
      OfferValid(KeepLargest(prefix), f);
      Offer(KeepLargest(prefix), f)
  }

  /** `fs[i]` is a listed format of height `h`, no listed format of that
      height is larger, and every earlier one is strictly smaller. */
  ghost predicate IsLargestFirst(fs: seq<VideoFormat>, h: nat, i: int) {
    && 0 <= i < |fs|
    && IsListed(fs[i]) && fs[i].height == h
    && (forall j :: 0 <= j < |fs| && IsListed(fs[j]) && fs[j].height == h ==> SizeOf(fs[j]) <= SizeOf(fs[i]))
    && (forall j :: 0 <= j < i && IsListed(fs[j]) && fs[j].height == h ==> SizeOf(fs[j]) < SizeOf(fs[i]))
  }

  /** A largest-first index of a prefix stays one when a format that is not
      strictly larger is appended. */
  lemma ExtendLargestFirst(fs: seq<VideoFormat>, h: nat, i: int)
    requires |fs| > 0
    requires IsLargestFirst(fs[..|fs| - 1], h, i)
    requires IsListed(fs[|fs| - 1]) && fs[|fs| - 1].height == h ==> SizeOf(fs[|fs| - 1]) <= SizeOf(fs[i])
    ensures IsLargestFirst(fs, h, i)
  {
    var prefix := fs[..|fs| - 1];
    assert forall j :: 0 <= j < |prefix| ==> fs[j] == prefix[j];
  }

  /** The last format is the largest-first one for its height when it is
      strictly larger than every earlier format of that height. */
  lemma LastIsLargestFirst(fs: seq<VideoFormat>, h: nat)
    requires |fs| > 0 && IsListed(fs[|fs| - 1]) && fs[|fs| - 1].height == h
    requires forall j :: 0 <= j < |fs| - 1 && IsListed(fs[j]) && fs[j].height == h ==>
               SizeOf(fs[j]) < SizeOf(fs[|fs| - 1])
    ensures IsLargestFirst(fs, h, |fs| - 1)
  {
  }

  /** What one iteration does to the entry of height `h`: the offered format
      replaces it exactly when it is listed, of that height, and either new
      or strictly larger. */
  lemma OfferEntry(t: Table, f: VideoFormat, h: nat)
    ensures h in Offer(t, f).best <==> h in t.best || (IsListed(f) && f.height == h)
    ensures h in Offer(t, f).best ==>
              Offer(t, f).best[h] ==
              (if IsListed(f) && f.height == h && (h !in t.best || SizeOf(f) > SizeOf(t.best[h])) then f
               else t.best[h])
  {
  }

  /** A height absent from the table has no listed format so far. */
  lemma AbsentHeightUnlisted(fs: seq<VideoFormat>, h: nat)
    requires h !in KeepLargest(fs).best
    ensures forall j :: 0 <= j < |fs| && IsListed(fs[j]) ==> fs[j].height != h
  {
    forall j | 0 <= j < |fs| && IsListed(fs[j])
      ensures fs[j].height != h
    {
      assert fs[j].height in ListedHeights(fs);
    }
  }

  /** The format kept for each height is one of the listed formats of that
      height; no listed format of that height is larger; and every earlier
      format of that height is strictly smaller, so the first of several
      equally large formats is the one kept. */
  lemma {:induction false} KeepLargestKeepsLargest(fs: seq<VideoFormat>, h: nat)
    requires h in KeepLargest(fs).best
    ensures exists i :: IsLargestFirst(fs, h, i) && fs[i] == KeepLargest(fs).best[h]
    decreases |fs|
  {
    var n := |fs| - 1;
    var prefix := fs[..n];
    var f := fs[n];
    var before := KeepLargest(prefix);
    assert KeepLargest(fs) == Offer(before, f);
    OfferEntry(before, f, h);
    if h !in before.best {
      AbsentHeightUnlisted(prefix, h);
      assert forall j :: 0 <= j < n ==> fs[j] == prefix[j];
      LastIsLargestFirst(fs, h);
      assert IsLargestFirst(fs, h, n) && fs[n] == KeepLargest(fs).best[h];
    } else {
      KeepLargestKeepsLargest(prefix, h);
      var i :| IsLargestFirst(prefix, h, i) && prefix[i] == before.best[h];
      if IsListed(f) && f.height == h && SizeOf(f) > SizeOf(before.best[h]) {
        assert forall j :: 0 <= j < n ==> fs[j] == prefix[j];
        LastIsLargestFirst(fs, h);
        assert IsLargestFirst(fs, h, n) && fs[n] == KeepLargest(fs).best[h];
      } else {
        ExtendLargestFirst(fs, h, i);
        assert IsLargestFirst(fs, h, i) && fs[i] == KeepLargest(fs).best[h];
      }
    }
  }

  // ---------------------------------------------------------------------------
  // The grouping loop as written: `None > 0` raises in Python

  /** The exception Python raises when `>` compares `None` with a number. */
  datatype PythonError = TypeError

  /** `fmt.get('filesize', 0)`: a missing size reads as 0, a `None` size stays `None`. */
  function RawSize(f: VideoFormat): Option<nat> {
    match f.filesize
    case Missing => Some(0)
    case Null => None
    case Bytes(n) => Some(n)
  }

  /** Python's `a > b` on two sizes, each a number or `None`. */
  function GreaterAsWritten(a: Option<nat>, b: Option<nat>): (r: Result<bool, PythonError>)
    ensures r.Failure? <==> a.None? || b.None?
  {
    if a.Some? && b.Some? then Success(a.value > b.value) else Failure(TypeError)
  }

  /** One iteration of the loop at bot.py:151-156 as written. */
  function OfferAsWritten(t: Table, f: VideoFormat): Result<Table, PythonError> {
    if !IsListed(f) then Success(t)
    else if f.height !in t.best then Success(Table(t.heights + [f.height], t.best[f.height := f]))
    else
      match GreaterAsWritten(RawSize(f), RawSize(t.best[f.height]))
      case Failure(e) => Failure(e)
      case Success(true) => Success(Table(t.heights, t.best[f.height := f]))
      case Success(false) => Success(t)
  }

  /** The loop at bot.py:151-156 as written: the first raised error ends it. */
  function KeepLargestAsWritten(fs: seq<VideoFormat>): Result<Table, PythonError>
    decreases |fs|
  {
    if |fs| == 0 then Success(EmptyTable)
    else
      match KeepLargestAsWritten(fs[..|fs| - 1])
      case Failure(e) => Failure(e)
      case Success(t) => OfferAsWritten(t, fs[|fs| - 1])
  }

  /** One iteration as written agrees with the corrected one when neither
      size it compares is `None`. */
  lemma OfferAsWrittenAgrees(t: Table, f: VideoFormat)
    requires f.filesize != Null
    requires f.height in t.best ==> t.best[f.height].filesize != Null
    ensures OfferAsWritten(t, f) == Success(Offer(t, f))
  {
  }

  /** Without `None` sizes the loop as written and the corrected loop agree. */
  lemma {:induction false} AsWrittenAgreesWithoutNullSize(fs: seq<VideoFormat>)
    requires forall i :: 0 <= i < |fs| ==> fs[i].filesize != Null
    ensures KeepLargestAsWritten(fs) == Success(KeepLargest(fs))
    decreases |fs|
  {
    if |fs| > 0 {
      var prefix := fs[..|fs| - 1];
      var f := fs[|fs| - 1];
      var t := KeepLargest(prefix);
      assert forall i :: 0 <= i < |prefix| ==> prefix[i] == fs[i];
      AsWrittenAgreesWithoutNullSize(prefix);
      if f.height in t.best {
        KeepLargestKeepsLargest(prefix, f.height);
        var i :| IsLargestFirst(prefix, f.height, i) && prefix[i] == t.best[f.height];
      }
      OfferAsWrittenAgrees(t, f);
    }
  }

  /** Two 720p formats, the second with a `None` size (as yt_dlp reports for
      streams of unknown size): the loop as written raises, while the
      corrected loop keeps the first. */
  lemma AsWrittenRaisesOnNullSize()
    ensures var fs := [VideoFormat(Some("avc1"), 720, Bytes(1000)), VideoFormat(Some("vp9"), 720, Null)];
            && KeepLargestAsWritten(fs) == Failure(TypeError)
            && KeepLargest(fs).best[720] == fs[0]
  {
    var fs := [VideoFormat(Some("avc1"), 720, Bytes(1000)), VideoFormat(Some("vp9"), 720, Null)];
    assert fs[..1] == [fs[0]];
    assert fs[..1][..0] == [];
  }

  /** `fs[j]` and `fs[i]` are both listed and have the same height, so the
      loop compares the later one's size with the size kept for that height. */
  predicate SameListedHeight(fs: seq<VideoFormat>, j: int, i: int)
    requires 0 <= j < |fs| && 0 <= i < |fs|
  {
    IsListed(fs[j]) && IsListed(fs[i]) && fs[j].height == fs[i].height
  }

  /** Some pair of listed formats of one height, one of them with a `None`
      size: the loop as written reaches a comparison with `None`. */
  ghost predicate ComparesNullSize(fs: seq<VideoFormat>) {
    exists i, j | 0 <= j < i < |fs| ::
      SameListedHeight(fs, j, i) && (fs[i].filesize == Null || fs[j].filesize == Null)
  }

  /** Such a pair that ends at the last format. */
  ghost predicate LastComparesNullSize(fs: seq<VideoFormat>)
    requires |fs| > 0
  {
    exists j | 0 <= j < |fs| - 1 ::
      SameListedHeight(fs, j, |fs| - 1) && (fs[|fs| - 1].filesize == Null || fs[j].filesize == Null)
  }

  /** A pair in the whole list is a pair in its front or one ending at the
      last format. */
  lemma ComparesNullSizeSnoc(fs: seq<VideoFormat>)
    requires |fs| > 0
    ensures ComparesNullSize(fs) <==> ComparesNullSize(fs[..|fs| - 1]) || LastComparesNullSize(fs)
  {
    var prefix := fs[..|fs| - 1];
    assert forall k :: 0 <= k < |prefix| ==> prefix[k] == fs[k];
    if ComparesNullSize(fs) && !LastComparesNullSize(fs) {
      var i, j :| 0 <= j < i < |fs| && SameListedHeight(fs, j, i) && (fs[i].filesize == Null || fs[j].filesize == Null);
      assert i < |fs| - 1;
      assert SameListedHeight(prefix, j, i);
    }
    if ComparesNullSize(prefix) {
      var i, j :| 0 <= j < i < |prefix| && SameListedHeight(prefix, j, i) && (prefix[i].filesize == Null || prefix[j].filesize == Null);
      assert SameListedHeight(fs, j, i);
    }
  }

  /** Every kept format is a listed format of the list with its key's height,
      and the keys are exactly the listed heights. */
  ghost predicate KeptFromList(t: Table, fs: seq<VideoFormat>) {
    && t.best.Keys == ListedHeights(fs)
    && forall h :: h in t.best ==>
         exists j | 0 <= j < |fs| :: IsListed(fs[j]) && fs[j].height == h && t.best[h] == fs[j]
  }

  /** One step of the loop as written, from a table kept from a list whose
      front has no pair comparing with `None`, raises exactly when the last
      format makes such a pair. */
  lemma OfferAsWrittenRaises(fs: seq<VideoFormat>, t: Table)
    requires |fs| > 0
    requires !ComparesNullSize(fs[..|fs| - 1]) && KeptFromList(t, fs[..|fs| - 1])
    ensures OfferAsWritten(t, fs[|fs| - 1]).Failure? <==> LastComparesNullSize(fs)
  {
    var n := |fs| - 1;
    var prefix := fs[..n];
    var f := fs[n];
    assert forall k :: 0 <= k < n ==> prefix[k] == fs[k];
    if IsListed(f) && f.height in t.best {
      var j :| 0 <= j < n && IsListed(prefix[j]) && prefix[j].height == f.height && t.best[f.height] == prefix[j];
      assert SameListedHeight(fs, j, n);
      if LastComparesNullSize(fs) && f.filesize != Null {
        var k :| 0 <= k < n && SameListedHeight(fs, k, n) && fs[k].filesize == Null;
        if k < j {
          assert SameListedHeight(prefix, k, j);
        } else if j < k {
          assert SameListedHeight(prefix, j, k);
        }
      }
    } else if IsListed(f) {
      assert f.height !in ListedHeights(prefix);
    }
  }

  /** The same step keeps every kept format one of the listed formats. */
  lemma OfferAsWrittenKeeps(fs: seq<VideoFormat>, t: Table)
    requires |fs| > 0 && KeptFromList(t, fs[..|fs| - 1])
    ensures OfferAsWritten(t, fs[|fs| - 1]).Success? ==> KeptFromList(OfferAsWritten(t, fs[|fs| - 1]).value, fs)
  {
    var n := |fs| - 1;
    var prefix := fs[..n];
    var f := fs[n];
    ListedHeightsSnoc(fs);
    match OfferAsWritten(t, f)
    case Failure(_) =>
    case Success(u) =>
      forall h | h in u.best
        ensures exists j | 0 <= j < |fs| :: IsListed(fs[j]) && fs[j].height == h && u.best[h] == fs[j]
      {
        if IsListed(f) && h == f.height && u.best[h] == f {
          assert IsListed(fs[n]) && fs[n].height == h && u.best[h] == fs[n];
        } else {
          var j :| 0 <= j < n && IsListed(prefix[j]) && prefix[j].height == h && t.best[h] == prefix[j];
          assert fs[j] == prefix[j];
        }
      }
  }

  /** The loop as written raises exactly when two listed formats of one
      height meet and one of them has a `None` size; otherwise every kept
      format is one of the listed formats of its height. */
  lemma {:induction false} AsWrittenRaisesIffNullCompared(fs: seq<VideoFormat>)
    ensures KeepLargestAsWritten(fs).Failure? <==> ComparesNullSize(fs)
    ensures KeepLargestAsWritten(fs).Success? ==> KeptFromList(KeepLargestAsWritten(fs).value, fs)
    decreases |fs|
  {
    if |fs| == 0 {
      assert ListedHeights(fs) == {};
    } else {
      var prefix := fs[..|fs| - 1];
      AsWrittenRaisesIffNullCompared(prefix);
      ComparesNullSizeSnoc(fs);
      match KeepLargestAsWritten(prefix)
      case Failure(_) =>
      case Success(t) =>
        OfferAsWrittenRaises(fs, t);
        OfferAsWrittenKeeps(fs, t);
    }
  }

  // ---------------------------------------------------------------------------
  // Sorting the heights from highest to lowest

  predicate NonIncreasing(s: seq<nat>) {
    forall i, j :: 0 <= i < j < |s| ==> s[i] >= s[j]
  }

  predicate Decreasing(s: seq<nat>) {
    forall i, j :: 0 <= i < j < |s| ==> s[i] > s[j]
  }

  /** Every entry of `a` is `extra` or an entry of `b` when `a` holds the
      elements of `b` and `extra`. */
  lemma MultisetMembers(a: seq<nat>, b: seq<nat>, extra: nat)
    requires multiset(a) == multiset(b) + multiset{extra}
    ensures forall k :: 0 <= k < |a| ==> a[k] == extra || a[k] in b
  {
    forall k | 0 <= k < |a| ensures a[k] == extra || a[k] in b {
      assert a[k] in multiset(a);
    }
  }

  /** Inserts `x` into a non-increasing sequence, keeping it non-increasing. */
  function InsertDescending(x: nat, s: seq<nat>): (r: seq<nat>)
    requires NonIncreasing(s)
    ensures NonIncreasing(r)
    ensures multiset(r) == multiset(s) + multiset{x}
    ensures Distinct(s) && x !in s ==> Distinct(r)
    decreases |s|
  {
    if |s| == 0 || x >= s[0] then [x] + s
    else
      var rest := InsertDescending(x, s[1..]);
      PrependHead(x, s, rest);
      PrependHeadDistinct(x, s, rest);
      [s[0]] + rest
  }

  /** The step of `InsertDescending` that keeps the head in front: the result
      stays ordered and holds the right elements. */
  lemma PrependHead(x: nat, s: seq<nat>, rest: seq<nat>)
    requires |s| > 0 && x < s[0] && NonIncreasing(s)
    requires NonIncreasing(rest) && multiset(rest) == multiset(s[1..]) + multiset{x}
    ensures NonIncreasing([s[0]] + rest)
    ensures multiset([s[0]] + rest) == multiset(s) + multiset{x}
  {
    var tail := s[1..];
    assert s == [s[0]] + tail;
    MultisetMembers(rest, tail, x);
    assert forall k :: 0 <= k < |rest| ==> rest[k] <= s[0];
  }

  /** The same step keeps distinct values distinct. */
  lemma PrependHeadDistinct(x: nat, s: seq<nat>, rest: seq<nat>)
    requires |s| > 0 && multiset(rest) == multiset(s[1..]) + multiset{x}
    requires Distinct(s[1..]) && x !in s[1..] ==> Distinct(rest)
    ensures Distinct(s) && x !in s ==> Distinct([s[0]] + rest)
  {
    if Distinct(s) && x !in s {
      var tail := s[1..];
      assert s == [s[0]] + tail;
      assert x !in tail;
      MultisetMembers(rest, tail, x);
      assert forall k :: 0 <= k < |rest| ==> rest[k] != s[0];
    }
  }

  /** `sorted(keys, reverse=True)`: the same values, from highest to lowest. */
  function SortDescending(s: seq<nat>): (r: seq<nat>)
    ensures NonIncreasing(r)
    ensures multiset(r) == multiset(s)
    ensures Distinct(s) ==> Distinct(r)
    decreases |s|
  {
    if |s| == 0 then []
    else
      var n := |s| - 1;
      assert s == s[..n] + [s[n]];
      assert Distinct(s) ==> s[n] !in multiset(SortDescending(s[..n]));
      InsertDescending(s[n], SortDescending(s[..n]))
  }

  // ---------------------------------------------------------------------------
  // The menu

  /** At most this many video qualities are offered (`sorted_qualities[:6]`). */
  const MaxVideoButtons: nat := 6

  function Min(a: nat, b: nat): nat {
    if a <= b then a else b
  }

  /** The heights offered, from highest to lowest. */
  function TopHeights(fs: seq<VideoFormat>): seq<nat> {
    var sorted := SortDescending(KeepLargest(fs).heights);
    sorted[..Min(MaxVideoButtons, |sorted|)]
  }

  /** A repetition-free sequence has as many distinct elements as entries. */
  lemma {:induction false} DistinctCardinality(s: seq<nat>)
    requires Distinct(s)
    ensures |set x: nat | x in s| == |s|
    decreases |s|
  {
    if |s| > 0 {
      var n := |s| - 1;
      var front := s[..n];
      assert Distinct(front);
      DistinctCardinality(front);
      var all := set x: nat | x in s;
      var before := set x: nat | x in front;
      assert s == front + [s[n]];
      assert all == before + {s[n]};
      assert s[n] !in before;
    } else {
      assert (set x: nat | x in s) == {};
    }
  }

  /** A permutation holds the same members. */
  lemma PermutationMembers(a: seq<nat>, b: seq<nat>)
    requires multiset(a) == multiset(b)
    ensures forall x :: x in a <==> x in b
    ensures |a| == |b|
  {
    forall x ensures x in a <==> x in b {
      assert x in a <==> x in multiset(a);
      assert x in b <==> x in multiset(b);
    }
    assert |multiset(a)| == |multiset(b)|;
  }

  /** The sorted keys of the grouping table: strictly decreasing, and exactly
      the listed heights. */
  lemma SortedHeights(fs: seq<VideoFormat>)
    ensures var sorted := SortDescending(KeepLargest(fs).heights);
            && Decreasing(sorted)
            && (forall x :: x in sorted <==> x in ListedHeights(fs))
            && |sorted| == |ListedHeights(fs)|
  {
    var t := KeepLargest(fs);
    var sorted := SortDescending(t.heights);
    PermutationMembers(sorted, t.heights);
    assert forall x :: x in sorted <==> x in ListedHeights(fs);
    assert ListedHeights(fs) == set x: nat | x in sorted;
    DistinctCardinality(sorted);
  }

  /** In a strictly decreasing sequence, an element outside the first
      `min(6, length)` entries only exists when six are taken, and is below
      all of them. */
  lemma PrefixHoldsLargest(sorted: seq<nat>, h: nat)
    requires Decreasing(sorted) && h in sorted
    requires h !in sorted[..Min(MaxVideoButtons, |sorted|)]
    ensures Min(MaxVideoButtons, |sorted|) == MaxVideoButtons
    ensures h < sorted[MaxVideoButtons - 1]
  {
    var k :| 0 <= k < |sorted| && sorted[k] == h;
    var m := Min(MaxVideoButtons, |sorted|);
    assert k >= m;
  }

  /** The first `min(6, length)` entries of a strictly decreasing listing of
      a set are its largest elements. */
  lemma PrefixOfSortedSet(sorted: seq<nat>, hs: set<nat>)
    requires Decreasing(sorted) && |sorted| == |hs|
    requires forall x :: x in sorted <==> x in hs
    ensures var top := sorted[..Min(MaxVideoButtons, |sorted|)];
            && |top| == Min(MaxVideoButtons, |hs|)
            && Decreasing(top)
            && (forall i :: 0 <= i < |top| ==> top[i] in hs)
            && (forall h :: h in hs && h !in top ==>
                  |top| == MaxVideoButtons && h < top[|top| - 1])
  {
    var top := sorted[..Min(MaxVideoButtons, |sorted|)];
    forall i | 0 <= i < |top| ensures top[i] in hs {
      assert top[i] == sorted[i];
    }
    forall h | h in hs && h !in top
      ensures |top| == MaxVideoButtons && h < top[|top| - 1]
    {
      PrefixHoldsLargest(sorted, h);
    }
  }

  /** The offered heights are the `min(6, #heights)` highest listed heights,
      strictly decreasing; a listed height that is not offered is lower than
      every offered one, and is only left out when six are offered. */
  lemma TopHeightsAreLargest(fs: seq<VideoFormat>)
    ensures var top := TopHeights(fs);
            && |top| == Min(MaxVideoButtons, |ListedHeights(fs)|)
            && Decreasing(top)
            && (forall i :: 0 <= i < |top| ==> top[i] in ListedHeights(fs))
            && (forall h :: h in ListedHeights(fs) && h !in top ==>
                  |top| == MaxVideoButtons && h < top[|top| - 1])
  {
    var sorted := SortDescending(KeepLargest(fs).heights);
    SortedHeights(fs);
    PrefixOfSortedSet(sorted, ListedHeights(fs));
  }

  /** The callback data of the button for one height (`f"video_{quality}"`). */
  function VideoCallback(h: nat): string {
    VideoPrefix + NatToString(h)
  }

  /** The prefix of every video button's callback data. */
  const VideoPrefix: string := "video_"
  const AudioCallback: string := "audio_mp3"
  const CancelCallback: string := "cancel"

  /** The callback data of the whole menu, top to bottom: one entry per
      offered height from highest to lowest, then audio, then cancel. */
  function MenuCallbacks(fs: seq<VideoFormat>): (r: seq<string>)
    ensures |r| == |TopHeights(fs)| + 2
    ensures r[|r| - 2] == AudioCallback && r[|r| - 1] == CancelCallback
    ensures forall i :: 0 <= i < |r| - 2 ==> r[i] == VideoCallback(TopHeights(fs)[i])
  {
    var top := TopHeights(fs);
    seq(|top|, i requires 0 <= i < |top| => VideoCallback(top[i])) + [AudioCallback, CancelCallback]
  }
}
