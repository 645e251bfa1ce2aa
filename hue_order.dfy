/**
 * `order_by_hue`: the colours' HSV triples, sorted by hue with Python's
 * stable `list.sort`, converted back to integer RGB.
 *
 * `StableSort` is the reference definition of a stable sort by hue
 * (insertion from the back). Its lemmas say that it is sorted, that for
 * every hue it keeps the triples of that hue in their input order (which
 * makes it a permutation), and that these two properties pin the result down
 * uniquely, so any stable sort, Python's included, computes it. `SortByHue`
 * sorts an array in place and is proved to compute `StableSort`.
 */
module HueOrder {
  import opened ColorSpace

  /** Hues never decrease along s. */
  predicate SortedByHue(s: seq<Hsv>)
  {
    forall i, j :: 0 <= i < j < |s| ==> s[i].h <= s[j].h
  }

  /** The triples of s whose hue is k, in their order in s. */
  function WithHue(s: seq<Hsv>, k: real): seq<Hsv>
  {
    if s == [] then []
    else WithHue(s[..|s| - 1], k) + (if s[|s| - 1].h == k then [s[|s| - 1]] else [])
  }

  /** Every triple in the subsequence of hue k occurs in s and has hue k. */
  lemma {:induction false} WithHueMember(s: seq<Hsv>, k: real, x: Hsv)
    requires x in WithHue(s, k)
    ensures x in s && x.h == k
  {
    if s != [] {
      var init, last := s[..|s| - 1], s[|s| - 1];
      if x in WithHue(init, k) {
        WithHueMember(init, k, x);
        assert init[..] == s[..|s| - 1];
      }
    }
  }

  /** Peeling the last triple off s peels it off the subsequence of its hue, and off no other. */
  lemma WithHueSnoc(s: seq<Hsv>, x: Hsv, k: real)
    ensures WithHue(s + [x], k) == WithHue(s, k) + (if x.h == k then [x] else [])
  {
    assert (s + [x])[..|s + [x]| - 1] == s;
  }

  /**
   * Python's `sort` step for one more triple: x goes after every triple
   * whose hue is not greater than its own, so equal hues keep their order.
   */
  function Insert(s: seq<Hsv>, x: Hsv): (r: seq<Hsv>)
    ensures |r| == |s| + 1
  {
    if s == [] || s[|s| - 1].h <= x.h then s + [x]
    else Insert(s[..|s| - 1], x) + [s[|s| - 1]]
  }

  /** Inserting adds x and keeps every other triple. */
  lemma {:induction false} InsertPermutes(s: seq<Hsv>, x: Hsv)
    ensures multiset(Insert(s, x)) == multiset(s) + multiset{x}
  {
    if s != [] && s[|s| - 1].h > x.h {
      InsertPermutes(s[..|s| - 1], x);
      assert s == s[..|s| - 1] + [s[|s| - 1]];
    }
  }

  /** Inserting into a sorted sequence keeps it sorted. */
  lemma {:induction false} InsertSorted(s: seq<Hsv>, x: Hsv)
    requires SortedByHue(s)
    ensures SortedByHue(Insert(s, x))
  {
    if s == [] || s[|s| - 1].h <= x.h {
    } else {
      var init, last := s[..|s| - 1], s[|s| - 1];
      InsertSorted(init, x);
      var r := Insert(init, x);
      InsertPermutes(init, x);
      forall y | y in r
        ensures y.h <= last.h
      {
        assert y in multiset(r);
        if y != x {
          assert y in multiset(init);
          var i :| 0 <= i < |init| && init[i] == y;
          assert s[i] == y;
        }
      }
      forall i, j | 0 <= i < j < |r + [last]|
        ensures (r + [last])[i].h <= (r + [last])[j].h
      {
        if j == |r| {
          assert r[i] in r;
        }
      }
    }
  }

  /** Inserting x adds x at the end of the triples of its hue and leaves every other hue alone. */
  lemma {:induction false} InsertWithHue(s: seq<Hsv>, x: Hsv, k: real)
    ensures WithHue(Insert(s, x), k) == WithHue(s, k) + (if x.h == k then [x] else [])
  {
    if s == [] || s[|s| - 1].h <= x.h {
      WithHueSnoc(s, x, k);
    } else {
      var init, last := s[..|s| - 1], s[|s| - 1];
      InsertWithHue(init, x, k);
      WithHueSnoc(Insert(init, x), last, k);
      WithHueSnoc(init, last, k);
      assert init + [last] == s;
    }
  }

  /**
   * Where x lands: after a prefix p whose last hue is not greater than x's,
   * before a suffix q whose hues are all greater.
   */
  lemma {:induction false} InsertAt(p: seq<Hsv>, x: Hsv, q: seq<Hsv>)
    requires p == [] || p[|p| - 1].h <= x.h
    requires forall t :: 0 <= t < |q| ==> q[t].h > x.h
    ensures Insert(p + q, x) == p + [x] + q
  {
    if q == [] {
      assert p + q == p;
    } else {
      var q', last := q[..|q| - 1], q[|q| - 1];
      assert q == q' + [last];
      InsertAt(p, x, q');
      var s := p + q;
      assert s == (p + q') + [last];
      assert s[..|s| - 1] == p + q';
      assert Insert(s, x) == Insert(p + q', x) + [last];
    }
  }

  /** The reference stable sort by hue: insert each triple in turn. */
  function StableSort(s: seq<Hsv>): (r: seq<Hsv>)
    ensures |r| == |s|
  {
    if s == [] then []
    else Insert(StableSort(s[..|s| - 1]), s[|s| - 1])
  }

  /** The result is a permutation of the input. */
  lemma {:induction false} StableSortPermutes(s: seq<Hsv>)
    ensures multiset(StableSort(s)) == multiset(s)
  {
    if s != [] {
      StableSortPermutes(s[..|s| - 1]);
      InsertPermutes(StableSort(s[..|s| - 1]), s[|s| - 1]);
      assert s == s[..|s| - 1] + [s[|s| - 1]];
    }
  }

  /** The result is sorted non-decreasing by hue. */
  lemma {:induction false} StableSortSorted(s: seq<Hsv>)
    ensures SortedByHue(StableSort(s))
  {
    if s != [] {
      StableSortSorted(s[..|s| - 1]);
      InsertSorted(StableSort(s[..|s| - 1]), s[|s| - 1]);
    }
  }

  /** Stability: for every hue, the triples of that hue come out in their input order. */
  lemma {:induction false} StableSortKeepsHueOrder(s: seq<Hsv>, k: real)
    ensures WithHue(StableSort(s), k) == WithHue(s, k)
  {
    if s != [] {
      var init, last := s[..|s| - 1], s[|s| - 1];
      StableSortKeepsHueOrder(init, k);
      InsertWithHue(StableSort(init), last, k);
    }
  }

  /** A prefix of a sorted sequence is sorted. */
  lemma SortedPrefix(s: seq<Hsv>, n: nat)
    requires SortedByHue(s) && n <= |s|
    ensures SortedByHue(s[..n])
  {
  }

  /** The last triple of a nonempty t occurs in every u that has the same triples of each hue. */
  lemma LastOccurs(t: seq<Hsv>, u: seq<Hsv>)
    requires t != []
    requires forall k :: WithHue(t, k) == WithHue(u, k)
    ensures t[|t| - 1] in u
  {
    var x := t[|t| - 1];
    WithHueSnoc(t[..|t| - 1], x, x.h);
    assert t[..|t| - 1] + [x] == t;
    assert x in WithHue(u, x.h);
    WithHueMember(u, x.h, x);
  }

  /** Equal sequences with equal tails have equal heads. */
  lemma AppendCancel(a: seq<Hsv>, b: seq<Hsv>, e: seq<Hsv>)
    requires a + e == b + e
    ensures a == b
  {
    assert a == (a + e)[..|a|];
    assert b == (b + e)[..|b|];
  }

  /** Dropping the same last triple from both keeps the triples of each hue equal. */
  lemma DropLast(t': seq<Hsv>, u': seq<Hsv>, x: Hsv)
    requires forall k :: WithHue(t' + [x], k) == WithHue(u' + [x], k)
    ensures forall k :: WithHue(t', k) == WithHue(u', k)
  {
    forall k
      ensures WithHue(t', k) == WithHue(u', k)
    {
      WithHueSnoc(t', x, k);
      WithHueSnoc(u', x, k);
      AppendCancel(WithHue(t', k), WithHue(u', k), if x.h == k then [x] else []);
    }
  }

  /** Two sorted sequences with the same triples of every hue, in the same order, have the same last triple. */
  lemma SameLast(t': seq<Hsv>, x: Hsv, u': seq<Hsv>, y: Hsv)
    requires SortedByHue(t' + [x]) && SortedByHue(u' + [y])
    requires forall k :: WithHue(t' + [x], k) == WithHue(u' + [y], k)
    ensures x == y
  {
    var t, u := t' + [x], u' + [y];
    // x occurs in u, whose last hue is the greatest, and symmetrically.
    LastOccurs(t, u);
    LastOccurs(u, t);
    var i :| 0 <= i < |u| && u[i] == x;
    var j :| 0 <= j < |t| && t[j] == y;
    assert x.h == y.h;
    WithHueSnoc(t', x, x.h);
    WithHueSnoc(u', y, x.h);
    var a, b := WithHue(t, x.h), WithHue(u, x.h);
    assert a[|a| - 1] == x && b[|b| - 1] == y;
  }

  /** Two sorted sequences with the same triples of every hue, in the same order, are equal. */
  lemma {:induction false} SortedSameHuesEqual(t: seq<Hsv>, u: seq<Hsv>)
    requires SortedByHue(t) && SortedByHue(u)
    requires forall k :: WithHue(t, k) == WithHue(u, k)
    ensures t == u
    decreases |t|
  {
    if t == [] || u == [] {
      if t != [] {
        LastOccurs(t, u);
      }
      if u != [] {
        LastOccurs(u, t);
      }
    } else {
      var t', x := t[..|t| - 1], t[|t| - 1];
      var u', y := u[..|u| - 1], u[|u| - 1];
      assert t == t' + [x] && u == u' + [y];
      SameLast(t', x, u', y);
      DropLast(t', u', x);
      SortedPrefix(t, |t'|);
      SortedPrefix(u, |u'|);
      SortedSameHuesEqual(t', u');
    }
  }

  /**
   * Sortedness and stability characterise the result: any sorted arrangement
   * that keeps every hue's triples in input order is `StableSort(s)`.
   */
  lemma StableSortUnique(s: seq<Hsv>, t: seq<Hsv>)
    requires SortedByHue(t)
    requires forall k :: WithHue(t, k) == WithHue(s, k)
    ensures t == StableSort(s)
  {
    StableSortSorted(s);
    forall k
      ensures WithHue(t, k) == WithHue(StableSort(s), k)
    {
      StableSortKeepsHueOrder(s, k);
    }
    SortedSameHuesEqual(t, StableSort(s));
  }

  /** Sorting a second time changes nothing. */
  lemma StableSortIdempotent(s: seq<Hsv>)
    ensures StableSort(StableSort(s)) == StableSort(s)
  {
    StableSortSorted(s);
    StableSortUnique(StableSort(s), StableSort(s));
  }

  /**
   * The state after b[i] has moved down to slot j: it is the insertion of
   * b[i] into b[..i].
   */
  lemma SunkIsInsert(b: seq<Hsv>, c: seq<Hsv>, i: int, j: int)
    requires 0 <= j <= i < |b| == |c|
    requires c[j] == b[i]
    requires forall t :: 0 <= t < j ==> c[t] == b[t]
    requires forall t :: j < t <= i ==> c[t] == b[t - 1] && c[t].h > b[i].h
    requires j == 0 || c[j - 1].h <= b[i].h
    ensures c[..i + 1] == Insert(b[..i], b[i])
  {
    var p, x, q := b[..j], b[i], b[j..i];
    assert forall t :: 0 <= t < |q| ==> q[t].h > x.h by {
      forall t | 0 <= t < |q|
        ensures q[t].h > x.h
      {
        assert q[t] == c[j + 1 + t];
      }
    }
    assert p == [] || p[|p| - 1].h <= x.h by {
      if j > 0 {
        assert p[|p| - 1] == c[j - 1];
      }
    }
    assert c[..i + 1] == p + [x] + q by {
      Splice(b, c, i, j);
    }
    InsertAt(p, x, q);
    assert p + q == b[..i];
  }

  /** Slots 0..i of c are b[..j], then b[i], then b[j..i]. */
  lemma Splice(b: seq<Hsv>, c: seq<Hsv>, i: int, j: int)
    requires 0 <= j <= i < |b| == |c|
    requires c[j] == b[i]
    requires forall t :: 0 <= t < j ==> c[t] == b[t]
    requires forall t :: j < t <= i ==> c[t] == b[t - 1]
    ensures c[..i + 1] == b[..j] + [b[i]] + b[j..i]
  {
    var r := b[..j] + [b[i]] + b[j..i];
    forall t | 0 <= t <= i
      ensures c[t] == r[t]
    {
      if t < j {
        assert r[t] == b[t];
      } else if t > j {
        assert r[t] == b[t - 1];
      }
    }
  }

  /**
   * One step of the sort: a[i] moves down past the triples before it whose
   * hue is greater, by adjacent swaps.
   */
  method SinkByHue(a: array<Hsv>, i: int)
    requires 0 <= i < a.Length
    modifies a
    ensures a[..i + 1] == Insert(old(a[..i]), old(a[i]))
    ensures a[i + 1..] == old(a[i + 1..])
  {
    ghost var b := a[..];
    var x := a[i];
    var j := i;
    while j > 0 && a[j - 1].h > x.h
      invariant 0 <= j <= i
      invariant a[j] == x
      invariant forall t :: 0 <= t < j ==> a[t] == b[t]
      invariant forall t :: j < t <= i ==> a[t] == b[t - 1] && a[t].h > x.h
      invariant forall t :: i < t < a.Length ==> a[t] == b[t]
    {
      a[j - 1], a[j] := a[j], a[j - 1];
      j := j - 1;
    }
    SunkIsInsert(b, a[..], i, j);
    assert a[i + 1..] == b[i + 1..];
  }

  /** `hsvs.sort(key=lambda t: t[0])`: sorts the array in place, stably, by hue. */
  method SortByHue(a: array<Hsv>)
    modifies a
    ensures a[..] == StableSort(old(a[..]))
  {
    var i := 0;
    while i < a.Length
      invariant 0 <= i <= a.Length
      invariant a[..i] == StableSort(old(a[..])[..i])
      invariant a[i..] == old(a[..])[i..]
    {
      assert a[i] == old(a[..])[i] by {
        assert a[i..][0] == old(a[..])[i..][0];
      }
      SinkByHue(a, i);
      assert old(a[..])[..i + 1][..i] == old(a[..])[..i];
      i := i + 1;
    }
    assert a[..] == a[..a.Length];
    assert old(a[..]) == old(a[..])[..a.Length];
  }

  /** `[rgb_to_hsv(*map(down_scale, color)) for color in colors]`. */
  function HsvsOf(cs: ColorSys, colors: seq<Rgb>): (hsvs: seq<Hsv>)
    ensures |hsvs| == |colors|
  {
    seq(|colors|, i requires 0 <= i < |colors| => ToHsv(cs, colors[i]))
  }

  /** `[tuple(map(up_scale, hsv_to_rgb(*hsv))) for hsv in hsvs]`. */
  function FromHsvs(cs: ColorSys, hsvs: seq<Hsv>): (pixels: seq<Pixel>)
    ensures |pixels| == |hsvs|
  {
    seq(|hsvs|, i requires 0 <= i < |hsvs| => FromHsv(cs, hsvs[i]))
  }

  /** What `order_by_hue(colors)` returns. */
  function HueOrdered(cs: ColorSys, colors: seq<Rgb>): (ordered: seq<Pixel>)
    ensures |ordered| == |colors|
  {
    FromHsvs(cs, StableSort(HsvsOf(cs, colors)))
  }

  /**
   * What `order_by_hue` sorts is a permutation of the colours' HSV triples,
   * non-decreasing by hue, with equal hues in input order; the colours it
   * returns are those triples converted back, one per input colour.
   */
  lemma HueOrderedSortsHsvs(cs: ColorSys, colors: seq<Rgb>)
    ensures var hsvs := StableSort(HsvsOf(cs, colors));
            && HueOrdered(cs, colors) == FromHsvs(cs, hsvs)
            && |HueOrdered(cs, colors)| == |colors|
            && SortedByHue(hsvs)
            && multiset(hsvs) == multiset(HsvsOf(cs, colors))
            && forall k :: WithHue(hsvs, k) == WithHue(HsvsOf(cs, colors), k)
  {
    var s := HsvsOf(cs, colors);
    StableSortSorted(s);
    StableSortPermutes(s);
    forall k
      ensures WithHue(StableSort(s), k) == WithHue(s, k)
    {
      StableSortKeepsHueOrder(s, k);
    }
  }

  /** `order_by_hue(colors)`: convert, sort the list in place, convert back. */
  method OrderByHue(cs: ColorSys, colors: seq<Rgb>) returns (ordered: seq<Pixel>)
    ensures |ordered| == |colors|
    ensures ordered == HueOrdered(cs, colors)
  {
    var hsvs := new Hsv[|colors|](i requires 0 <= i < |colors| => ToHsv(cs, colors[i]));
    assert hsvs[..] == HsvsOf(cs, colors);
    SortByHue(hsvs);
    ordered := seq(hsvs.Length, i requires 0 <= i < hsvs.Length reads hsvs => FromHsv(cs, hsvs[i]));
  }
}
