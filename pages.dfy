/** The page strings that AddressBook.__iter__ yields, given the renderings of the records in
    book order and the page size N, and the pages that __next__ shows (the non-empty ones). */
module Pages {
  import opened Wrappers
  import opened Text

  /** The pages completed when the counter reaches k: each joins k consecutive renderings. */
  function FullPages(rs: seq<string>, k: nat): seq<string>
    requires k > 0
    decreases |rs|
  {
    if |rs| < k then [] else [Concat(rs[..k])] + FullPages(rs[k..], k)
  }

  /** The renderings accumulated after the last completed page. */
  function Rest(rs: seq<string>, k: nat): seq<string>
    requires k > 0
    decreases |rs|
  {
    if |rs| < k then rs else Rest(rs[k..], k)
  }

  /** True when N is a positive int, the only case in which `counter == N` can hold. */
  predicate Cuts(n: Option<int>) {
    n.Some? && n.value > 0
  }

  /** Every string __iter__ yields, in order: nothing for an empty book; for a positive N the
      full pages and then the remainder (empty when N divides the record count); otherwise the
      one string holding every rendering. */
  function Yields(rs: seq<string>, n: Option<int>): seq<string> {
    if rs == [] then []
    else if Cuts(n) then FullPages(rs, n.value) + [Concat(Rest(rs, n.value))]
    else [Concat(rs)]
  }

  /** The yields __next__ prints: it skips the empty ones. */
  function NonEmpty(ys: seq<string>): seq<string>
    decreases |ys|
  {
    if ys == [] then []
    else (if ys[0] == "" then [] else [ys[0]]) + NonEmpty(ys[1..])
  }

  /** How one more rendering changes the pages: it joins the pending remainder, and completes a
      page exactly when the remainder then holds k renderings. This is what one iteration of the
      loop in __iter__ does. */
  lemma {:induction false} PagesSnoc(s: seq<string>, x: string, k: nat)
    requires k > 0
    ensures |Rest(s, k)| < k
    ensures |Rest(s, k)| + 1 == k ==>
      FullPages(s + [x], k) == FullPages(s, k) + [Concat(Rest(s, k) + [x])] && Rest(s + [x], k) == []
    ensures |Rest(s, k)| + 1 < k ==>
      FullPages(s + [x], k) == FullPages(s, k) && Rest(s + [x], k) == Rest(s, k) + [x]
    decreases |s|
  {
    if |s| < k {
      if |s| + 1 == k {
        assert (s + [x])[..k] == s + [x];
        assert (s + [x])[k..] == [];
      }
    } else {
      PagesSnoc(s[k..], x, k);
      assert (s + [x])[..k] == s[..k];
      assert (s + [x])[k..] == s[k..] + [x];
    }
  }

  lemma {:induction false} MulAtLeast(a: int, k: int)
    requires a >= 1 && k > 0
    ensures a * k >= k
    decreases a
  {
    if a > 1 {
      MulAtLeast(a - 1, k);
      assert a * k == (a - 1) * k + k;
    }
  }

  /** Euclidean division is determined by its defining equation. */
  lemma DivModUnique(n: int, k: int, q: int, r: int)
    requires k > 0 && 0 <= r < k && n == q * k + r
    ensures n / k == q && n % k == r
  {
    var q', r' := n / k, n % k;
    assert n == q' * k + r';
    if q > q' {
      assert (q - q') * k == q * k - q' * k;
      MulAtLeast(q - q', k);
    } else if q < q' {
      assert (q' - q) * k == q' * k - q * k;
      MulAtLeast(q' - q, k);
    }
  }

  lemma {:induction false} RestSuffix(rs: seq<string>, k: nat)
    requires k > 0
    ensures |Rest(rs, k)| < k
    ensures |FullPages(rs, k)| * k + |Rest(rs, k)| == |rs|
    ensures Rest(rs, k) == rs[|rs| - |Rest(rs, k)|..]
    decreases |rs|
  {
    if |rs| >= k {
      var t := rs[k..];
      RestSuffix(t, k);
      var c := |FullPages(t, k)|;
      assert (c + 1) * k == c * k + k;
      assert t[|t| - |Rest(t, k)|..] == rs[|rs| - |Rest(t, k)|..];
    } else {
      assert rs[0..] == rs;
    }
  }

  /** There are |rs| / k full pages and the remainder holds the last |rs| % k renderings. */
  lemma PagesShape(rs: seq<string>, k: nat)
    requires k > 0
    ensures |FullPages(rs, k)| == |rs| / k
    ensures |Rest(rs, k)| == |rs| % k
    ensures Rest(rs, k) == rs[|rs| - |rs| % k..]
  {
    RestSuffix(rs, k);
    DivModUnique(|rs|, k, |FullPages(rs, k)|, |Rest(rs, k)|);
  }

  /** Full page j joins exactly renderings j*k to j*k+k-1. */
  lemma {:induction false} FullPageAt(rs: seq<string>, k: nat, j: nat)
    requires k > 0 && j < |FullPages(rs, k)|
    ensures j * k + k <= |rs|
    ensures FullPages(rs, k)[j] == Concat(rs[j * k..j * k + k])
    decreases j
  {
    assert |rs| >= k;
    assert FullPages(rs, k) == [Concat(rs[..k])] + FullPages(rs[k..], k);
    if j > 0 {
      assert FullPages(rs, k)[j] == FullPages(rs[k..], k)[j - 1];
      FullPageAt(rs[k..], k, j - 1);
      MulStep(j, k);
      assert rs[k..][(j - 1) * k..(j - 1) * k + k] == rs[j * k..j * k + k];
    } else {
      assert j * k == 0;
    }
  }

  lemma MulStep(j: nat, k: nat)
    requires j > 0
    ensures j * k == (j - 1) * k + k
  {
  }

  /** Joining the full pages and the remainder gives back all renderings. */
  lemma {:induction false} PagesConcat(rs: seq<string>, k: nat)
    requires k > 0
    ensures Concat(FullPages(rs, k)) + Concat(Rest(rs, k)) == Concat(rs)
    decreases |rs|
  {
    if |rs| >= k {
      PagesConcat(rs[k..], k);
      ConcatAppend([Concat(rs[..k])], FullPages(rs[k..], k));
      assert rs == rs[..k] + rs[k..];
      ConcatAppend(rs[..k], rs[k..]);
      assert Concat([Concat(rs[..k])]) == Concat(rs[..k]);
    }
  }

  /** With a positive page size k and n > 0 records, __iter__ yields n / k + 1 strings: n / k
      full pages of k renderings each, then the remaining n % k renderings, which is the empty
      string when k divides n. */
  lemma YieldsShape(rs: seq<string>, k: int)
    requires |rs| > 0 && k > 0
    ensures |Yields(rs, Some(k))| == |rs| / k + 1
    ensures forall j :: 0 <= j < |rs| / k ==> j * k + k <= |rs| && Yields(rs, Some(k))[j] == Concat(rs[j * k..j * k + k])
    ensures Yields(rs, Some(k))[|rs| / k] == Concat(rs[|rs| - |rs| % k..])
    ensures |rs| % k == 0 ==> Yields(rs, Some(k))[|rs| / k] == ""
  {
    PagesShape(rs, k);
    forall j | 0 <= j < |rs| / k
      ensures j * k + k <= |rs| && Yields(rs, Some(k))[j] == Concat(rs[j * k..j * k + k])
    {
      FullPageAt(rs, k, j);
    }
  }

  /** Without a positive page size (N still None), everything is yielded as one string. */
  lemma YieldsUncut(rs: seq<string>, n: Option<int>)
    requires |rs| > 0 && !Cuts(n)
    ensures Yields(rs, n) == [Concat(rs)]
  {
  }

  /** Joining everything __iter__ yields gives the renderings of all records in book order. */
  lemma YieldsConcat(rs: seq<string>, n: Option<int>)
    ensures Concat(Yields(rs, n)) == Concat(rs)
  {
    if rs != [] {
      if Cuts(n) {
        PagesConcat(rs, n.value);
        ConcatAppend(FullPages(rs, n.value), [Concat(Rest(rs, n.value))]);
        assert Concat([Concat(Rest(rs, n.value))]) == Concat(Rest(rs, n.value));
      } else {
        assert Concat([Concat(rs)]) == Concat(rs);
      }
    }
  }

  /** Every full page is non-empty when every rendering is. */
  lemma {:induction false} FullPagesNonEmpty(rs: seq<string>, k: nat)
    requires k > 0
    requires forall i :: 0 <= i < |rs| ==> rs[i] != ""
    ensures NonEmpty(FullPages(rs, k)) == FullPages(rs, k)
    decreases |rs|
  {
    if |rs| >= k {
      FullPagesNonEmpty(rs[k..], k);
      assert rs[..k] == [rs[0]] + rs[1..k];
      assert Concat(rs[..k]) == rs[0] + Concat(rs[1..k]);
    }
  }

  lemma {:induction false} NonEmptyAppend(a: seq<string>, b: seq<string>)
    ensures NonEmpty(a + b) == NonEmpty(a) + NonEmpty(b)
    decreases |a|
  {
    if a == [] {
      assert a + b == b;
    } else {
      assert (a + b)[1..] == a[1..] + b;
      NonEmptyAppend(a[1..], b);
    }
  }

  lemma {:induction false} ConcatEmpty(rs: seq<string>)
    ensures Concat(rs) == "" <==> forall i :: 0 <= i < |rs| ==> rs[i] == ""
    decreases |rs|
  {
    if rs != [] {
      ConcatEmpty(rs[1..]);
      assert forall i :: 1 <= i < |rs| ==> rs[i] == rs[1..][i - 1];
    }
  }

  lemma CeilDiv(n: int, k: int)
    requires n >= 0 && k > 0
    ensures (n + k - 1) / k == n / k + (if n % k == 0 then 0 else 1)
  {
    var q, r := n / k, n % k;
    if r == 0 {
      DivModUnique(n + k - 1, k, q, k - 1);
    } else {
      assert n + k - 1 == (q + 1) * k + (r - 1);
      DivModUnique(n + k - 1, k, q + 1, r - 1);
    }
  }

  /** __next__ drops only the last yield, and only when it is empty. */
  lemma ShownYields(rs: seq<string>, k: int)
    requires |rs| > 0 && k > 0
    requires forall i :: 0 <= i < |rs| ==> rs[i] != ""
    ensures NonEmpty(Yields(rs, Some(k))) ==
      if |rs| % k == 0 then FullPages(rs, k) else Yields(rs, Some(k))
  {
    var full := FullPages(rs, k);
    var last := Concat(Rest(rs, k));
    PagesShape(rs, k);
    FullPagesNonEmpty(rs, k);
    NonEmptyAppend(full, [last]);
    ConcatEmpty(Rest(rs, k));
    if |rs| % k != 0 {
      assert Rest(rs, k)[0] == rs[|rs| - |rs| % k];
    }
  }

  /** ceil(n / k): the number of pages needed for n records at k per page. */
  function PageCount(n: nat, k: int): int
    requires k > 0
  {
    (n + k - 1) / k
  }

  lemma ShownCount(rs: seq<string>, k: int)
    requires k > 0
    requires forall i :: 0 <= i < |rs| ==> rs[i] != ""
    ensures |NonEmpty(Yields(rs, Some(k)))| == PageCount(|rs|, k)
  {
    CeilDiv(|rs|, k);
    if rs != [] {
      ShownYields(rs, k);
      PagesShape(rs, k);
    }
  }

  lemma ShownConcat(rs: seq<string>, k: int)
    requires k > 0
    requires forall i :: 0 <= i < |rs| ==> rs[i] != ""
    ensures Concat(NonEmpty(Yields(rs, Some(k)))) == Concat(rs)
  {
    if rs != [] {
      ShownYields(rs, k);
      YieldsConcat(rs, Some(k));
      if |rs| % k == 0 {
        PagesShape(rs, k);
        PagesConcat(rs, k);
        assert Concat(Rest(rs, k)) == "";
      }
    }
  }

  /** Since no rendering is empty, __next__ shows ceil(n / k) pages for a positive page size k,
      and together they hold every rendering in book order. */
  lemma ShownPages(rs: seq<string>, k: int)
    requires k > 0
    requires forall i :: 0 <= i < |rs| ==> rs[i] != ""
    ensures |NonEmpty(Yields(rs, Some(k)))| == PageCount(|rs|, k)
    ensures Concat(NonEmpty(Yields(rs, Some(k)))) == Concat(rs)
  {
    ShownCount(rs, k);
    ShownConcat(rs, k);
  }

  /** The state of the loop in __iter__ after the first i renderings, before it checks for the
      end of the data: the pages cut so far, the pending text and the counter. */
  ghost predicate Scanned(all: seq<string>, i: nat, n: Option<int>, ys: seq<string>, result: string, counter: int) {
    && i <= |all|
    && (Cuts(n) ==>
          ys == FullPages(all[..i], n.value) && result == Concat(Rest(all[..i], n.value))
          && counter == |Rest(all[..i], n.value)|)
    && (!Cuts(n) ==> ys == [] && result == Concat(all[..i]) && counter == i)
  }

  /** One iteration of the loop: count the record, append its rendering, and cut a page when
      the counter reaches N. */
  lemma ScanStep(all: seq<string>, i: nat, n: Option<int>, ys: seq<string>, result: string, counter: int)
    requires Scanned(all, i, n, ys, result, counter) && i < |all|
    ensures Some(counter + 1) == n ==> Scanned(all, i + 1, n, ys + [result + all[i]], "", 0)
    ensures Some(counter + 1) != n ==> Scanned(all, i + 1, n, ys, result + all[i], counter + 1)
  {
    var s := all[..i];
    assert all[..i + 1] == s + [all[i]];
    ConcatAppend(s, [all[i]]);
    assert Concat([all[i]]) == all[i];
    if Cuts(n) {
      PagesSnoc(s, all[i], n.value);
      ConcatAppend(Rest(s, n.value), [all[i]]);
    }
  }

  /** At the last record the loop yields the pending text, which completes the yields. */
  lemma ScanDone(all: seq<string>, n: Option<int>, ys: seq<string>, result: string, counter: int)
    requires Scanned(all, |all|, n, ys, result, counter) && |all| > 0
    ensures ys + [result] == Yields(all, n)
  {
    assert all[..|all|] == all;
  }

  /** One whole iteration, stated on the state before and after it; at the last record the
      pending text completes the yields. */
  lemma ScanNext(all: seq<string>, i: nat, n: Option<int>, ys: seq<string>, result: string, counter: int,
                 ys': seq<string>, result': string, counter': int)
    requires Scanned(all, i, n, ys, result, counter) && i < |all|
    requires Some(counter + 1) == n ==> ys' == ys + [result + all[i]] && result' == "" && counter' == 0
    requires Some(counter + 1) != n ==> ys' == ys && result' == result + all[i] && counter' == counter + 1
    ensures Scanned(all, i + 1, n, ys', result', counter')
    ensures i + 1 == |all| ==> ys' + [result'] == Yields(all, n)
  {
    ScanStep(all, i, n, ys, result, counter);
    if i + 1 == |all| {
      ScanDone(all, n, ys', result', counter');
    }
  }

  /** The loop of __next__: keep the non-empty yields, in order. */
  method ShowPages(ys: seq<string>) returns (pages: seq<string>)
    ensures pages == NonEmpty(ys)
  {
    pages := [];
    var i := 0;
    while i < |ys|
      invariant 0 <= i <= |ys|
      invariant pages == NonEmpty(ys[..i])
    {
      NonEmptyAppend(ys[..i], [ys[i]]);
      assert ys[..i + 1] == ys[..i] + [ys[i]];
      if ys[i] != "" {
        pages := pages + [ys[i]];
      }
      i := i + 1;
    }
    assert ys[..|ys|] == ys;
  }
}
