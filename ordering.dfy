/**
 * `orderBy(column)`, `limit(n)` and `paginate(n)`: the rows of a result set
 * listed by a key, then cut. The database leaves the order of rows with equal
 * keys open; the model picks one.
 */
module Ordering {
  import opened Schema

  /** No id occurs twice. */
  predicate Distinct(s: seq<Id>) {
    forall i, j :: 0 <= i < j < |s| ==> s[i] != s[j]
  }

  /** Every non-empty finite set of ids has an element of least key. */
  lemma {:induction false} MinKeyExists(ids: set<Id>, key: map<Id, int>)
    requires ids != {} && ids <= key.Keys
    ensures exists m :: m in ids && forall y :: y in ids ==> key[m] <= key[y]
  {
    var x :| x in ids;
    if ids != {x} {
      var rest := ids - {x};
      MinKeyExists(rest, key);
      var m :| m in rest && forall y :: y in rest ==> key[m] <= key[y];
      if key[x] < key[m] {
        assert forall y :: y in ids ==> key[x] <= key[y];
      } else {
        assert forall y :: y in ids ==> key[m] <= key[y];
      }
    }
  }

  /** The ids of `ids`, each once, in ascending order of `key`. */
  ghost function SortAsc(ids: set<Id>, key: map<Id, int>): (r: seq<Id>)
    requires ids <= key.Keys
    ensures |r| == |ids|
    ensures forall i :: 0 <= i < |r| ==> r[i] in ids
    ensures forall x :: x in ids ==> x in r
    ensures Distinct(r)
    ensures forall i, j :: 0 <= i < j < |r| ==> key[r[i]] <= key[r[j]]
    decreases ids
  {
    if ids == {} then []
    else
      MinKeyExists(ids, key);
      var m :| m in ids && forall y :: y in ids ==> key[m] <= key[y];
      [m] + SortAsc(ids - {m}, key)
  }

  /** `limit(n)`: the first `n` elements, or all of them when there are fewer. */
  function Take(s: seq<Id>, n: nat): (r: seq<Id>)
    ensures |r| == if n < |s| then n else |s|
    ensures forall i :: 0 <= i < |r| ==> r[i] == s[i]
  {
    if n < |s| then s[..n] else s
  }

  /**
   * The position in the listing where page `page` starts: each page before it
   * holds `perPage` rows. A page number below 1 is read as page 1.
   */
  function PageStartOf(page: int, perPage: nat): nat
    decreases page
  {
    if page <= 1 then 0 else PageStartOf(page - 1, perPage) + perPage
  }

  /** Page `page` starts after `(page - 1) * perPage` rows. */
  lemma {:induction false} PageStartIs(page: int, perPage: nat)
    ensures PageStartOf(page, perPage) == (if page < 1 then 0 else page - 1) * perPage
    decreases page
  {
    if page > 1 {
      PageStartIs(page - 1, perPage);
      assert (page - 2) * perPage + perPage == (page - 1) * perPage;
    }
  }

  /**
   * `r` is page `page` of the listing `s`: the rows from the page's start on,
   * `perPage` of them unless the listing ends first.
   */
  predicate IsPage(r: seq<Id>, s: seq<Id>, page: int, perPage: nat) {
    var lo := PageStartOf(page, perPage);
    && (forall i :: 0 <= i < |r| ==> lo + i < |s| && r[i] == s[lo + i])
    && (lo < |s| ==> |r| == if |s| - lo < perPage then |s| - lo else perPage)
  }

  /** One page of a listing. A page past the end is empty. */
  function PageOf(s: seq<Id>, page: int, perPage: nat): (r: seq<Id>)
    requires perPage > 0
    ensures |r| <= perPage
    ensures forall i :: 0 <= i < |r| ==> r[i] in s
    ensures IsPage(r, s, page, perPage)
  {
    var lo := PageStartOf(page, perPage);
    if lo >= |s| then [] else Take(s[lo..], perPage)
  }

  /** A page of a listing without repeats, in ascending key order, is itself without repeats and in that order. */
  lemma PageKeepsOrder(s: seq<Id>, page: int, perPage: nat, key: map<Id, int>)
    requires perPage > 0
    requires forall i :: 0 <= i < |s| ==> s[i] in key
    requires Distinct(s)
    requires forall i, j :: 0 <= i < j < |s| ==> key[s[i]] <= key[s[j]]
    ensures var r := PageOf(s, page, perPage);
            && Distinct(r)
            && (forall i, j :: 0 <= i < j < |r| ==> r[i] in key && r[j] in key && key[r[i]] <= key[r[j]])
  {
    var r := PageOf(s, page, perPage);
    var lo := PageStartOf(page, perPage);
    assert IsPage(r, s, page, perPage);
    assert forall i :: 0 <= i < |r| ==> lo + i < |s| && r[i] == s[lo + i];
    forall i, j | 0 <= i < j < |r| ensures r[i] in key && r[j] in key && r[i] != r[j] && key[r[i]] <= key[r[j]] {
      OrderedAt(s, key, lo + i, lo + j);
    }
    assert Distinct(r);
  }

  /** Two positions of a listing without repeats, in ascending key order, hold different ids in that order. */
  lemma OrderedAt(s: seq<Id>, key: map<Id, int>, a: nat, b: nat)
    requires a < b < |s|
    requires forall i :: 0 <= i < |s| ==> s[i] in key
    requires Distinct(s)
    requires forall i, j :: 0 <= i < j < |s| ==> key[s[i]] <= key[s[j]]
    ensures s[a] in key && s[b] in key && s[a] != s[b] && key[s[a]] <= key[s[b]]
  {
  }

  /** Ids in strictly ascending order, hence without repeats. */
  predicate Ascending(s: seq<Id>) {
    forall i, j :: 0 <= i < j < |s| ==> s[i] < s[j]
  }

  /** Two positions of a listing in strictly ascending order hold ids in that order. */
  lemma AscendingAt(s: seq<Id>, a: nat, b: nat)
    requires Ascending(s) && a < b < |s|
    ensures s[a] < s[b]
  {
  }

  /** A page of a listing in strictly ascending order is itself in that order. */
  lemma PageKeepsAscending(s: seq<Id>, page: int, perPage: nat)
    requires perPage > 0 && Ascending(s)
    ensures Ascending(PageOf(s, page, perPage))
  {
    var r := PageOf(s, page, perPage);
    var lo := PageStartOf(page, perPage);
    assert IsPage(r, s, page, perPage);
    assert forall i :: 0 <= i < |r| ==> lo + i < |s| && r[i] == s[lo + i];
    forall i, j | 0 <= i < j < |r| ensures r[i] < r[j] {
      AscendingAt(s, lo + i, lo + j);
    }
  }

  /** Position `j` lies on page `j / n + 1`: that page starts at most `n - 1` rows before it. */
  lemma PageStart(j: nat, n: nat)
    requires n > 0
    ensures (j / n) * n <= j < (j / n) * n + n
  {
  }

  /** A row `q * perPage + i` with `i < perPage` is on page `q + 1`. */
  lemma OnPage(s: seq<Id>, perPage: nat, q: nat, j: nat)
    requires perPage > 0 && j < |s|
    requires q * perPage <= j < q * perPage + perPage
    ensures s[j] in PageOf(s, q + 1, perPage)
  {
    var lo := PageStartOf(q + 1, perPage);
    assert lo == q * perPage by {
      PageStartIs(q + 1, perPage);
    }
    var r := PageOf(s, q + 1, perPage);
    assert IsPage(r, s, q + 1, perPage);
    var k := j - lo;
    assert k < |r| && r[k] == s[lo + k];
  }

  /** Every row of a listing is on some page: the page of its position, `j / perPage + 1`. */
  lemma PageOfCovers(s: seq<Id>, perPage: nat, x: Id) returns (page: int)
    requires perPage > 0 && x in s
    ensures page >= 1 && x in PageOf(s, page, perPage)
  {
    var j :| 0 <= j < |s| && s[j] == x;
    PageStart(j, perPage);
    OnPage(s, perPage, j / perPage, j);
    page := j / perPage + 1;
  }

  /** The ordering key of a set of ids: the id itself. */
  function IdKey(ids: set<Id>): (key: map<Id, int>)
    ensures key.Keys == ids
    ensures forall k :: k in ids ==> key[k] == k
  {
    map k | k in ids :: k as int
  }
}
