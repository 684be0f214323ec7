/**
 The listing step `scrape_khutbahs`: the `href` of every selected anchor, in
 document order, leaving out anchors whose `href` is missing or empty.
 */
module Listing {
  import opened Wrappers

  /** An anchor matched by `table#table2 a.article-title`, with its `href` attribute if any. */
  datatype Anchor = Anchor(href: Option<string>)

  /** The HTML selector: page markup to the matched anchors, in document order. */
  type Selector = string -> seq<Anchor>

  /** `a.get("href")` is truthy: present and not empty. */
  predicate HasLink(a: Anchor) {
    a.href.Some? && a.href.value != ""
  }

  /** The hrefs of the anchors that have a non-empty one, in document order. */
  function Links(anchors: seq<Anchor>): (r: seq<string>)
    ensures |r| <= |anchors|
    ensures forall k :: 0 <= k < |r| ==> r[k] != ""
  {
    if |anchors| == 0 then []
    else (if HasLink(anchors[0]) then [anchors[0].href.value] else []) + Links(anchors[1..])
  }

  /** The positions of the anchors that `Links` keeps, in order. */
  function LinkPositions(anchors: seq<Anchor>): seq<nat> {
    if |anchors| == 0 then []
    else
      var rest := LinkPositions(anchors[1..]);
      var shifted := seq(|rest|, i requires 0 <= i < |rest| => rest[i] + 1);
      (if HasLink(anchors[0]) then [0] else []) + shifted
  }

  /**
   `links` is exactly the subsequence of the anchors' hrefs picked out by the
   strictly increasing positions `pos`, and every anchor with a link is picked.
   */
  ghost predicate SelectedAt(anchors: seq<Anchor>, links: seq<string>, pos: seq<nat>) {
    && |pos| == |links|
    && (forall k :: 0 <= k < |pos| ==> pos[k] < |anchors| && anchors[pos[k]].href == Some(links[k]))
    && (forall k, l :: 0 <= k < l < |pos| ==> pos[k] < pos[l])
    && (forall j :: 0 <= j < |anchors| && HasLink(anchors[j]) ==> j in pos)
  }

  /** The links are the truthy hrefs, as an order-preserving subsequence that misses none of them. */
  lemma LinksAreSubsequence(anchors: seq<Anchor>)
    ensures SelectedAt(anchors, Links(anchors), LinkPositions(anchors))
  {
    PositionsPickLinks(anchors);
    PositionsIncrease(anchors);
    PositionsComplete(anchors);
  }

  lemma {:induction false} PositionsPickLinks(anchors: seq<Anchor>)
    ensures |LinkPositions(anchors)| == |Links(anchors)|
    ensures forall k :: 0 <= k < |LinkPositions(anchors)| ==>
      LinkPositions(anchors)[k] < |anchors| && anchors[LinkPositions(anchors)[k]].href == Some(Links(anchors)[k])
  {
    if |anchors| > 0 {
      var tail := anchors[1..];
      PositionsPickLinks(tail);
      var rest := LinkPositions(tail);
      var pos := LinkPositions(anchors);
      var links := Links(anchors);
      var n := if HasLink(anchors[0]) then 1 else 0;
      forall k | 0 <= k < |pos|
        ensures pos[k] < |anchors| && anchors[pos[k]].href == Some(links[k])
      {
        if k >= n {
          assert pos[k] == rest[k - n] + 1;
          assert links[k] == Links(tail)[k - n];
          assert anchors[pos[k]] == tail[rest[k - n]];
        }
      }
    }
  }

  lemma {:induction false} PositionsIncrease(anchors: seq<Anchor>)
    ensures forall k, l :: 0 <= k < l < |LinkPositions(anchors)| ==> LinkPositions(anchors)[k] < LinkPositions(anchors)[l]
  {
    if |anchors| > 0 {
      var tail := anchors[1..];
      PositionsIncrease(tail);
      var rest := LinkPositions(tail);
      var pos := LinkPositions(anchors);
      var n := if HasLink(anchors[0]) then 1 else 0;
      forall k, l | 0 <= k < l < |pos| ensures pos[k] < pos[l] {
        assert pos[l] == rest[l - n] + 1;
        if k >= n {
          assert pos[k] == rest[k - n] + 1;
        }
      }
    }
  }

  lemma {:induction false} PositionsComplete(anchors: seq<Anchor>)
    ensures forall j :: 0 <= j < |anchors| && HasLink(anchors[j]) ==> j in LinkPositions(anchors)
  {
    if |anchors| > 0 {
      var tail := anchors[1..];
      PositionsComplete(tail);
      var rest := LinkPositions(tail);
      var pos := LinkPositions(anchors);
      var n := if HasLink(anchors[0]) then 1 else 0;
      forall j | 0 <= j < |anchors| && HasLink(anchors[j]) ensures j in pos {
        if j == 0 {
          assert pos[0] == 0;
        } else {
          assert tail[j - 1] == anchors[j];
          assert j - 1 in rest;
          var k :| 0 <= k < |rest| && rest[k] == j - 1;
          assert pos[n + k] == j;
        }
      }
    }
  }

  /** The number of links is the number of anchors carrying a non-empty href. */
  lemma {:induction false} LinkCount(anchors: seq<Anchor>)
    ensures |Links(anchors)| == |set j | 0 <= j < |anchors| && HasLink(anchors[j])|
  {
    LinksAreSubsequence(anchors);
    var pos := LinkPositions(anchors);
    var picked := set j | 0 <= j < |anchors| && HasLink(anchors[j]);
    forall k | 0 <= k < |pos| ensures pos[k] in picked {
      assert anchors[pos[k]].href == Some(Links(anchors)[k]);
    }
    DistinctSeqSize(pos, picked);
  }

  /** A strictly increasing sequence that covers a set exactly has the set's size. */
  lemma {:induction false} DistinctSeqSize(pos: seq<nat>, s: set<nat>)
    requires forall k, l :: 0 <= k < l < |pos| ==> pos[k] < pos[l]
    requires forall k :: 0 <= k < |pos| ==> pos[k] in s
    requires forall j :: j in s ==> j in pos
    ensures |pos| == |s|
    decreases |pos|
  {
    if |pos| > 0 {
      var last := pos[|pos| - 1];
      var init := pos[..|pos| - 1];
      forall j | j in s - {last} ensures j in init {
        var k :| 0 <= k < |pos| && pos[k] == j;
      }
      forall k | 0 <= k < |init| ensures init[k] in s - {last} {
        assert init[k] == pos[k];
      }
      DistinctSeqSize(init, s - {last});
    } else {
      assert forall j :: j !in s;
      assert s == {};
    }
  }

  /** `scrape_khutbahs(main_url)` given the fetched listing page (`None` when the request failed). */
  function ScrapeKhutbahs(page: Option<string>, select: Selector): (r: seq<string>)
    ensures page.None? ==> r == []
    ensures page.Some? ==> |r| <= |select(page.value)|
    ensures forall k :: 0 <= k < |r| ==> r[k] != ""
  {
    match page
    case None => []
    case Some(html) => Links(select(html))
  }
}
