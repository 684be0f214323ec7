/**
 One pass of the polling loop: fetch the listing, and for each link in order
 parse the detail page, skip it when the parse is absent or a document with
 the same title is already stored, and otherwise write a new document.
 */
module Poll {
  import opened Wrappers
  import opened Translate
  import opened Detail
  import opened Persist
  import Listing

  /** The `khutbahs` collection, in write order. */
  type Store = seq<Document>

  /** The fresh document id (`uuid4`) for the item at a given position of the listing. */
  type IdSource = nat -> string

  /** `khutbah_exists(title)`: some stored document carries this title. */
  predicate Exists(store: Store, title: string) {
    exists i :: 0 <= i < |store| && store[i].title == title
  }

  /** What the loop body did with one link. */
  datatype Decision = NotParsed | AlreadyStored | Saved(doc: Document)

  /** The loop body for one item, given its parse and the store as it is when the item is reached. */
  function Step(store: Store, parsed: Option<Khutbah>, id: string, tr: Translator, unescape: Unescape): (r: (Store, Decision))
    ensures r.1.NotParsed? <==> parsed.None?
    ensures r.1.Saved? <==> parsed.Some? && !Exists(store, parsed.value.title)
    ensures r.1.Saved? ==> r.1.doc.title == parsed.value.title && r.0 == store + [r.1.doc]
    ensures !r.1.Saved? ==> r.0 == store
  {
    match parsed
    case None => (store, NotParsed)
    case Some(k) =>
      if Exists(store, k.title) then (store, AlreadyStored)
      else
        var d := SaveKhutbah(k, id, tr, unescape);
        (store + [d], Saved(d))
  }

  /** The documents written, in order. */
  function SavedDocs(ds: seq<Decision>): seq<Document> {
    if |ds| == 0 then []
    else
      var last := ds[|ds| - 1];
      SavedDocs(ds[..|ds| - 1]) + (if last.Saved? then [last.doc] else [])
  }

  /** The loop over the listed links, given each page's parse, threading the store from item to item. */
  function Batch(store: Store, parses: seq<Option<Khutbah>>, ids: IdSource, tr: Translator, unescape: Unescape)
    : (r: (Store, seq<Decision>))
    ensures |r.1| == |parses|
    ensures r.0 == store + SavedDocs(r.1)
  {
    if |parses| == 0 then (store, [])
    else
      var n := |parses| - 1;
      var prev := Batch(store, parses[..n], ids, tr, unescape);
      var step := Step(prev.0, parses[n], ids(n), tr, unescape);
      assert (prev.1 + [step.1])[..n] == prev.1;
      (step.0, prev.1 + [step.1])
  }

  /** Processing a prefix of the listing makes the same decisions as the whole batch does on it. */
  lemma {:induction false} BatchPrefix(store: Store, parses: seq<Option<Khutbah>>, ids: IdSource, tr: Translator, unescape: Unescape, i: nat)
    requires i <= |parses|
    ensures Batch(store, parses[..i], ids, tr, unescape).1 == Batch(store, parses, ids, tr, unescape).1[..i]
    decreases |parses|
  {
    if i < |parses| {
      var n := |parses| - 1;
      var whole := Batch(store, parses, ids, tr, unescape).1;
      var init := Batch(store, parses[..n], ids, tr, unescape).1;
      assert whole[..n] == init;
      assert parses[..n][..i] == parses[..i];
      BatchPrefix(store, parses[..n], ids, tr, unescape, i);
      assert init[..i] == whole[..i];
    } else {
      assert parses[..i] == parses;
    }
  }

  /**
   The decision taken for each item: no parse means skip; a parse whose title is
   already in the store (as it stands after the earlier items) means skip;
   anything else is written, as the document `SaveKhutbah` builds.
   */
  ghost predicate FollowsPolicy(store: Store, parses: seq<Option<Khutbah>>, ds: seq<Decision>,
                                ids: IdSource, tr: Translator, unescape: Unescape)
    requires |ds| == |parses|
  {
    forall i :: 0 <= i < |ds| ==>
      && (ds[i].NotParsed? <==> parses[i].None?)
      && (ds[i].Saved? <==> parses[i].Some? && !Exists(store + SavedDocs(ds[..i]), parses[i].value.title))
      && (ds[i].Saved? ==> ds[i].doc == SaveKhutbah(parses[i].value, ids(i), tr, unescape))
  }

  /** Every item of a batch is decided by the per-item policy, in listing order. */
  lemma BatchFollowsPolicy(store: Store, parses: seq<Option<Khutbah>>, ids: IdSource, tr: Translator, unescape: Unescape)
    ensures FollowsPolicy(store, parses, Batch(store, parses, ids, tr, unescape).1, ids, tr, unescape)
  {
    var ds := Batch(store, parses, ids, tr, unescape).1;
    forall i | 0 <= i < |ds|
      ensures ds[i].NotParsed? <==> parses[i].None?
      ensures ds[i].Saved? <==> parses[i].Some? && !Exists(store + SavedDocs(ds[..i]), parses[i].value.title)
      ensures ds[i].Saved? ==> ds[i].doc == SaveKhutbah(parses[i].value, ids(i), tr, unescape)
    {
      BatchPrefix(store, parses, ids, tr, unescape, i);
      BatchPrefix(store, parses, ids, tr, unescape, i + 1);
      var before := Batch(store, parses[..i], ids, tr, unescape);
      assert parses[..i + 1][..i] == parses[..i];
      assert parses[..i + 1][i] == parses[i];
      assert ds[..i + 1][i] == ds[i];
    }
  }

  lemma {:induction false} SavedDocIsKept(ds: seq<Decision>, i: nat)
    requires i < |ds| && ds[i].Saved?
    ensures ds[i].doc in SavedDocs(ds)
  {
    var n := |ds| - 1;
    if i < n {
      assert ds[..n][i] == ds[i];
      SavedDocIsKept(ds[..n], i);
    }
  }

  /** No two written documents share a title. */
  ghost predicate DistinctWrites(ds: seq<Decision>) {
    forall i, j :: 0 <= i < j < |ds| && ds[i].Saved? && ds[j].Saved? ==> ds[i].doc.title != ds[j].doc.title
  }

  /**
   A batch never writes a title twice and never writes a title the store
   already held: the existence check sees the batch's own earlier writes.
   */
  lemma NoDuplicateWrites(store: Store, parses: seq<Option<Khutbah>>, ids: IdSource, tr: Translator, unescape: Unescape)
    ensures forall i :: 0 <= i < |parses| && Batch(store, parses, ids, tr, unescape).1[i].Saved? ==>
      !Exists(store, Batch(store, parses, ids, tr, unescape).1[i].doc.title)
    ensures DistinctWrites(Batch(store, parses, ids, tr, unescape).1)
  {
    var ds := Batch(store, parses, ids, tr, unescape).1;
    BatchFollowsPolicy(store, parses, ids, tr, unescape);
    PolicyWritesNew(store, parses, ds, ids, tr, unescape);
    PolicyWritesDistinct(store, parses, ds, ids, tr, unescape);
  }

  lemma PolicyWritesNew(store: Store, parses: seq<Option<Khutbah>>, ds: seq<Decision>,
                        ids: IdSource, tr: Translator, unescape: Unescape)
    requires |ds| == |parses| && FollowsPolicy(store, parses, ds, ids, tr, unescape)
    ensures forall i :: 0 <= i < |ds| && ds[i].Saved? ==> !Exists(store, ds[i].doc.title)
  {
    forall i | 0 <= i < |ds| && ds[i].Saved? ensures !Exists(store, ds[i].doc.title) {
      var t := ds[i].doc.title;
      var before := store + SavedDocs(ds[..i]);
      assert t == parses[i].value.title;
      assert !Exists(before, t);
      forall w | 0 <= w < |store| ensures store[w].title != t {
        assert before[w] == store[w];
      }
    }
  }

  lemma PolicyWritesDistinct(store: Store, parses: seq<Option<Khutbah>>, ds: seq<Decision>,
                             ids: IdSource, tr: Translator, unescape: Unescape)
    requires |ds| == |parses| && FollowsPolicy(store, parses, ds, ids, tr, unescape)
    ensures DistinctWrites(ds)
  {
    forall i, j | 0 <= i < j < |ds| && ds[i].Saved? && ds[j].Saved?
      ensures ds[i].doc.title != ds[j].doc.title
    {
      assert ds[j].doc.title == parses[j].value.title;
      assert !Exists(store + SavedDocs(ds[..j]), ds[j].doc.title);
      EarlierWriteSeen(store, ds, i, j);
    }
  }

  /** A document written before position `j` is visible to the existence check at `j`. */
  lemma EarlierWriteSeen(store: Store, ds: seq<Decision>, i: nat, j: nat)
    requires i < j <= |ds| && ds[i].Saved?
    ensures Exists(store + SavedDocs(ds[..j]), ds[i].doc.title)
  {
    assert ds[..j][i] == ds[i];
    SavedDocIsKept(ds[..j], i);
    var saved := SavedDocs(ds[..j]);
    var w :| 0 <= w < |saved| && saved[w] == ds[i].doc;
    assert (store + saved)[|store| + w] == ds[i].doc;
  }

  /** After a batch, the title of every item that parsed is in the store. */
  lemma ParsedTitlesStored(store: Store, parses: seq<Option<Khutbah>>, ids: IdSource, tr: Translator, unescape: Unescape)
    ensures forall i :: 0 <= i < |parses| && parses[i].Some? ==>
      Exists(Batch(store, parses, ids, tr, unescape).0, parses[i].value.title)
  {
    var r := Batch(store, parses, ids, tr, unescape);
    var ds := r.1;
    BatchFollowsPolicy(store, parses, ids, tr, unescape);
    forall i | 0 <= i < |parses| && parses[i].Some? ensures Exists(r.0, parses[i].value.title) {
      var prefix := SavedDocs(ds[..i]);
      PrefixSavedDocs(ds, i);
      if Exists(store + prefix, parses[i].value.title) {
        var w :| 0 <= w < |store + prefix| && (store + prefix)[w].title == parses[i].value.title;
        assert r.0[w] == (store + prefix)[w];
      } else {
        SavedDocIsKept(ds, i);
        var w :| 0 <= w < |SavedDocs(ds)| && SavedDocs(ds)[w] == ds[i].doc;
        assert r.0[|store| + w] == ds[i].doc;
      }
    }
  }

  /** The documents written by the first items come first among all those written. */
  lemma {:induction false} PrefixSavedDocs(ds: seq<Decision>, i: nat)
    requires i <= |ds|
    ensures SavedDocs(ds[..i]) <= SavedDocs(ds)
    decreases |ds|
  {
    if i < |ds| {
      var n := |ds| - 1;
      assert ds[..n][..i] == ds[..i];
      PrefixSavedDocs(ds[..n], i);
    } else {
      assert ds[..i] == ds;
    }
  }

  /** A batch whose every parsed title is already stored writes nothing. */
  lemma {:induction false} StoredBatchWritesNothing(store: Store, parses: seq<Option<Khutbah>>, ids: IdSource, tr: Translator, unescape: Unescape)
    requires forall i :: 0 <= i < |parses| && parses[i].Some? ==> Exists(store, parses[i].value.title)
    ensures Batch(store, parses, ids, tr, unescape).0 == store
    ensures forall i :: 0 <= i < |parses| ==> !Batch(store, parses, ids, tr, unescape).1[i].Saved?
  {
    if |parses| > 0 {
      var n := |parses| - 1;
      var prev := parses[..n];
      assert forall i :: 0 <= i < |prev| ==> prev[i] == parses[i];
      StoredBatchWritesNothing(store, prev, ids, tr, unescape);
      var ds := Batch(store, parses, ids, tr, unescape).1;
      assert ds[..n] == Batch(store, prev, ids, tr, unescape).1;
      forall i | 0 <= i < n ensures !ds[i].Saved? {
        assert ds[..n][i] == ds[i];
      }
    }
  }

  /**
   Running the same batch again on the store the first run left behind writes
   nothing: an item already saved is skipped by the existence check.
   */
  lemma RerunWritesNothing(store: Store, parses: seq<Option<Khutbah>>, ids: IdSource, ids': IdSource, tr: Translator, unescape: Unescape)
    ensures var after := Batch(store, parses, ids, tr, unescape).0;
      Batch(after, parses, ids', tr, unescape).0 == after
  {
    ParsedTitlesStored(store, parses, ids, tr, unescape);
    StoredBatchWritesNothing(Batch(store, parses, ids, tr, unescape).0, parses, ids', tr, unescape);
  }

  /** What one pass of the endless polling loop did. */
  datatype Outcome = NoItems | Processed(decisions: seq<Decision>)

  /** The parse of every listed page, given the page fetcher (`None` for a failed request). */
  function Parses(urls: seq<string>, fetch: string -> Option<string>, locate: Locator): (ps: seq<Option<Khutbah>>)
    ensures |ps| == |urls|
  {
    seq(|urls|, i requires 0 <= i < |urls| => ScrapeKhutbah(fetch(urls[i]), locate))
  }

  /** One pass of the loop: an empty listing changes nothing; otherwise the batch runs over it. */
  function Cycle(store: Store, listing: Option<string>, select: Listing.Selector, fetch: string -> Option<string>,
                 locate: Locator, ids: IdSource, tr: Translator, unescape: Unescape): (r: (Store, Outcome))
    ensures listing.None? ==> r == (store, NoItems)
    ensures r.1.NoItems? <==> Listing.ScrapeKhutbahs(listing, select) == []
    ensures r.1.NoItems? ==> r.0 == store
    ensures r.1.Processed? ==>
      && |r.1.decisions| == |Listing.ScrapeKhutbahs(listing, select)|
      && r.0 == store + SavedDocs(r.1.decisions)
  {
    var urls := Listing.ScrapeKhutbahs(listing, select);
    if |urls| == 0 then (store, NoItems)
    else
      var b := Batch(store, Parses(urls, fetch, locate), ids, tr, unescape);
      (b.0, Processed(b.1))
  }

  /**
   A listing of two links whose first page is complete and whose second page
   lacks its body, processed against an empty store, writes exactly one document,
   the one for the first link.
   */
  lemma TwoLinkScenario(a: string, b: string, fetch: string -> Option<string>, locate: Locator,
                        ids: IdSource, tr: Translator, unescape: Unescape)
    requires fetch(a).Some? && AllPresent(locate(fetch(a).value))
    requires fetch(b).Some? && locate(fetch(b).value).body.None?
    ensures var r := Batch([], Parses([a, b], fetch, locate), ids, tr, unescape);
      && |r.0| == 1
      && r.0[0].title == locate(fetch(a).value).title.value
      && r.1[1] == NotParsed
  {
    var ps := Parses([a, b], fetch, locate);
    assert ps[..1][..0] == [];
    assert ps[..1] == [ps[0]];
    assert ps[..2] == ps;
  }
}
