/** The 16-digit uid whitelist of scripts/build_uid_whitelist.py: the
    16-digit test, the insert-or-ignore table keyed by uid, paged collection
    from follower lists and comment sections, and the ascending export. */
module Whitelist {
  import opened Sorting
  import DecimalString

  /** The smallest uid with sixteen decimal digits, and the first with seventeen. */
  const LOW16: int := 1_000_000_000_000_000
  const HIGH16: int := 10_000_000_000_000_000

  /** Pages fetched per source unless the caller asks for another bound. */
  const MAX_PAGES: nat := 50

  /** `is_16digit_uid`, and `is_16digit` of the prefix analyser. */
  predicate Is16Digit(uid: int)
  {
    LOW16 <= uid < HIGH16
  }

  /** The range test is a digit count: exactly sixteen decimal digits. */
  lemma SixteenDigits(uid: nat)
    ensures Is16Digit(uid) <==> DecimalString.NumDigits(uid) == 16
  {
    DecimalString.Pow10Values();
    assert DecimalString.Pow10(15) == LOW16 by {
      assert DecimalString.Pow10(16) == 10 * DecimalString.Pow10(15);
    }
    DecimalString.NumDigitsBound(uid, 16);
    DecimalString.NumDigitsBound(uid, 15);
  }

  /** What the `source` column records: `fans:<mid>` or `comments:<bvid>`. */
  datatype Source = Fans(mid: int) | Comments(bvid: string)

  /** Values an SQLite INTEGER column can hold; binding any other Python int
      raises, and `save_uids` swallows the exception. */
  predicate Storable(uid: int)
  {
    -0x8000_0000_0000_0000 <= uid < 0x8000_0000_0000_0000
  }

  /** The uids of a batch that an insert can store. */
  function StorableOf(uids: set<int>): set<int>
  {
    set u | u in uids && Storable(u)
  }

  /** The table after `INSERT OR IGNORE` of every uid of the batch with one
      source: a uid already present keeps its row. */
  function Inserted(rows: map<int, Source>, uids: set<int>, source: Source): map<int, Source>
  {
    map u | u in rows.Keys + StorableOf(uids) :: if u in rows then rows[u] else source
  }

  /** How many rows such a batch adds. */
  function Added(rows: map<int, Source>, uids: set<int>): nat
  {
    |StorableOf(uids) - rows.Keys|
  }

  /** Inserting keeps every existing row as it was, adds exactly the storable
      uids that were missing, labelled with the batch's source, and grows the
      table by the count `save_uids` returns. */
  lemma InsertedRows(rows: map<int, Source>, uids: set<int>, source: Source)
    ensures forall u :: u in rows ==> u in Inserted(rows, uids, source) && Inserted(rows, uids, source)[u] == rows[u]
    ensures forall u :: u in Inserted(rows, uids, source) && u !in rows ==> u in uids && Storable(u) && Inserted(rows, uids, source)[u] == source
    ensures forall u :: u in uids && Storable(u) ==> u in Inserted(rows, uids, source)
    ensures |Inserted(rows, uids, source)| == |rows| + Added(rows, uids)
  {
    var r := Inserted(rows, uids, source);
    assert r.Keys == rows.Keys + (StorableOf(uids) - rows.Keys);
  }

  /** Saving the same batch again, under any source, adds nothing and changes nothing. */
  lemma SaveTwice(rows: map<int, Source>, uids: set<int>, first: Source, second: Source)
    ensures Added(Inserted(rows, uids, first), uids) == 0
    ensures Inserted(Inserted(rows, uids, first), uids, second) == Inserted(rows, uids, first)
  {
    var r := Inserted(rows, uids, first);
    assert StorableOf(uids) - r.Keys == {};
  }

  /** The uid whitelist table `uid_whitelist`, uid as primary key. */
  class Store {
    var rows: map<int, Source>

    /** `init_db` on a fresh database. */
    constructor()
      ensures rows == map[]
    {
      rows := map[];
    }

    /** `save_uids`: inserts each uid of the batch, in whatever order the set
        yields them, and counts the inserts that added a row. */
    method SaveUids(uids: set<int>, source: Source) returns (saved: nat)
      modifies this
      ensures rows == Inserted(old(rows), uids, source)
      ensures saved == Added(old(rows), uids)
    {
      var rest := uids;
      saved := 0;
      while rest != {}
        invariant rest <= uids
        invariant Extends(old(rows), uids - rest, source, rows)
        invariant |rows| == |old(rows)| + saved
        decreases |rest|
      {
        Inhabited(rest);
        var uid :| uid in rest;
        ghost var done := uids - rest;
        InsertOne(old(rows), done, uid, source, rows);
        if Storable(uid) && uid !in rows {
          rows := rows[uid := source];
          saved := saved + 1;
        }
        rest := rest - {uid};
        assert uids - rest == done + {uid};
      }
      assert uids - rest == uids;
      ExtendsIsInserted(old(rows), uids, source, rows);
      InsertedRows(old(rows), uids, source);
    }

    /** `export_whitelist`: every stored uid once, ascending, one per line. */
    method Export() returns (lines: seq<int>)
      ensures Ascending(lines) && Elems(lines) == rows.Keys && |lines| == |rows|
    {
      lines := SortSet(rows.Keys);
    }
  }

  /** rows is rows0 with the storable uids of done inserted under source. */
  ghost predicate Extends(rows0: map<int, Source>, done: set<int>, source: Source, rows: map<int, Source>)
  {
    && (forall u :: u in rows <==> u in rows0 || (u in done && Storable(u)))
    && (forall u :: u in rows0 ==> rows[u] == rows0[u])
    && (forall u :: u in rows && u !in rows0 ==> rows[u] == source)
  }

  /** Such a table is the one `Inserted` describes. */
  lemma ExtendsIsInserted(rows0: map<int, Source>, done: set<int>, source: Source, rows: map<int, Source>)
    requires Extends(rows0, done, source, rows)
    ensures rows == Inserted(rows0, done, source)
  {
    var r := Inserted(rows0, done, source);
    forall u
      ensures u in rows <==> u in r
    {
      assert u in StorableOf(done) <==> u in done && Storable(u);
    }
    assert rows.Keys == r.Keys;
    forall u | u in rows
      ensures rows[u] == r[u]
    {
      if u in rows0 {
        assert r[u] == rows0[u];
      } else {
        assert r[u] == source;
      }
    }
  }

  /** One insert of SaveUids: a uid not yet tried either adds its row or,
      already present or not storable, leaves the table as it is. */
  lemma InsertOne(rows0: map<int, Source>, done: set<int>, uid: int, source: Source, rows: map<int, Source>)
    requires uid !in done && Extends(rows0, done, source, rows)
    ensures Extends(rows0, done + {uid}, source, if Storable(uid) && uid !in rows then rows[uid := source] else rows)
  {
  }

  /** The 16-digit uids of one page. */
  function Sixteen(page: seq<int>): set<int>
  {
    set u | u in page && Is16Digit(u)
  }

  /** The first page from `page` on that comes back empty, or the first page
      past `maxPages` if none up to it does. */
  function FirstEmpty(fetch: nat -> seq<int>, page: nat, maxPages: nat): nat
    decreases maxPages + 1 - page
  {
    if page > maxPages || fetch(page) == [] then page else FirstEmpty(fetch, page + 1, maxPages)
  }

  /** The 16-digit uids of the pages from `page` up to the first empty one,
      never past `maxPages`. */
  function Collected(fetch: nat -> seq<int>, page: nat, maxPages: nat): set<int>
    decreases maxPages + 1 - page
  {
    if page > maxPages || fetch(page) == [] then {}
    else Sixteen(fetch(page)) + Collected(fetch, page + 1, maxPages)
  }

  /** Paging stops at the first empty page and never passes `maxPages`:
      every page before the stop has data, the stop is empty or past the bound. */
  lemma {:induction false} FirstEmptyStops(fetch: nat -> seq<int>, page: nat, maxPages: nat)
    ensures page <= FirstEmpty(fetch, page, maxPages)
    ensures page <= maxPages + 1 ==> FirstEmpty(fetch, page, maxPages) <= maxPages + 1
    ensures forall p :: page <= p < FirstEmpty(fetch, page, maxPages) ==> p <= maxPages && fetch(p) != []
    ensures FirstEmpty(fetch, page, maxPages) <= maxPages ==> fetch(FirstEmpty(fetch, page, maxPages)) == []
    decreases maxPages + 1 - page
  {
    if !(page > maxPages || fetch(page) == []) {
      FirstEmptyStops(fetch, page + 1, maxPages);
    }
  }

  /** What collection gathers: exactly the 16-digit uids that appear on some
      page before the first empty one. */
  lemma {:induction false} CollectedMeans(fetch: nat -> seq<int>, page: nat, maxPages: nat, u: int)
    ensures u in Collected(fetch, page, maxPages)
        <==> Is16Digit(u) && exists p :: page <= p < FirstEmpty(fetch, page, maxPages) && u in fetch(p)
    decreases maxPages + 1 - page
  {
    if !(page > maxPages || fetch(page) == []) {
      CollectedMeans(fetch, page + 1, maxPages, u);
      assert FirstEmpty(fetch, page, maxPages) == FirstEmpty(fetch, page + 1, maxPages);
      assert Collected(fetch, page, maxPages) == Sixteen(fetch(page)) + Collected(fetch, page + 1, maxPages);
      FirstEmptyStops(fetch, page + 1, maxPages);
      if u in Sixteen(fetch(page)) {
        assert page <= page < FirstEmpty(fetch, page, maxPages) && u in fetch(page);
      }
      if u in Collected(fetch, page, maxPages) && u !in Sixteen(fetch(page)) {
        var p :| page + 1 <= p < FirstEmpty(fetch, page + 1, maxPages) && u in fetch(p);
        assert page <= p;
      }
      if Is16Digit(u) && exists p :: page <= p < FirstEmpty(fetch, page, maxPages) && u in fetch(p) {
        var p :| page <= p < FirstEmpty(fetch, page, maxPages) && u in fetch(p);
        if p == page {
          assert u in Sixteen(fetch(page));
        } else {
          assert page + 1 <= p < FirstEmpty(fetch, page + 1, maxPages) && u in fetch(p);
        }
      }
    }
  }

  /** The page loop of `collect_from_fans` and `collect_from_comments`:
      fetches pages 1, 2, ... up to `maxPages`, stops after the first empty
      page, and keeps each page's 16-digit uids. */
  method CollectPages(fetch: nat -> seq<int>, maxPages: nat) returns (all: set<int>, requested: nat)
    ensures all == Collected(fetch, 1, maxPages)
    ensures requested == if FirstEmpty(fetch, 1, maxPages) <= maxPages then FirstEmpty(fetch, 1, maxPages) else maxPages
  {
    all := {};
    requested := 0;
    var page := 1;
    while page <= maxPages
      invariant 1 <= page <= maxPages + 1
      invariant Collected(fetch, 1, maxPages) == all + Collected(fetch, page, maxPages)
      invariant FirstEmpty(fetch, 1, maxPages) == FirstEmpty(fetch, page, maxPages)
      invariant requested == page - 1
      decreases maxPages + 1 - page
    {
      var uids := fetch(page);
      requested := requested + 1;
      if uids == [] {
        return;
      }
      all := all + Sixteen(uids);
      page := page + 1;
    }
  }

  /** `collect_from_fans` (with `Fans(mid)`) and `collect_from_comments`
      (with `Comments(bvid)`): the collected set goes into the store under
      that source. */
  method CollectFrom(store: Store, fetch: nat -> seq<int>, source: Source, maxPages: nat)
      returns (all: set<int>, saved: nat)
    modifies store
    ensures all == Collected(fetch, 1, maxPages)
    ensures forall u :: u in all ==> Is16Digit(u)
    ensures store.rows == Inserted(old(store.rows), all, source)
    ensures saved == Added(old(store.rows), all)
  {
    var requested;
    all, requested := CollectPages(fetch, maxPages);
    forall u | u in all
      ensures Is16Digit(u)
    {
      CollectedMeans(fetch, 1, maxPages, u);
    }
    saved := store.SaveUids(all, source);
  }
}
