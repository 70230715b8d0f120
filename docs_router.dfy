/**
 * The mock document registry of the `/docs` router: a module-level list of
 * `{id, title, status}` records that search and the moderation queue filter,
 * upload appends to, and approve/reject update in place.
 */
module DocsRouter {
  import opened Base
  import opened PyStr

  datatype Status = Approved | Pending | Rejected

  datatype DocRecord = DocRecord(id: string, title: string, status: Status)

  /** The body of a `/docs/search` response. */
  datatype SearchPage = SearchPage(page: int, perPage: int, total: nat, items: seq<DocRecord>)

  /** The body of an approve or reject response. */
  datatype Moderation = Moved(id: string, status: Status) | NotFound

  /** The list the module starts with. */
  function InitialDocs(): seq<DocRecord> {
    [ DocRecord("d1", "PKU Basics", Approved),
      DocRecord("d2", "Clinic Visit Checklist", Approved),
      DocRecord("d3", "Pending Draft", Pending) ]
  }

  /** `q.lower() in d["title"].lower()`. */
  predicate Matches(q: string, d: DocRecord) {
    Contains(Lower(d.title), Lower(q))
  }

  /** The records matching `q`, in list order, whatever their status. */
  function Matching(docs: seq<DocRecord>, q: string): (r: seq<DocRecord>)
    ensures |r| <= |docs|
    decreases |docs|
  {
    if docs == [] then []
    else Matching(docs[..|docs| - 1], q) + (if Matches(q, docs[|docs| - 1]) then [docs[|docs| - 1]] else [])
  }

  /** The records waiting for moderation, in list order. */
  function PendingOf(docs: seq<DocRecord>): (r: seq<DocRecord>)
    ensures |r| <= |docs|
    decreases |docs|
  {
    if docs == [] then []
    else PendingOf(docs[..|docs| - 1]) + (if docs[|docs| - 1].status == Pending then [docs[|docs| - 1]] else [])
  }

  /** The index of the first record with id `id`, or -1. */
  function FirstIndex(docs: seq<DocRecord>, id: string): (k: int)
    ensures -1 <= k < |docs|
    ensures k >= 0 ==> docs[k].id == id && forall j :: 0 <= j < k ==> docs[j].id != id
    ensures k == -1 ==> forall j :: 0 <= j < |docs| ==> docs[j].id != id
    decreases |docs|
  {
    if docs == [] then -1
    else if docs[0].id == id then 0
    else
      var k := FirstIndex(docs[1..], id);
      assert forall j :: 1 <= j < |docs| ==> docs[j] == docs[1..][j - 1];
      if k == -1 then -1 else k + 1
  }

  /** The list after the first record with id `id`, if any, takes status `s`. */
  function WithStatus(docs: seq<DocRecord>, id: string, s: Status): seq<DocRecord> {
    var k := FirstIndex(docs, id);
    if k == -1 then docs else docs[k := DocRecord(docs[k].id, docs[k].title, s)]
  }

  // ---------------------------------------------------------------------------
  // search and pending

  /**
   * `r` is `s` with some elements left out and the rest in their order: the
   * shape of a list comprehension's result.
   */
  ghost predicate SubseqOf<T>(r: seq<T>, s: seq<T>)
    decreases |s|
  {
    if r == [] then true
    else if s == [] then false
    else (r[|r| - 1] == s[|s| - 1] && SubseqOf(r[..|r| - 1], s[..|s| - 1])) || SubseqOf(r, s[..|s| - 1])
  }

  /**
   * A record is found exactly when it is in the list and its title contains the
   * query, ignoring case, and it is found as often as it occurs in the list.
   */
  lemma {:induction false} MatchingExact(docs: seq<DocRecord>, q: string, d: DocRecord)
    ensures d in Matching(docs, q) <==> d in docs && Matches(q, d)
    ensures multiset(Matching(docs, q))[d] == if Matches(q, d) then multiset(docs)[d] else 0
    decreases |docs|
  {
    if docs != [] {
      var init := docs[..|docs| - 1];
      MatchingExact(init, q, d);
      assert docs == init + [docs[|docs| - 1]];
    }
  }

  /** The matches keep the order of the list. */
  lemma {:induction false} MatchingInOrder(docs: seq<DocRecord>, q: string)
    ensures SubseqOf(Matching(docs, q), docs)
    decreases |docs|
  {
    if docs != [] {
      var init, last := docs[..|docs| - 1], docs[|docs| - 1];
      MatchingInOrder(init, q);
      var r := Matching(docs, q);
      if Matches(q, last) {
        assert r == Matching(init, q) + [last];
        assert r[..|r| - 1] == Matching(init, q) && r[|r| - 1] == last;
      } else {
        assert r == Matching(init, q);
      }
    }
  }

  /** Searching a concatenation searches each part and keeps the parts in order. */
  lemma {:induction false} MatchingAppend(a: seq<DocRecord>, b: seq<DocRecord>, q: string)
    ensures Matching(a + b, q) == Matching(a, q) + Matching(b, q)
    decreases |b|
  {
    if b == [] {
      assert a + b == a;
    } else {
      var init, last := b[..|b| - 1], b[|b| - 1];
      assert (a + b)[..|a + b| - 1] == a + init;
      MatchingAppend(a, init, q);
    }
  }

  /** The empty query matches every record. */
  lemma {:induction false} MatchingEmptyQuery(docs: seq<DocRecord>)
    ensures Matching(docs, "") == docs
    decreases |docs|
  {
    if docs != [] {
      var d := docs[|docs| - 1];
      assert OccursAt(Lower(d.title), Lower(""), 0);
      MatchingEmptyQuery(docs[..|docs| - 1]);
      assert docs == docs[..|docs| - 1] + [d];
    }
  }

  /** A record is queued exactly when it is in the list and pending, as often as it occurs in the list. */
  lemma {:induction false} PendingExact(docs: seq<DocRecord>)
    ensures forall d :: d in PendingOf(docs) <==> d in docs && d.status == Pending
    ensures forall d :: multiset(PendingOf(docs))[d] == if d.status == Pending then multiset(docs)[d] else 0
    decreases |docs|
  {
    if docs != [] {
      var init := docs[..|docs| - 1];
      PendingExact(init);
      assert docs == init + [docs[|docs| - 1]];
    }
  }

  /** The queue keeps the order of the list. */
  lemma {:induction false} PendingInOrder(docs: seq<DocRecord>)
    ensures SubseqOf(PendingOf(docs), docs)
    decreases |docs|
  {
    if docs != [] {
      var init, last := docs[..|docs| - 1], docs[|docs| - 1];
      PendingInOrder(init);
      var r := PendingOf(docs);
      if last.status == Pending {
        assert r == PendingOf(init) + [last];
        assert r[..|r| - 1] == PendingOf(init) && r[|r| - 1] == last;
      } else {
        assert r == PendingOf(init);
      }
    }
  }

  /** The queue of a concatenation is the queue of each part, in order. */
  lemma {:induction false} PendingAppend(a: seq<DocRecord>, b: seq<DocRecord>)
    ensures PendingOf(a + b) == PendingOf(a) + PendingOf(b)
    decreases |b|
  {
    if b == [] {
      assert a + b == a;
    } else {
      var init, last := b[..|b| - 1], b[|b| - 1];
      assert (a + b)[..|a + b| - 1] == a + init;
      PendingAppend(a, init);
    }
  }

  /** An uploaded file joins the end of the moderation queue. */
  lemma UploadJoinsQueue(docs: seq<DocRecord>, filename: string)
    ensures PendingOf(docs + [DocRecord(filename, filename, Pending)]) == PendingOf(docs) + [DocRecord(filename, filename, Pending)]
  {
    assert (docs + [DocRecord(filename, filename, Pending)])[..|docs|] == docs;
  }

  // ---------------------------------------------------------------------------
  // approve and reject

  /** Only the first record with the id changes, and only its status. */
  lemma WithStatusEffect(docs: seq<DocRecord>, id: string, s: Status)
    requires FirstIndex(docs, id) >= 0
    ensures |WithStatus(docs, id, s)| == |docs|
    ensures WithStatus(docs, id, s)[FirstIndex(docs, id)] ==
            DocRecord(id, docs[FirstIndex(docs, id)].title, s)
    ensures forall j :: 0 <= j < |docs| && j != FirstIndex(docs, id) ==> WithStatus(docs, id, s)[j] == docs[j]
  {
  }

  /** An unknown id leaves the list as it is. */
  lemma WithStatusUnknown(docs: seq<DocRecord>, id: string, s: Status)
    requires forall j :: 0 <= j < |docs| ==> docs[j].id != id
    ensures WithStatus(docs, id, s) == docs
  {
  }

  /** Lists with the same ids, position by position, find the same first record. */
  lemma {:induction false} FirstIndexSameIds(a: seq<DocRecord>, b: seq<DocRecord>, id: string)
    requires |a| == |b| && forall j :: 0 <= j < |a| ==> a[j].id == b[j].id
    ensures FirstIndex(a, id) == FirstIndex(b, id)
    decreases |a|
  {
    if a != [] && a[0].id != id {
      FirstIndexSameIds(a[1..], b[1..], id);
    }
  }

  /** Ids never change, so the same record is found again after a transition. */
  lemma FirstIndexStable(docs: seq<DocRecord>, id: string, s: Status, id': string)
    ensures FirstIndex(WithStatus(docs, id, s), id') == FirstIndex(docs, id')
  {
    FirstIndexSameIds(WithStatus(docs, id, s), docs, id');
  }

  /**
   * Neither transition looks at the current status: a second approve or reject
   * overrides the first, so approved and rejected are not terminal.
   */
  lemma LastTransitionWins(docs: seq<DocRecord>, id: string, s1: Status, s2: Status)
    ensures WithStatus(WithStatus(docs, id, s1), id, s2) == WithStatus(docs, id, s2)
  {
    FirstIndexStable(docs, id, s1, id);
  }

  /** Approving turns a found record's status to approved, whatever it was. */
  lemma ApproveAfterReject(docs: seq<DocRecord>, id: string)
    requires FirstIndex(docs, id) >= 0
    ensures WithStatus(WithStatus(docs, id, Rejected), id, Approved)[FirstIndex(docs, id)].status == Approved
  {
    LastTransitionWins(docs, id, Rejected, Approved);
  }

  // ---------------------------------------------------------------------------
  // The registry

  class Registry {
    var docs: seq<DocRecord>

    constructor()
      ensures docs == InitialDocs()
    {
      docs := InitialDocs();
    }

    /** `total` counts every match; `items` are the first `perPage` of them. */
    function Search(q: string, page: int, perPage: int): (r: SearchPage)
      reads this
      ensures r.page == page && r.perPage == perPage
      ensures r.total == |Matching(docs, q)|
      ensures r.items <= Matching(docs, q)
      ensures perPage >= 0 ==> |r.items| == if perPage < r.total then perPage else r.total
      ensures perPage < 0 ==> |r.items| == if r.total + perPage > 0 then r.total + perPage else 0
    {
      var items := Matching(docs, q);
      SearchPage(page, perPage, |items|, PyPrefix(items, perPage))
    }

    /** Appends a pending record named after the file; the response is `(id, status)`. */
    method Upload(filename: string) returns (id: string, status: Status)
      modifies this
      ensures docs == old(docs) + [DocRecord(filename, filename, Pending)]
      ensures id == filename && status == Pending
    {
      docs := docs + [DocRecord(filename, filename, Pending)];
      return filename, Pending;
    }

    /** The moderation queue: exactly the pending records, each as often as it occurs, in list order. */
    function PendingQueue(): (r: seq<DocRecord>)
      reads this
      ensures forall d :: d in r <==> d in docs && d.status == Pending
      ensures forall d :: multiset(r)[d] == if d.status == Pending then multiset(docs)[d] else 0
      ensures SubseqOf(r, docs)
    {
      PendingExact(docs);
      PendingInOrder(docs);
      PendingOf(docs)
    }

    method Approve(id: string) returns (r: Moderation)
      modifies this
      ensures docs == WithStatus(old(docs), id, Approved)
      ensures r == if FirstIndex(old(docs), id) >= 0 then Moved(id, Approved) else NotFound
    {
      r := SetFirst(id, Approved);
    }

    method Reject(id: string) returns (r: Moderation)
      modifies this
      ensures docs == WithStatus(old(docs), id, Rejected)
      ensures r == if FirstIndex(old(docs), id) >= 0 then Moved(id, Rejected) else NotFound
    {
      r := SetFirst(id, Rejected);
    }

    /** The loop both transitions run: the first record with the id takes the new status. */
    method SetFirst(id: string, s: Status) returns (r: Moderation)
      modifies this
      ensures docs == WithStatus(old(docs), id, s)
      ensures r == if FirstIndex(old(docs), id) >= 0 then Moved(id, s) else NotFound
    {
      for i := 0 to |docs|
        invariant docs == old(docs)
        invariant forall j :: 0 <= j < i ==> docs[j].id != id
      {
        if docs[i].id == id {
          docs := docs[i := DocRecord(docs[i].id, docs[i].title, s)];
          return Moved(id, s);
        }
      }
      return NotFound;
    }
  }
}
