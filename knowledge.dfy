/**
 * The decisions the knowledge-base router makes around its database calls:
 * submission validation and the insert payload, the paging arithmetic and
 * filters of a search, the record a moderation writes, and the category list.
 * The database itself is outside the model; what it returns comes in as
 * parameters, and what is sent to it goes out as values.
 */
module Knowledge {
  import opened Base
  import opened PyStr
  import opened Dicts

  /** Python truthiness of an optional string: present and non-empty. */
  predicate Truthy(o: Option<string>) {
    o.Some? && o.value != []
  }

  // ---------------------------------------------------------------------------
  // submit

  datatype Submission = Submission(
    title: Option<string>,
    content: Option<string>,
    documentUrl: Option<string>,
    authorEmail: Option<string>,
    authorName: Option<string>,
    category: Option<string>,
    tags: Option<seq<string>>)

  /** A payload value: a text column or the `TEXT[]` tags column. */
  datatype Value = Text(text: string) | TextList(items: seq<string>)

  const PendingStatus := "pending"
  const BadRequest := 400
  const ServerError := 500

  function TextOf(o: Option<string>): Option<Value> {
    if o.Some? then Some(Text(o.value)) else None
  }

  /** The payload before null keys are dropped; an empty or absent tag list becomes null. */
  function RawPayload(sub: Submission, newId: string): seq<Entry<Option<Value>>> {
    [ Entry("id", Some(Text(newId))),
      Entry("title", TextOf(sub.title)),
      Entry("content", TextOf(sub.content)),
      Entry("document_url", TextOf(sub.documentUrl)),
      Entry("author_email", TextOf(sub.authorEmail)),
      Entry("author_name", TextOf(sub.authorName)),
      Entry("category", TextOf(sub.category)),
      Entry("tags", if sub.tags.Some? && |sub.tags.value| > 0 then Some(TextList(sub.tags.value)) else None),
      Entry("status", Some(Text(PendingStatus))) ]
  }

  /** `{k: v for k, v in d.items() if v is not None}`. */
  function DropNone(d: seq<Entry<Option<Value>>>): (r: Dict<Value>)
    ensures |r| <= |d|
    decreases |d|
  {
    if d == [] then []
    else
      var rest := DropNone(d[..|d| - 1]);
      var e := d[|d| - 1];
      if e.value.Some? then rest + [Entry(e.key, e.value.value)] else rest
  }

  function Flatten(o: Option<Option<Value>>): Option<Value> {
    if o.Some? then o.value else None
  }

  /** A key survives exactly when its value was not null, and keeps that value. */
  lemma {:induction false} DropNoneGet(d: seq<Entry<Option<Value>>>, k: string)
    requires DistinctKeys(d)
    ensures Get(DropNone(d), k) == Flatten(Get(d, k))
    decreases |d|
  {
    if d != [] {
      var init, e := d[..|d| - 1], d[|d| - 1];
      assert d == init + [e];
      DistinctSnoc(init, e);
      DropNoneGet(init, k);
      GetSnoc(init, e, k);
      if e.value.Some? {
        GetSnoc(DropNone(init), Entry(e.key, e.value.value), k);
      }
    }
  }

  lemma DistinctSnoc<V>(init: Dict<V>, e: Entry<V>)
    requires DistinctKeys(init + [e])
    ensures DistinctKeys(init) && e.key !in Keys(init)
  {
    var d := init + [e];
    forall i, j | 0 <= i < j < |init| ensures init[i].key != init[j].key {
      assert init[i] == d[i] && init[j] == d[j];
    }
    forall i | 0 <= i < |init| ensures init[i].key != e.key {
      assert init[i] == d[i] && e == d[|init|];
    }
  }

  /** Looking up in `d + [e]`: `d` first, then `e`. */
  lemma {:induction false} GetSnoc<V>(d: Dict<V>, e: Entry<V>, k: string)
    ensures Get(d + [e], k) == if Get(d, k).Some? then Get(d, k) else if e.key == k then Some(e.value) else None
    decreases |d|
  {
    if d == [] {
      assert d + [e] == [e];
      assert [e][1..] == [];
    } else {
      assert (d + [e])[1..] == d[1..] + [e];
      GetSnoc(d[1..], e, k);
    }
  }

  /** `insert_payload` once the null keys are gone. */
  function InsertPayload(sub: Submission, newId: string): Dict<Value> {
    DropNone(RawPayload(sub, newId))
  }

  /** The nine keys the payload can carry. */
  const PayloadKeys := {"id", "title", "content", "document_url", "author_email", "author_name", "category", "tags", "status"}

  /** The raw payload names each of its nine keys once. */
  lemma RawPayloadKeys(sub: Submission, newId: string)
    ensures DistinctKeys(RawPayload(sub, newId))
    ensures forall e :: e in RawPayload(sub, newId) ==> e.key in PayloadKeys
  {
  }

  /** An entry survives exactly when its value was not null. */
  lemma {:induction false} DropNoneMember(d: seq<Entry<Option<Value>>>, k: string, v: Value)
    ensures Entry(k, v) in DropNone(d) <==> Entry(k, Some(v)) in d
    decreases |d|
  {
    if d != [] {
      var init := d[..|d| - 1];
      assert d == init + [d[|d| - 1]];
      DropNoneMember(init, k, v);
    }
  }

  /** In a dictionary with distinct keys, the entry at a key's position is the only one with that key. */
  lemma MemberAt<V>(d: Dict<V>, i: int, x: V)
    requires DistinctKeys(d) && 0 <= i < |d|
    ensures Entry(d[i].key, x) in d <==> x == d[i].value
  {
    if Entry(d[i].key, x) in d {
      var j :| 0 <= j < |d| && d[j] == Entry(d[i].key, x);
      assert j == i;
    }
  }

  /**
   * The payload carries the fresh id and the pending status, every optional
   * field exactly when it is present, and tags exactly when there is at least one.
   */
  lemma PayloadContents(sub: Submission, newId: string, v: Value)
    ensures Entry("id", Text(newId)) in InsertPayload(sub, newId)
    ensures Entry("status", Text(PendingStatus)) in InsertPayload(sub, newId)
    ensures Entry("title", v) in InsertPayload(sub, newId) <==> TextOf(sub.title) == Some(v)
    ensures Entry("content", v) in InsertPayload(sub, newId) <==> TextOf(sub.content) == Some(v)
    ensures Entry("document_url", v) in InsertPayload(sub, newId) <==> TextOf(sub.documentUrl) == Some(v)
    ensures Entry("author_email", v) in InsertPayload(sub, newId) <==> TextOf(sub.authorEmail) == Some(v)
    ensures Entry("author_name", v) in InsertPayload(sub, newId) <==> TextOf(sub.authorName) == Some(v)
    ensures Entry("category", v) in InsertPayload(sub, newId) <==> TextOf(sub.category) == Some(v)
    ensures Entry("tags", v) in InsertPayload(sub, newId) <==>
            sub.tags.Some? && sub.tags.value != [] && v == TextList(sub.tags.value)
  {
    var raw := RawPayload(sub, newId);
    RawPayloadKeys(sub, newId);
    MemberAt(raw, 1, Some(v));
    MemberAt(raw, 2, Some(v));
    MemberAt(raw, 3, Some(v));
    MemberAt(raw, 4, Some(v));
    MemberAt(raw, 5, Some(v));
    MemberAt(raw, 6, Some(v));
    MemberAt(raw, 7, Some(v));
    DropNoneMember(raw, "id", Text(newId));
    DropNoneMember(raw, "status", Text(PendingStatus));
    DropNoneMember(raw, "title", v);
    DropNoneMember(raw, "content", v);
    DropNoneMember(raw, "document_url", v);
    DropNoneMember(raw, "author_email", v);
    DropNoneMember(raw, "author_name", v);
    DropNoneMember(raw, "category", v);
    DropNoneMember(raw, "tags", v);
  }

  lemma {:induction false} DropNoneDistinct(d: seq<Entry<Option<Value>>>)
    requires DistinctKeys(d)
    ensures DistinctKeys(DropNone(d)) && Keys(DropNone(d)) <= Keys(d)
    decreases |d|
  {
    if d != [] {
      var init, e := d[..|d| - 1], d[|d| - 1];
      assert d == init + [e];
      DistinctSnoc(init, e);
      DropNoneDistinct(init);
      var rest := DropNone(init);
      assert Keys(init) <= Keys(d) by {
        forall k | k in Keys(init) ensures k in Keys(d) {
          var i :| 0 <= i < |init| && init[i].key == k;
          assert d[i] == init[i];
        }
      }
      if e.value.Some? {
        var r := rest + [Entry(e.key, e.value.value)];
        forall i, j | 0 <= i < j < |r| ensures r[i].key != r[j].key {
          assert r[i] == rest[i];
          if j < |rest| { assert r[j] == rest[j]; } else { assert rest[i].key in Keys(rest); }
        }
        forall k | k in Keys(r) ensures k in Keys(d) {
          var i :| 0 <= i < |r| && r[i].key == k;
          if i < |rest| { assert rest[i].key in Keys(rest); } else { assert d[|d| - 1].key == k; }
        }
      }
    }
  }

  /** No key is sent twice and none outside the nine. */
  lemma PayloadKeysDistinct(sub: Submission, newId: string)
    ensures DistinctKeys(InsertPayload(sub, newId))
    ensures Keys(InsertPayload(sub, newId)) <= PayloadKeys
  {
    var raw := RawPayload(sub, newId);
    RawPayloadKeys(sub, newId);
    DropNoneDistinct(raw);
    forall k | k in Keys(raw) ensures k in PayloadKeys {
      var i :| 0 <= i < |raw| && raw[i].key == k;
      assert raw[i] in raw;
    }
  }

  datatype SubmitOutcome =
    | Submitted(id: string, payload: Dict<Value>)
    | InsertFailed(payload: Dict<Value>, status: int)
    | Refused(status: int)

  /**
   * `submit_document` with the status codes it was written to produce: an
   * unconfigured database is a server error, a submission without title or
   * author email is a bad request, both before any insert. `insertFails` is
   * whether the database reports an error for the insert.
   */
  function Submit(configured: bool, sub: Submission, newId: string, insertFails: bool): (r: SubmitOutcome)
    ensures r.Refused? <==> !configured || !Truthy(sub.title) || !Truthy(sub.authorEmail)
    ensures r.Refused? ==> r.status == (if configured then BadRequest else ServerError)
    ensures !r.Refused? ==> r.payload == InsertPayload(sub, newId)
    ensures r.Submitted? <==> !r.Refused? && !insertFails
    ensures r.Submitted? ==> r.id == newId
    ensures r.InsertFailed? ==> r.status == ServerError
  {
    if !configured then Refused(ServerError)
    else if !Truthy(sub.title) || !Truthy(sub.authorEmail) then Refused(BadRequest)
    else if insertFails then InsertFailed(InsertPayload(sub, newId), ServerError)
    else Submitted(newId, InsertPayload(sub, newId))
  }

  /**
   * `submit_document` as written: the 400 is raised inside the `try`, and the
   * catch-all `except Exception` turns every exception into a 500, so a
   * refused submission surfaces as a server error.
   */
  function SubmitAsWritten(configured: bool, sub: Submission, newId: string, insertFails: bool): (r: SubmitOutcome)
    ensures !r.Submitted? ==> r.status == ServerError
    ensures r == Rewrap(Submit(configured, sub, newId, insertFails))
  {
    Rewrap(Submit(configured, sub, newId, insertFails))
  }

  /** What the catch-all handler does to an outcome: every error becomes a 500. */
  function Rewrap(o: SubmitOutcome): SubmitOutcome {
    match o
    case Refused(_) => Refused(ServerError)
    case _ => o
  }

  /** A valid submission with a healthy database is accepted with the generated id, pending review. */
  lemma SubmitAccepts(sub: Submission, newId: string)
    requires Truthy(sub.title) && Truthy(sub.authorEmail)
    ensures Submit(true, sub, newId, false) == Submitted(newId, InsertPayload(sub, newId))
    ensures Entry("id", Text(newId)) in Submit(true, sub, newId, false).payload
    ensures Entry("status", Text(PendingStatus)) in Submit(true, sub, newId, false).payload
  {
    PayloadContents(sub, newId, Text(newId));
  }

  /** A submission without a title is never a bad request as written, but it is one by design. */
  lemma MissingTitleIsServerError(sub: Submission, newId: string, insertFails: bool)
    requires sub.title == None
    ensures SubmitAsWritten(true, sub, newId, insertFails) == Refused(ServerError)
    ensures Submit(true, sub, newId, insertFails) == Refused(BadRequest)
  {
  }

  // ---------------------------------------------------------------------------
  // search

  const MaxPerPage := 50
  const Unprocessable := 422

  /** The bounds FastAPI enforces on the query parameters before the handler runs. */
  predicate ValidPaging(page: int, perPage: int) {
    page >= 1 && 1 <= perPage <= MaxPerPage
  }

  function Offset(page: int, perPage: int): int {
    (page - 1) * perPage
  }

  /** The inclusive upper end of `.range(offset, offset + per_page - 1)`. */
  function RangeEnd(page: int, perPage: int): int {
    Offset(page, perPage) + perPage - 1
  }

  /** `(total + per_page - 1) // per_page`; both operands are non-negative, so Python's floor and Dafny's division agree. */
  function TotalPages(total: nat, perPage: int): (r: nat)
    requires perPage >= 1
  {
    (total + perPage - 1) / perPage
  }

  /** Page `page` asks for exactly `perPage` rows, starting where the previous page stopped. */
  lemma PageRange(page: int, perPage: int)
    requires ValidPaging(page, perPage)
    ensures Offset(1, perPage) == 0
    ensures Offset(page, perPage) >= 0
    ensures RangeEnd(page, perPage) - Offset(page, perPage) + 1 == perPage
    ensures Offset(page + 1, perPage) == RangeEnd(page, perPage) + 1
  {
  }

  /** `total_pages` is the ceiling of `total / per_page`. */
  lemma TotalPagesCeiling(total: nat, perPage: int)
    requires 1 <= perPage <= MaxPerPage
    ensures TotalPages(total, perPage) * perPage >= total
    ensures total > 0 ==> (TotalPages(total, perPage) - 1) * perPage < total
    ensures TotalPages(total, perPage) == 0 <==> total == 0
  {
    var n := TotalPages(total, perPage);
    var x := total + perPage - 1;
    assert x == n * perPage + x % perPage;
    assert 0 <= x % perPage < perPage;
  }

  /** A page is within `total_pages` exactly when its first row exists. */
  lemma PageWithinTotal(total: nat, page: int, perPage: int)
    requires ValidPaging(page, perPage)
    ensures page <= TotalPages(total, perPage) <==> Offset(page, perPage) < total
  {
    TotalPagesCeiling(total, perPage);
    var n := TotalPages(total, perPage);
    if page <= n {
      MulMonotone(page - 1, n - 1, perPage);
    } else {
      MulMonotone(n, page - 1, perPage);
    }
  }

  lemma MulMonotone(a: int, b: int, c: nat)
    requires a <= b
    ensures a * c <= b * c
  {
    assert b * c - a * c == (b - a) * c;
  }

  /** `q.replace(",", " ")`. */
  function SafeQuery(q: string): (r: string)
    ensures |r| == |q|
    ensures forall i :: 0 <= i < |q| ==> r[i] == (if q[i] == ',' then ' ' else q[i])
    ensures forall i :: 0 <= i < |q| ==> r[i] != ','
  {
    ReplaceChar(q, ',', ' ')
  }

  /** `{column}.ilike.*{safe}*`: the column contains `safe`, ignoring case. */
  function ILike(column: string, safe: string): string {
    column + ".ilike.*" + safe + "*"
  }

  /** The PostgREST `or` filter on title and content. */
  function OrFilter(q: string): string {
    ILike("title", SafeQuery(q)) + "," + ILike("content", SafeQuery(q))
  }

  /** A condition on a comma-free column holds no comma once the query is made safe. */
  lemma ILikeNoComma(column: string, q: string)
    requires ',' !in column
    ensures CountChar(ILike(column, SafeQuery(q)), ',') == 0
  {
    var s := SafeQuery(q);
    CountCharAbsent(column, ',');
    CountCharAbsent(".ilike.*", ',');
    CountCharAbsent(s, ',');
    CountCharAbsent("*", ',');
    CountCharAppend(column, ".ilike.*", ',');
    CountCharAppend(column + ".ilike.*", s, ',');
    CountCharAppend(column + ".ilike.*" + s, "*", ',');
  }

  /** The only comma in the filter is the one separating its two conditions, whatever `q` holds. */
  lemma OrFilterHasTwoConditions(q: string)
    ensures CountChar(OrFilter(q), ',') == 1
  {
    var a, b := ILike("title", SafeQuery(q)), ILike("content", SafeQuery(q));
    ILikeNoComma("title", q);
    ILikeNoComma("content", q);
    CountCharAppend(a, ",", ',');
    CountCharAppend(a + ",", b, ',');
  }

  datatype Filter = Eq(column: string, value: string) | AnyOf(expr: string)

  /** The filters shared by the row query and the count query. */
  function SearchFilters(q: string, category: Option<string>): seq<Filter> {
    [Eq("status", "approved")]
      + (if q != [] then [AnyOf(OrFilter(q))] else [])
      + (if Truthy(category) then [Eq("category", category.value)] else [])
  }

  /** Only approved documents are searched, the text filter exists exactly for a non-empty query, and a category only narrows. */
  lemma SearchFiltersApprovedOnly(q: string, category: Option<string>)
    ensures SearchFilters(q, category)[0] == Eq("status", "approved")
    ensures forall f :: f in SearchFilters(q, category) && f.Eq? && f.column == "status" ==> f.value == "approved"
    ensures (exists f :: f in SearchFilters(q, category) && f.AnyOf?) <==> q != []
    ensures (exists f :: f in SearchFilters(q, category) && f.Eq? && f.column == "category") <==> Truthy(category)
  {
    var fs := SearchFilters(q, category);
    if q != [] { assert AnyOf(OrFilter(q)) in fs; }
    if Truthy(category) { assert Eq("category", category.value) in fs; }
  }

  datatype RowQuery = RowQuery(filters: seq<Filter>, orderColumn: string, descending: bool, rangeFrom: int, rangeTo: int)

  /** The row query of a search, or 422 when the paging parameters are out of bounds. */
  function SearchQuery(q: string, page: int, perPage: int, category: Option<string>): (r: Result<RowQuery, int>)
    ensures r.Err? <==> !ValidPaging(page, perPage)
    ensures r.Err? ==> r.error == Unprocessable
    ensures r.Ok? ==> r.value.rangeTo - r.value.rangeFrom + 1 == perPage && r.value.rangeFrom == (page - 1) * perPage
    ensures r.Ok? ==> r.value.filters == SearchFilters(q, category)
  {
    if !ValidPaging(page, perPage) then Err(Unprocessable)
    else Ok(RowQuery(SearchFilters(q, category), "created_at", true, Offset(page, perPage), RangeEnd(page, perPage)))
  }

  datatype SearchReply<R> = SearchReply(items: seq<R>, page: int, perPage: int, total: nat, totalPages: nat)

  /** The response, from the rows and the exact count the database returns; `count or 0`. */
  function Reply<R>(rows: seq<R>, page: int, perPage: int, count: Option<nat>): (r: SearchReply<R>)
    requires ValidPaging(page, perPage)
    ensures r.items == rows && r.page == page && r.perPage == perPage
    ensures r.total == count.GetOr(0)
    ensures r.totalPages == TotalPages(r.total, perPage)
    ensures r.total == 0 ==> r.totalPages == 0
    ensures r.totalPages * perPage >= r.total
    ensures r.total > 0 ==> (r.totalPages - 1) * perPage < r.total
    ensures page <= r.totalPages <==> Offset(page, perPage) < r.total
  {
    var total := if count.Some? then count.value else 0;
    TotalPagesCeiling(total, perPage);
    PageWithinTotal(total, page, perPage);
    SearchReply(rows, page, perPage, total, TotalPages(total, perPage))
  }

  // ---------------------------------------------------------------------------
  // moderate

  /**
   * `update_data`: status and update time always, the approval time only for
   * the action "approved". The two clock readings are separate parameters.
   */
  function ModerationUpdate(action: string, updatedAt: string, approvedAt: string): Dict<string> {
    var base := [Entry("status", action), Entry("updated_at", updatedAt)];
    if action == "approved" then Put(base, "approved_at", approvedAt) else base
  }

  lemma ModerationUpdateContents(action: string, updatedAt: string, approvedAt: string)
    ensures Get(ModerationUpdate(action, updatedAt, approvedAt), "status") == Some(action)
    ensures Get(ModerationUpdate(action, updatedAt, approvedAt), "updated_at") == Some(updatedAt)
    ensures Get(ModerationUpdate(action, updatedAt, approvedAt), "approved_at") ==
            if action == "approved" then Some(approvedAt) else None
    ensures Keys(ModerationUpdate(action, updatedAt, approvedAt)) ==
            {"status", "updated_at"} + (if action == "approved" then {"approved_at"} else {})
  {
    var base := [Entry("status", action), Entry("updated_at", updatedAt)];
    assert Keys(base) == {"status", "updated_at"} by {
      assert base[0].key == "status" && base[1].key == "updated_at";
    }
    if action == "approved" {
      PutFresh(base, "approved_at", approvedAt);
    }
  }

  // ---------------------------------------------------------------------------
  // categories

  /** Python's `<` on strings: lexicographic by code point. */
  predicate StrLess(a: string, b: string)
    decreases |a|
  {
    if a == [] then b != []
    else if b == [] then false
    else if a[0] != b[0] then a[0] < b[0]
    else StrLess(a[1..], b[1..])
  }

  lemma {:induction false} StrLessIrreflexive(a: string)
    ensures !StrLess(a, a)
    decreases |a|
  {
    if a != [] { StrLessIrreflexive(a[1..]); }
  }

  lemma {:induction false} StrLessTotal(a: string, b: string)
    requires a != b
    ensures StrLess(a, b) || StrLess(b, a)
    decreases |a|
  {
    if a != [] && b != [] && a[0] == b[0] {
      assert a == [a[0]] + a[1..] && b == [b[0]] + b[1..];
      StrLessTotal(a[1..], b[1..]);
    }
  }

  lemma {:induction false} StrLessTransitive(a: string, b: string, c: string)
    requires StrLess(a, b) && StrLess(b, c)
    ensures StrLess(a, c)
    decreases |a|
  {
    if a != [] && a[0] == b[0] && b[0] == c[0] {
      StrLessTransitive(a[1..], b[1..], c[1..]);
    }
  }

  predicate StrictlySorted(s: seq<string>) {
    forall i, j :: 0 <= i < j < |s| ==> StrLess(s[i], s[j])
  }

  /** Adds `x` to a strictly sorted list unless it is already there. */
  function InsertUnique(s: seq<string>, x: string): (r: seq<string>)
    ensures forall c :: c in r <==> c in s || c == x
    decreases |s|
  {
    if s == [] then [x]
    else if x == s[0] then s
    else if StrLess(x, s[0]) then [x] + s
    else [s[0]] + InsertUnique(s[1..], x)
  }

  lemma {:induction false} InsertUniqueSorted(s: seq<string>, x: string)
    requires StrictlySorted(s)
    ensures StrictlySorted(InsertUnique(s, x))
    decreases |s|
  {
    if s != [] && x != s[0] {
      var r := InsertUnique(s, x);
      if StrLess(x, s[0]) {
        forall i, j | 0 <= i < j < |r| ensures StrLess(r[i], r[j]) {
          if i == 0 && j > 1 { StrLessTransitive(x, s[0], s[j - 1]); }
        }
      } else {
        StrLessTotal(x, s[0]);
        var t := s[1..];
        assert StrictlySorted(t) by {
          forall i, j | 0 <= i < j < |t| ensures StrLess(t[i], t[j]) { assert t[i] == s[i + 1] && t[j] == s[j + 1]; }
        }
        InsertUniqueSorted(t, x);
        var rt := InsertUnique(t, x);
        assert r == [s[0]] + rt;
        forall j | 0 <= j < |rt| ensures StrLess(s[0], rt[j]) {
          assert rt[j] in rt;
          if rt[j] != x {
            var k :| 0 <= k < |t| && t[k] == rt[j];
            assert s[k + 1] == t[k];
          }
        }
        forall i, j | 0 <= i < j < |r| ensures StrLess(r[i], r[j]) {
          if i == 0 { assert r[j] == rt[j - 1]; } else { assert r[i] == rt[i - 1] && r[j] == rt[j - 1]; }
        }
      }
    }
  }

  /** `sorted(set(xs))`. */
  function SortedSet(xs: seq<string>): (r: seq<string>)
    ensures forall c :: c in r <==> c in xs
    decreases |xs|
  {
    if xs == [] then [] else InsertUnique(SortedSet(xs[..|xs| - 1]), xs[|xs| - 1])
  }

  lemma {:induction false} SortedSetSorted(xs: seq<string>)
    ensures StrictlySorted(SortedSet(xs))
    decreases |xs|
  {
    if xs != [] {
      SortedSetSorted(xs[..|xs| - 1]);
      InsertUniqueSorted(SortedSet(xs[..|xs| - 1]), xs[|xs| - 1]);
    }
  }

  /** The category of every approved row that has a truthy one. */
  function PresentCategories(rows: seq<Option<string>>): (r: seq<string>)
    ensures forall c :: c in r <==> c != [] && Some(c) in rows
    decreases |rows|
  {
    if rows == [] then []
    else
      var last := rows[|rows| - 1];
      assert rows == rows[..|rows| - 1] + [last];
      PresentCategories(rows[..|rows| - 1]) + (if Truthy(last) then [last.value] else [])
  }

  /** The `categories` of the response. */
  function Categories(rows: seq<Option<string>>): seq<string> {
    SortedSet(PresentCategories(rows))
  }

  /** The categories are exactly the non-empty ones present, sorted, each once. */
  lemma CategoriesSortedSet(rows: seq<Option<string>>)
    ensures forall c :: c in Categories(rows) <==> c != [] && Some(c) in rows
    ensures StrictlySorted(Categories(rows))
    ensures forall i, j :: 0 <= i < j < |Categories(rows)| ==> Categories(rows)[i] != Categories(rows)[j]
  {
    var r := Categories(rows);
    SortedSetSorted(PresentCategories(rows));
    forall i, j | 0 <= i < j < |r| ensures r[i] != r[j] {
      StrLessIrreflexive(r[i]);
    }
  }
}
