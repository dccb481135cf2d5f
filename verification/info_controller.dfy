/**
  The info-record controller (controllers/infoController.js) over an
  in-memory collection.

  The collection is a sequence of records in insertion order. Every handler
  is a function from the collection and the request to either a new
  collection or an `ApiError`; the caller is the authenticated admin's id.
  The random identifiers (`uuidv4`, the new document's `_id`), the QR image,
  the `FRONTEND_URL` setting and the clock are parameters.
*/
module InfoController {
  import opened Wrappers
  import opened JsString
  import opened InfoRecordSchema

  /** The collection, in insertion order. */
  type Store = seq<InfoRecord>

  /** Why a request is refused. `MissingRequiredFields` and `ValidationFailed`
      answer 400, `NotFound` 404 and `ServerError` 500. */
  datatype ApiError =
    | MissingRequiredFields
    | ValidationFailed(errors: seq<SchemaError>)
    | NotFound
    | ServerError

  /** A successful write: the new collection and the record it answers with. */
  datatype Written = Written(store: Store, record: InfoRecord)

  /** The invariant of the collection: every record is stored trimmed and
      valid, and `_id` and `uniqueId` are unique. */
  predicate WellFormed(store: Store) {
    && (forall i :: 0 <= i < |store| ==> Stored(store[i]))
    && (forall i, j :: 0 <= i < j < |store| ==> store[i].id != store[j].id)
    && (forall i, j :: 0 <= i < j < |store| ==> store[i].uniqueId != store[j].uniqueId)
  }

  // ---------------------------------------------------------------------------
  // Lookup

  /** The first record satisfying `p`, as MongoDB's `findOne` returns it when
      the collection is scanned in insertion order. */
  function FindFirst(store: Store, p: InfoRecord -> bool): (r: Option<nat>)
    ensures r.Some? ==> r.value < |store| && p(store[r.value])
    ensures r.Some? ==> forall k :: 0 <= k < r.value ==> !p(store[k])
    ensures r.None? <==> forall k :: 0 <= k < |store| ==> !p(store[k])
  {
    if store == [] then None
    else if p(store[0]) then Some(0)
    else
      var rest := FindFirst(store[1..], p);
      assert forall k :: 1 <= k < |store| ==> store[k] == store[1..][k - 1];
      if rest.None? then None else Some(rest.value + 1)
  }

  /** `FindFirst` answers `i` exactly when `i` is the first position that
      satisfies `p`. */
  lemma FindFirstIs(store: Store, p: InfoRecord -> bool, i: nat)
    requires i < |store| && p(store[i])
    requires forall k :: 0 <= k < i ==> !p(store[k])
    ensures FindFirst(store, p) == Some(i)
  {
  }

  /** `{ _id: id, adminId }`: the record with this id, if the caller owns it. */
  predicate OwnedBy(r: InfoRecord, id: ObjectId, caller: ObjectId) {
    r.id == id && r.adminId == Some(caller)
  }

  /** `findOne({ _id: id, adminId })`. */
  function FindOwned(store: Store, id: ObjectId, caller: ObjectId): (r: Option<nat>)
    ensures r.Some? ==> r.value < |store| && OwnedBy(store[r.value], id, caller)
    ensures r.Some? ==> forall k :: 0 <= k < r.value ==> !OwnedBy(store[k], id, caller)
    ensures r.None? <==> forall k :: 0 <= k < |store| ==> !OwnedBy(store[k], id, caller)
  {
    FindFirst(store, r => OwnedBy(r, id, caller))
  }

  /** `{ uniqueId, isActive: true }`: what the public page may show. */
  predicate Viewable(r: InfoRecord, uniqueId: string) {
    r.uniqueId == uniqueId && r.isActive
  }

  /** `findOne({ uniqueId, isActive: true })`. */
  function FindViewable(store: Store, uniqueId: string): (r: Option<nat>)
    ensures r.Some? ==> r.value < |store| && Viewable(store[r.value], uniqueId)
    ensures r.Some? ==> forall k :: 0 <= k < r.value ==> !Viewable(store[k], uniqueId)
    ensures r.None? <==> forall k :: 0 <= k < |store| ==> !Viewable(store[k], uniqueId)
  {
    FindFirst(store, r => Viewable(r, uniqueId))
  }

  /** In a well-formed collection the two lookups name the only candidate. */
  lemma FindOwnedUnique(store: Store, id: ObjectId, caller: ObjectId, i: nat)
    requires WellFormed(store)
    requires i < |store| && OwnedBy(store[i], id, caller)
    ensures FindOwned(store, id, caller) == Some(i)
  {
    assert forall k :: 0 <= k < i ==> store[k].id != store[i].id;
    FindFirstIs(store, r => OwnedBy(r, id, caller), i);
  }

  lemma FindViewableUnique(store: Store, uniqueId: string, i: nat)
    requires WellFormed(store)
    requires i < |store| && Viewable(store[i], uniqueId)
    ensures FindViewable(store, uniqueId) == Some(i)
  {
    assert forall k :: 0 <= k < i ==> store[k].uniqueId != store[i].uniqueId;
    FindFirstIs(store, r => Viewable(r, uniqueId), i);
  }

  // ---------------------------------------------------------------------------
  // Create

  /** Where the QR code points when `FRONTEND_URL` is unset. */
  const DefaultFrontendUrl: string := "http://localhost:3000"

  /** The public page's path below the frontend. */
  const ViewPath: string := "/view/"

  /** `process.env.FRONTEND_URL || 'http://localhost:3000'`; an unset
      variable is the empty string. */
  function FrontendUrl(env: string): (u: string)
    ensures u != ""
    ensures env != "" ==> u == env
    ensures env == "" ==> u == DefaultFrontendUrl
  {
    if env != "" then env else DefaultFrontendUrl
  }

  /** The record's id as the frontend's `/view/:uniqueId` route reads it back
      from a URL, if the URL is one of this frontend's view links. */
  function ViewLinkId(env: string, url: string): Option<string> {
    var prefix := FrontendUrl(env) + ViewPath;
    if |prefix| <= |url| && url[..|prefix|] == prefix then Some(url[|prefix|..]) else None
  }

  /** The URL the QR code encodes: the frontend's view link for `uniqueId`. */
  function QrCodeUrl(env: string, uniqueId: string): (url: string)
    ensures url != ""
    ensures ViewLinkId(env, url) == Some(uniqueId)
  {
    var prefix := FrontendUrl(env) + ViewPath;
    var url := prefix + uniqueId;
    assert url[..|prefix|] == prefix && url[|prefix|..] == uniqueId;
    url
  }

  /** Distinct records get distinct QR codes. */
  lemma QrCodeUrlInjective(env: string, u1: string, u2: string)
    ensures QrCodeUrl(env, u1) == QrCodeUrl(env, u2) <==> u1 == u2
  {
    if QrCodeUrl(env, u1) == QrCodeUrl(env, u2) {
      assert Some(u1) == ViewLinkId(env, QrCodeUrl(env, u1)) == Some(u2);
    }
  }

  /** Some record already holds `uniqueId` (the unique index on it). */
  predicate UniqueIdTaken(store: Store, uniqueId: string) {
    exists k :: 0 <= k < |store| && store[k].uniqueId == uniqueId
  }

  /** The handler's own check: `medicineName`, `usage` and `dosage` present. */
  predicate PassesPrecheck(body: Content) {
    body.medicineName != "" && body.usage != "" && body.dosage != ""
  }

  /** `createInfoRecord`. The handler's own check looks at the untrimmed
      `medicineName`, `usage` and `dosage`; a QR image that could not be
      produced (`qrImage == None`) and a duplicate `uniqueId` are server
      errors; everything else the schema decides after trimming. */
  function Create(store: Store, body: Content, caller: ObjectId, env: string, uniqueId: string,
                  qrImage: Option<string>, newId: ObjectId, now: Time): (r: Result<Written, ApiError>)
    // The checks, in the order the handler makes them.
    ensures body.medicineName == "" || body.usage == "" || body.dosage == "" ==>
              r == Failure(MissingRequiredFields)
    ensures PassesPrecheck(body) && qrImage.None? ==> r == Failure(ServerError)
    ensures PassesPrecheck(body) && qrImage.Some? && !ContentValid(TrimContent(body)) ==>
              r.Failure? && r.error.ValidationFailed? && r.error.errors != []
    ensures PassesPrecheck(body) && qrImage.Some? && ContentValid(TrimContent(body)) && uniqueId == "" ==>
              r.Failure? && r.error.ValidationFailed? && r.error.errors != []
    ensures PassesPrecheck(body) && qrImage.Some? && ContentValid(TrimContent(body)) && uniqueId != ""
            && UniqueIdTaken(store, uniqueId) ==>
              r == Failure(ServerError)
    ensures r.Success? <==>
              && PassesPrecheck(body) && qrImage.Some? && ContentValid(TrimContent(body))
              && uniqueId != "" && !UniqueIdTaken(store, uniqueId)
    ensures r.Success? ==>
              var rec := r.value.record;
              && r.value.store == store + [rec]
              && Stored(rec)
              && rec.id == newId && rec.content == TrimContent(body) && rec.adminId == Some(caller)
              && rec.uniqueId == uniqueId && rec.qrCodeUrl == QrCodeUrl(env, uniqueId)
              && rec.qrCodeImage == qrImage
              && rec.viewCount == 0 && rec.lastViewed == None && rec.isActive
              && rec.createdAt == now && rec.updatedAt == now
  {
    if !PassesPrecheck(body) then Failure(MissingRequiredFields)
    else if qrImage.None? then Failure(ServerError)
    else
      var doc := NewDocument(newId, body, Some(caller), QrCodeUrl(env, uniqueId), qrImage, uniqueId, now);
      var saved := Save(None, doc, now);
      if saved.Failure? then Failure(ValidationFailed(saved.error))
      else if UniqueIdTaken(store, uniqueId) then Failure(ServerError)
      else Success(Written(store + [saved.value], saved.value))
  }

  /** A field that is present but blank passes the handler's own check and
      is then rejected by the schema, because the setter trims it to "". */
  lemma CreateRejectsBlankField(store: Store, body: Content, caller: ObjectId, env: string, uniqueId: string,
                                qrImage: Option<string>, newId: ObjectId, now: Time, f: Field)
    requires PassesPrecheck(body) && qrImage.Some?
    requires IsBlank(body.Get(f))
    ensures var r := Create(store, body, caller, env, uniqueId, qrImage, newId, now);
            r.Failure? && r.error.ValidationFailed?
  {
    assert !FieldOk(TrimContent(body), f);
  }

  // ---------------------------------------------------------------------------
  // Listing

  /** `find({ adminId })` without sort, skip and limit: the caller's records. */
  function Owned(store: Store, caller: ObjectId): (r: Store)
    ensures |r| <= |store|
    ensures forall x :: x in r <==> x in store && x.adminId == Some(caller)
  {
    if store == [] then []
    else
      var rest := Owned(store[1..], caller);
      assert forall x :: x in store <==> x == store[0] || x in store[1..];
      if store[0].adminId == Some(caller) then [store[0]] + rest else rest
  }

  /** Each of the caller's records is listed as often as it is stored, and no
      other record is listed. */
  lemma {:induction false} OwnedMultiplicity(store: Store, caller: ObjectId)
    ensures forall x :: multiset(Owned(store, caller))[x] == if x.adminId == Some(caller) then multiset(store)[x] else 0
  {
    if store != [] {
      OwnedMultiplicity(store[1..], caller);
      assert store == [store[0]] + store[1..];
      assert multiset(store) == multiset([store[0]]) + multiset(store[1..]);
    }
  }

  /** The positions of the caller's records in the collection. */
  function OwnedPositions(store: Store, caller: ObjectId): set<nat> {
    set k: nat | k < |store| && store[k].adminId == Some(caller)
  }

  /** The listing grows at the end as the collection does. */
  lemma {:induction false} OwnedSnoc(store: Store, x: InfoRecord, caller: ObjectId)
    ensures Owned(store + [x], caller) == Owned(store, caller) + (if x.adminId == Some(caller) then [x] else [])
  {
    if store != [] {
      var s := store + [x];
      assert s[0] == store[0] && s[1..] == store[1..] + [x];
      OwnedSnoc(store[1..], x, caller);
      assert Owned(s, caller) == (if store[0].adminId == Some(caller) then [store[0]] else []) + Owned(s[1..], caller);
      assert Owned(store, caller) == (if store[0].adminId == Some(caller) then [store[0]] else []) + Owned(store[1..], caller);
    }
  }

  /** A record appended to the collection adds its own position exactly when
      the caller owns it. */
  lemma PositionsSnoc(store: Store, x: InfoRecord, caller: ObjectId)
    ensures OwnedPositions(store + [x], caller)
            == OwnedPositions(store, caller) + (if x.adminId == Some(caller) then {|store|} else {})
    ensures |store| !in OwnedPositions(store, caller)
  {
    var s := store + [x];
    forall k: nat | k < |store| ensures s[k] == store[k] { }
  }

  /** The listing is as long as the number of positions holding one of the
      caller's records: `countDocuments({ adminId })` counts each document once. */
  lemma {:induction false} OwnedCount(store: Store, caller: ObjectId)
    ensures |Owned(store, caller)| == |OwnedPositions(store, caller)|
  {
    if store != [] {
      var n := |store| - 1;
      var front := store[..n];
      assert store == front + [store[n]];
      OwnedSnoc(front, store[n], caller);
      PositionsSnoc(front, store[n], caller);
      OwnedCount(front, caller);
    }
  }

  /** `parseInt(q) || fallback`: `None` is NaN, and NaN and 0 both fall back. */
  function QueryNumber(parsed: Option<int>, fallback: int): int {
    if parsed.None? || parsed.value == 0 then fallback else parsed.value
  }

  /** `Math.ceil(a / b)` for a non-negative `a` and a non-zero `b`. */
  function CeilDiv(a: nat, b: int): (q: int)
    requires b != 0
    ensures b > 0 ==> (q - 1) * b < a <= q * b
    ensures b < 0 ==> q * b <= a < (q - 1) * b
  {
    if b > 0 then (a + b - 1) / b else -(a / -b)
  }

  /** The pagination block of the listing, with the skip it queries with. */
  datatype Pagination = Pagination(current: int, limit: int, skip: int, pages: int, total: nat)

  /** The arithmetic of `getAdminInfoRecords`. The page and limit are never 0,
      so the page count is always a finite number. */
  function Paginate(page: Option<int>, limit: Option<int>, total: nat): (p: Pagination)
    ensures p.current != 0 && p.limit != 0 && p.total == total
    ensures p.current == (if page.Some? && page.value != 0 then page.value else 1)
    ensures p.limit == (if limit.Some? && limit.value != 0 then limit.value else 10)
    ensures p.skip == (p.current - 1) * p.limit
    ensures p.limit > 0 ==> p.pages >= 0 && (p.pages - 1) * p.limit < total <= p.pages * p.limit
    ensures p.limit < 0 ==> p.pages <= 0 && p.pages * p.limit <= total < (p.pages - 1) * p.limit
  {
    var current := QueryNumber(page, 1);
    var size := QueryNumber(limit, 10);
    Pagination(current, size, (current - 1) * size, CeilDiv(total, size), total)
  }

  /** `getAdminInfoRecords`' pagination block for the caller. */
  function ListPagination(store: Store, caller: ObjectId, page: Option<int>, limit: Option<int>): (p: Pagination)
    ensures p.total == |Owned(store, caller)| == |OwnedPositions(store, caller)|
    ensures p.current == (if page.Some? && page.value != 0 then page.value else 1)
    ensures p.limit == (if limit.Some? && limit.value != 0 then limit.value else 10)
    ensures p.skip == (p.current - 1) * p.limit
    ensures p.limit > 0 ==> p.pages >= 0 && (p.pages - 1) * p.limit < p.total <= p.pages * p.limit
    ensures p.limit < 0 ==> p.pages * p.limit <= p.total < (p.pages - 1) * p.limit
  {
    OwnedCount(store, caller);
    Paginate(page, limit, |Owned(store, caller)|)
  }

  /** Multiplying by a positive number keeps the order. */
  lemma MulLess(a: int, x: int, y: int)
    requires a > 0
    ensures x < y <==> x * a < y * a
  {
    if x < y {
      assert (y - x) * a > 0;
    } else {
      assert (x - y) * a >= 0;
    }
  }

  /** `k div a` is the `x` with `x * a <= k < (x + 1) * a`. */
  lemma DivBetween(k: nat, a: int, x: int)
    requires a > 0
    ensures x * a <= k < (x + 1) * a <==> k / a == x
  {
    var q := k / a;
    assert q * a <= k < (q + 1) * a;
    MulLess(a, q, x + 1);
    MulLess(a, x, q + 1);
  }

  /** With a positive page and limit, the record at position `k` of the
      caller's listing is on page `current` exactly when `k div limit + 1` is
      `current`, and that page is one of the `pages` reported. */
  lemma PageContains(p: Pagination, k: nat)
    requires p.current >= 1 && p.limit > 0 && p.skip == (p.current - 1) * p.limit
    requires (p.pages - 1) * p.limit < p.total <= p.pages * p.limit
    requires k < p.total
    ensures p.skip <= k < p.skip + p.limit <==> k / p.limit + 1 == p.current
    ensures 1 <= k / p.limit + 1 <= p.pages
  {
    var q := k / p.limit;
    assert p.skip + p.limit == p.current * p.limit;
    DivBetween(k, p.limit, p.current - 1);
    assert q * p.limit <= k;
    MulLess(p.limit, q, p.pages);
  }

  // ---------------------------------------------------------------------------
  // Public view

  /** `getInfoRecordByUniqueId`: the first active record with `uniqueId`,
      after `incrementView` has counted this visit. */
  function View(store: Store, uniqueId: string, now: Time): (r: Result<Written, ApiError>)
    ensures r == Failure(NotFound) <==> forall k :: 0 <= k < |store| ==> !Viewable(store[k], uniqueId)
    ensures r.Failure? ==> r.error.NotFound? || r.error.ServerError?
    // A found record is shown exactly when its `save` passes validation.
    ensures r.Success? <==>
              FindViewable(store, uniqueId).Some? && Valid(store[FindViewable(store, uniqueId).value])
    ensures r.Success? ==>
              var i := FindViewable(store, uniqueId).value;
              var prev := store[i];
              var rec := r.value.record;
              && FindViewable(store, uniqueId).Some?
              && r.value.store == store[i := rec]
              && Viewable(rec, uniqueId)
              && rec.viewCount == prev.viewCount + 1 && rec.lastViewed == Some(now) && rec.updatedAt == now
              && rec.(viewCount := prev.viewCount, lastViewed := prev.lastViewed, updatedAt := prev.updatedAt) == prev
  {
    var found := FindViewable(store, uniqueId);
    if found.None? then Failure(NotFound)
    else
      var viewed := IncrementView(store[found.value], now);
      if viewed.Failure? then Failure(ServerError)
      else Success(Written(store[found.value := viewed.value], viewed.value))
  }

  // ---------------------------------------------------------------------------
  // Update

  /** `body.f || record.f` for every content field: a non-empty request value
      replaces the stored one. */
  function Merge(stored: Content, body: Content): (c: Content)
    ensures forall f: Field :: body.Get(f) != "" ==> c.Get(f) == body.Get(f)
    ensures forall f: Field :: body.Get(f) == "" ==> c.Get(f) == stored.Get(f)
  {
    MapFields(stored, body, ContentFields)
  }

  /** `Merge` on the fields `fs`. */
  function MapFields(stored: Content, body: Content, fs: seq<Field>): (c: Content)
    ensures forall f: Field :: f in fs && body.Get(f) != "" ==> c.Get(f) == body.Get(f)
    ensures forall f: Field :: f !in fs || body.Get(f) == "" ==> c.Get(f) == stored.Get(f)
  {
    if fs == [] then stored
    else
      var c := MapFields(stored, body, fs[1..]);
      var f := fs[0];
      if body.Get(f) != "" then c.With(f, body.Get(f)) else c.With(f, stored.Get(f))
  }

  /** A request with no fields leaves the content as it is. */
  lemma MergeEmptyBody(stored: Content)
    ensures Merge(stored, Content("", "", "", "", "", "", "", "", "", "")) == stored
  {
    ContentEq(Merge(stored, Content("", "", "", "", "", "", "", "", "", "")), stored);
  }

  /** Merging the same request twice is merging it once. */
  lemma MergeIdempotent(stored: Content, body: Content)
    ensures Merge(Merge(stored, body), body) == Merge(stored, body)
  {
    ContentEq(Merge(Merge(stored, body), body), Merge(stored, body));
  }

  /** The record at position `i` with the request merged in and trimmed by
      the setters, then saved. */
  function UpdateAt(store: Store, i: nat, body: Content, now: Time): (r: Result<Written, ApiError>)
    requires i < |store|
    ensures r.Success? <==> Valid(store[i].(content := TrimContent(Merge(store[i].content, body))))
    ensures r.Failure? ==> r.error.ValidationFailed? && r.error.errors != []
    ensures r.Success? ==> r.value.store == store[i := r.value.record] && Valid(r.value.record)
    ensures r.Success? ==>
              r.value.record == store[i].(content := TrimContent(Merge(store[i].content, body)), updatedAt := r.value.record.updatedAt)
    ensures r.Success? ==>
              r.value.record.updatedAt == if r.value.record.content == store[i].content then store[i].updatedAt else now
  {
    var prev := store[i];
    var doc := prev.(content := TrimContent(Merge(prev.content, body)));
    var saved := Save(Some(prev), doc, now);
    if saved.Failure? then Failure(ValidationFailed(saved.error))
    else
      assert saved.value.(updatedAt := doc.updatedAt) == doc;
      Success(Written(store[i := saved.value], saved.value))
  }

  /** Writing a record back where it came from leaves the collection as it was. */
  lemma WriteBackSame(store: Store, i: nat)
    requires i < |store|
    ensures store[i := store[i]] == store
  {
  }

  /** Saving a merge that leaves a valid record's content as it was writes nothing. */
  lemma UpdateAtNoChange(store: Store, i: nat, body: Content, now: Time)
    requires i < |store| && Valid(store[i])
    requires TrimContent(Merge(store[i].content, body)) == store[i].content
    ensures UpdateAt(store, i, body, now) == Success(Written(store, store[i]))
  {
    var prev := store[i];
    var r := UpdateAt(store, i, body, now);
    assert prev.(content := TrimContent(Merge(prev.content, body))) == prev;
    var rec := r.value.record;
    assert rec == prev;
    WriteBackSame(store, i);
  }

  /** `updateInfoRecord`: the caller's record with the request merged in and
      trimmed by the setters, then saved. A schema violation answers 400;
      `updatedAt` moves only when some field actually changed. */
  function Update(store: Store, id: ObjectId, caller: ObjectId, body: Content, now: Time): (r: Result<Written, ApiError>)
    ensures r == Failure(NotFound) <==> FindOwned(store, id, caller).None?
    ensures r.Failure? ==> r.error.NotFound? || (r.error.ValidationFailed? && r.error.errors != [])
    // A found record is updated exactly when the merged, trimmed record passes validation.
    ensures r.Success? <==>
              && FindOwned(store, id, caller).Some?
              && var prev := store[FindOwned(store, id, caller).value];
                 Valid(prev.(content := TrimContent(Merge(prev.content, body))))
    ensures r.Success? ==>
              var i := FindOwned(store, id, caller).value;
              var prev := store[i];
              var rec := r.value.record;
              && FindOwned(store, id, caller).Some?
              && r.value.store == store[i := rec]
              && Valid(rec)
              && rec == prev.(content := TrimContent(Merge(prev.content, body)), updatedAt := rec.updatedAt)
              && rec.updatedAt == if rec.content == prev.content then prev.updatedAt else now
    // An update that changes nothing writes nothing.
    ensures FindOwned(store, id, caller).Some? ==>
              var prev := store[FindOwned(store, id, caller).value];
              Valid(prev) && TrimContent(Merge(prev.content, body)) == prev.content ==>
                r == Success(Written(store, prev))
  {
    var found := FindOwned(store, id, caller);
    if found.None? then Failure(NotFound)
    else
      var prev := store[found.value];
      assert Valid(prev) && TrimContent(Merge(prev.content, body)) == prev.content ==>
               UpdateAt(store, found.value, body, now) == Success(Written(store, prev)) by {
        if Valid(prev) && TrimContent(Merge(prev.content, body)) == prev.content {
          UpdateAtNoChange(store, found.value, body, now);
        }
      }
      UpdateAt(store, found.value, body, now)
  }

  /** A non-empty but blank request field is trimmed to "" and rejected. */
  lemma UpdateRejectsBlankField(store: Store, id: ObjectId, caller: ObjectId, body: Content, now: Time, f: Field)
    requires FindOwned(store, id, caller).Some?
    requires body.Get(f) != "" && IsBlank(body.Get(f))
    ensures Update(store, id, caller, body, now).Failure?
    ensures Update(store, id, caller, body, now).error.ValidationFailed?
  {
    var prev := store[FindOwned(store, id, caller).value];
    assert TrimContent(Merge(prev.content, body)).Get(f) == "";
    assert !FieldOk(TrimContent(Merge(prev.content, body)), f);
  }

  /** A request with no fields on a stored record is a no-op. */
  lemma UpdateEmptyBody(store: Store, id: ObjectId, caller: ObjectId, now: Time, i: nat)
    requires FindOwned(store, id, caller) == Some(i)
    requires Stored(store[i])
    ensures Update(store, id, caller, Content("", "", "", "", "", "", "", "", "", ""), now)
            == Success(Written(store, store[i]))
  {
    var empty := Content("", "", "", "", "", "", "", "", "", "");
    MergeEmptyBody(store[i].content);
    ContentEq(TrimContent(store[i].content), store[i].content);
  }

  /** Merging a request into content that already holds it, and trimming,
      gives that content back. */
  lemma MergeTrimIdempotent(stored: Content, body: Content)
    ensures TrimContent(Merge(TrimContent(Merge(stored, body)), body)) == TrimContent(Merge(stored, body))
  {
    var m := Merge(stored, body);
    var c1 := TrimContent(m);
    var c2 := TrimContent(Merge(c1, body));
    forall f: Field ensures c2.Get(f) == c1.Get(f) {
      var v := if body.Get(f) != "" then body.Get(f) else m.Get(f);
      assert m.Get(f) == v;
      TrimIdempotent(v);
    }
    ContentEq(c2, c1);
  }

  /** Repeating an update that succeeded changes nothing, not even `updatedAt`. */
  lemma UpdateIdempotent(store: Store, id: ObjectId, caller: ObjectId, body: Content, t1: Time, t2: Time)
    requires Update(store, id, caller, body, t1).Success?
    ensures Update(Update(store, id, caller, body, t1).value.store, id, caller, body, t2)
            == Success(Update(store, id, caller, body, t1).value)
  {
    var w := Update(store, id, caller, body, t1).value;
    var i := FindOwned(store, id, caller).value;
    FindFirstAfterWrite(store, i, w.record, r => OwnedBy(r, id, caller));
    MergeTrimIdempotent(store[i].content, body);
    assert w.store[i] == w.record;
  }

  /** Replacing the record `FindFirst` found by one that still satisfies the
      predicate leaves the answer of the lookup as it was. */
  lemma FindFirstAfterWrite(store: Store, i: nat, rec: InfoRecord, p: InfoRecord -> bool)
    requires FindFirst(store, p) == Some(i)
    requires p(rec)
    ensures FindFirst(store[i := rec], p) == Some(i)
  {
    var s := store[i := rec];
    assert forall k :: 0 <= k < i ==> s[k] == store[k];
    FindFirstIs(s, p, i);
  }

  // ---------------------------------------------------------------------------
  // Delete and toggle

  /** `deleteInfoRecord`: `findOneAndDelete({ _id: id, adminId })`. */
  function Delete(store: Store, id: ObjectId, caller: ObjectId): (r: Result<Store, ApiError>)
    ensures r.Failure? <==> forall k :: 0 <= k < |store| ==> !OwnedBy(store[k], id, caller)
    ensures r.Failure? ==> r.error == NotFound
    ensures r.Success? ==>
              var i := FindOwned(store, id, caller).value;
              && FindOwned(store, id, caller).Some?
              && r.value == store[..i] + store[i + 1..]
              && |r.value| == |store| - 1
  {
    var found := FindOwned(store, id, caller);
    if found.None? then Failure(NotFound)
    else Success(store[..found.value] + store[found.value + 1..])
  }

  /** After a delete in a well-formed collection the record is gone and every
      other record is still there. */
  lemma DeleteRemoves(store: Store, id: ObjectId, caller: ObjectId)
    requires WellFormed(store)
    requires Delete(store, id, caller).Success?
    ensures forall k :: 0 <= k < |Delete(store, id, caller).value| ==> Delete(store, id, caller).value[k].id != id
    ensures forall x :: x in store && x.id != id ==> x in Delete(store, id, caller).value
  {
    var i := FindOwned(store, id, caller).value;
    var s := Delete(store, id, caller).value;
    forall k | 0 <= k < |s| ensures s[k].id != id {
      if k < i {
        assert s[k] == store[k];
      } else {
        assert s[k] == store[k + 1];
      }
    }
    forall x | x in store && x.id != id ensures x in s {
      var k :| 0 <= k < |store| && store[k] == x;
      if k < i {
        assert s[k] == x;
      } else {
        assert k != i;
        assert s[k - 1] == x;
      }
    }
  }

  /** `toggleInfoRecordStatus`: flip `isActive` and save. A save that fails
      answers 500 here. */
  function Toggle(store: Store, id: ObjectId, caller: ObjectId, now: Time): (r: Result<Written, ApiError>)
    ensures r == Failure(NotFound) <==> FindOwned(store, id, caller).None?
    ensures r.Failure? ==> r.error.NotFound? || r.error.ServerError?
    // A found record is toggled exactly when its `save` passes validation.
    ensures r.Success? <==>
              FindOwned(store, id, caller).Some? && Valid(store[FindOwned(store, id, caller).value])
    ensures r.Success? ==>
              var i := FindOwned(store, id, caller).value;
              var prev := store[i];
              var rec := r.value.record;
              && FindOwned(store, id, caller).Some?
              && r.value.store == store[i := rec]
              && rec.isActive == !prev.isActive
              && rec.updatedAt == now
              && rec.(isActive := prev.isActive, updatedAt := prev.updatedAt) == prev
  {
    var found := FindOwned(store, id, caller);
    if found.None? then Failure(NotFound)
    else
      var prev := store[found.value];
      assert Valid(prev.(isActive := !prev.isActive)) <==> Valid(prev);
      var saved := Save(Some(prev), prev.(isActive := !prev.isActive), now);
      if saved.Failure? then Failure(ServerError)
      else Success(Written(store[found.value := saved.value], saved.value))
  }

  /** Toggling twice restores the record except for `updatedAt`. */
  lemma ToggleTwice(store: Store, id: ObjectId, caller: ObjectId, t1: Time, t2: Time)
    requires Toggle(store, id, caller, t1).Success?
    ensures var i := FindOwned(store, id, caller).value;
            Toggle(Toggle(store, id, caller, t1).value.store, id, caller, t2).Success?
            && Toggle(Toggle(store, id, caller, t1).value.store, id, caller, t2).value.store
               == store[i := store[i].(updatedAt := t2)]
  {
    var i := FindOwned(store, id, caller).value;
    var w := Toggle(store, id, caller, t1).value;
    FindFirstAfterWrite(store, i, w.record, r => OwnedBy(r, id, caller));
    assert w.record.(isActive := !w.record.isActive, updatedAt := t2) == store[i].(updatedAt := t2);
  }

  /** A deactivated record disappears from the public page. */
  lemma DeactivatedIsNotViewable(store: Store, id: ObjectId, caller: ObjectId, now: Time, t: Time)
    requires WellFormed(store)
    requires Toggle(store, id, caller, now).Success?
    requires !Toggle(store, id, caller, now).value.record.isActive
    ensures View(Toggle(store, id, caller, now).value.store,
                 Toggle(store, id, caller, now).value.record.uniqueId, t) == Failure(NotFound)
  {
    var i := FindOwned(store, id, caller).value;
    var w := Toggle(store, id, caller, now).value;
    forall k | 0 <= k < |w.store| ensures !Viewable(w.store[k], w.record.uniqueId) {
      if k < i {
        assert store[k].uniqueId != store[i].uniqueId;
      } else if k > i {
        assert store[i].uniqueId != store[k].uniqueId;
      }
    }
  }

  // ---------------------------------------------------------------------------
  // The invariant

  /** Writing a stored record over one with the same `_id` and `uniqueId`
      keeps the collection well-formed. */
  lemma WriteKeepsWellFormed(store: Store, i: nat, rec: InfoRecord)
    requires WellFormed(store) && i < |store|
    requires Stored(rec) && rec.id == store[i].id && rec.uniqueId == store[i].uniqueId
    ensures WellFormed(store[i := rec])
  {
  }

  /** Appending a stored record whose `_id` and `uniqueId` are new keeps the
      collection well-formed. */
  lemma AppendKeepsWellFormed(store: Store, rec: InfoRecord)
    requires WellFormed(store) && Stored(rec)
    requires forall k :: 0 <= k < |store| ==> store[k].id != rec.id && store[k].uniqueId != rec.uniqueId
    ensures WellFormed(store + [rec])
  {
    var s := store + [rec];
    assert forall k :: 0 <= k < |store| ==> s[k] == store[k];
    assert s[|store|] == rec;
  }

  /** Removing a record keeps the collection well-formed. */
  lemma RemoveKeepsWellFormed(store: Store, i: nat)
    requires WellFormed(store) && i < |store|
    ensures WellFormed(store[..i] + store[i + 1..])
  {
    var s := store[..i] + store[i + 1..];
    assert forall k :: 0 <= k < |s| ==> s[k] == (if k < i then store[k] else store[k + 1]);
  }

  /** Every successful handler keeps the collection well-formed; `Create`
      needs an `_id` no record has. */
  lemma CreateKeepsWellFormed(store: Store, body: Content, caller: ObjectId, env: string, uniqueId: string,
                              qrImage: Option<string>, newId: ObjectId, now: Time)
    requires WellFormed(store)
    requires forall k :: 0 <= k < |store| ==> store[k].id != newId
    requires Create(store, body, caller, env, uniqueId, qrImage, newId, now).Success?
    ensures WellFormed(Create(store, body, caller, env, uniqueId, qrImage, newId, now).value.store)
  {
    var w := Create(store, body, caller, env, uniqueId, qrImage, newId, now).value;
    assert !UniqueIdTaken(store, uniqueId);
    AppendKeepsWellFormed(store, w.record);
  }

  lemma ViewKeepsWellFormed(store: Store, uniqueId: string, now: Time)
    requires WellFormed(store)
    requires View(store, uniqueId, now).Success?
    ensures WellFormed(View(store, uniqueId, now).value.store)
  {
    var i := FindViewable(store, uniqueId).value;
    WriteKeepsWellFormed(store, i, View(store, uniqueId, now).value.record);
  }

  lemma UpdateKeepsWellFormed(store: Store, id: ObjectId, caller: ObjectId, body: Content, now: Time)
    requires WellFormed(store)
    requires Update(store, id, caller, body, now).Success?
    ensures WellFormed(Update(store, id, caller, body, now).value.store)
  {
    var i := FindOwned(store, id, caller).value;
    var rec := Update(store, id, caller, body, now).value.record;
    TrimContentIdempotent(Merge(store[i].content, body));
    WriteKeepsWellFormed(store, i, rec);
  }

  lemma ToggleKeepsWellFormed(store: Store, id: ObjectId, caller: ObjectId, now: Time)
    requires WellFormed(store)
    requires Toggle(store, id, caller, now).Success?
    ensures WellFormed(Toggle(store, id, caller, now).value.store)
  {
    var i := FindOwned(store, id, caller).value;
    WriteKeepsWellFormed(store, i, Toggle(store, id, caller, now).value.record);
  }

  lemma DeleteKeepsWellFormed(store: Store, id: ObjectId, caller: ObjectId)
    requires WellFormed(store)
    requires Delete(store, id, caller).Success?
    ensures WellFormed(Delete(store, id, caller).value)
  {
    RemoveKeepsWellFormed(store, FindOwned(store, id, caller).value);
  }
}
