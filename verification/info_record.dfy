/**
  The info-record schema (models/InfoRecord.js) as a validator and two state
  transitions.

  A document's ten content strings pass through a `trim` setter when they are
  assigned; on `save` the schema is validated (each content field and
  `adminId`, `qrCodeUrl`, `uniqueId` required, seven content fields with a
  maximum length) and then the pre-save hook refreshes `updatedAt` for an
  existing document that changed. Lengths are JavaScript lengths (UTF-16 code
  units). Timestamps are milliseconds, handed in as `now`.
*/
module InfoRecordSchema {
  import opened Wrappers
  import opened JsString

  /** A MongoDB object id. */
  type ObjectId = nat

  /** A point in time, in milliseconds since the epoch. */
  type Time = int

  /** The ten medicine fields an admin edits. */
  datatype Field = MedicineName | Usage | Dosage | Exp | Man | Price | Btno | CompName | Instr | Drugs

  /** The content fields in schema order. */
  const ContentFields: seq<Field> := [MedicineName, Usage, Dosage, Exp, Man, Price, Btno, CompName, Instr, Drugs]

  /** The field's name in the schema, as it appears in validation errors. */
  function Path(f: Field): string {
    match f
    case MedicineName => "medicineName"
    case Usage => "usage"
    case Dosage => "dosage"
    case Exp => "exp"
    case Man => "man"
    case Price => "price"
    case Btno => "btno"
    case CompName => "compName"
    case Instr => "instr"
    case Drugs => "drugs"
  }

  /** The schema's `maxlength`, for the fields that have one. */
  function MaxLength(f: Field): Option<nat> {
    match f
    case MedicineName => Some(200)
    case Usage => Some(500)
    case Dosage => Some(1000)
    case Exp => None
    case Man => None
    case Price => None
    case Btno => Some(100)
    case CompName => Some(200)
    case Instr => Some(1000)
    case Drugs => Some(1000)
  }

  /** The ten content strings. A field missing from a request is the empty
      string: every rule of the system treats `undefined` and `""` alike. */
  datatype Content = Content(
    medicineName: string, usage: string, dosage: string, exp: string, man: string,
    price: string, btno: string, compName: string, instr: string, drugs: string)
  {
    function Get(f: Field): string {
      match f
      case MedicineName => medicineName
      case Usage => usage
      case Dosage => dosage
      case Exp => exp
      case Man => man
      case Price => price
      case Btno => btno
      case CompName => compName
      case Instr => instr
      case Drugs => drugs
    }

    /** This content with field `f` set to `v`. */
    function With(f: Field, v: string): (r: Content)
      ensures r.Get(f) == v
      ensures forall g: Field :: g != f ==> r.Get(g) == Get(g)
    {
      match f
      case MedicineName => this.(medicineName := v)
      case Usage => this.(usage := v)
      case Dosage => this.(dosage := v)
      case Exp => this.(exp := v)
      case Man => this.(man := v)
      case Price => this.(price := v)
      case Btno => this.(btno := v)
      case CompName => this.(compName := v)
      case Instr => this.(instr := v)
      case Drugs => this.(drugs := v)
    }
  }

  /** A stored info record. `id` is the document's `_id`. */
  datatype InfoRecord = InfoRecord(
    id: ObjectId,
    content: Content,
    adminId: Option<ObjectId>,
    qrCodeUrl: string,
    qrCodeImage: Option<string>,
    uniqueId: string,
    viewCount: int,
    lastViewed: Option<Time>,
    isActive: bool,
    createdAt: Time,
    updatedAt: Time)

  // ---------------------------------------------------------------------------
  // Setters

  /** `g` applied to every content field. */
  function MapContent(c: Content, g: string -> string): (r: Content)
    ensures forall f: Field :: r.Get(f) == g(c.Get(f))
  {
    Content(g(c.medicineName), g(c.usage), g(c.dosage), g(c.exp), g(c.man),
            g(c.price), g(c.btno), g(c.compName), g(c.instr), g(c.drugs))
  }

  /** The `trim: true` setters, applied to every content field. */
  function TrimContent(c: Content): (r: Content)
    ensures forall f: Field :: r.Get(f) == Trim(c.Get(f))
  {
    MapContent(c, Trim)
  }

  /** Content that the setters leave as it is. */
  predicate IsTrimmed(c: Content) {
    forall f: Field :: Trim(c.Get(f)) == c.Get(f)
  }

  /** Content is determined by its fields. */
  lemma ContentEq(a: Content, b: Content)
    requires forall f: Field :: a.Get(f) == b.Get(f)
    ensures a == b
  {
    assert a.Get(MedicineName) == b.Get(MedicineName) && a.Get(Usage) == b.Get(Usage);
    assert a.Get(Dosage) == b.Get(Dosage) && a.Get(Exp) == b.Get(Exp) && a.Get(Man) == b.Get(Man);
    assert a.Get(Price) == b.Get(Price) && a.Get(Btno) == b.Get(Btno) && a.Get(CompName) == b.Get(CompName);
    assert a.Get(Instr) == b.Get(Instr) && a.Get(Drugs) == b.Get(Drugs);
  }

  /** The setters are idempotent: trimmed content is a fixed point. */
  lemma TrimContentIdempotent(c: Content)
    ensures IsTrimmed(TrimContent(c))
    ensures TrimContent(TrimContent(c)) == TrimContent(c)
  {
    var t := TrimContent(c);
    forall f: Field
      ensures Trim(t.Get(f)) == t.Get(f)
    {
      TrimIdempotent(c.Get(f));
    }
    ContentEq(TrimContent(t), t);
  }

  // ---------------------------------------------------------------------------
  // Validation

  /** The two kinds of schema violation. */
  datatype SchemaError = Required(path: string) | TooLong(path: string, maxLength: nat)

  /** A content field satisfies `required` and, where it has one, `maxlength`. */
  predicate FieldOk(c: Content, f: Field) {
    && c.Get(f) != ""
    && (MaxLength(f).Some? ==> Utf16Length(c.Get(f)) <= MaxLength(f).value)
  }

  /** Every content field satisfies its rules. */
  predicate ContentValid(c: Content) {
    forall f: Field :: FieldOk(c, f)
  }

  /** What the schema accepts. */
  predicate Valid(r: InfoRecord) {
    && ContentValid(r.content)
    && r.adminId.Some?
    && r.qrCodeUrl != ""
    && r.uniqueId != ""
  }

  /** A record as it sits in the collection: valid and stored trimmed. */
  predicate Stored(r: InfoRecord) {
    Valid(r) && IsTrimmed(r.content)
  }

  /** The error reported for one content field, if any. */
  function FieldErrors(c: Content, f: Field): (errs: seq<SchemaError>)
    ensures errs == [] <==> FieldOk(c, f)
    ensures |errs| <= 1
    // An empty value is reported as missing, a non-empty one over the limit as too long.
    ensures c.Get(f) == "" ==> errs == [Required(Path(f))]
    ensures c.Get(f) != "" && !FieldOk(c, f) ==> errs == [TooLong(Path(f), MaxLength(f).value)]
  {
    var v := c.Get(f);
    if v == "" then [Required(Path(f))]
    else if MaxLength(f).Some? && Utf16Length(v) > MaxLength(f).value then [TooLong(Path(f), MaxLength(f).value)]
    else []
  }

  /** The errors for the content fields `fs`, in order. */
  function ContentErrors(c: Content, fs: seq<Field>): (errs: seq<SchemaError>)
    ensures errs == [] <==> forall k :: 0 <= k < |fs| ==> FieldOk(c, fs[k])
    ensures |errs| <= |fs|
  {
    if fs == [] then [] else FieldErrors(c, fs[0]) + ContentErrors(c, fs[1..])
  }

  /** Every violation of the document, in schema order. */
  function Errors(r: InfoRecord): seq<SchemaError> {
    ContentErrors(r.content, ContentFields)
    + (if r.adminId.None? then [Required("adminId")] else [])
    + (if r.qrCodeUrl == "" then [Required("qrCodeUrl")] else [])
    + (if r.uniqueId == "" then [Required("uniqueId")] else [])
  }

  /** Validation reports nothing exactly for the records the schema accepts. */
  lemma ErrorsEmptyIffValid(r: InfoRecord)
    ensures Errors(r) == [] <==> Valid(r)
  {
    var c := r.content;
    assert (forall k :: 0 <= k < |ContentFields| ==> FieldOk(c, ContentFields[k]))
           <==> (forall f: Field :: FieldOk(c, f)) by {
      if forall k :: 0 <= k < |ContentFields| ==> FieldOk(c, ContentFields[k]) {
        forall f: Field ensures FieldOk(c, f) {
          var k := match f
            case MedicineName => 0 case Usage => 1 case Dosage => 2 case Exp => 3 case Man => 4
            case Price => 5 case Btno => 6 case CompName => 7 case Instr => 8 case Drugs => 9;
          assert ContentFields[k] == f;
        }
      }
    }
  }

  /** Replacing one non-empty field of a valid record keeps it valid exactly
      when the new value is within that field's `maxlength`; a value of exactly
      the maximum length is accepted. */
  lemma MaxLengthIsInclusive(r: InfoRecord, f: Field, v: string)
    requires Valid(r) && v != ""
    ensures Valid(r.(content := r.content.With(f, v))) <==>
              (MaxLength(f).None? || Utf16Length(v) <= MaxLength(f).value)
  {
    var c := r.content.With(f, v);
    if MaxLength(f).None? || Utf16Length(v) <= MaxLength(f).value {
      forall g: Field ensures FieldOk(c, g) {
        assert FieldOk(r.content, g);
      }
    } else {
      assert !FieldOk(c, f);
    }
  }

  // ---------------------------------------------------------------------------
  // Documents

  /** A new document as `InfoRecord.create` builds it: the setters trim the
      content, and the defaults fill in the counters and timestamps. */
  function NewDocument(id: ObjectId, content: Content, adminId: Option<ObjectId>, qrCodeUrl: string,
                       qrCodeImage: Option<string>, uniqueId: string, now: Time): (r: InfoRecord)
    ensures r.content == TrimContent(content) && IsTrimmed(r.content)
    ensures r.viewCount == 0 && r.lastViewed == None && r.isActive
    ensures r.createdAt == now && r.updatedAt == now
  {
    TrimContentIdempotent(content);
    InfoRecord(id, TrimContent(content), adminId, qrCodeUrl, qrCodeImage, uniqueId,
               0, None, true, now, now)
  }

  /** The pre-save hook: `updatedAt` becomes `now` only for a document that is
      modified and not new. */
  function PreSave(doc: InfoRecord, isModified: bool, isNew: bool, now: Time): InfoRecord {
    if isModified && !isNew then doc.(updatedAt := now) else doc
  }

  /** `document.save()`. `loaded` is the document as it was read from the
      collection, `None` for a new one; the document counts as modified when it
      differs from what was loaded. Validation runs first; a failure rejects
      the save with the list of violations. */
  function Save(loaded: Option<InfoRecord>, doc: InfoRecord, now: Time): (r: Result<InfoRecord, seq<SchemaError>>)
    ensures r.Success? <==> Valid(doc)
    ensures r.Failure? ==> r.error != []
    // Only `updatedAt` may change ...
    ensures r.Success? ==> r.value.(updatedAt := doc.updatedAt) == doc
    // ... and it is refreshed exactly when an existing document changed.
    ensures r.Success? && loaded.Some? && loaded.value != doc ==> r.value.updatedAt == now
    ensures r.Success? && (loaded.None? || loaded.value == doc) ==> r.value == doc
  {
    ErrorsEmptyIffValid(doc);
    var errs := Errors(doc);
    if errs != [] then Failure(errs)
    else Success(PreSave(doc, loaded.None? || loaded.value != doc, loaded.None?, now))
  }

  /** `incrementView`: one more view, seen at `now`, then `save`. */
  function IncrementView(doc: InfoRecord, now: Time): (r: Result<InfoRecord, seq<SchemaError>>)
    ensures r.Success? <==> Valid(doc)
    ensures r.Success? ==>
      && r.value.viewCount == doc.viewCount + 1
      && r.value.lastViewed == Some(now)
      && r.value.updatedAt == now
      && r.value.(viewCount := doc.viewCount, lastViewed := doc.lastViewed, updatedAt := doc.updatedAt) == doc
  {
    var viewed := doc.(viewCount := doc.viewCount + 1, lastViewed := Some(now));
    assert Valid(viewed) <==> Valid(doc);
    Save(Some(doc), viewed, now)
  }
}
