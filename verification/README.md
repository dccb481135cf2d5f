# InfoMed backend core in Dafny

This project models the core of the InfoMed QR backend. The backend stores
admin-owned medicine "info records", gives each one a public view link
encoded in a QR code, and translates text through two free translation
services.

The model has five modules:

- `Translator` (`translator.dfy`) covers `utils/translator.js`:
  - `translateText`, the two-provider fallback chain. LibreTranslate is tried first, then MyMemory. If both fail, the original text comes back.
  - `translateTexts`, the batch loop. Each item's failure is isolated. A 100 ms pause follows every item except the last and except one whose translation threw.
  - the `supportedLanguages` table.

  The network is a parameter. A `Network` value says what each provider answers to a request. Every run returns its result together with the trace of provider calls (and, for a batch, the pauses) it made, in order.
- `InfoRecordSchema` (`info_record.dfy`) covers `models/InfoRecord.js`:
  - the ten content fields with their `trim` setters, `required` rules and `maxlength` limits;
  - the defaults;
  - `save` with its validation and the pre-save hook that refreshes `updatedAt`;
  - `incrementView`.
- `InfoController` (`info_controller.dfy`) covers `controllers/infoController.js`. Each handler is a function from a collection to either a new collection or an error that stands for the HTTP status:
  - create;
  - the paginated listing;
  - the public view with its view count;
  - update with its `||` merge;
  - delete;
  - toggle.

  The collection is a sequence of records in insertion order. The invariant `WellFormed` says every record is stored trimmed and valid, and that `_id` and `uniqueId` are unique. Every handler keeps it.
- `JsString` (`js_string.dfy`) covers JavaScript's `String.prototype.trim`, whose whitespace set is ECMAScript's WhiteSpace plus LineTerminator, and `length` in UTF-16 code units.
- `Wrappers` (`wrappers.dfy`) holds `Option` and `Result`.

Identifiers the source draws at random (`uuidv4()`, a new document's `_id`), the QR image, `FRONTEND_URL` and `Date.now()` are all parameters. Each request sees one value of `now`.

Behaviour of the code that is easy to misread:

- The secondary provider's acceptance rule only asks for a non-empty `translatedText`. A whitespace-only answer is therefore returned to the caller, while the primary provider rejects one (`Translator.ProvidersDifferOnBlank`, `Translator.BlankSecondaryAnswerReturned`).
- The primary request carries the trimmed text. The secondary request carries the untrimmed text with English fixed as the source language.
- `maxlength` admits a value of exactly the maximum length, although the schema's messages say "less than" (`InfoRecordSchema.MaxLengthIsInclusive`).
- "The result is never empty" holds for a non-empty input. An empty input comes back as it is.
- A failing `save` answers 400 in update, but 500 in toggle and in the public view. The latter two have no `ValidationError` branch.

## Model

| member | source | states |
|---|---|---|
| JsString.Trim | utils/translator.js:6 | the result is the input with a blank prefix and a blank suffix removed, has no whitespace at either end, and is empty exactly when the input is blank; for a non-blank input it is the part between the leading and the trailing whitespace runs |
| JsString.TrimUnique | utils/translator.js:15 | that characterisation has exactly one solution, so any string obtained by cutting blank edges down to non-space ends is the trim |
| JsString.TrimIdempotent | models/InfoRecord.js:8 | trimming a trimmed string changes nothing, so a stored value survives being assigned through the setter again |
| JsString.Utf16Length | models/InfoRecord.js:9 | JavaScript length lies between the number of characters and twice it, and equals it exactly when no character is outside the Basic Multilingual Plane |
| JsString.Utf16LengthChar | models/InfoRecord.js:9 | one character counts one code unit, or two (a surrogate pair) when it lies above U+FFFF |
| JsString.Utf16LengthAppend | models/InfoRecord.js:9 | length adds up over concatenation, so with the single-character case it is the number of UTF-16 code units of the string |
| Translator.PrimaryOutcome | utils/translator.js:27-31 | the primary answer is usable exactly when the status is 2xx and translatedText is a string that is not blank, and then that string is the translation |
| Translator.SecondaryOutcome | utils/translator.js:47-51 | the secondary answer is usable exactly when the status is 2xx, responseStatus is 200 and translatedText is non-empty, and then that text is the translation |
| Translator.ProvidersDifferOnBlank | utils/translator.js:29-50 | a non-empty whitespace-only answer is rejected by the primary rule and accepted by the secondary rule |
| Translator.TranslateText | utils/translator.js:4-59 | an English target or a blank text calls nothing and returns the input; otherwise the providers are tried primary first, the chain stops at the first usable answer, that answer is the result, with none the untouched input is returned, and a non-empty input never yields an empty result |
| Translator.PrimaryWins | utils/translator.js:10-35 | a usable primary answer is returned and the secondary provider is never contacted |
| Translator.SecondaryOnlyAfterPrimaryFails | utils/translator.js:37-45 | a secondary call happens only as the second call, only after the primary answer was unusable, and it sends the untrimmed text with English as the source |
| Translator.BothFailReturnsOriginal | utils/translator.js:57-58 | when neither provider gives a usable answer the caller gets the original text back |
| Translator.BlankSecondaryAnswerReturned | utils/translator.js:49-50 | a whitespace-only secondary answer is handed to the caller as the translation |
| Translator.TranslateValue | utils/translator.js:4-8 | on a non-string item the call throws exactly when the target is not English and the item is truthy, and a falsy item is returned as it is with no provider call |
| Translator.TranslateItem | utils/translator.js:75-85 | one loop iteration puts the returned value, or the original item when the call threw, in the slot, and queues a pause only after a returning item that is not the last |
| Translator.TranslateItems | utils/translator.js:73-87 | the loop produces one slot per item, each holding what its own iteration produced, and the events of all items in index order |
| Translator.TranslateTexts | utils/translator.js:62-92 | a non-array or empty batch gives an empty list; an English target gives the batch back untouched with no call; otherwise slot i holds item i's translation or item i itself, and the output is as long as the input |
| Translator.ItemValueIsTranslationOrOriginal | utils/translator.js:76-84 | every slot holds its own item or that item's translation; a string item stays a string and a non-empty one stays non-empty |
| Translator.StepsInItemOrder | utils/translator.js:74-86 | items are processed strictly in index order: no event of a later item precedes an event of an earlier one |
| Translator.PauseCount | utils/translator.js:78-81 | the number of pauses equals the number of items, other than the last, whose translation returned |
| Translator.PacingBetweenItems | utils/translator.js:79-81 | when no item throws, n items are separated by exactly n - 1 pauses |
| Translator.NoPauseAfterLast | utils/translator.js:79-81 | no pause is taken after the last item |
| Translator.SupportedLanguagesSize | utils/translator.js:95-133 | the registry lists 37 languages, English first |
| Translator.SupportedLanguageCodesAreTwoLetters | utils/translator.js:95-133 | every registry code is two lower-case letters |
| Translator.SupportedLanguageCodesDistinct | utils/translator.js:95-133 | no registry code appears twice |
| InfoRecordSchema.TrimContent | models/InfoRecord.js:5-61 | every one of the ten content fields holds the trim of what was assigned to it |
| InfoRecordSchema.TrimContentIdempotent | models/InfoRecord.js:5-61 | content after the setters is already trimmed, so running the setters again changes nothing |
| InfoRecordSchema.FieldErrors | models/InfoRecord.js:5-61 | a content field gets no error exactly when it is non-empty and within its maxlength, and never more than one error: an empty value is reported as required, a non-empty one over the limit as too long with that limit |
| InfoRecordSchema.ErrorsEmptyIffValid | models/InfoRecord.js:3-79 | validation reports no violation exactly when all ten fields are non-empty and within their limits and adminId, qrCodeUrl and uniqueId are present |
| InfoRecordSchema.MaxLengthIsInclusive | models/InfoRecord.js:5-61 | a new non-empty value is accepted exactly when its UTF-16 length is at most the field's maxlength, so the maximum itself is allowed |
| InfoRecordSchema.NewDocument | models/InfoRecord.js:80-99 | a new document holds the trimmed content, zero views, no last view, is active, and has createdAt equal to updatedAt equal to the creation time |
| InfoRecordSchema.Save | models/InfoRecord.js:102-108 | save succeeds exactly for a valid document and otherwise reports at least one violation; it changes nothing but updatedAt, which is refreshed when a loaded document was changed and kept for a new or unchanged one |
| InfoRecordSchema.IncrementView | models/InfoRecord.js:114-119 | on a valid record the count goes up by one, lastViewed and updatedAt become the current time, and nothing else changes |
| InfoController.FindOwned | controllers/infoController.js:176 | the lookup returns the first record with that id owned by the caller, and nothing exactly when the caller owns no such record |
| InfoController.FindViewable | controllers/infoController.js:132 | the lookup returns the first active record with that uniqueId, and nothing exactly when there is none |
| InfoController.FindOwnedUnique | controllers/infoController.js:176-183 | in a well-formed collection the owner-scoped lookup finds the one record with that id |
| InfoController.FindViewableUnique | controllers/infoController.js:132-140 | in a well-formed collection the public lookup finds the one active record with that uniqueId |
| InfoController.FrontendUrl | controllers/infoController.js:28 | the frontend URL is the configured one whenever one is set and `http://localhost:3000` otherwise |
| InfoController.QrCodeUrl | controllers/infoController.js:28-29 | the QR link is non-empty and the frontend's view route reads the record's uniqueId back from it |
| InfoController.QrCodeUrlInjective | controllers/infoController.js:25-29 | two records get the same QR link exactly when they have the same uniqueId |
| InfoController.Create | controllers/infoController.js:8-86 | a missing medicineName, usage or dosage is refused first, then a failed QR image, then schema violations after trimming, then a duplicate uniqueId; otherwise the collection grows by exactly one stored record owned by the caller with the trimmed content, the view link, the defaults and both timestamps at now |
| InfoController.CreateRejectsBlankField | controllers/infoController.js:17-22 | a whitespace-only field passes the handler's presence check and is then rejected as a validation error, because the setter trims it to empty |
| InfoController.Owned | controllers/infoController.js:98-103 | the listing holds exactly the caller's records and is no longer than the collection |
| InfoController.OwnedMultiplicity | controllers/infoController.js:98-103 | each of the caller's records is listed as many times as it is stored, and no other record is listed |
| InfoController.OwnedCount | controllers/infoController.js:103 | the listing is as long as the number of positions in the collection that hold one of the caller's records, which is what `countDocuments` counts |
| InfoController.CeilDiv | controllers/infoController.js:111 | the page count is the ceiling of total over limit, for either sign of the limit |
| InfoController.Paginate | controllers/infoController.js:94-113 | a missing, unparsable or zero page or limit falls back to 1 and 10; skip is the records before the page; with a positive limit the page count is the least number of pages covering the total, and with a negative limit it is the ceiling of total divided by limit (zero or below) |
| InfoController.ListPagination | controllers/infoController.js:94-113 | the reported total is the number of the caller's records in the collection; a missing, unparsable or zero page or limit falls back to 1 and 10; skip is the records before the page; with a positive limit the page count is the least number of pages covering that total, and with a negative limit it is the ceiling of that total divided by limit |
| InfoController.PageContains | controllers/infoController.js:96-101 | with a positive page and limit, the k-th of the caller's records is in the window exactly when it belongs to the requested page, and every record's page is among the pages reported |
| InfoController.View | controllers/infoController.js:128-162 | not found exactly when no active record has the uniqueId; the view succeeds exactly when such a record exists and passes validation, and a failed save is a server error; on success that record's count goes up by one, lastViewed and updatedAt become now, it is written back in place, and nothing else changes |
| InfoController.Merge | controllers/infoController.js:186-195 | a non-empty request value replaces the stored field and an empty one keeps it |
| InfoController.MergeEmptyBody | controllers/infoController.js:186-195 | a request without fields leaves the content as it is |
| InfoController.MergeIdempotent | controllers/infoController.js:186-195 | merging the same request twice gives what merging it once gives |
| InfoController.Update | controllers/infoController.js:167-223 | not found exactly when the caller owns no record with that id; a found record is updated exactly when the merged and trimmed record passes the schema, and otherwise the answer is a validation error; on success the record is replaced in place by a valid one with the merged, trimmed content and nothing else changed, updatedAt moves exactly when the content changed, and an update that changes nothing writes nothing |
| InfoController.UpdateRejectsBlankField | controllers/infoController.js:186-197 | a non-empty but whitespace-only request field replaces the stored one, is trimmed to empty and is rejected |
| InfoController.UpdateEmptyBody | controllers/infoController.js:185-197 | an update with no fields on a stored record succeeds and leaves the collection as it was |
| InfoController.MergeTrimIdempotent | controllers/infoController.js:186-197 | merging and trimming a request into content that already holds it gives that content back |
| InfoController.UpdateIdempotent | controllers/infoController.js:176-197 | repeating a successful update, at any later time, changes nothing, not even updatedAt |
| InfoController.Delete | controllers/infoController.js:228-253 | not found exactly when the caller owns no record with that id; otherwise exactly that one record leaves the collection and the rest keep their order |
| InfoController.DeleteRemoves | controllers/infoController.js:233 | after a delete in a well-formed collection no record has the id and every other record is still there |
| InfoController.Toggle | controllers/infoController.js:258-289 | not found exactly when the caller owns no record with that id; a found record is toggled exactly when it passes validation, and a failed save is a server error; on success isActive is negated, updatedAt becomes now, nothing else changes and the record stays in place |
| InfoController.ToggleTwice | controllers/infoController.js:272-273 | toggling twice restores the collection except for the record's updatedAt |
| InfoController.DeactivatedIsNotViewable | controllers/infoController.js:272-273 | once a toggle deactivates a record, the public page answers not found for its uniqueId |
| InfoController.CreateKeepsWellFormed | controllers/infoController.js:43-58 | a successful create with a fresh `_id` keeps every record stored trimmed and valid and keeps ids and uniqueIds unique |
| InfoController.ViewKeepsWellFormed | controllers/infoController.js:143-145 | counting a view keeps the collection well-formed |
| InfoController.UpdateKeepsWellFormed | controllers/infoController.js:186-197 | a successful update keeps the collection well-formed |
| InfoController.ToggleKeepsWellFormed | controllers/infoController.js:272-273 | a successful toggle keeps the collection well-formed |
| InfoController.DeleteKeepsWellFormed | controllers/infoController.js:233 | a successful delete keeps the collection well-formed |

## Left out

- HTTP transport, `fetch`, the 10-second timeout, request headers and the `console` logging are left out. A provider that cannot be reached, times out or answers with a body that is not JSON is `PrimaryUnreachable` or `SecondaryUnreachable`.
- URL encoding of the secondary query is left out. The request is modelled by its parameters, including the target code sent as it is.
- Text holding a lone UTF-16 surrogate is left out, because a Dafny character is a Unicode scalar value and cannot express one. A JSON request can carry such text. `encodeURIComponent` would then throw inside the secondary provider's `try`, and the original text would come back.
- Translator.SecondaryOutcome: a `translatedText` that is a truthy non-string (a number, say) is treated as missing. The source would return it to the caller.
- Translator.TranslateValue: an item that is an object with its own `trim` method is not modelled. Non-string items are described only by their truthiness.
- The outer `catch` of `translateTexts` is left out, because nothing in the loop can throw past the per-item `catch`.
- The 100 ms `setTimeout` is modelled only as a `Pause` event in the trace. Time is not modelled.
- The default `targetLang = 'en'` is left out, because every operation takes the target explicitly.
- The string parsing done by `parseInt` is left out. `Paginate` takes its outcome, with `None` for NaN.
- MongoDB's `sort`, `skip`, `limit`, `populate` and index maintenance are left out. Collection order stands in for `findOne`'s choice among matches.
- InfoController.ListPagination: only the arithmetic and the total are modelled, not the returned page of records. The 500 that MongoDB's refusal of a negative skip would cause is also left out.
- Generating a new document's `_id` is left out. `CreateKeepsWellFormed` asks for an id no record has, as MongoDB's generator provides one.
- QR image rendering and `uuidv4` are left out. They are parameters. A failed rendering is `qrImage == None`.
- `process.env.FRONTEND_URL` is left out as an environment read. It is a parameter, where the empty string means unset.
- `Date.now()` is left out as a clock read. Each request has one `now`, so values the source takes a few milliseconds apart (createdAt and updatedAt, lastViewed and updatedAt) are equal here.
- `viewCount` is an unbounded integer, so floating-point precision is left out.
- The `formattedCreatedAt` virtual and the `toJSON`/`toObject` settings are left out. They only format responses.
- Request fields that are not strings are left out. A missing field is the empty string, which every rule treats like `undefined`.
- InfoController.Update: an `:id` that is not a valid ObjectId is left out, because `ObjectId` here is a number. In the source, `findOne` throws a CastError on such an id and the handler answers 500, not 404.
- InfoController.Delete: an `:id` that is not a valid ObjectId is left out, for the same reason. `findOneAndDelete` throws a CastError and the handler answers 500.
- InfoController.Toggle: an `:id` that is not a valid ObjectId is left out, for the same reason. `findOne` throws a CastError and the handler answers 500.
- Concurrency is left out. Every handler is modelled as an atomic step on the collection, one request after another. In the source, `incrementView` reads the document, changes it in memory and then saves it, so two concurrent views can both store the same count plus one.
- A missing `req.admin` is left out, because the routes are protected and the caller is always an authenticated admin's id.
- The response bodies, messages and the list of error messages are left out. Errors carry the schema violations instead.
- `translationController.js`, the routes and the authentication middleware are not part of this model.
