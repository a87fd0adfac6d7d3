# Translation store: a Dafny model

This project models the core of a Laravel REST backend that stores translations. The backend keeps four tables:

- **languages**: a code, a name and an active flag.
- **translations**: a key, a value, a language and a group. The group defaults to `general`.
- **tags**: a unique name and an optional description.
- **tag_translation**: the pivot that attaches tags to translations.

The model covers:

- the actions of `TranslationController`, `LanguageController` and `TagController`;
- the validation rules of the form requests that guard those actions, and the inline rules of the tag actions.

Modules:

- `Models` holds the rows and the integrity invariants. Language codes are pairwise distinct, tag names are pairwise distinct, every translation's `language_id` names an existing language, and every pivot row joins existing rows.
- `Http` models the request input after the default global middleware: strings are trimmed, and empty strings become `null`. It also provides PHP's `??` and the `boolean` cast.
- `Validation` is the subset of Laravel's rule engine used here. It covers the rules `required`, `sometimes`, `nullable`, `string`, `max`, `boolean`, `array`, `exists`, `unique` with `ignore`, and the `.*` wildcard. A rule array is data, and `Passes` is the engine's verdict on it.
- There is one module per form request: `StoreLanguageRequest`, `UpdateLanguageRequest`, `StoreTranslationRequest`, `UpdateTranslationRequest` and `GetByKeyRequest`. Each one holds the rule array, a plain statement of what it accepts (`Accepted`), and a lemma that the engine's verdict on the array is exactly that statement.
- `Queries` holds the listing helpers: ids in ascending order, filtering a listing, and listing a whole table.
- `TranslationController`, `LanguageController` and `TagController` hold the read actions and the rows that the write actions compute. They also prove that those rows keep the invariants.
- `Store.TranslationStore` is the database: a class whose four map fields are updated in place by one method per write action. Each method first looks up the route-bound row (404), then validates (422), then writes. A rejected call leaves every table unchanged. An accepted one writes all of its changes, which is what the `DB::transaction` blocks guarantee. `Valid()` holds the integrity invariants, and every method preserves it.

Three points about the code that a reader might expect to be otherwise:

- `per_page` is capped at 100 with `min(...)` but has no lower bound (`TranslationController.php:23`).
- `getByKey` matches the exact key only. It has no group filter (`TranslationController.php:131-133`).
- The listing and lookup responses embed a summary of the language (`id, code, name`), not the full language row.

## Model

| member | source | states |
|---|---|---|
| StoreLanguageRequest.RulesMeanAccepted | app/Http/Requests/Language/StoreLanguageRequest.php:24-31 | the rules pass exactly when the code is a string of at most 10 characters that no language has, the name is a string of at most 255 characters, and `is_active`, if sent, is a boolean |
| UpdateLanguageRequest.RulesMeanAccepted | app/Http/Requests/Language/UpdateLanguageRequest.php:25-37 | for whichever row `unique` ignores, the rules pass exactly when each field that is sent is well formed and a sent code is held by no language other than the ignored one |
| UpdateLanguageRequest.IgnoredAsWritten | app/Http/Requests/Language/UpdateLanguageRequest.php:32 | the row `ignore($this->language)` names: the route's language when the input has no `language` field; otherwise the row a non-zero integer names, row 1 for `true`, and no row for null, `0` or `false` |
| StoreTranslationRequest.RulesMeanAccepted | app/Http/Requests/Translation/StoreTranslationRequest.php:27-34 | the rules pass exactly when key and value are strings, `language_id` names an existing language, the group (if sent) is a string of at most 255 characters, and `tags` (if sent) is an array whose every element names an existing tag |
| UpdateTranslationRequest.RulesMeanAccepted | app/Http/Requests/Translation/UpdateTranslationRequest.php:25-33 | the same conditions as on store, but every field is optional |
| UpdateTranslationRequest.EmptyRequestAccepted | app/Http/Requests/Translation/UpdateTranslationRequest.php:27-32 | a request with no fields at all passes validation |
| GetByKeyRequest.RulesMeanAccepted | app/Http/Requests/Translation/GetByKeyRequest.php:24-29 | the rules pass exactly when `key` is present and is a string |
| GetByKeyRequest.OnlyKeyIsValidated | app/Http/Requests/Translation/GetByKeyRequest.php:27 | adding, changing or removing any field other than `key` never changes the verdict |
| Queries.Ascending | app/Http/Controllers/Api/TranslationController.php:48 | the ids of a table as a strictly increasing sequence with exactly the table's members |
| Queries.Where | app/Http/Controllers/Api/TranslationController.php:26-44 | a filtered listing keeps exactly the ids that satisfy the condition, keeps ascending order, and never grows |
| Queries.Rows | app/Http/Controllers/Api/LanguageController.php:19-20 | a full-table listing holds every row exactly once, in ascending id order |
| TranslationController.PerPage | app/Http/Controllers/Api/TranslationController.php:23 | the page size is 50 when `per_page` is absent, the requested size when that is at most 100, and 100 otherwise; it is never above 100 |
| TranslationController.Index | app/Http/Controllers/Api/TranslationController.php:21-59 | an id is listed exactly when the translation passes every filter given (language code, exact group, tag name, key substring); the listing is in ascending id order |
| TranslationController.WhereAll | app/Http/Controllers/Api/TranslationController.php:26-44 | a filter that every row passes removes nothing |
| TranslationController.NoFilterListsAll | app/Http/Controllers/Api/TranslationController.php:21-48 | with no filters, every translation is listed, in ascending id order |
| TranslationController.Page | app/Http/Controllers/Api/TranslationController.php:48 | page `p` holds `min(size, remaining)` items, none when it starts past the last match, and its `k`-th item is match number `(p-1)*size+k` |
| TranslationController.MatchOnItsPage | app/Http/Controllers/Api/TranslationController.php:48 | every match appears on page `i/size+1`, at position `i%size` |
| TranslationController.GetByKey | app/Http/Controllers/Api/TranslationController.php:129-136 | fails with a validation error exactly when the request is rejected; otherwise returns, in ascending order, exactly the translations whose key equals the requested key, in every language |
| TranslationController.ByKeyWithinKeyFilter | app/Http/Controllers/Api/TranslationController.php:42-44 | every translation that the key lookup returns is also listed by the index's key filter with the same key |
| TranslationController.ExactKeyIsListed | app/Http/Controllers/Api/TranslationController.php:42-44 | a translation whose key equals the filter text matches the substring filter |
| TranslationController.Show | app/Http/Controllers/Api/TranslationController.php:87-92 | an existing id gives its row and its attached tag ids; an unknown id gives 404 |
| TranslationController.IdsOf | app/Http/Controllers/Api/TranslationController.php:75 | the set of tag ids an `attach`/`sync` call receives: exactly the integers in the request array |
| TranslationController.Created | app/Http/Controllers/Api/TranslationController.php:67-72 | the new row takes key, value and `language_id` from the request; the group is taken from the request when sent, otherwise it is `general` |
| TranslationController.AttachedOnStore | app/Http/Controllers/Api/TranslationController.php:74-76 | the requested tags are attached when `tags` is sent, and none otherwise |
| TranslationController.StoreRequestShape | app/Http/Controllers/Api/TranslationController.php:64-76 | an accepted store request can build a row, and every tag it attaches exists |
| TranslationController.Updated | app/Http/Controllers/Api/TranslationController.php:100-105 | each field takes the request's value when it is given and not null, and keeps its old value otherwise |
| TranslationController.Sync | app/Http/Controllers/Api/TranslationController.php:108 | after `sync`, the attached set is exactly the requested set |
| TranslationController.TagsAfterUpdate | app/Http/Controllers/Api/TranslationController.php:107-109 | when `tags` is sent, even as an empty array, it replaces the attached set; when it is absent, the set is untouched |
| TranslationController.UpdateRequestShape | app/Http/Controllers/Api/TranslationController.php:97-109 | an accepted update request names an existing language if it names one, and only existing tags |
| TranslationController.EmptyUpdateChangesNothing | app/Http/Controllers/Api/TranslationController.php:100-105 | an update with no fields leaves the row as it was |
| TranslationController.UpdateIdempotent | app/Http/Controllers/Api/TranslationController.php:100-105 | applying the same update twice equals applying it once |
| TranslationController.ValueOnlyUpdate | app/Http/Controllers/Api/TranslationController.php:100-105 | an update that sends only `value` changes only the value |
| LanguageController.Index | app/Http/Controllers/Api/LanguageController.php:17-23 | lists every language once, in ascending id order |
| LanguageController.Show | app/Http/Controllers/Api/LanguageController.php:42-45 | an existing id gives its row; an unknown id gives 404 |
| LanguageController.StoredIsShown | app/Http/Controllers/Api/LanguageController.php:17-45 | after a store, `show` of the new id gives back the created row, and `index` lists that row exactly once |
| LanguageController.Created | app/Http/Controllers/Api/LanguageController.php:30-34 | code and name come from the request; `is_active` is the boolean cast of the sent value, or true when it is absent or null |
| LanguageController.Updated | app/Http/Controllers/Api/LanguageController.php:52-56 | each field takes the request's value when it is given and not null, and keeps its old value otherwise |
| LanguageController.Cascade | database/migrations/2025_03_19_190228_create_translations_table.php:18 | deleting a language removes exactly its translations and leaves the others as they were |
| LanguageController.PivotAfterCascade | database/migrations/2025_03_19_190228_create_translations_table.php:18 | the pivot rows left after a cascade are exactly those of the remaining translations, unchanged |
| LanguageController.StoreRequestShape | app/Http/Controllers/Api/LanguageController.php:28-34 | an accepted store request can build a row |
| LanguageController.UpdateRequestShape | app/Http/Controllers/Api/LanguageController.php:50-56 | an accepted update request can build a row |
| LanguageController.StoreKeepsCodesDistinct | app/Http/Requests/Language/StoreLanguageRequest.php:27 | storing an accepted language keeps the codes pairwise distinct |
| LanguageController.UpdateKeepsCodesDistinct | app/Http/Requests/Language/UpdateLanguageRequest.php:28-33 | updating a language with a request accepted while ignoring its own row keeps the codes pairwise distinct |
| LanguageController.SameCodeRejectedAfterStore | app/Http/Requests/Language/StoreLanguageRequest.php:27 | once a language is stored, a second store with the same code is rejected |
| LanguageController.TakenCodeRejectedOnUpdate | app/Http/Requests/Language/UpdateLanguageRequest.php:32 | when the rules ignore the updated language's own row, an update that takes another language's code is rejected |
| LanguageController.AsWrittenAcceptsTakenCode | app/Http/Requests/Language/UpdateLanguageRequest.php:32 | as written, updating language 3 with code "fr" and `language` 5, where language 5 has "fr", passes validation and leaves two languages with one code; ignoring the route's row rejects it |
| LanguageController.AsWrittenRejectsOwnCode | app/Http/Requests/Language/UpdateLanguageRequest.php:32 | as written, re-sending language 3's own code with `language` 99 is rejected as taken; ignoring the route's row accepts it |
| LanguageController.DestroyKeepsLanguagesExist | database/migrations/2025_03_19_190228_create_translations_table.php:18 | after the cascade, every remaining translation still names an existing language |
| TagController.RulesMeanAccepted | app/Http/Controllers/Api/TagController.php:27-30 | the inline rules pass exactly when the name is a string of at most 255 characters held by no other tag, and the description is absent, null or a string |
| TagController.Index | app/Http/Controllers/Api/TagController.php:16-20 | lists every tag once, in ascending id order |
| TagController.Show | app/Http/Controllers/Api/TagController.php:39-42 | an existing tag comes with exactly the translations attached to it, in ascending order; an unknown id gives 404 |
| TagController.Created | app/Http/Controllers/Api/TagController.php:32 | the new tag takes the validated name, and the description when one is sent, otherwise no description |
| TagController.Updated | app/Http/Controllers/Api/TagController.php:54 | the name is replaced; the description is kept when absent, cleared when null, and replaced when a string is sent |
| TagController.Detach | app/Http/Controllers/Api/TagController.php:63 | deleting a tag removes it from every translation's tag set and changes nothing else |
| TagController.WriteKeepsNamesDistinct | app/Http/Controllers/Api/TagController.php:49-54 | writing a tag with an accepted name keeps tag names pairwise distinct |
| TagController.DestroyKeepsTagsExist | app/Http/Controllers/Api/TagController.php:61-65 | after the detach, every pivot row still names an existing tag |
| Store.TranslationStore.constructor | database/migrations/2025_03_19_190228_create_translations_table.php:14-27 | an empty database satisfies the invariants |
| Store.TranslationStore.StoreTranslation | app/Http/Controllers/Api/TranslationController.php:64-82 | succeeds exactly when the request is accepted; then it inserts the new row under a fresh id and attaches the requested tags; otherwise nothing changes; the invariants are kept |
| Store.TranslationStore.UpdateTranslation | app/Http/Controllers/Api/TranslationController.php:97-115 | 404 for an unknown id; otherwise it succeeds exactly when the request is accepted, then updates the fields and syncs the tags; otherwise it is a validation error and nothing changes; the invariants are kept |
| Store.TranslationStore.DestroyTranslation | app/Http/Controllers/Api/TranslationController.php:120-124 | removes the row and its pivot rows; 404 for an unknown id, with nothing changed |
| Store.TranslationStore.StoreLanguage | app/Http/Controllers/Api/LanguageController.php:28-37 | succeeds exactly when the request is accepted, inserting the new language under a fresh id; codes stay distinct |
| Store.TranslationStore.UpdateLanguage | app/Http/Controllers/Api/LanguageController.php:50-59 | 404 for an unknown id; otherwise it succeeds exactly when the request is accepted with the language's own row ignored, then updates the row, and is a validation error otherwise; codes stay distinct |
| Store.TranslationStore.DestroyLanguage | app/Http/Controllers/Api/LanguageController.php:64-68 | removes the language, its translations (cascade) and their pivot rows, and keeps everything else; every remaining translation still references an existing language |
| Store.TranslationStore.StoreTag | app/Http/Controllers/Api/TagController.php:25-34 | succeeds exactly when the inline rules pass, inserting the new tag under a fresh id; names stay distinct |
| Store.TranslationStore.UpdateTag | app/Http/Controllers/Api/TagController.php:47-56 | 404 for an unknown id; otherwise it succeeds exactly when the rules pass, ignoring the tag's own name, and is a validation error otherwise; names stay distinct |
| Store.TranslationStore.DestroyTag | app/Http/Controllers/Api/TagController.php:61-65 | removes the tag and detaches it from every translation; no translation is removed |
| Store.StoreThenShow | app/Http/Controllers/Api/TranslationController.php:64-92 | showing a translation right after it is created gives back the stored fields and exactly the requested tags |
| Store.StoreLanguageThenShow | app/Http/Controllers/Api/LanguageController.php:17-45 | showing a language right after it is created gives back the created row, and the listing holds it exactly once |
| Store.DestroyLanguageThenShow | app/Http/Controllers/Api/LanguageController.php:64-68 | once a language is deleted, showing any of its former translations gives 404 |

## Findings

| source | as written | input that shows it | evidently intended | confidence | as-written member | corrected member |
|---|---|---|---|---|---|---|
| app/Http/Requests/Language/UpdateLanguageRequest.php:32 | the uniqueness rule ignores the row named by `$this->language`; on a form request this reads an input field called `language` first, and the route's bound language only when that field is absent | `PUT /languages/3` with `{"code":"fr","language":5}` while language 5 has code "fr": validation passes; the update then leaves two languages with code "fr", unless a unique index on `code` (the `languages` migration is not part of this model) makes it fail | ignore the row of the language being updated (the route's id) | not executed | LanguageController.AsWrittenAcceptsTakenCode | LanguageController.UpdateKeepsCodesDistinct |

The as-written rules are `UpdateLanguageRequest.Rules(UpdateLanguageRequest.IgnoredAsWritten(input, id))`. `LanguageController.AsWrittenRejectsOwnCode` shows the converse failure. The corrected rules are `UpdateLanguageRequest.Rules(Some(id))`, and `Store.TranslationStore.UpdateLanguage` uses them.

## Left out

- Authentication and authorization: every form request's `authorize()` returns true, and the `auth:api` middleware is not modelled.
- Routing: the route file registers neither the tag routes nor the by-key route. They are modelled as reachable actions.
- HTTP status codes and JSON shapes: results are `Ok`/`Fail(NotFound | Invalid)`. The eager-loaded language and tag summaries and the `meta` block are not modelled, apart from `Page`.
- Timestamps (`created_at`, `updated_at`) and the model factories and seeders are not modelled.
- Database ids: auto-increment is modelled as a counter. Only its freshness is stated.
- TranslationController.Index: the order is ascending id. The source query has no `orderBy`, so the real order is whatever the database returns.
- LanguageController.Index: the order is ascending id. `Language::select(...)->get()` sets no order.
- TagController.Index: the order is ascending id. `Tag::all()` sets no order.
- TagController.Show: the attached translations are listed in ascending id order. `load('translations')` sets no order.
- TranslationController.GetByKey: the results are in ascending id order. The query's `get()` sets no order.
- TranslationController.Index: `LIKE` is modelled as a plain substring match. It does not model `%` and `_` inside the filter text, or database collation and case folding.
- TranslationController.GetByKey: string comparison is exact. The database collation also governs this lookup, the `language`, `group` and `tag` filters of `TranslationController.Index`, and the `unique` rules of `StoreLanguageRequest.RulesMeanAccepted`, `UpdateLanguageRequest.RulesMeanAccepted` and `TagController.RulesMeanAccepted`. Under a case-insensitive collation "EN" matches "en" and counts as taken; the model does not capture that.
- TranslationController.PerPage: a non-numeric, zero or negative `per_page` is not modelled. The source passes it to `paginate` unchecked. The model takes `per_page` as an integer or an empty value; an empty value leaves the framework's default in force (`None`).
- TranslationController.Page: `current_page`, `last_page` and `total` are not modelled. Only which matches a page holds is stated.
- StoreTranslationRequest.RulesMeanAccepted: `language_id` and each `tags` element must be integers. A numeric string such as `"1"`, which `exists:...,id` accepts, is rejected here. JSON bodies with integer ids are covered; form-encoded requests are not.
- UpdateTranslationRequest.RulesMeanAccepted: the same numeric-string gap as on store.
- TranslationController.IdsOf: duplicate ids in a `tags` array are collapsed into a set. Numeric strings, which `exists` accepts and `attach` casts, are not modelled as ids.
- Http: the model assumes the default `TrimStrings` and `ConvertEmptyStringsToNull` middleware. Blank strings therefore arrive as null. `Http.IsSpace` holds only the characters PHP's `trim` strips. Recent versions of `TrimStrings` also strip other Unicode whitespace and U+FEFF, U+200B and U+200E, and the model does not.
- Validation: `max` is counted in characters of the modelled string. Multibyte length rules are not modelled.
- Store.TranslationStore.DestroyTranslation: the pivot migration is not part of this model. Deleting a translation is assumed to delete its pivot rows (a cascading foreign key).
- Store.TranslationStore.DestroyLanguage: for the same reason, the pivot rows of the cascaded translations are assumed to be deleted with them.
- TagController.Detach: the pivot migration is not part of this model. Deleting a tag is assumed to delete its pivot rows (a cascading foreign key) and to keep the translations.
- UpdateLanguageRequest.IgnoredAsWritten: a `language` field holding a string or an array is taken to name no row. Database comparison of a numeric string with the id column, and the error an array causes, are not modelled.
- LanguageController.UpdateKeepsCodesDistinct: it holds for the rules that ignore the updated language's own row. As written, a `language` input field can break it (see Findings).
- LanguageController.TakenCodeRejectedOnUpdate: it holds for the rules that ignore the updated language's own row. As written, a `language` input field naming the other language lets the code through (see Findings).
- Store.TranslationStore.UpdateLanguage: it validates with the corrected rules, which ignore the route's language. The as-written reading of a `language` input field is modelled only by the Findings lemmas.
- Database errors, the length limit of the `key` column, and concurrent requests are not modelled.
- Store.TranslationStore.StoreTranslation: `StoreTranslationRequest::rules()` begins with a leftover `dd(...)` call (`app/Http/Requests/Translation/StoreTranslationRequest.php:26`). That call dumps the request and ends it before any validation or write, so the store route as written never creates anything. The model gives the behaviour that the rule array and the controller describe.
