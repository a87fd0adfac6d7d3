/** The translation store: the `languages`, `tags` and `translations` tables
    and the pivot that attaches tags to translations, updated in place by the
    write actions of the three controllers. Every action validates its request
    before it writes; a rejected request (or an unknown id) leaves every table
    as it was, and an accepted one applies all of its changes, which is what
    the `DB::transaction` blocks guarantee. */
module Store {
  import opened Models
  import opened Http
  import opened Validation
  import TranslationController
  import LanguageController
  import TagController
  import StoreTranslationRequest
  import UpdateTranslationRequest
  import StoreLanguageRequest
  import UpdateLanguageRequest

  class TranslationStore {
    var languages: map<int, Language>
    var tags: map<int, Tag>
    var translations: map<int, Translation>
    /** The `tag_translation` pivot: the tag ids attached to each translation. */
    var tagsOf: map<int, set<int>>
    // the next id each table's auto-increment hands out
    var nextLanguageId: int
    var nextTagId: int
    var nextTranslationId: int

    /** The integrity rules every action keeps: codes and tag names are
        distinct, every translation belongs to an existing language, every
        pivot row joins an existing translation to an existing tag, and no
        table holds an id its counter has not handed out. */
    ghost predicate Valid()
      reads this
    {
      && CodesDistinct(languages)
      && NamesDistinct(tags)
      && LanguagesExist(translations, languages)
      && tagsOf.Keys == translations.Keys
      && TagsExist(tagsOf, tags)
      && (forall id :: id in languages ==> id < nextLanguageId)
      && (forall id :: id in tags ==> id < nextTagId)
      && (forall id :: id in translations ==> id < nextTranslationId)
    }

    /** The tables the validation rules read. */
    function Tables(): Db
      reads this
    {
      Db(languages, tags)
    }

    constructor ()
      ensures Valid()
      ensures languages == map[] && tags == map[] && translations == map[] && tagsOf == map[]
    {
      languages, tags, translations, tagsOf := map[], map[], map[], map[];
      nextLanguageId, nextTagId, nextTranslationId := 1, 1, 1;
    }

    // ------------------------------------------------------- translations

    /** `TranslationController.store`: insert the row and attach the
        requested tags, both or neither. */
    method StoreTranslation(input: Input) returns (r: Outcome<int>)
      requires Valid()
      modifies this
      ensures Valid()
      ensures r.Ok? <==> StoreTranslationRequest.Accepted(input, old(languages), old(tags))
      ensures r.Fail? ==> r.error == Invalid && unchanged(this)
      ensures r.Ok? ==>
        && r.value !in old(translations)
        && translations == old(translations)[r.value := TranslationController.Created(input)]
        && tagsOf == old(tagsOf)[r.value := TranslationController.AttachedOnStore(input)]
        && languages == old(languages) && tags == old(tags)
    {
      StoreTranslationRequest.RulesMeanAccepted(input, Tables());
      if !Passes(StoreTranslationRequest.Rules(), input, Tables()) {
        return Fail(Invalid);
      }
      TranslationController.StoreRequestShape(input, languages, tags);
      var id := nextTranslationId;
      nextTranslationId := nextTranslationId + 1;
      // DB::transaction: the insert, then the attach
      translations := translations[id := TranslationController.Created(input)];
      tagsOf := tagsOf[id := TranslationController.AttachedOnStore(input)];
      r := Ok(id);
    }

    /** `TranslationController.update`: overwrite the fields the request
        gives and, when it has `tags`, sync the tag set, both or neither. */
    method UpdateTranslation(id: int, input: Input) returns (r: Outcome<()>)
      requires Valid()
      modifies this
      ensures Valid()
      ensures id !in old(translations) ==> r == Fail(NotFound)
      ensures id in old(translations) ==>
        (r.Ok? <==> UpdateTranslationRequest.Accepted(input, old(languages), old(tags)))
      ensures id in old(translations) && r.Fail? ==> r.error == Invalid
      ensures r.Fail? ==> unchanged(this)
      ensures r.Ok? ==>
        && translations == old(translations)[id := TranslationController.Updated(old(translations)[id], input)]
        && tagsOf == old(tagsOf)[id := TranslationController.TagsAfterUpdate(old(tagsOf)[id], input)]
        && languages == old(languages) && tags == old(tags)
    {
      if id !in translations {
        return Fail(NotFound);
      }
      UpdateTranslationRequest.RulesMeanAccepted(input, Tables());
      if !Passes(UpdateTranslationRequest.Rules(), input, Tables()) {
        return Fail(Invalid);
      }
      TranslationController.UpdateRequestShape(input, languages, tags);
      // DB::transaction: the field update, then the sync
      translations := translations[id := TranslationController.Updated(translations[id], input)];
      tagsOf := tagsOf[id := TranslationController.TagsAfterUpdate(tagsOf[id], input)];
      r := Ok(());
    }

    /** `TranslationController.destroy`: remove the row and its pivot rows. */
    method DestroyTranslation(id: int) returns (r: Outcome<()>)
      requires Valid()
      modifies this
      ensures Valid()
      ensures r.Ok? <==> id in old(translations)
      ensures r.Fail? ==> r.error == NotFound && unchanged(this)
      ensures r.Ok? ==>
        && translations == old(translations) - {id} && tagsOf == old(tagsOf) - {id}
        && languages == old(languages) && tags == old(tags)
    {
      if id !in translations {
        return Fail(NotFound);
      }
      translations := translations - {id};
      tagsOf := tagsOf - {id};
      r := Ok(());
    }

    // ---------------------------------------------------------- languages

    /** `LanguageController.store`. */
    method StoreLanguage(input: Input) returns (r: Outcome<int>)
      requires Valid()
      modifies this
      ensures Valid()
      ensures r.Ok? <==> StoreLanguageRequest.Accepted(input, old(languages))
      ensures r.Fail? ==> r.error == Invalid && unchanged(this)
      ensures r.Ok? ==>
        && r.value !in old(languages)
        && languages == old(languages)[r.value := LanguageController.Created(input)]
        && tags == old(tags) && translations == old(translations) && tagsOf == old(tagsOf)
    {
      StoreLanguageRequest.RulesMeanAccepted(input, Tables());
      if !Passes(StoreLanguageRequest.Rules(), input, Tables()) {
        return Fail(Invalid);
      }
      LanguageController.StoreRequestShape(input, languages);
      var id := nextLanguageId;
      LanguageController.StoreKeepsCodesDistinct(languages, input, id);
      nextLanguageId := nextLanguageId + 1;
      languages := languages[id := LanguageController.Created(input)];
      r := Ok(id);
    }

    /** `LanguageController.update`. */
    method UpdateLanguage(id: int, input: Input) returns (r: Outcome<()>)
      requires Valid()
      modifies this
      ensures Valid()
      ensures id !in old(languages) ==> r == Fail(NotFound)
      ensures id in old(languages) ==> (r.Ok? <==> UpdateLanguageRequest.Accepted(input, old(languages), Some(id)))
      ensures id in old(languages) && r.Fail? ==> r.error == Invalid
      ensures r.Fail? ==> unchanged(this)
      ensures r.Ok? ==>
        && languages == old(languages)[id := LanguageController.Updated(old(languages)[id], input)]
        && tags == old(tags) && translations == old(translations) && tagsOf == old(tagsOf)
    {
      if id !in languages {
        return Fail(NotFound);
      }
      UpdateLanguageRequest.RulesMeanAccepted(input, Tables(), Some(id));
      if !Passes(UpdateLanguageRequest.Rules(Some(id)), input, Tables()) {
        return Fail(Invalid);
      }
      LanguageController.UpdateRequestShape(input, languages, id);
      LanguageController.UpdateKeepsCodesDistinct(languages, input, id);
      languages := languages[id := LanguageController.Updated(languages[id], input)];
      r := Ok(());
    }

    /** `LanguageController.destroy`: remove the language; the foreign key
        cascades to its translations and their pivot rows. */
    method DestroyLanguage(id: int) returns (r: Outcome<()>)
      requires Valid()
      modifies this
      ensures Valid()
      ensures r.Ok? <==> id in old(languages)
      ensures r.Fail? ==> r.error == NotFound && unchanged(this)
      ensures r.Ok? ==>
        && languages == old(languages) - {id}
        && translations == LanguageController.Cascade(old(translations), id)
        && tagsOf == LanguageController.PivotAfterCascade(old(tagsOf), translations)
        && tags == old(tags)
    {
      if id !in languages {
        return Fail(NotFound);
      }
      LanguageController.DestroyKeepsLanguagesExist(languages, translations, id);
      languages := languages - {id};
      translations := LanguageController.Cascade(translations, id);
      tagsOf := LanguageController.PivotAfterCascade(tagsOf, translations);
      r := Ok(());
    }

    // --------------------------------------------------------------- tags

    /** `TagController.store`. */
    method StoreTag(input: Input) returns (r: Outcome<int>)
      requires Valid()
      modifies this
      ensures Valid()
      ensures r.Ok? <==> TagController.Accepted(input, old(tags), None)
      ensures r.Fail? ==> r.error == Invalid && unchanged(this)
      ensures r.Ok? ==>
        && r.value !in old(tags)
        && tags == old(tags)[r.value := TagController.Created(input)]
        && languages == old(languages) && translations == old(translations) && tagsOf == old(tagsOf)
    {
      TagController.RulesMeanAccepted(input, Tables(), None);
      if !Passes(TagController.Rules(None), input, Tables()) {
        return Fail(Invalid);
      }
      var id := nextTagId;
      TagController.WriteKeepsNamesDistinct(tags, id, TagController.Created(input), input);
      nextTagId := nextTagId + 1;
      tags := tags[id := TagController.Created(input)];
      r := Ok(id);
    }

    /** `TagController.update`: the name is required again; uniqueness ignores
        the tag's own row. */
    method UpdateTag(id: int, input: Input) returns (r: Outcome<()>)
      requires Valid()
      modifies this
      ensures Valid()
      ensures id !in old(tags) ==> r == Fail(NotFound)
      ensures id in old(tags) ==> (r.Ok? <==> TagController.Accepted(input, old(tags), Some(id)))
      ensures id in old(tags) && r.Fail? ==> r.error == Invalid
      ensures r.Fail? ==> unchanged(this)
      ensures r.Ok? ==>
        && tags == old(tags)[id := TagController.Updated(old(tags)[id], input)]
        && languages == old(languages) && translations == old(translations) && tagsOf == old(tagsOf)
    {
      if id !in tags {
        return Fail(NotFound);
      }
      TagController.RulesMeanAccepted(input, Tables(), Some(id));
      if !Passes(TagController.Rules(Some(id)), input, Tables()) {
        return Fail(Invalid);
      }
      TagController.WriteKeepsNamesDistinct(tags, id, TagController.Updated(tags[id], input), input);
      tags := tags[id := TagController.Updated(tags[id], input)];
      r := Ok(());
    }

    /** `TagController.destroy`: remove the tag and detach it; no translation
        is removed. */
    method DestroyTag(id: int) returns (r: Outcome<()>)
      requires Valid()
      modifies this
      ensures Valid()
      ensures r.Ok? <==> id in old(tags)
      ensures r.Fail? ==> r.error == NotFound && unchanged(this)
      ensures r.Ok? ==>
        && tags == old(tags) - {id}
        && tagsOf == TagController.Detach(old(tagsOf), id)
        && languages == old(languages) && translations == old(translations)
    {
      if id !in tags {
        return Fail(NotFound);
      }
      TagController.DestroyKeepsTagsExist(tags, tagsOf, id);
      tags := tags - {id};
      tagsOf := TagController.Detach(tagsOf, id);
      r := Ok(());
    }
  }

  /** Creating a translation and then showing it gives back the stored fields
      and exactly the requested tag ids. */
  method StoreThenShow(store: TranslationStore, input: Input) returns (r: Outcome<int>)
    requires store.Valid()
    modifies store
    ensures r.Ok? ==>
      && StoreTranslationRequest.Accepted(input, old(store.languages), old(store.tags))
      && TranslationController.Show(r.value, store.translations, store.tagsOf)
         == Ok((TranslationController.Created(input), TranslationController.AttachedOnStore(input)))
  {
    r := store.StoreTranslation(input);
  }

  /** Creating a language and then showing it gives back the created row,
      and the listing holds it exactly once. */
  method StoreLanguageThenShow(store: TranslationStore, input: Input) returns (r: Outcome<int>)
    requires store.Valid()
    modifies store
    ensures r.Ok? ==>
      && StoreLanguageRequest.Accepted(input, old(store.languages))
      && LanguageController.Show(store.languages, r.value) == Ok(LanguageController.Created(input))
      && var rows := LanguageController.Index(store.languages);
         && (exists k :: 0 <= k < |rows| && rows[k] == (r.value, LanguageController.Created(input)))
         && (forall j, k :: 0 <= j < |rows| && 0 <= k < |rows| && rows[j].0 == r.value && rows[k].0 == r.value ==> j == k)
  {
    r := store.StoreLanguage(input);
    if r.Ok? {
      LanguageController.StoreRequestShape(input, old(store.languages));
      LanguageController.StoredIsShown(old(store.languages), input, r.value);
    }
  }

  /** Once a language is deleted, none of its translations can be shown. */
  method DestroyLanguageThenShow(store: TranslationStore, language: int, translation: int) returns (r: Outcome<()>)
    requires store.Valid()
    requires translation in store.translations && store.translations[translation].languageId == language
    modifies store
    ensures r.Ok? && TranslationController.Show(translation, store.translations, store.tagsOf) == Fail(NotFound)
  {
    r := store.DestroyLanguage(language);
  }
}
