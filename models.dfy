/** The three tables of the translation store, the pivot that links translations
    to tags, and the integrity rules the application keeps over them. */
module Models {

  datatype Option<T> = None | Some(value: T)

  /** Why an action answers without changing anything: an unknown id in the
      path (HTTP 404) or a request its validation rules reject (HTTP 422). */
  datatype Error = NotFound | Invalid

  datatype Outcome<T> = Ok(value: T) | Fail(error: Error)

  /** A row of `languages`: `code` and `name` as stored, `is_active` as the
      boolean cast reads it back. */
  datatype Language = Language(code: string, name: string, isActive: bool)

  /** A row of `tags`; `description` is a nullable column. */
  datatype Tag = Tag(name: string, description: Option<string>)

  /** A row of `translations`; `languageId` is the foreign key to `languages`. */
  datatype Translation = Translation(key: string, value: string, languageId: int, group: string)

  /** The column default of `translations.group`, which `store` also uses when no group is given. */
  const DefaultGroup: string := "general"

  /** No two languages share a code. */
  predicate CodesDistinct(languages: map<int, Language>)
  {
    forall a, b :: a in languages && b in languages && a != b ==> languages[a].code != languages[b].code
  }

  /** No two tags share a name. */
  predicate NamesDistinct(tags: map<int, Tag>)
  {
    forall a, b :: a in tags && b in tags && a != b ==> tags[a].name != tags[b].name
  }

  /** Every translation belongs to a language that exists. */
  predicate LanguagesExist(translations: map<int, Translation>, languages: map<int, Language>)
  {
    forall id :: id in translations ==> translations[id].languageId in languages
  }

  /** Every pivot row points at a tag that exists. */
  predicate TagsExist(tagsOf: map<int, set<int>>, tags: map<int, Tag>)
  {
    forall id :: id in tagsOf ==> tagsOf[id] <= tags.Keys
  }

  /** The tag ids attached to translation `id` (none for an unknown id). */
  function AttachedTo(tagsOf: map<int, set<int>>, id: int): set<int>
  {
    if id in tagsOf then tagsOf[id] else {}
  }
}
