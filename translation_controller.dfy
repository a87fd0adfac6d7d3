/** The read actions of the translations resource (`index`, `show`,
    `getByKey`) as functions of the tables, and the rows and tag sets its
    write actions (`store`, `update`) compute from a request. The writes
    themselves are methods of `Store.TranslationStore`. */
module TranslationController {
  import opened Models
  import opened Http
  import opened Validation
  import opened Queries
  import StoreTranslationRequest
  import UpdateTranslationRequest
  import GetByKeyRequest

  // ---------------------------------------------------------------- index

  /** The query string of `index`. */
  datatype ListQuery = ListQuery(perPage: Param<int>, language: Param<Text>, group: Param<Text>, tag: Param<Text>, key: Param<Text>)

  const DefaultPerPage: int := 50
  const MaxPerPage: int := 100

  /** The page size handed to the paginator: `min(per_page, 100)`, 50 when the
      parameter is not sent. A parameter sent empty reaches `min` as null, and
      `min(null, 100)` is null (None here): the paginator then uses its own
      default. There is no lower bound. */
  function PerPage(p: Param<int>): (n: Option<int>)
    ensures p.Absent? ==> n == Some(DefaultPerPage)
    ensures p.Empty? ==> n == None
    ensures p.Given? ==> n.Some? && n.value <= MaxPerPage
    ensures p.Given? && p.value <= MaxPerPage ==> n == Some(p.value)
    ensures p.Given? && p.value > MaxPerPage ==> n == Some(MaxPerPage)
  {
    match p
    case Absent => Some(DefaultPerPage)
    case Empty => None
    case Given(requested) => Some(if requested < MaxPerPage then requested else MaxPerPage)
  }

  /** `needle` occurs in `s` starting at position `i`. */
  predicate OccursAt(needle: string, s: string, i: nat)
  {
    i + |needle| <= |s| && s[i..i + |needle|] == needle
  }

  /** `s LIKE '%needle%'`, read as a plain substring test. */
  predicate Contains(s: string, needle: string)
  {
    exists i: nat :: i <= |s| && OccursAt(needle, s, i)
  }

  /** `language`: the owning language's code equals the parameter. Sent empty,
      it compares the code with null, which no language matches. */
  predicate LanguageMatches(p: Param<Text>, t: Translation, languages: map<int, Language>)
  {
    match p
    case Absent => true
    case Empty => false
    case Given(code) => t.languageId in languages && languages[t.languageId].code == code
  }

  /** `group`: the group equals the parameter; sent empty, nothing matches. */
  predicate GroupMatches(p: Param<Text>, t: Translation)
  {
    match p
    case Absent => true
    case Empty => false
    case Given(group) => t.group == group
  }

  /** `tag`: SOME attached tag has that name; sent empty, nothing matches. */
  predicate TagMatches(p: Param<Text>, attached: set<int>, tags: map<int, Tag>)
  {
    match p
    case Absent => true
    case Empty => false
    case Given(name) => exists id :: id in attached && id in tags && tags[id].name == name
  }

  /** `key`: the key contains the parameter. Sent empty, the pattern is `%%`,
      which every key matches. */
  predicate KeyMatches(p: Param<Text>, t: Translation)
  {
    match p
    case Absent => true
    case Empty => true
    case Given(k) => Contains(t.key, k)
  }

  predicate Listed(q: ListQuery, id: int, languages: map<int, Language>, tags: map<int, Tag>,
                   translations: map<int, Translation>, tagsOf: map<int, set<int>>)
  {
    && id in translations
    && LanguageMatches(q.language, translations[id], languages)
    && GroupMatches(q.group, translations[id])
    && TagMatches(q.tag, AttachedTo(tagsOf, id), tags)
    && KeyMatches(q.key, translations[id])
  }

  /** The result of `index` before it is cut into pages: every matching
      translation in ascending id order (the paginator's `total` is its
      length) and the page size. */
  datatype Listing = Listing(matches: seq<int>, perPage: Option<int>)

  /** `index`: a translation is listed exactly when it passes every filter
      that was sent; the filters are combined with AND. */
  function Index(q: ListQuery, languages: map<int, Language>, tags: map<int, Tag>,
                 translations: map<int, Translation>, tagsOf: map<int, set<int>>): (r: Listing)
    ensures forall id :: id in r.matches <==>
      && id in translations
      && LanguageMatches(q.language, translations[id], languages)
      && GroupMatches(q.group, translations[id])
      && TagMatches(q.tag, AttachedTo(tagsOf, id), tags)
      && KeyMatches(q.key, translations[id])
    ensures Increasing(r.matches)
    ensures r.perPage == PerPage(q.perPage)
  {
    var all := Ascending(translations.Keys);
    Listing(Where(all, id => Listed(q, id, languages, tags, translations, tagsOf)), PerPage(q.perPage))
  }

  lemma {:induction false} WhereAll(ids: seq<int>, p: int -> bool)
    requires forall k :: 0 <= k < |ids| ==> p(ids[k])
    ensures Where(ids, p) == ids
  {
    if ids != [] {
      WhereAll(ids[1..], p);
    }
  }

  /** With no filter sent, `index` lists every translation, in id order. */
  lemma NoFilterListsAll(perPage: Param<int>, languages: map<int, Language>, tags: map<int, Tag>,
                         translations: map<int, Translation>, tagsOf: map<int, set<int>>)
    ensures Index(ListQuery(perPage, Absent, Absent, Absent, Absent), languages, tags, translations, tagsOf).matches
            == Ascending(translations.Keys)
  {
    var q := ListQuery(perPage, Absent, Absent, Absent, Absent);
    var all := Ascending(translations.Keys);
    forall k | 0 <= k < |all| ensures Listed(q, all[k], languages, tags, translations, tagsOf) {
      assert all[k] in all;
    }
    WhereAll(all, id => Listed(q, id, languages, tags, translations, tagsOf));
  }

  /** The position of the first match on page `page`. */
  function PageStart(size: int, page: int): (start: nat)
    requires size >= 1 && page >= 1
  {
    assert (page - 1) * size >= 0 by {
      if page - 1 > 0 { assert (page - 1) * size >= size; }
    }
    (page - 1) * size
  }

  /** Page `page` (from 1) of a listing with `size` items per page: the
      matches from position `PageStart(size, page)` on, as many as there are
      up to `size`. */
  function Page(matches: seq<int>, size: int, page: int): (items: seq<int>)
    requires size >= 1 && page >= 1
    ensures |items| <= size
    ensures var start := PageStart(size, page);
      |items| == if start >= |matches| then 0 else if |matches| - start < size then |matches| - start else size
    ensures forall k :: 0 <= k < |items| ==>
      PageStart(size, page) + k < |matches| && items[k] == matches[PageStart(size, page) + k]
  {
    var start := PageStart(size, page);
    var lo := if start < |matches| then start else |matches|;
    var hi := if start + size < |matches| then start + size else |matches|;
    matches[lo..hi]
  }

  /** Paging loses nothing: the match at position `i` is item `i % size` of
      page `i / size + 1`. */
  lemma MatchOnItsPage(matches: seq<int>, size: int, i: int)
    requires size >= 1 && 0 <= i < |matches|
    ensures i % size < |Page(matches, size, i / size + 1)|
    ensures Page(matches, size, i / size + 1)[i % size] == matches[i]
  {
    var page := i / size + 1;
    assert (page - 1) * size + i % size == i;
  }

  // ------------------------------------------------------------- getByKey

  /** `getByKey`: rejected unless `key` is a string; otherwise exactly the
      translations whose key equals it, in every language and every group. */
  function GetByKey(input: Input, translations: map<int, Translation>): (r: Outcome<seq<int>>)
    ensures r.Fail? <==> !GetByKeyRequest.Accepted(input)
    ensures r.Fail? ==> r.error == Invalid
    ensures r.Ok? ==> Increasing(r.value)
    ensures r.Ok? ==> forall id :: id in r.value <==> id in translations && translations[id].key == input["key"].s
  {
    // these rules read no table
    var db := Db(map[], map[]);
    GetByKeyRequest.RulesMeanAccepted(input, db);
    if !Passes(GetByKeyRequest.Rules(), input, db) then Fail(Invalid)
    else
      var key := input["key"].s;
      Ok(Where(Ascending(translations.Keys), id => id in translations && translations[id].key == key))
  }

  /** Every translation `getByKey` finds is also listed by `index` filtering on
      the same key. */
  lemma ByKeyWithinKeyFilter(input: Input, perPage: Param<int>, languages: map<int, Language>, tags: map<int, Tag>,
                             translations: map<int, Translation>, tagsOf: map<int, set<int>>, id: int)
    requires GetByKeyRequest.Accepted(input)
    requires id in GetByKey(input, translations).value
    ensures id in Index(ListQuery(perPage, Absent, Absent, Absent, Given(input["key"].s)), languages, tags, translations, tagsOf).matches
  {
    ExactKeyIsListed(input["key"].s, perPage, languages, tags, translations, tagsOf, id);
  }

  lemma ExactKeyIsListed(key: Text, perPage: Param<int>, languages: map<int, Language>, tags: map<int, Tag>,
                         translations: map<int, Translation>, tagsOf: map<int, set<int>>, id: int)
    requires id in translations && translations[id].key == key
    ensures id in Index(ListQuery(perPage, Absent, Absent, Absent, Given(key)), languages, tags, translations, tagsOf).matches
  {
    ContainsItself(key);
    var q := ListQuery(perPage, Absent, Absent, Absent, Given(key));
    assert LanguageMatches(q.language, translations[id], languages) && GroupMatches(q.group, translations[id]);
    assert TagMatches(q.tag, AttachedTo(tagsOf, id), tags) && KeyMatches(q.key, translations[id]);
  }

  lemma ContainsItself(s: string)
    ensures Contains(s, s)
  {
    assert OccursAt(s, s, 0);
  }

  // ----------------------------------------------------------------- show

  /** `show`: the translation with its attached tag ids; an unknown id is 404. */
  function Show(id: int, translations: map<int, Translation>, tagsOf: map<int, set<int>>): (r: Outcome<(Translation, set<int>)>)
    ensures r.Ok? <==> id in translations
    ensures r.Fail? ==> r.error == NotFound
    ensures r.Ok? ==> r.value.0 == translations[id] && r.value.1 == AttachedTo(tagsOf, id)
  {
    if id in translations then Ok((translations[id], AttachedTo(tagsOf, id))) else Fail(NotFound)
  }

  // ---------------------------------------------------------------- store

  /** The ids named by an array of tag ids. */
  function IdsOf(items: seq<Val>): (ids: set<int>)
    ensures forall id :: id in ids <==> Int(id) in items
  {
    set k | 0 <= k < |items| && items[k].Int? :: items[k].i
  }

  /** The shape validation leaves a `store` request in. */
  predicate StoreShape(input: Input)
  {
    && "key" in input && input["key"].Str?
    && "value" in input && input["value"].Str?
    && "language_id" in input && input["language_id"].Int?
    && ("group" in input ==> input["group"].Str? || input["group"].Null?)
  }

  /** The row `store` inserts: key, value and language copied from the request,
      the group `?? 'general'`. */
  function Created(input: Input): (t: Translation)
    requires StoreShape(input)
    ensures t.key == input["key"].s && t.value == input["value"].s && t.languageId == input["language_id"].i
    ensures "group" in input && input["group"].Str? ==> t.group == input["group"].s
    ensures "group" !in input || input["group"] == Null ==> t.group == DefaultGroup
  {
    var group := match Coalesce(input, "group", Str(DefaultGroup)) case Str(g) => g case _ => DefaultGroup;
    Translation(input["key"].s, input["value"].s, input["language_id"].i, group)
  }

  /** The tags `store` attaches: those of the `tags` array when the request
      has one, none otherwise. */
  function AttachedOnStore(input: Input): (attached: set<int>)
    requires "tags" in input ==> input["tags"].Arr?
    ensures "tags" in input ==> attached == IdsOf(input["tags"].items)
    ensures "tags" !in input ==> attached == {}
  {
    if "tags" in input then IdsOf(input["tags"].items) else {}
  }

  lemma StoreRequestShape(input: Input, languages: map<int, Language>, tags: map<int, Tag>)
    requires StoreTranslationRequest.Accepted(input, languages, tags)
    ensures StoreShape(input)
    ensures AttachedOnStore(input) <= tags.Keys
  {
  }

  // --------------------------------------------------------------- update

  /** The shape validation leaves an `update` request in. */
  predicate UpdateShape(input: Input)
  {
    && ("key" in input ==> input["key"].Str? || input["key"].Null?)
    && ("value" in input ==> input["value"].Str? || input["value"].Null?)
    && ("language_id" in input ==> input["language_id"].Int? || input["language_id"].Null?)
    && ("group" in input ==> input["group"].Str? || input["group"].Null?)
  }

  /** The row after `update`: each field `??` its previous value, so a field
      that is absent or null keeps what it had. */
  function Updated(t: Translation, input: Input): (u: Translation)
    requires UpdateShape(input)
    ensures u.key == if Gives(input, "key") then input["key"].s else t.key
    ensures u.value == if Gives(input, "value") then input["value"].s else t.value
    ensures u.languageId == if Gives(input, "language_id") then input["language_id"].i else t.languageId
    ensures u.group == if Gives(input, "group") then input["group"].s else t.group
  {
    var languageId := match Coalesce(input, "language_id", Null) case Int(i) => i case _ => t.languageId;
    Translation(StringOr(input, "key", t.key), StringOr(input, "value", t.value), languageId, StringOr(input, "group", t.group))
  }

  /** `sync`: detach the attached tags that are not requested and attach the
      requested ones that are not attached yet. */
  function Sync(current: set<int>, requested: set<int>): (after: set<int>)
    ensures after == requested
  {
    var detach := current - requested;
    var attach := requested - current;
    (current - detach) + attach
  }

  /** The tags after `update`: synced to the `tags` array when the request has
      one (an empty array detaches every tag), untouched otherwise. */
  function TagsAfterUpdate(current: set<int>, input: Input): (after: set<int>)
    requires "tags" in input ==> input["tags"].Arr?
    ensures "tags" in input ==> after == IdsOf(input["tags"].items)
    ensures "tags" !in input ==> after == current
  {
    if "tags" in input then Sync(current, IdsOf(input["tags"].items)) else current
  }

  lemma UpdateRequestShape(input: Input, languages: map<int, Language>, tags: map<int, Tag>)
    requires UpdateTranslationRequest.Accepted(input, languages, tags)
    ensures UpdateShape(input) && ("tags" in input ==> input["tags"].Arr?)
    ensures Gives(input, "language_id") ==> input["language_id"].i in languages
    ensures "tags" in input ==> IdsOf(input["tags"].items) <= tags.Keys
  {
  }

  /** An update with no fields leaves the row as it was. */
  lemma EmptyUpdateChangesNothing(t: Translation)
    ensures Updated(t, map[]) == t
  {
  }

  /** Sending the same update twice has the effect of sending it once. */
  lemma UpdateIdempotent(t: Translation, input: Input)
    requires UpdateShape(input)
    ensures Updated(Updated(t, input), input) == Updated(t, input)
  {
  }

  /** An update that gives only a value changes only the value. */
  lemma ValueOnlyUpdate(t: Translation, v: Text)
    ensures Updated(t, map["value" := Str(v)]) == t.(value := v)
  {
  }
}
