/** The read actions of the languages resource (`index`, `show`) as
    functions of the table, the rows its write actions compute from a
    request, and why those writes keep language codes distinct and every
    translation attached to an existing language. The writes themselves are
    methods of `Store.TranslationStore`. */
module LanguageController {
  import opened Models
  import opened Http
  import opened Queries
  import Validation
  import StoreLanguageRequest
  import UpdateLanguageRequest

  /** `index`: every language with its id, code, name and active flag. */
  function Index(languages: map<int, Language>): (r: seq<(int, Language)>)
    ensures |r| == |languages| && ListsRows(r, languages)
  {
    Rows(languages)
  }

  /** `show`: the stored language; an unknown id is 404. */
  function Show(languages: map<int, Language>, id: int): (r: Outcome<Language>)
    ensures r.Ok? <==> id in languages
    ensures r.Ok? ==> r.value == languages[id]
    ensures r.Fail? ==> r.error == NotFound
  {
    if id in languages then Ok(languages[id]) else Fail(NotFound)
  }

  /** The shape validation leaves a `store` request in. */
  predicate StoreShape(input: Input)
  {
    && "code" in input && input["code"].Str?
    && "name" in input && input["name"].Str?
  }

  /** The row `store` inserts: code and name as given, `is_active ?? true`. */
  function Created(input: Input): (l: Language)
    requires StoreShape(input)
    ensures l.code == input["code"].s && l.name == input["name"].s
    ensures Gives(input, "is_active") ==> l.isActive == AsBool(input["is_active"])
    ensures !Gives(input, "is_active") ==> l.isActive
  {
    Language(input["code"].s, input["name"].s, AsBool(Coalesce(input, "is_active", Bool(true))))
  }

  /** The shape validation leaves an `update` request in. */
  predicate UpdateShape(input: Input)
  {
    && ("code" in input ==> input["code"].Str? || input["code"].Null?)
    && ("name" in input ==> input["name"].Str? || input["name"].Null?)
  }

  /** The row after `update`: each field `??` its previous value. */
  function Updated(l: Language, input: Input): (u: Language)
    requires UpdateShape(input)
    ensures u.code == if Gives(input, "code") then input["code"].s else l.code
    ensures u.name == if Gives(input, "name") then input["name"].s else l.name
    ensures u.isActive == if Gives(input, "is_active") then AsBool(input["is_active"]) else l.isActive
  {
    Language(StringOr(input, "code", l.code), StringOr(input, "name", l.name),
             AsBool(Coalesce(input, "is_active", Bool(l.isActive))))
  }

  /** The translations left after `destroy` of language `id`: the foreign key
      cascades, removing every translation of that language and no other. */
  function Cascade(translations: map<int, Translation>, id: int): (left: map<int, Translation>)
    ensures forall t :: t in left <==> t in translations && translations[t].languageId != id
    ensures forall t :: t in left ==> left[t] == translations[t]
  {
    map t | t in translations && translations[t].languageId != id :: translations[t]
  }

  /** The pivot rows left after the cascade: those of the translations that
      remain, unchanged. */
  function PivotAfterCascade(tagsOf: map<int, set<int>>, left: map<int, Translation>): (after: map<int, set<int>>)
    ensures after.Keys == tagsOf.Keys * left.Keys
    ensures forall t :: t in after ==> after[t] == tagsOf[t]
  {
    map t | t in tagsOf && t in left :: tagsOf[t]
  }

  /** A stored language is shown as created, and `index` lists it exactly
      once, with that row. */
  lemma StoredIsShown(languages: map<int, Language>, input: Input, id: int)
    requires id !in languages && StoreShape(input)
    ensures Show(languages[id := Created(input)], id) == Ok(Created(input))
    ensures var rows := Index(languages[id := Created(input)]);
      && (exists k :: 0 <= k < |rows| && rows[k] == (id, Created(input)))
      && (forall j, k :: 0 <= j < |rows| && 0 <= k < |rows| && rows[j].0 == id && rows[k].0 == id ==> j == k)
  {
    var after := languages[id := Created(input)];
    var rows := Index(after);
    assert id in after;
    var k :| 0 <= k < |rows| && rows[k].0 == id;
    assert rows[k] == (id, Created(input));
  }

  lemma StoreRequestShape(input: Input, languages: map<int, Language>)
    requires StoreLanguageRequest.Accepted(input, languages)
    ensures StoreShape(input)
  {
  }

  lemma UpdateRequestShape(input: Input, languages: map<int, Language>, id: int)
    requires UpdateLanguageRequest.Accepted(input, languages, Some(id))
    ensures UpdateShape(input)
  {
  }

  /** A `store` that passes validation keeps codes distinct. */
  lemma StoreKeepsCodesDistinct(languages: map<int, Language>, input: Input, id: int)
    requires CodesDistinct(languages) && id !in languages
    requires StoreLanguageRequest.Accepted(input, languages)
    ensures CodesDistinct(languages[id := Created(input)])
  {
    var after := languages[id := Created(input)];
    forall a, b | a in after && b in after && a != b ensures after[a].code != after[b].code {
      if a == id {
        assert after[b] == languages[b];
      } else if b == id {
        assert after[a] == languages[a];
      }
    }
  }

  /** An `update` that passes validation keeps codes distinct: a new code is
      checked against every OTHER language, so re-sending a language's own
      code is allowed. */
  lemma UpdateKeepsCodesDistinct(languages: map<int, Language>, input: Input, id: int)
    requires CodesDistinct(languages) && id in languages
    requires UpdateLanguageRequest.Accepted(input, languages, Some(id))
    ensures CodesDistinct(languages[id := Updated(languages[id], input)])
  {
    var after := languages[id := Updated(languages[id], input)];
    forall a, b | a in after && b in after && a != b ensures after[a].code != after[b].code {
      if a == id {
        assert after[b] == languages[b];
      } else if b == id {
        assert after[a] == languages[a];
      }
    }
  }

  /** After a language is created, a second `store` with the same code is
      rejected. */
  lemma SameCodeRejectedAfterStore(languages: map<int, Language>, input: Input, id: int, again: Input)
    requires StoreShape(input) && id !in languages
    requires "code" in again && again["code"] == input["code"]
    ensures !StoreLanguageRequest.Accepted(again, languages[id := Created(input)])
  {
    assert languages[id := Created(input)][id].code == again["code"].s;
  }

  /** `update` may not take the code of another language. */
  lemma TakenCodeRejectedOnUpdate(languages: map<int, Language>, input: Input, self: int, other: int)
    requires other in languages && other != self
    requires "code" in input && input["code"].Str? && input["code"].s == languages[other].code
    ensures !UpdateLanguageRequest.Accepted(input, languages, Some(self))
  {
  }

  /** As the source writes `ignore($this->language)`, an input field
      `language` naming another language lets that language's code through:
      updating language 3 with code "fr" and `language` 5, where language 5
      already has code "fr", passes validation and leaves two languages with
      the same code. Ignoring the route's own row rejects it. */
  lemma AsWrittenAcceptsTakenCode()
    ensures var languages := map[3 := Language("en", "English", true), 5 := Language("fr", "French", true)];
      var input := map["code" := Str("fr"), "language" := Int(5)];
      var db := Validation.Db(languages, map[]);
      && Validation.Passes(UpdateLanguageRequest.Rules(UpdateLanguageRequest.IgnoredAsWritten(input, 3)), input, db)
      && !CodesDistinct(languages[3 := Updated(languages[3], input)])
      && !Validation.Passes(UpdateLanguageRequest.Rules(Some(3)), input, db)
  {
    var languages := map[3 := Language("en", "English", true), 5 := Language("fr", "French", true)];
    var input := map["code" := Str("fr"), "language" := Int(5)];
    var db := Validation.Db(languages, map[]);
    assert UpdateLanguageRequest.IgnoredAsWritten(input, 3) == Some(5);
    assert languages.Keys == {3, 5};
    assert UpdateLanguageRequest.Accepted(input, languages, Some(5)) by {
      assert languages[3].code != "fr";
    }
    UpdateLanguageRequest.RulesMeanAccepted(input, db, Some(5));
    assert !UpdateLanguageRequest.Accepted(input, languages, Some(3)) by {
      assert languages[5].code == input["code"].s;
    }
    UpdateLanguageRequest.RulesMeanAccepted(input, db, Some(3));
    var after := languages[3 := Updated(languages[3], input)];
    assert after[3].code == "fr" && after[5].code == "fr";
  }

  /** The other side of the same reading: re-sending language 3's own code
      with `language` 99 is rejected as taken, although no other language
      has it. */
  lemma AsWrittenRejectsOwnCode()
    ensures var languages := map[3 := Language("en", "English", true)];
      var input := map["code" := Str("en"), "language" := Int(99)];
      var db := Validation.Db(languages, map[]);
      && !Validation.Passes(UpdateLanguageRequest.Rules(UpdateLanguageRequest.IgnoredAsWritten(input, 3)), input, db)
      && Validation.Passes(UpdateLanguageRequest.Rules(Some(3)), input, db)
  {
    var languages := map[3 := Language("en", "English", true)];
    var input := map["code" := Str("en"), "language" := Int(99)];
    var db := Validation.Db(languages, map[]);
    assert UpdateLanguageRequest.IgnoredAsWritten(input, 3) == Some(99);
    assert languages.Keys == {3};
    assert !UpdateLanguageRequest.Accepted(input, languages, Some(99)) by {
      assert languages[3].code == input["code"].s;
    }
    UpdateLanguageRequest.RulesMeanAccepted(input, db, Some(99));
    UpdateLanguageRequest.RulesMeanAccepted(input, db, Some(3));
  }

  /** `destroy` keeps every remaining translation attached to a remaining
      language. */
  lemma DestroyKeepsLanguagesExist(languages: map<int, Language>, translations: map<int, Translation>, id: int)
    requires LanguagesExist(translations, languages)
    ensures LanguagesExist(Cascade(translations, id), languages - {id})
  {
  }
}
