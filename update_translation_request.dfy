/** The rule array that guards `TranslationController.update`. */
module UpdateTranslationRequest {
  import opened Models
  import opened Http
  import opened Validation

  /** `rules()`: every field is optional; what is sent must be a string (key,
      value), an existing language id, a string of at most 255 characters
      (group), or an array of existing tag ids (tags). */
  function Rules(): RuleSet
  {
    [ (Field("key"), [Sometimes, IsString]),
      (Field("value"), [Sometimes, IsString]),
      (Field("language_id"), [Sometimes, Exists(LanguagesTable)]),
      (Field("group"), [Sometimes, IsString, Max(255)]),
      (Field("tags"), [Sometimes, IsArray]),
      (Each("tags"), [Exists(TagsTable)]) ]
  }

  /** The same requirements stated field by field. */
  predicate Accepted(input: Input, languages: map<int, Language>, tags: map<int, Tag>)
  {
    && ("key" in input ==> input["key"].Str?)
    && ("value" in input ==> input["value"].Str?)
    && ("language_id" in input ==> IdIn(input["language_id"], languages.Keys))
    && ("group" in input ==> input["group"].Str? && |input["group"].s| <= 255)
    && ("tags" in input ==>
          input["tags"].Arr? && forall k :: 0 <= k < |input["tags"].items| ==> IdIn(input["tags"].items[k], tags.Keys))
  }

  lemma {:induction false} RulesMeanAccepted(input: Input, db: Db)
    ensures Passes(Rules(), input, db) <==> Accepted(input, db.languages, db.tags)
  {
    if Passes(Rules(), input, db) {
      PassingIsAccepted(input, db);
    }
    if Accepted(input, db.languages, db.tags) {
      AcceptedPasses(input, db);
    }
  }

  lemma {:induction false} PassingIsAccepted(input: Input, db: Db)
    requires Passes(Rules(), input, db)
    ensures Accepted(input, db.languages, db.tags)
  {
    var rs := Rules();
    assert AttrPasses(rs[0].0, rs[0].1, input, db);
    assert AttrPasses(rs[1].0, rs[1].1, input, db);
    assert AttrPasses(rs[2].0, rs[2].1, input, db);
    assert AttrPasses(rs[3].0, rs[3].1, input, db);
    assert AttrPasses(rs[4].0, rs[4].1, input, db);
    assert AttrPasses(rs[5].0, rs[5].1, input, db);
    if "key" in input {
      assert RulePasses(IsString, rs[0].1, true, input["key"], db);
    }
    if "value" in input {
      assert RulePasses(IsString, rs[1].1, true, input["value"], db);
    }
    if "language_id" in input {
      assert RulePasses(Exists(LanguagesTable), rs[2].1, true, input["language_id"], db);
    }
    if "group" in input {
      assert RulePasses(IsString, rs[3].1, true, input["group"], db);
      assert RulePasses(Max(255), rs[3].1, true, input["group"], db);
    }
    if "tags" in input {
      assert RulePasses(IsArray, rs[4].1, true, input["tags"], db);
      forall k | 0 <= k < |input["tags"].items| ensures IdIn(input["tags"].items[k], db.tags.Keys) {
        assert RulePasses(Exists(TagsTable), rs[5].1, true, input["tags"].items[k], db);
      }
    }
  }

  lemma {:induction false} AcceptedPasses(input: Input, db: Db)
    requires Accepted(input, db.languages, db.tags)
    ensures Passes(Rules(), input, db)
  {
    var rs := Rules();
    forall i | 0 <= i < |rs| ensures AttrPasses(rs[i].0, rs[i].1, input, db) {
    }
  }

  /** A request with no fields at all passes. */
  lemma EmptyRequestAccepted(db: Db)
    ensures Passes(Rules(), map[], db)
  {
    RulesMeanAccepted(map[], db);
  }
}
