/** The rule array that guards `LanguageController.store`. */
module StoreLanguageRequest {
  import opened Models
  import opened Http
  import opened Validation

  /** `rules()`: the code is a required string of at most 10 characters that no
      language uses yet; the name a required string of at most 255; `is_active`,
      when sent, a boolean. */
  function Rules(): RuleSet
  {
    [ (Field("code"), [Required, IsString, Max(10), Unique(LanguageCode, None)]),
      (Field("name"), [Required, IsString, Max(255)]),
      (Field("is_active"), [Sometimes, IsBoolean]) ]
  }

  /** The same requirements stated field by field. */
  predicate Accepted(input: Input, languages: map<int, Language>)
  {
    && "code" in input && input["code"].Str? && |input["code"].s| <= 10
    && (forall id :: id in languages ==> languages[id].code != input["code"].s)
    && "name" in input && input["name"].Str? && |input["name"].s| <= 255
    && ("is_active" in input ==> BooleanValue(input["is_active"]))
  }

  lemma {:induction false} RulesMeanAccepted(input: Input, db: Db)
    ensures Passes(Rules(), input, db) <==> Accepted(input, db.languages)
  {
    if Passes(Rules(), input, db) {
      PassingIsAccepted(input, db);
    }
    if Accepted(input, db.languages) {
      AcceptedPasses(input, db);
    }
  }

  lemma {:induction false} PassingIsAccepted(input: Input, db: Db)
    requires Passes(Rules(), input, db)
    ensures Accepted(input, db.languages)
  {
    var rs := Rules();
    assert AttrPasses(rs[0].0, rs[0].1, input, db);
    assert AttrPasses(rs[1].0, rs[1].1, input, db);
    assert AttrPasses(rs[2].0, rs[2].1, input, db);
    assert RulePasses(Required, rs[0].1, "code" in input, if "code" in input then input["code"] else Null, db);
    assert RulePasses(IsString, rs[0].1, "code" in input, input["code"], db);
    assert RulePasses(Max(10), rs[0].1, true, input["code"], db);
    assert RulePasses(Unique(LanguageCode, None), rs[0].1, true, input["code"], db);
    forall id | id in db.languages ensures db.languages[id].code != input["code"].s {
      assert db.languages[id].code in Taken(db, LanguageCode, None);
    }
    assert RulePasses(Required, rs[1].1, "name" in input, if "name" in input then input["name"] else Null, db);
    assert RulePasses(IsString, rs[1].1, true, input["name"], db);
    assert RulePasses(Max(255), rs[1].1, true, input["name"], db);
    if "is_active" in input {
      assert RulePasses(IsBoolean, rs[2].1, true, input["is_active"], db);
    }
  }

  lemma {:induction false} AcceptedPasses(input: Input, db: Db)
    requires Accepted(input, db.languages)
    ensures Passes(Rules(), input, db)
  {
    var rs := Rules();
    assert input["code"].s !in Taken(db, LanguageCode, None);
    forall i | 0 <= i < |rs| ensures AttrPasses(rs[i].0, rs[i].1, input, db) {
    }
  }
}
