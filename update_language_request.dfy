/** The rule array that guards `LanguageController.update`. */
module UpdateLanguageRequest {
  import opened Models
  import opened Http
  import opened Validation

  /** `rules()` with `unique` ignoring the row `ignore`: every field is
      optional; a code that is sent is a string of at most 10 characters used
      by no language but the ignored one; a name at most 255 characters;
      `is_active` a boolean. The update of a language is meant to ignore
      that language's own row. */
  function Rules(ignore: Option<int>): RuleSet
  {
    [ (Field("code"), [Sometimes, IsString, Max(10), Unique(LanguageCode, ignore)]),
      (Field("name"), [Sometimes, IsString, Max(255)]),
      (Field("is_active"), [Sometimes, IsBoolean]) ]
  }

  /** The same requirements stated field by field. */
  predicate Accepted(input: Input, languages: map<int, Language>, ignore: Option<int>)
  {
    && ("code" in input ==>
          && input["code"].Str? && |input["code"].s| <= 10
          && forall id :: id in languages && Some(id) != ignore ==> languages[id].code != input["code"].s)
    && ("name" in input ==> input["name"].Str? && |input["name"].s| <= 255)
    && ("is_active" in input ==> BooleanValue(input["is_active"]))
  }

  lemma {:induction false} RulesMeanAccepted(input: Input, db: Db, ignore: Option<int>)
    ensures Passes(Rules(ignore), input, db) <==> Accepted(input, db.languages, ignore)
  {
    if Passes(Rules(ignore), input, db) {
      PassingIsAccepted(input, db, ignore);
    }
    if Accepted(input, db.languages, ignore) {
      AcceptedPasses(input, db, ignore);
    }
  }

  lemma {:induction false} PassingIsAccepted(input: Input, db: Db, ignore: Option<int>)
    requires Passes(Rules(ignore), input, db)
    ensures Accepted(input, db.languages, ignore)
  {
    var rs := Rules(ignore);
    assert AttrPasses(rs[0].0, rs[0].1, input, db);
    assert AttrPasses(rs[1].0, rs[1].1, input, db);
    assert AttrPasses(rs[2].0, rs[2].1, input, db);
    if "code" in input {
      assert RulePasses(IsString, rs[0].1, true, input["code"], db);
      assert RulePasses(Max(10), rs[0].1, true, input["code"], db);
      assert RulePasses(Unique(LanguageCode, ignore), rs[0].1, true, input["code"], db);
      forall id | id in db.languages && Some(id) != ignore ensures db.languages[id].code != input["code"].s {
        assert db.languages[id].code in Taken(db, LanguageCode, ignore);
      }
    }
    if "name" in input {
      assert RulePasses(IsString, rs[1].1, true, input["name"], db);
      assert RulePasses(Max(255), rs[1].1, true, input["name"], db);
    }
    if "is_active" in input {
      assert RulePasses(IsBoolean, rs[2].1, true, input["is_active"], db);
    }
  }

  lemma {:induction false} AcceptedPasses(input: Input, db: Db, ignore: Option<int>)
    requires Accepted(input, db.languages, ignore)
    ensures Passes(Rules(ignore), input, db)
  {
    var rs := Rules(ignore);
    if "code" in input {
      assert input["code"].s !in Taken(db, LanguageCode, ignore);
    }
    forall i | 0 <= i < |rs| ensures AttrPasses(rs[i].0, rs[i].1, input, db) {
    }
  }

  /** The row `ignore($this->language)` names as the source writes it: on a
      form request `$this->language` reads an input field called `language`
      first and falls back to the route's bound language (`self`) only when
      there is no such field. A non-zero integer names that row and `true`
      the row with id 1; null, `0` and `false` name no row, so nothing is
      ignored, and a string or an array is taken to name no row either. */
  function IgnoredAsWritten(input: Input, self: int): (ignore: Option<int>)
    ensures "language" !in input ==> ignore == Some(self)
    ensures "language" in input && ignore.Some? ==> input["language"] == Int(ignore.value) || input["language"] == Bool(true)
    ensures "language" in input && input["language"].Int? && input["language"].i != 0 ==> ignore == Some(input["language"].i)
    ensures "language" in input && input["language"] == Bool(true) ==> ignore == Some(1)
    ensures "language" in input && (input["language"] == Null || input["language"] == Int(0) || input["language"] == Bool(false)) ==> ignore == None
  {
    if "language" !in input then Some(self)
    else match input["language"]
      case Int(i) => if i != 0 then Some(i) else None
      case Bool(b) => if b then Some(1) else None
      case _ => None
  }
}
