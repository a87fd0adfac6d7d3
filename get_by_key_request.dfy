/** The rule array that guards `TranslationController.getByKey`. */
module GetByKeyRequest {
  import opened Models
  import opened Http
  import opened Validation

  /** `rules()`: `key` is a required string; nothing else is checked. */
  function Rules(): RuleSet
  {
    [ (Field("key"), [Required, IsString]) ]
  }

  predicate Accepted(input: Input)
  {
    "key" in input && input["key"].Str?
  }

  lemma {:induction false} RulesMeanAccepted(input: Input, db: Db)
    ensures Passes(Rules(), input, db) <==> Accepted(input)
  {
    var rs := Rules();
    if Passes(rs, input, db) {
      assert AttrPasses(rs[0].0, rs[0].1, input, db);
      assert RulePasses(Required, rs[0].1, "key" in input, if "key" in input then input["key"] else Null, db);
      assert RulePasses(IsString, rs[0].1, true, input["key"], db);
    }
    if Accepted(input) {
      assert AttrPasses(rs[0].0, rs[0].1, input, db);
    }
  }

  /** The verdict depends on `key` alone: any other field, such as a group,
      may be added, changed or removed without changing it. */
  lemma {:induction false} OnlyKeyIsValidated(input: Input, db: Db, name: string, v: Val)
    requires name != "key"
    ensures Passes(Rules(), input[name := v], db) <==> Passes(Rules(), input, db)
    ensures Passes(Rules(), input - {name}, db) <==> Passes(Rules(), input, db)
  {
    RulesMeanAccepted(input, db);
    RulesMeanAccepted(input[name := v], db);
    RulesMeanAccepted(input - {name}, db);
  }
}
