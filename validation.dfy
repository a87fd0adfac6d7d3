/** The framework's validator, reduced to the rules the form requests of this
    application use. A rule array is data: a sequence of (attribute, rules)
    pairs, checked by `Passes`. */
module Validation {
  import opened Models
  import opened Http

  datatype Table = LanguagesTable | TagsTable

  /** The column a `unique` rule compares against. */
  datatype Column = LanguageCode | TagName

  datatype Rule =
    | Required                                  // `required`
    | Sometimes                                 // `sometimes`
    | Nullable                                  // `nullable`
    | IsString                                  // `string`
    | Max(n: nat)                               // `max:n`
    | IsBoolean                                 // `boolean`
    | IsArray                                   // `array`
    | Exists(table: Table)                      // `exists:<table>,id`
    | Unique(column: Column, ignore: Option<int>) // `unique`, optionally ignoring one row id

  /** `name` addresses a field, `name.*` every element of an array field. */
  datatype Attr = Field(name: string) | Each(name: string)

  type RuleSet = seq<(Attr, seq<Rule>)>

  /** The tables the `exists` and `unique` rules read. */
  datatype Db = Db(languages: map<int, Language>, tags: map<int, Tag>)

  /** `required`: present, not null and not an empty array. */
  predicate Filled(present: bool, v: Val)
  {
    present && match v
      case Null => false
      case Arr(items) => items != []
      case _ => true
  }

  /** The values the `boolean` rule accepts. */
  predicate BooleanValue(v: Val)
  {
    v == Bool(true) || v == Bool(false) || v == Int(0) || v == Int(1) || v == Str("0") || v == Str("1")
  }

  /** `exists:<table>,id`: the value is the id of a row of `ids`. */
  predicate IdIn(v: Val, ids: set<int>)
  {
    v.Int? && v.i in ids
  }

  function Ids(db: Db, table: Table): set<int>
  {
    match table
    case LanguagesTable => db.languages.Keys
    case TagsTable => db.tags.Keys
  }

  /** The values of `column` in every row except the ignored one. */
  function Taken(db: Db, column: Column, ignore: Option<int>): set<string>
  {
    match column
    case LanguageCode => set id | id in db.languages && Some(id) != ignore :: db.languages[id].code
    case TagName => set id | id in db.tags && Some(id) != ignore :: db.tags[id].name
  }

  /** What a non-implicit rule checks of a value it applies to. A size rule
      (`max`) measures a string by its characters and an array by its length;
      every rule array here pairs `max` with `string`. */
  predicate Check(rule: Rule, v: Val, db: Db)
  {
    match rule
    case IsString => v.Str?
    case Max(n) => (v.Str? ==> |v.s| <= n) && (v.Arr? ==> |v.items| <= n)
    case IsBoolean => BooleanValue(v)
    case IsArray => v.Arr?
    case Exists(table) => IdIn(v, Ids(db, table))
    case Unique(column, ignore) => v.Str? ==> v.s !in Taken(db, column, ignore)
    case _ => true
  }

  /** One rule of an attribute's list. `required` is implicit and always
      applies; `sometimes` and `nullable` check nothing themselves; every other
      rule applies only to a present value, and not to null when the list has
      `nullable`. */
  predicate RulePasses(rule: Rule, rules: seq<Rule>, present: bool, v: Val, db: Db)
  {
    if rule == Required then Filled(present, v)
    else if rule == Sometimes || rule == Nullable then true
    else !present || (Nullable in rules && v == Null) || Check(rule, v, db)
  }

  predicate AllPass(rules: seq<Rule>, present: bool, v: Val, db: Db)
  {
    forall r :: r in rules ==> RulePasses(r, rules, present, v, db)
  }

  predicate AttrPasses(attr: Attr, rules: seq<Rule>, input: Input, db: Db)
  {
    match attr
    case Field(n) =>
      AllPass(rules, n in input, if n in input then input[n] else Null, db)
    case Each(n) =>
      n in input && input[n].Arr? ==>
        forall k :: 0 <= k < |input[n].items| ==> AllPass(rules, true, input[n].items[k], db)
  }

  /** The request passes when every attribute passes every one of its rules. */
  predicate Passes(ruleSet: RuleSet, input: Input, db: Db)
  {
    forall i :: 0 <= i < |ruleSet| ==> AttrPasses(ruleSet[i].0, ruleSet[i].1, input, db)
  }
}
