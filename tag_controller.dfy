/** The tags resource: the rule array its `store` and `update` actions
    validate inline, the read actions (`index`, `show`) as functions of the
    tables, and the rows its writes compute. The writes themselves are
    methods of `Store.TranslationStore`. */
module TagController {
  import opened Models
  import opened Http
  import opened Validation
  import opened Queries

  /** The inline rules of `store` (ignore = None) and of `update` of tag `self`
      (ignore = Some(self)): a required name of at most 255 characters that no
      other tag has, and a description that is null or a string. */
  function Rules(ignore: Option<int>): RuleSet
  {
    [ (Field("name"), [Required, IsString, Max(255), Unique(TagName, ignore)]),
      (Field("description"), [Nullable, IsString]) ]
  }

  /** The same requirements stated field by field. */
  predicate Accepted(input: Input, tags: map<int, Tag>, ignore: Option<int>)
  {
    && "name" in input && input["name"].Str? && |input["name"].s| <= 255
    && (forall id :: id in tags && Some(id) != ignore ==> tags[id].name != input["name"].s)
    && ("description" in input ==> input["description"].Str? || input["description"].Null?)
  }

  lemma {:induction false} RulesMeanAccepted(input: Input, db: Db, ignore: Option<int>)
    ensures Passes(Rules(ignore), input, db) <==> Accepted(input, db.tags, ignore)
  {
    var rs := Rules(ignore);
    if Passes(rs, input, db) {
      assert AttrPasses(rs[0].0, rs[0].1, input, db);
      assert AttrPasses(rs[1].0, rs[1].1, input, db);
      assert RulePasses(Required, rs[0].1, "name" in input, if "name" in input then input["name"] else Null, db);
      assert RulePasses(IsString, rs[0].1, true, input["name"], db);
      assert RulePasses(Max(255), rs[0].1, true, input["name"], db);
      assert RulePasses(Unique(TagName, ignore), rs[0].1, true, input["name"], db);
      forall id | id in db.tags && Some(id) != ignore ensures db.tags[id].name != input["name"].s {
        assert db.tags[id].name in Taken(db, TagName, ignore);
      }
      if "description" in input {
        assert RulePasses(IsString, rs[1].1, true, input["description"], db);
      }
    }
    if Accepted(input, db.tags, ignore) {
      assert input["name"].s !in Taken(db, TagName, ignore);
      forall i | 0 <= i < |rs| ensures AttrPasses(rs[i].0, rs[i].1, input, db) {
      }
    }
  }

  /** `index`: every tag with its id. */
  function Index(tags: map<int, Tag>): (r: seq<(int, Tag)>)
    ensures |r| == |tags| && ListsRows(r, tags)
  {
    Rows(tags)
  }

  /** `show`: the tag together with the translations it is attached to, in id
      order; an unknown id is 404. */
  function Show(tags: map<int, Tag>, translations: map<int, Translation>, tagsOf: map<int, set<int>>, id: int)
    : (r: Outcome<(Tag, seq<int>)>)
    ensures r.Ok? <==> id in tags
    ensures r.Fail? ==> r.error == NotFound
    ensures r.Ok? ==> r.value.0 == tags[id] && Increasing(r.value.1)
    ensures r.Ok? ==> forall t :: t in r.value.1 <==> t in translations && id in AttachedTo(tagsOf, t)
  {
    if id !in tags then Fail(NotFound)
    else Ok((tags[id], Where(Ascending(translations.Keys), t => t in translations && id in AttachedTo(tagsOf, t))))
  }

  /** The row `store` inserts: the validated fields; a description that is
      not sent is null. */
  function Created(input: Input): (t: Tag)
    requires "name" in input && input["name"].Str?
    ensures t.name == input["name"].s
    ensures Gives(input, "description") && input["description"].Str? ==> t.description.Some? && t.description.value == input["description"].s
    ensures !Gives(input, "description") ==> t.description == None
  {
    Tag(input["name"].s, if "description" in input && input["description"].Str? then Some(input["description"].s) else None)
  }

  /** The row after `update`: the name always replaced; the description
      replaced when the request has the field, set to null when it is sent as
      null, and kept when it is not sent. */
  function Updated(t: Tag, input: Input): (u: Tag)
    requires "name" in input && input["name"].Str?
    requires "description" in input ==> input["description"].Str? || input["description"].Null?
    ensures u.name == input["name"].s
    ensures "description" !in input ==> u.description == t.description
    ensures "description" in input && input["description"].Null? ==> u.description == None
    ensures "description" in input && input["description"].Str? ==> u.description.Some? && u.description.value == input["description"].s
  {
    var description :=
      if "description" !in input then t.description
      else match input["description"] case Str(s) => Some(s) case _ => None;
    Tag(input["name"].s, description)
  }

  /** The pivot after `destroy` of tag `id`: the tag is detached from every
      translation; no translation is removed. */
  function Detach(tagsOf: map<int, set<int>>, id: int): (after: map<int, set<int>>)
    ensures after.Keys == tagsOf.Keys
    ensures forall t :: t in after ==> after[t] == tagsOf[t] - {id}
  {
    map t | t in tagsOf :: tagsOf[t] - {id}
  }

  /** A `store` or `update` that passes validation keeps tag names distinct. */
  lemma WriteKeepsNamesDistinct(tags: map<int, Tag>, id: int, t: Tag, input: Input)
    requires NamesDistinct(tags)
    requires Accepted(input, tags, if id in tags then Some(id) else None)
    requires t.name == input["name"].s
    ensures NamesDistinct(tags[id := t])
  {
    var after := tags[id := t];
    forall a, b | a in after && b in after && a != b ensures after[a].name != after[b].name {
      if a == id {
        assert after[b] == tags[b];
      } else if b == id {
        assert after[a] == tags[a];
      }
    }
  }

  /** `destroy` leaves every pivot row pointing at a remaining tag. */
  lemma DestroyKeepsTagsExist(tags: map<int, Tag>, tagsOf: map<int, set<int>>, id: int)
    requires TagsExist(tagsOf, tags)
    ensures TagsExist(Detach(tagsOf, id), tags - {id})
  {
  }
}
