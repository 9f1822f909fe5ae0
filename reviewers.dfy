/** The reviewers routes: a global reviewer table, plus the prompt that
    `generate_description` sends to the chat model. */
module Reviewers {
  import opened Http
  import opened Entities
  import opened Store
  import Dependencies

  const ReviewerNotFound: string := "Reviewer not found"

  /** `get_reviewer` */
  function GetReviewer(t: Tables, v: int): (r: Result<Row<Reviewer>>)
    ensures r.Ok? <==> v in t.reviewers
    ensures r.Ok? ==> r.value == Row(v, t.reviewers[v])
    ensures r.Err? ==> r.error == NotFound(ReviewerNotFound)
  {
    if v in t.reviewers then Ok(Row(v, t.reviewers[v])) else Err(NotFound(ReviewerNotFound))
  }

  /** `list_reviewers`: every reviewer. */
  function ListReviewers(t: Tables): (r: map<int, Reviewer>)
    ensures forall v :: v in r <==> GetReviewer(t, v).Ok?
    ensures forall v :: v in r ==> GetReviewer(t, v).value == Row(v, r[v])
  {
    t.reviewers
  }

  /** `create_reviewer`: stores the payload name and description. */
  method CreateReviewer(db: Database, name: string, description: string) returns (r: Row<Reviewer>)
    requires db.Valid()
    modifies db
    ensures db.Valid()
    ensures r.id !in old(db.reviewers) && r.record == Reviewer(name, description)
    ensures db.Snapshot() == old(db.Snapshot()).(reviewers := old(db.reviewers)[r.id := r.record])
    ensures GetReviewer(db.Snapshot(), r.id) == Ok(r)
  {
    var id := db.next.reviewer;
    db.reviewers := db.reviewers[id := Reviewer(name, description)];
    db.next := db.next.(reviewer := id + 1);
    r := Row(id, Reviewer(name, description));
  }

  /** `update_reviewer`: both name and description are replaced. */
  method UpdateReviewer(db: Database, v: int, name: string, description: string) returns (r: Result<Row<Reviewer>>)
    requires db.Valid()
    modifies db
    ensures db.Valid()
    ensures r.Ok? <==> v in old(db.reviewers)
    ensures r.Err? ==> r.error == NotFound(ReviewerNotFound) && db.Snapshot() == old(db.Snapshot())
    ensures r.Ok? ==> r.value == Row(v, Reviewer(name, description))
    ensures r.Ok? ==> db.Snapshot() == old(db.Snapshot()).(reviewers := old(db.reviewers)[v := Reviewer(name, description)])
  {
    if v !in db.reviewers {
      return Err(NotFound(ReviewerNotFound));
    }
    db.reviewers := db.reviewers[v := Reviewer(name, description)];
    r := Ok(Row(v, Reviewer(name, description)));
  }

  /** `delete_reviewer` */
  method DeleteReviewer(db: Database, v: int) returns (r: Result<()>)
    requires db.Valid()
    modifies db
    ensures db.Valid()
    ensures r.Ok? <==> v in old(db.reviewers)
    ensures r.Err? ==> r.error == NotFound(ReviewerNotFound) && db.Snapshot() == old(db.Snapshot())
    ensures r.Ok? ==> db.Snapshot() == old(db.Snapshot()).(reviewers := old(db.reviewers) - {v})
  {
    if v !in db.reviewers {
      return Err(NotFound(ReviewerNotFound));
    }
    db.reviewers := db.reviewers - {v};
    r := Ok(());
  }

  // ---- The description prompt ----

  const BasePrompt: string :=
    "Сформируй структурированное описание оценщика по короткому описанию. "
    + "Ответ верни строго в JSON без markdown и без пояснений. "
    + "Структура: {"
    + "\"name\": string, "
    + "\"summary\": string, "
    + "\"what_is_evaluated\": [string], "
    + "\"metrics\": [string], "
    + "\"process_steps\": [string], "
    + "\"required_inputs\": [string], "
    + "\"output_for_user\": string, "
    + "\"risks_and_limits\": [string]"
    + "}."

  const NameLabel: string := " Название оценщика: "
  const DescriptionLabel: string := ". Короткое описание оценщика: "

  /** The f-string of `generate_description`. */
  function Prompt(name: string, description: string): (p: string)
    ensures |p| == |BasePrompt| + |NameLabel| + |name| + |DescriptionLabel| + |description| + 1
    ensures p[..|BasePrompt| + |NameLabel|] == BasePrompt + NameLabel
    ensures p[|BasePrompt| + |NameLabel|..][..|name|] == name
    ensures p[|BasePrompt| + |NameLabel| + |name|..][..|DescriptionLabel|] == DescriptionLabel
    ensures p[|p| - 1 - |description|..] == description + "."
  {
    BasePrompt + NameLabel + name + DescriptionLabel + description + "."
  }

  /** Reads the name and the description back out of a text that starts with
      `head`: the name runs up to the first '.' after it. */
  function ReadFields(head: string, p: string): Option<(string, string)> {
    if |p| < |head| || p[..|head|] != head then None
    else
      var rest := p[|head|..];
      match Dependencies.IndexOf(rest, '.')
      case None => None
      case Some(i) =>
        var tail := rest[i..];
        if |tail| < |DescriptionLabel| + 1 || tail[..|DescriptionLabel|] != DescriptionLabel || tail[|tail| - 1] != '.' then None
        else Some((rest[..i], tail[|DescriptionLabel|..|tail| - 1]))
  }

  /** The inverse of `Prompt` for names without '.'. */
  function ReadPrompt(p: string): Option<(string, string)> {
    ReadFields(BasePrompt + NameLabel, p)
  }

  /** The first '.' of a text that starts with a dot-free name and then a '.'
      is the one right after the name. */
  lemma {:induction false} FirstDotEndsName(name: string, suffix: string)
    requires '.' !in name && |suffix| > 0 && suffix[0] == '.'
    ensures Dependencies.IndexOf(name + suffix, '.') == Some(|name|)
  {
    if name != [] {
      assert (name + suffix)[1..] == name[1..] + suffix;
      FirstDotEndsName(name[1..], suffix);
    }
  }

  lemma ReadFieldsRoundTrip(head: string, name: string, description: string)
    requires '.' !in name
    ensures ReadFields(head, head + name + DescriptionLabel + description + ".") == Some((name, description))
  {
    var p := head + name + DescriptionLabel + description + ".";
    assert p[..|head|] == head;
    var rest := p[|head|..];
    assert rest == name + (DescriptionLabel + description + ".");
    FirstDotEndsName(name, DescriptionLabel + description + ".");
    assert rest[..|name|] == name;
    var tail := rest[|name|..];
    assert tail == DescriptionLabel + description + ".";
    assert tail[..|DescriptionLabel|] == DescriptionLabel;
    assert tail[|DescriptionLabel|..|tail| - 1] == description;
  }

  /** The prompt loses nothing: a name without '.' and any description can be
      read back from it. */
  lemma ReadPromptOfPrompt(name: string, description: string)
    requires '.' !in name
    ensures ReadPrompt(Prompt(name, description)) == Some((name, description))
  {
    ReadFieldsRoundTrip(BasePrompt + NameLabel, name, description);
  }

  /** The response wraps whatever the chat call returned: the decoded JSON
      body of the completion request, kept opaque here. */
  datatype DescriptionResponse<Reply> = DescriptionResponse(gigachatResponse: Reply)

  /** `generate_description`: the chat call is a parameter; its reply is passed
      through unparsed. The request carries the name and the description
      intact. */
  function GenerateDescription<Reply>(name: string, description: string, chat: string -> Reply): (r: DescriptionResponse<Reply>)
    ensures r.gigachatResponse == chat(Prompt(name, description))
    ensures '.' !in name ==> exists p :: ReadPrompt(p) == Some((name, description)) && r.gigachatResponse == chat(p)
  {
    assert '.' !in name ==> ReadPrompt(Prompt(name, description)) == Some((name, description)) by {
      if '.' !in name {
        ReadPromptOfPrompt(name, description);
      }
    }
    DescriptionResponse(chat(Prompt(name, description)))
  }
}
