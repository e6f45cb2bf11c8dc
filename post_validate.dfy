/** The rule sets of `postValidates`: `list` (sanitizers for `perpage` and `page`), `read`,
    `update` and `delete` (a positive integer `post_id`), and `create` (non-empty `title`
    and `content`). */
module PostValidate {
  import opened Wrappers
  import opened Decimal
  import opened Validator

  /** The `{title, content}` request body of create and update. */
  datatype PostBody = PostBody(title: Option<string>, content: Option<string>)

  /** The `?perpage=&page=` query of the list route. */
  datatype ListQuery = ListQuery(perpage: Option<string>, page: Option<string>)

  /** The query values after sanitizing. */
  datatype Paging = Paging(perpage: int, page: int)

  const DefaultPerpage: int := 10
  const DefaultPage: int := 1

  /** `list`: each value goes through `toInt()` then `default(...)`. The `isInt({min: 1})`
      checks only record errors, and the list handler never reads them, so they are not
      part of the outcome. */
  function ListRules(q: ListQuery): (r: Paging)
    ensures ToInt(q.perpage).None? ==> r.perpage == DefaultPerpage
    ensures ToInt(q.page).None? ==> r.page == DefaultPage
    ensures ToInt(q.perpage).Some? ==> r.perpage == ToInt(q.perpage).value
    ensures ToInt(q.page).Some? ==> r.page == ToInt(q.page).value
  {
    Paging(Default(ToInt(q.perpage), DefaultPerpage), Default(ToInt(q.page), DefaultPage))
  }

  /** Missing values, and values with no digit where `parseInt` looks, take the defaults. */
  lemma ListDefaults(q: ListQuery)
    requires q.perpage.None? || forall k :: 0 <= k < |q.perpage.value| ==> !IsDigit(q.perpage.value[k])
    requires q.page.None? || forall k :: 0 <= k < |q.page.value| ==> !IsDigit(q.page.value[k])
    ensures ListRules(q) == Paging(10, 1)
  {
    ParseIntNoDigits(AsText(q.perpage));
    ParseIntNoDigits(AsText(q.page));
  }

  /** Numbers are passed through as given, zero included: the `min: 1` rule never applies. */
  lemma ListNumbers(perpage: nat, page: nat)
    ensures ListRules(ListQuery(Some(NatToDec(perpage)), Some(NatToDec(page)))) == Paging(perpage, page)
  {
    ParseIntOfNotation(perpage, []);
    ParseIntOfNotation(page, []);
    assert NatToDec(perpage) + [] == NatToDec(perpage);
    assert NatToDec(page) + [] == NatToDec(page);
  }

  /** The `post_id` rules shared by `read`, `update` and `delete`: `notEmpty()` then
      `isInt({min: 1})`, each with its own message. */
  function PostIdRules(postId: string): (errors: seq<FieldError>)
    ensures errors == [] <==> exists n: nat :: n >= 1 && IntValue(postId) == Some(n)
    ensures FieldError(PostId, PostIdRequired) in errors <==> postId == ""
  {
    (if postId != "" then [] else [FieldError(PostId, PostIdRequired)])
    + (if IsInt(postId, 1) then [] else [FieldError(PostId, PostIdInvalid)])
  }

  /** The id that a request which passed the `post_id` rules looks up. */
  function PostIdValue(postId: string): (id: nat)
    requires PostIdRules(postId) == []
    ensures id >= 1 && IntValue(postId) == Some(id)
  {
    IntValue(postId).value
  }

  /** Every positive id, written out, passes, and is the id looked up. */
  lemma PositiveIdAccepted(n: nat)
    requires n >= 1
    ensures PostIdRules(NatToDec(n)) == [] && PostIdValue(NatToDec(n)) == n
  {
    IntValueOfNotation(n);
  }

  /** `update` has only the `post_id` rules: the body is never checked. */
  function UpdateRules(postId: string, body: PostBody): (errors: seq<FieldError>)
    ensures errors == [] <==> exists n: nat :: n >= 1 && IntValue(postId) == Some(n)
    ensures forall e :: e in errors ==> e.field == PostId
  {
    PostIdRules(postId)
  }

  /** Update's outcome does not depend on the body: a missing or empty title or content is
      never an error. */
  lemma UpdateIgnoresBody(postId: string, body: PostBody, other: PostBody)
    ensures UpdateRules(postId, body) == UpdateRules(postId, other)
  {
  }

  /** `create`: `title` and `content` must both be non-empty. */
  function CreateRules(body: PostBody): (errors: seq<FieldError>)
    ensures errors == [] <==> AsText(body.title) != "" && AsText(body.content) != ""
    ensures FieldError(Title, TitleRequired) in errors <==> !NotEmpty(body.title)
    ensures FieldError(Content, ContentRequired) in errors <==> !NotEmpty(body.content)
  {
    (if NotEmpty(body.title) then [] else [FieldError(Title, TitleRequired)])
    + (if NotEmpty(body.content) then [] else [FieldError(Content, ContentRequired)])
  }
}
