/**
 * The leaderboard API route of app/api/leaderboard/route.ts. GET walks the Redis reply
 * like the server action but requires all six stored properties, numbers its entries
 * densely from the length of the list built so far, and answers 500 when the `in` test
 * throws on a primitive member. POST guards the request body and builds the stored
 * entry. The Redis calls become inputs; `crypto.randomUUID()` and `Date.now()` become
 * parameters.
 */
module LeaderboardRoute {
  import opened Wrappers
  import opened LeaderboardTypes
  import LeaderboardAction

  /** The properties GET requires of a stored entry. */
  predicate HasRequiredKeys(fields: map<string, Json>) {
    "id" in fields && "name" in fields && "score" in fields &&
    "level" in fields && "lines" in fields && "timestamp" in fields
  }

  // The HTTP statuses the route answers with besides 200.
  const BadRequest: int := 400
  const ServerError: int := 500

  /** A primitive value: the `in` operator throws a TypeError on it. */
  predicate IsPrimitive(v: Json) {
    !(v.JArr? || v.JObj?)
  }

  /** The loop's first test: a number or a falsy value is skipped with `continue`. */
  predicate Skipped(v: Json) {
    v.JNum? || Falsy(v)
  }

  /** An item that reaches the `in` test and makes it throw: a non-empty string or `true`. */
  predicate Throws(v: Json) {
    !Skipped(v) && IsPrimitive(v)
  }

  /** An item the loop pushes: an object with every required property. Arrays fail the test. */
  predicate RouteAccepts(v: Json) {
    v.JObj? && HasRequiredKeys(v.fields)
  }

  /** `xs` placed in front of a successful result; a failure stays as it is. */
  function Prepend(xs: seq<Ranked>, r: Result<seq<Ranked>, int>): Result<seq<Ranked>, int> {
    match r
    case Success(rest) => Success(xs + rest)
    case Failure(e) => Failure(e)
  }

  /**
   * The GET loop from the member at index 2m on (the loop's `i` is 2m), with `base`
   * entries already in the list. Each accepted member is pushed with rank one more than
   * the list's length, so the ranks run base + 1, base + 2, ...; every entry has the six
   * properties, and a member that throws turns the whole answer into status 500.
   */
  function RouteFrom(items: seq<Json>, m: nat, base: nat): (r: Result<seq<Ranked>, int>)
    ensures r.Failure? ==> r.error == ServerError
    ensures r.Success? ==> forall k :: 0 <= k < |r.value| ==>
              r.value[k].rank == base + k + 1 && HasRequiredKeys(r.value[k].fields)
    decreases |items| - 2 * m
  {
    if 2 * m >= |items| then Success([])
    else
      var item := items[2 * m];
      if Skipped(item) then RouteFrom(items, m + 1, base)
      else if Throws(item) then Failure(ServerError)
      else if RouteAccepts(item) then Prepend([Ranked(item.fields, base + 1)], RouteFrom(items, m + 1, base + 1))
      else RouteFrom(items, m + 1, base)
  }

  /** What GET answers for a reply: an empty list for a missing or empty reply. */
  function RouteGet(reply: Option<seq<Json>>): Result<seq<Ranked>, int> {
    if reply.None? || |reply.value| == 0 then Success([]) else RouteFrom(reply.value, 0, 0)
  }

  /** GET's loop: every second item, each accepted member pushed with rank `leaderboard.length + 1`. */
  method Get(reply: Option<seq<Json>>) returns (response: Result<seq<Ranked>, int>)
    ensures response == RouteGet(reply)
  {
    if reply.None? || |reply.value| == 0 {
      return Success([]);
    }
    var entries := reply.value;
    var leaderboard: seq<Ranked> := [];
    var i := 0;
    ghost var m: nat := 0;
    assert Prepend([], RouteFrom(entries, 0, 0)) == RouteFrom(entries, 0, 0) by {
      if RouteFrom(entries, 0, 0).Success? {
        assert [] + RouteFrom(entries, 0, 0).value == RouteFrom(entries, 0, 0).value;
      }
    }
    while i < |entries|
      invariant i == 2 * m && i <= |entries| + 1
      invariant Prepend(leaderboard, RouteFrom(entries, m, |leaderboard|)) == RouteFrom(entries, 0, 0)
      decreases |entries| - i
    {
      var entry := entries[i];
      if entry.JNum? || Falsy(entry) {
        i, m := i + 2, m + 1;
        continue;
      }
      if IsPrimitive(entry) {
        assert RouteFrom(entries, m, |leaderboard|) == Failure(ServerError);
        return Failure(ServerError);
      }
      if entry.JObj? && HasRequiredKeys(entry.fields) {
        ghost var rest := RouteFrom(entries, m + 1, |leaderboard| + 1);
        var ranked := Ranked(entry.fields, |leaderboard| + 1);
        assert rest.Success? ==> (leaderboard + [ranked]) + rest.value == leaderboard + ([ranked] + rest.value);
        leaderboard := leaderboard + [ranked];
      }
      i, m := i + 2, m + 1;
    }
    assert leaderboard + [] == leaderboard;
    response := Success(leaderboard);
  }

  /** GET succeeds exactly when no member from index 2m on makes the `in` test throw. */
  lemma {:induction false} RouteSucceedsIff(items: seq<Json>, m: nat, base: nat)
    ensures RouteFrom(items, m, base).Success? <==>
              forall n :: m <= n && 2 * n < |items| ==> !Throws(items[2 * n])
    decreases |items| - 2 * m
  {
    if 2 * m < |items| {
      RouteSucceedsIff(items, m + 1, base);
      RouteSucceedsIff(items, m + 1, base + 1);
    }
  }

  /** The fields of the members with all six properties, in order. */
  function KeptFields(members: seq<Json>): (fields: seq<map<string, Json>>)
    ensures |fields| <= |members|
  {
    if members == [] then []
    else (if RouteAccepts(members[0]) then [members[0].fields] else []) + KeptFields(members[1..])
  }

  /**
   * A successful GET keeps exactly the members with all six properties, in reply order:
   * numbers, falsy values, arrays and incomplete objects are left out.
   */
  lemma {:induction false} RouteKeepsExactlyComplete(items: seq<Json>, m: nat, base: nat)
    requires RouteFrom(items, m, base).Success?
    ensures FieldsOf(RouteFrom(items, m, base).value) == KeptFields(MembersFrom(items, m))
    decreases |items| - 2 * m
  {
    if 2 * m < |items| {
      KeptFieldsStep(items, m);
      if RouteAccepts(items[2 * m]) {
        RouteKeepsExactlyComplete(items, m + 1, base + 1);
        AcceptedStep(items, m, base);
      } else {
        PassedOverStep(items, m, base);
        RouteKeepsExactlyComplete(items, m + 1, base);
      }
    }
  }

  /** One member of `KeptFields` over the members from index 2m on. */
  lemma KeptFieldsStep(items: seq<Json>, m: nat)
    requires 2 * m < |items|
    ensures KeptFields(MembersFrom(items, m)) ==
              (if RouteAccepts(items[2 * m]) then [items[2 * m].fields] else []) + KeptFields(MembersFrom(items, m + 1))
  {
    var members := MembersFrom(items, m);
    var tail := MembersFrom(items, m + 1);
    assert members == [items[2 * m]] + tail;
    assert members[1..] == tail;
  }

  /** A member that is not accepted and does not throw leaves the answer as it is. */
  lemma PassedOverStep(items: seq<Json>, m: nat, base: nat)
    requires 2 * m < |items| && !RouteAccepts(items[2 * m]) && RouteFrom(items, m, base).Success?
    ensures RouteFrom(items, m, base) == RouteFrom(items, m + 1, base)
  {
  }

  /** An accepted member puts its fields in front of the rest of a successful answer. */
  lemma AcceptedStep(items: seq<Json>, m: nat, base: nat)
    requires 2 * m < |items| && RouteAccepts(items[2 * m]) && RouteFrom(items, m, base).Success?
    ensures FieldsOf(RouteFrom(items, m, base).value) ==
              [items[2 * m].fields] + FieldsOf(RouteFrom(items, m + 1, base + 1).value)
  {
    var rest := RouteFrom(items, m + 1, base + 1).value;
    var head := Ranked(items[2 * m].fields, base + 1);
    assert RouteFrom(items, m, base).value == [head] + rest;
    assert ([head] + rest)[1..] == rest;
  }

  /**
   * When every member carries the six properties, GET and the server action return the
   * same entries: each member is kept by both, and the dense rank equals i/2 + 1.
   */
  lemma {:induction false} RouteAgreesWithAction(items: seq<Json>, parse: Parser, m: nat)
    requires forall n :: m <= n && 2 * n < |items| ==> RouteAccepts(items[2 * n])
    ensures RouteFrom(items, m, m) == Success(LeaderboardAction.ActionEntriesFrom(items, parse, m))
    decreases |items| - 2 * m
  {
    if 2 * m < |items| {
      var item := items[2 * m];
      assert RouteAccepts(item);
      assert "id" in item.fields;
      assert LeaderboardAction.ActionAccepts(item, parse);
      RouteAgreesWithAction(items, parse, m + 1);
    }
  }

  /** Dense ranks differ from the action's: a skipped first member shifts every later rank down. */
  lemma RouteRanksAreDense(entry: map<string, Json>)
    requires HasRequiredKeys(entry)
    ensures RouteFrom([JNull, JNum(0), JObj(entry), JNum(10)], 0, 0) == Success([Ranked(entry, 1)])
  {
    var items := [JNull, JNum(0), JObj(entry), JNum(10)];
    assert RouteFrom(items, 2, 1) == Success([]);
    assert RouteAccepts(items[2]);
    assert RouteFrom(items, 1, 0) == Prepend([Ranked(entry, 1)], Success([]));
    assert [Ranked(entry, 1)] + [] == [Ranked(entry, 1)];
    assert Skipped(items[0]);
  }

  // ---------------------------------------------------------------------------
  // POST

  /** A property of the request body, or `None` where destructuring yields `undefined`. */
  function Field(body: Json, key: string): Option<Json> {
    if body.JObj? && key in body.fields then Some(body.fields[key]) else None
  }

  /** A property that is present and not falsy. */
  predicate Truthy(v: Option<Json>) {
    v.Some? && !Falsy(v.value)
  }

  /** `JSON.stringify` drops an `undefined` property: a present value is written under its key. */
  function WithOptional(fields: map<string, Json>, key: string, v: Option<Json>): map<string, Json> {
    if v.Some? then fields[key := v.value] else fields
  }

  /**
   * POST for a body (`None` when `request.json()` throws), a fresh id and the current
   * time: the stored and returned entry, or an error status. An unreadable body and a
   * `null` body (whose destructuring throws) answer 500; a falsy or missing name or a
   * score that is not a number answers 400; otherwise the entry holds the id, the name,
   * the score and the timestamp, and `level` and `lines` exactly when the body had them.
   */
  function Post(body: Option<Json>, id: string, now: int): (r: Result<map<string, Json>, int>)
    ensures r == Failure(ServerError) <==> body.None? || body.value.JNull?
    ensures r == Failure(BadRequest) <==>
              body.Some? && !body.value.JNull? &&
              (!Truthy(Field(body.value, "name")) || !(Field(body.value, "score").Some? && Field(body.value, "score").value.JNum?))
    ensures r.Success? ==>
              && {"id", "name", "score", "timestamp"} <= r.value.Keys
              && r.value["id"] == JStr(id) && r.value["timestamp"] == JNum(now)
              && Some(r.value["name"]) == Field(body.value, "name")
              && Some(r.value["score"]) == Field(body.value, "score")
              && ("level" in r.value <==> Field(body.value, "level").Some?)
              && ("lines" in r.value <==> Field(body.value, "lines").Some?)
              && r.value.Keys <= {"id", "name", "score", "level", "lines", "timestamp"}
  {
    if body.None? || body.value.JNull? then Failure(ServerError)
    else
      var name := Field(body.value, "name");
      var score := Field(body.value, "score");
      if !Truthy(name) || !(score.Some? && score.value.JNum?) then Failure(BadRequest)
      else
        var required := map["id" := JStr(id), "name" := name.value, "score" := score.value, "timestamp" := JNum(now)];
        Success(WithOptional(WithOptional(required, "level", Field(body.value, "level")), "lines", Field(body.value, "lines")))
  }

  /**
   * An accepted POST stores an entry that a later GET shows exactly when the body had
   * both `level` and `lines`: without either, the route's own reader leaves it out.
   */
  lemma PostThenGetKeepsIffComplete(body: Option<Json>, id: string, now: int)
    requires Post(body, id, now).Success?
    ensures RouteAccepts(JObj(Post(body, id, now).value)) <==>
              Field(body.value, "level").Some? && Field(body.value, "lines").Some?
  {
    var stored := Post(body, id, now).value;
    assert "id" in stored && "name" in stored && "score" in stored && "timestamp" in stored;
  }

  /** The server action's reader, by contrast, always keeps an entry that POST stored. */
  lemma PostThenActionKeeps(body: Option<Json>, id: string, now: int, parse: Parser)
    requires Post(body, id, now).Success?
    ensures LeaderboardAction.ActionAccepts(JObj(Post(body, id, now).value), parse)
  {
    var stored := Post(body, id, now).value;
    assert "id" in stored && "name" in stored && "score" in stored;
    assert JObj(stored) != JObj(map[]) || !JObj(stored).JObj?;
  }
}
