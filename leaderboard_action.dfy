/**
 * The score-submission server action of actions/leaderboard.ts: the plausibility check
 * a submission must pass before it is stored, and the loop that turns the Redis reply
 * into ranked entries. The Redis calls become an input (`reply`) and `JSON.parse` a
 * parser parameter.
 */
module LeaderboardAction {
  import opened Wrappers
  import opened LeaderboardTypes
  import opened GameTypes
  import GameEngine

  datatype ClientData = ClientData(gameTime: int, moves: int, lineClears: seq<int>, powerUpsUsed: seq<string>)

  /** A submission; `gameTime` is in seconds. */
  datatype ScoreSubmission = ScoreSubmission(name: string, score: int, level: int, lines: int, clientData: ClientData)

  // The plausibility limits.
  const MaxScorePerLine: int := 1000
  const MinTimePerLine: int := 2
  const MinMovesPerLine: int := 4
  const LinesPerLevel: int := 10

  function Max(a: int, b: int): int {
    if a >= b then a else b
  }

  /** What the submission schema demands of the numbers, and a name of 1 to 30 characters. */
  predicate SchemaAccepts(s: ScoreSubmission) {
    && 1 <= |s.name| <= 30
    && s.score > 0 && s.level > 0 && s.lines >= 0
    && s.clientData.gameTime > 0 && s.clientData.moves > 0
  }

  /** Over the reals, an average above `limit` is a total above `limit` times the divisor. */
  lemma AverageAbove(total: int, divisor: int, limit: int)
    requires divisor >= 1
    ensures (total as real) / (divisor as real) > limit as real <==> total > limit * divisor
  {
    var q := (total as real) / (divisor as real);
    assert q * (divisor as real) == total as real;
    if total > limit * divisor {
      assert q * (divisor as real) > (limit as real) * (divisor as real);
    } else {
      assert q * (divisor as real) <= (limit as real) * (divisor as real);
    }
  }

  /**
   * `verifyScore`: the guards in the source's order, the average score per line taken
   * over the reals. It accepts exactly when no guard fires: positive time and moves,
   * at least 10 lines per level above 1, at most 1000 points per line (counting at
   * least one line), and at least 2 seconds and 4 moves per line.
   */
  function VerifyScore(s: ScoreSubmission): (ok: bool)
    ensures ok <==>
      && s.clientData.gameTime > 0 && s.clientData.moves > 0
      && s.lines >= (s.level - 1) * LinesPerLevel
      && s.score <= MaxScorePerLine * Max(s.lines, 1)
      && s.clientData.gameTime >= s.lines * MinTimePerLine
      && s.clientData.moves >= s.lines * MinMovesPerLine
  {
    AverageAbove(s.score, Max(s.lines, 1), MaxScorePerLine);
    if s.clientData.gameTime <= 0 || s.clientData.moves <= 0 then false
    else if s.lines < (s.level - 1) * LinesPerLevel then false
    else if (s.score as real) / (Max(s.lines, 1) as real) > MaxScorePerLine as real then false
    else if s.clientData.gameTime < s.lines * MinTimePerLine then false
    else if s.clientData.moves < s.lines * MinMovesPerLine then false
    else true
  }

  /** Taking longer, making more moves or scoring less never turns an accepted submission down. */
  lemma VerifyScoreMonotone(s: ScoreSubmission, gameTime: int, moves: int, score: int)
    requires VerifyScore(s)
    requires gameTime >= s.clientData.gameTime && moves >= s.clientData.moves && score <= s.score
    ensures VerifyScore(s.(score := score, clientData := s.clientData.(gameTime := gameTime, moves := moves)))
  {
  }

  /** After the schema, the first guard never fires: the check is the other four. */
  lemma SchemaMakesFirstGuardRedundant(s: ScoreSubmission)
    requires SchemaAccepts(s)
    ensures VerifyScore(s) <==>
      && s.lines >= (s.level - 1) * LinesPerLevel
      && s.score <= MaxScorePerLine * Max(s.lines, 1)
      && s.clientData.gameTime >= s.lines * MinTimePerLine
      && s.clientData.moves >= s.lines * MinMovesPerLine
  {
  }

  /**
   * The level the game derives from its lines always passes the lines-per-level guard:
   * a consistent game state's level and lines never fail it.
   */
  lemma ConsistentStatePassesLevelGuard(state: GameState)
    requires GameEngine.Consistent(state)
    ensures state.lines >= (state.level - 1) * LinesPerLevel
  {
    assert state.level - 1 == state.lines / 10;
  }

  // ---------------------------------------------------------------------------
  // Reading the leaderboard

  /** The properties `getLeaderboard` requires of a stored entry: an id, a name and a score. */
  predicate HasEntryKeys(fields: map<string, Json>) {
    "id" in fields && "name" in fields && "score" in fields
  }

  /** The entry an item stands for: a string is parsed, anything else is taken as it is. */
  function Parsed(item: Json, parse: Parser): Option<Json> {
    if item.JStr? then parse(item.s) else Some(item)
  }

  /**
   * The loop keeps a member that is not a number, not falsy, parses without throwing and
   * is an object with an id, a name and a score. (A parsed value that is not an object
   * makes the `in` test throw or fail; either way the item is skipped.)
   */
  predicate ActionAccepts(item: Json, parse: Parser) {
    !item.JNum? && !Falsy(item) && Parsed(item, parse).Some? &&
    Parsed(item, parse).value.JObj? && HasEntryKeys(Parsed(item, parse).value.fields)
  }

  /**
   * The entries the loop collects from the member at index 2m on (the loop's `i` is 2m):
   * every accepted member, ranked by its position among the members (i/2 + 1), in reply
   * order. Ranks lie above m, within the number of members, and strictly increase.
   */
  function ActionEntriesFrom(items: seq<Json>, parse: Parser, m: nat): (entries: seq<Ranked>)
    decreases |items| - 2 * m
  {
    if 2 * m >= |items| then []
    else
      var rest := ActionEntriesFrom(items, parse, m + 1);
      if ActionAccepts(items[2 * m], parse) then
        [Ranked(Parsed(items[2 * m], parse).value.fields, m + 1)] + rest
      else rest
  }

  /** The first member's contribution in front of the entries after it. */
  lemma ActionUnfold(items: seq<Json>, parse: Parser, m: nat)
    requires 2 * m < |items|
    ensures ActionEntriesFrom(items, parse, m) ==
              (if ActionAccepts(items[2 * m], parse)
               then [Ranked(Parsed(items[2 * m], parse).value.fields, m + 1)] else []) +
              ActionEntriesFrom(items, parse, m + 1)
  {
    if !ActionAccepts(items[2 * m], parse) {
      assert [] + ActionEntriesFrom(items, parse, m + 1) == ActionEntriesFrom(items, parse, m + 1);
    }
  }

  /** Every entry comes from the accepted member at index 2·(rank − 1), with that member's fields. */
  lemma {:induction false} ActionEntryOrigin(items: seq<Json>, parse: Parser, m: nat, k: nat)
    requires k < |ActionEntriesFrom(items, parse, m)|
    ensures var e := ActionEntriesFrom(items, parse, m)[k];
            var j := 2 * (e.rank - 1);
            2 * m <= j < |items| && ActionAccepts(items[j], parse) && e.fields == Parsed(items[j], parse).value.fields
    decreases |items| - 2 * m
  {
    var entries := ActionEntriesFrom(items, parse, m);
    assert 2 * m < |items|;
    ActionUnfold(items, parse, m);
    var rest := ActionEntriesFrom(items, parse, m + 1);
    var head := if ActionAccepts(items[2 * m], parse)
                then [Ranked(Parsed(items[2 * m], parse).value.fields, m + 1)] else [];
    assert entries == head + rest;
    if k < |head| {
      assert entries[k] == head[0];
    } else {
      ActionEntryOrigin(items, parse, m + 1, k - |head|);
      assert entries[k] == rest[k - |head|];
    }
  }

  /** Ranks above m and at most (n + 1) / 2, strictly increasing. */
  ghost predicate RanksWithin(entries: seq<Ranked>, m: int, n: int) {
    && (forall k :: 0 <= k < |entries| ==> m < entries[k].rank && 2 * entries[k].rank <= n + 1)
    && (forall k, l :: 0 <= k < l < |entries| ==> entries[k].rank < entries[l].rank)
  }

  /** An entry ranked m + 1 (or none) in front of entries ranked above m + 1. */
  lemma RanksPrepend(head: seq<Ranked>, rest: seq<Ranked>, m: int, n: int)
    requires |head| <= 1 && (|head| == 1 ==> head[0].rank == m + 1 && 2 * (m + 1) <= n + 1)
    requires RanksWithin(rest, m + 1, n)
    ensures RanksWithin(head + rest, m, n)
  {
    var entries := head + rest;
    forall k | 0 <= k < |entries|
      ensures m < entries[k].rank && 2 * entries[k].rank <= n + 1
    {
      if k >= |head| {
        assert entries[k] == rest[k - |head|];
      }
    }
    forall k, l | 0 <= k < l < |entries|
      ensures entries[k].rank < entries[l].rank
    {
      assert entries[l] == rest[l - |head|];
      if k >= |head| {
        assert entries[k] == rest[k - |head|];
      }
    }
  }

  /** Ranks lie above m, within the number of members, and strictly increase. */
  lemma {:induction false} ActionRanksIncrease(items: seq<Json>, parse: Parser, m: nat)
    ensures RanksWithin(ActionEntriesFrom(items, parse, m), m, |items|)
    decreases |items| - 2 * m
  {
    if 2 * m < |items| {
      ActionRanksIncrease(items, parse, m + 1);
      ActionUnfold(items, parse, m);
      var head := if ActionAccepts(items[2 * m], parse)
                  then [Ranked(Parsed(items[2 * m], parse).value.fields, m + 1)] else [];
      RanksPrepend(head, ActionEntriesFrom(items, parse, m + 1), m, |items|);
    }
  }

  /** Every accepted member at index 2n, n >= m, yields an entry ranked n + 1. */
  lemma {:induction false} ActionEntryComplete(items: seq<Json>, parse: Parser, m: nat, n: nat)
    requires m <= n && 2 * n < |items| && ActionAccepts(items[2 * n], parse)
    ensures Ranked(Parsed(items[2 * n], parse).value.fields, n + 1) in ActionEntriesFrom(items, parse, m)
    decreases n - m
  {
    if m < n {
      ActionEntryComplete(items, parse, m + 1, n);
    }
  }

  /** What `getLeaderboard` returns for a reply; a missing or empty reply gives no entries. */
  function ActionEntries(reply: Option<seq<Json>>, parse: Parser): seq<Ranked> {
    if reply.None? || |reply.value| == 0 then [] else ActionEntriesFrom(reply.value, parse, 0)
  }

  /** One member of the loop: an accepted member in front of the entries after it. */
  lemma ActionStep(items: seq<Json>, parse: Parser, m: nat, before: seq<Ranked>, after: seq<Ranked>)
    requires 2 * m < |items|
    requires before + ActionEntriesFrom(items, parse, m) == ActionEntriesFrom(items, parse, 0)
    requires after == before + (if ActionAccepts(items[2 * m], parse)
                                then [Ranked(Parsed(items[2 * m], parse).value.fields, m + 1)] else [])
    ensures after + ActionEntriesFrom(items, parse, m + 1) == ActionEntriesFrom(items, parse, 0)
  {
    ActionUnfold(items, parse, m);
    var rest := ActionEntriesFrom(items, parse, m + 1);
    if ActionAccepts(items[2 * m], parse) {
      var ranked := Ranked(Parsed(items[2 * m], parse).value.fields, m + 1);
      assert (before + [ranked]) + rest == before + ([ranked] + rest);
    } else {
      assert after == before;
    }
  }

  /** `getLeaderboard`'s loop: every second item, each accepted member pushed with rank i/2 + 1. */
  method GetLeaderboard(reply: Option<seq<Json>>, parse: Parser) returns (leaderboard: seq<Ranked>)
    ensures leaderboard == ActionEntries(reply, parse)
  {
    if reply.None? || |reply.value| == 0 {
      return [];
    }
    var entries := reply.value;
    leaderboard := [];
    var i := 0;
    ghost var m: nat := 0;
    assert [] + ActionEntriesFrom(entries, parse, 0) == ActionEntriesFrom(entries, parse, 0);
    while i < |entries|
      invariant i == 2 * m && i <= |entries| + 1
      invariant leaderboard + ActionEntriesFrom(entries, parse, m) == ActionEntriesFrom(entries, parse, 0)
      decreases |entries| - i
    {
      ghost var before := leaderboard;
      var entry := entries[i];
      if !(entry.JNum? || Falsy(entry)) {
        var parsedEntry := if entry.JStr? then parse(entry.s) else Some(entry);
        if parsedEntry.Some? && parsedEntry.value.JObj? && HasEntryKeys(parsedEntry.value.fields) {
          assert i / 2 == m;
          leaderboard := leaderboard + [Ranked(parsedEntry.value.fields, i / 2 + 1)];
        }
      }
      ActionStep(entries, parse, m, before, leaderboard);
      i, m := i + 2, m + 1;
    }
    assert ActionEntriesFrom(entries, parse, m) == [];
  }

  /** Ranks follow reply positions, so a skipped member leaves a gap: here the only entry has rank 2. */
  lemma ActionRanksHaveGaps(entry: map<string, Json>, parse: Parser)
    requires HasEntryKeys(entry)
    ensures ActionEntriesFrom([JNull, JNum(0), JObj(entry), JNum(10)], parse, 0) == [Ranked(entry, 2)]
  {
    var items := [JNull, JNum(0), JObj(entry), JNum(10)];
    assert ActionEntriesFrom(items, parse, 2) == [];
    assert ActionAccepts(items[2], parse);
    assert !ActionAccepts(items[0], parse);
  }
}
