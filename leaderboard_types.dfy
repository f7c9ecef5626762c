/**
 * The values a leaderboard read sees: the items of the Redis reply (member, score,
 * member, score, ... in descending score order) as JSON values, and the ranked
 * entries the two readers build from them.
 */
module LeaderboardTypes {
  import opened Wrappers

  /** A JSON value; numbers are integers here. */
  datatype Json =
    | JNull
    | JBool(b: bool)
    | JNum(n: int)
    | JStr(s: string)
    | JArr(elems: seq<Json>)
    | JObj(fields: map<string, Json>)

  /** JavaScript falsiness of a JSON value (`!v`). */
  predicate Falsy(v: Json) {
    v.JNull? || v == JBool(false) || v == JNum(0) || v == JStr("")
  }

  /** `JSON.parse`: the value a string denotes, or `None` when parsing throws. */
  type Parser = string -> Option<Json>

  /** An entry as a reader returns it: the stored object's fields and a rank. */
  datatype Ranked = Ranked(fields: map<string, Json>, rank: int)

  /** The reply's members (the items at even indices) from the m-th member on, without their scores. */
  function MembersFrom(items: seq<Json>, m: nat): seq<Json>
    decreases |items| - 2 * m
  {
    if 2 * m >= |items| then [] else [items[2 * m]] + MembersFrom(items, m + 1)
  }

  /** The k-th member from the m-th on is the item at index 2(m + k). */
  lemma {:induction false} MembersFromIndex(items: seq<Json>, m: nat, k: nat)
    requires k < |MembersFrom(items, m)|
    ensures 2 * (m + k) < |items| && MembersFrom(items, m)[k] == items[2 * (m + k)]
    decreases k
  {
    if k > 0 {
      MembersFromIndex(items, m + 1, k - 1);
    }
  }

  /** No member is missed: the members from the m-th on reach the end of the reply. */
  lemma {:induction false} MembersFromCovers(items: seq<Json>, m: nat)
    ensures 2 * m >= |items| ==> MembersFrom(items, m) == []
    ensures 2 * m < |items| ==> 2 * (m + |MembersFrom(items, m)|) >= |items|
    decreases |items| - 2 * m
  {
    if 2 * m < |items| {
      MembersFromCovers(items, m + 1);
    }
  }

  /** The fields of each ranked entry, in order. */
  function FieldsOf(entries: seq<Ranked>): (fields: seq<map<string, Json>>)
    ensures |fields| == |entries|
    ensures forall k :: 0 <= k < |entries| ==> fields[k] == entries[k].fields
  {
    if entries == [] then [] else [entries[0].fields] + FieldsOf(entries[1..])
  }
}
