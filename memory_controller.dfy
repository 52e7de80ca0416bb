/**
 * The game-summary endpoints of the backend: validating and saving a
 * summary record, and selecting a player's history or the global history
 * (newest first, capped at 50 and 100 records).
 */
module MemoryController {
  import opened Wrappers

  /** A field of a JSON request body: absent, `null`, or a value. */
  datatype Field<T> = Undefined | Null | Value(v: T)

  /** JavaScript truthiness of a text field: present, not null and not "". */
  predicate TruthyText(f: Field<string>) {
    f.Value? && f.v != ""
  }

  /** JavaScript truthiness of a numeric field: present, not null and not 0. */
  predicate TruthyNumber(f: Field<int>) {
    f.Value? && f.v != 0
  }

  /** The body of a save request; `gameDate` is a timestamp in milliseconds. */
  datatype SaveBody = SaveBody(
    userID: Field<string>,
    gameDate: Field<int>,
    failed: Field<int>,
    difficulty: Field<string>,
    completed: Field<int>,
    timeTaken: Field<int>)

  /** A stored summary record: the six fields of the body, the first two known to be set. */
  datatype SaveRecord = SaveRecord(
    userID: string,
    gameDate: int,
    failed: Field<int>,
    difficulty: Field<string>,
    completed: Field<int>,
    timeTaken: Field<int>)

  /**
   * The guard of `saveGameData`: a falsy `userID` or `gameDate`, or an
   * undefined `difficulty`, `completed` or `timeTaken`. `failed` is optional
   * and `null` passes the undefined checks.
   */
  predicate MissingRequired(b: SaveBody) {
    || !TruthyText(b.userID)
    || !TruthyNumber(b.gameDate)
    || b.difficulty.Undefined?
    || b.completed.Undefined?
    || b.timeTaken.Undefined?
  }

  /** The record `saveGameData` builds from a body, or None when the body is rejected. */
  function RecordOf(b: SaveBody): (r: Option<SaveRecord>)
    ensures r.None? <==> MissingRequired(b)
    ensures r.Some? ==> BodyOf(r.value) == b
  {
    if MissingRequired(b) then None
    else Some(SaveRecord(b.userID.v, b.gameDate.v, b.failed, b.difficulty, b.completed, b.timeTaken))
  }

  /** The body that carries a record's six fields. */
  function BodyOf(r: SaveRecord): SaveBody {
    SaveBody(Value(r.userID), Value(r.gameDate), r.failed, r.difficulty, r.completed, r.timeTaken)
  }

  /** A record whose required fields are set is rebuilt exactly from its own body. */
  lemma RecordOfBodyOf(r: SaveRecord)
    requires r.userID != "" && r.gameDate != 0
    requires !r.difficulty.Undefined? && !r.completed.Undefined? && !r.timeTaken.Undefined?
    ensures RecordOf(BodyOf(r)) == Some(r)
  {
  }

  /**
   * Only `undefined` is refused for the counters: zero pairs and zero seconds
   * are accepted, and so is a body without `failed`; an empty `userID` or a
   * zero `gameDate` is refused.
   */
  lemma SaveGuardCases(b: SaveBody)
    ensures (TruthyText(b.userID) && TruthyNumber(b.gameDate) && b.difficulty.Value?
             && b.completed == Value(0) && b.timeTaken == Value(0)) ==> RecordOf(b).Some?
    ensures RecordOf(b.(failed := Undefined)).Some? <==> RecordOf(b).Some?
    ensures b.userID == Value("") || b.gameDate == Value(0) ==> RecordOf(b).None?
  {
  }

  /** The outcome of a history query. */
  datatype HistoryReply =
    | MissingUserId                            // 400
    | History(data: seq<SaveRecord>, count: int) // 200
    | QueryFailed                              // 500

  /** The HTTP status a history reply is sent with. */
  function Status(reply: HistoryReply): int {
    match reply
    case MissingUserId => 400
    case History(_, _) => 200
    case QueryFailed => 500
  }

  /** `Save.find({ userID })`: the records of one player, in store order. */
  function OfUser(saves: seq<SaveRecord>, userID: string): (r: seq<SaveRecord>)
    ensures |r| <= |saves|
  {
    if saves == [] then []
    else
      var last := saves[|saves| - 1];
      OfUser(saves[..|saves| - 1], userID) + (if last.userID == userID then [last] else [])
  }

  /** A player's records are exactly the stored records with that `userID`, each as often as stored. */
  lemma {:induction false} OfUserContents(saves: seq<SaveRecord>, userID: string)
    ensures forall r :: multiset(OfUser(saves, userID))[r] == if r.userID == userID then multiset(saves)[r] else 0
  {
    if saves != [] {
      var init := saves[..|saves| - 1];
      OfUserContents(init, userID);
      assert saves == init + [saves[|saves| - 1]];
    }
  }

  /** Newest first: `gameDate` never increases along the sequence. */
  predicate NewestFirst(s: seq<SaveRecord>) {
    forall i, j :: 0 <= i < j < |s| ==> s[i].gameDate >= s[j].gameDate
  }

  /** Places `x` before the first record that is not newer than it. */
  function Insert(x: SaveRecord, s: seq<SaveRecord>): seq<SaveRecord> {
    if s == [] || x.gameDate >= s[0].gameDate then [x] + s else [s[0]] + Insert(x, s[1..])
  }

  /** Inserting adds exactly `x`. */
  lemma {:induction false} InsertContents(x: SaveRecord, s: seq<SaveRecord>)
    ensures multiset(Insert(x, s)) == multiset(s) + multiset{x}
    ensures |Insert(x, s)| == |s| + 1
  {
    if s != [] && x.gameDate < s[0].gameDate {
      assert s == [s[0]] + s[1..];
      InsertContents(x, s[1..]);
    }
  }

  /** Inserting into a newest-first sequence keeps it newest first. */
  lemma {:induction false} InsertOrder(x: SaveRecord, s: seq<SaveRecord>)
    requires NewestFirst(s)
    ensures NewestFirst(Insert(x, s))
  {
    if s != [] && x.gameDate < s[0].gameDate {
      var tail := s[1..];
      assert s == [s[0]] + tail;
      InsertOrder(x, tail);
      InsertContents(x, tail);
      var rest := Insert(x, tail);
      forall k | 0 <= k < |rest|
        ensures s[0].gameDate >= rest[k].gameDate
      {
        assert rest[k] in multiset(rest);
        if rest[k] != x {
          assert rest[k] in tail;
        }
      }
      PrependNewest(s[0], rest);
    }
  }

  /** A record no older than every record of a newest-first sequence can go in front. */
  lemma PrependNewest(x: SaveRecord, s: seq<SaveRecord>)
    requires NewestFirst(s)
    requires forall k :: 0 <= k < |s| ==> x.gameDate >= s[k].gameDate
    ensures NewestFirst([x] + s)
  {
    var r := [x] + s;
    assert forall i :: 0 < i < |r| ==> r[i] == s[i - 1];
  }

  /** `.sort({ gameDate: -1 })` by insertion. */
  function SortNewestFirst(s: seq<SaveRecord>): seq<SaveRecord> {
    if s == [] then [] else Insert(s[0], SortNewestFirst(s[1..]))
  }

  /** The sort orders the records newest first and keeps exactly the same records. */
  lemma {:induction false} SortSpec(s: seq<SaveRecord>)
    ensures NewestFirst(SortNewestFirst(s))
    ensures multiset(SortNewestFirst(s)) == multiset(s)
    ensures |SortNewestFirst(s)| == |s|
  {
    if s != [] {
      assert s == [s[0]] + s[1..];
      SortSpec(s[1..]);
      InsertContents(s[0], SortNewestFirst(s[1..]));
      InsertOrder(s[0], SortNewestFirst(s[1..]));
      assert |multiset(SortNewestFirst(s))| == |multiset(s)|;
    }
  }

  /** `.limit(n)`: the first `n` records, or all of them when there are fewer. */
  function Limit(s: seq<SaveRecord>, n: nat): (r: seq<SaveRecord>)
    ensures |r| == if |s| < n then |s| else n
    ensures r == s[..|r|]
  {
    if |s| <= n then s else s[..n]
  }

  /**
   * Sort then limit selects the newest records: the result is newest first,
   * drawn from `s`, as long as the cap allows, and every record it leaves out
   * is no newer than any record it keeps.
   */
  lemma NewestSelection(s: seq<SaveRecord>, n: nat)
    ensures var r := Limit(SortNewestFirst(s), n);
      && NewestFirst(r)
      && multiset(r) <= multiset(s)
      && |r| == (if |s| < n then |s| else n)
      && forall y :: multiset(r)[y] < multiset(s)[y] ==> forall k :: 0 <= k < |r| ==> r[k].gameDate >= y.gameDate
  {
    SortSpec(s);
    PrefixSelection(SortNewestFirst(s), |Limit(SortNewestFirst(s), n)|);
  }

  /** A prefix of a newest-first sequence is newest first and no newer record is left behind it. */
  lemma PrefixSelection(sorted: seq<SaveRecord>, m: nat)
    requires NewestFirst(sorted) && m <= |sorted|
    ensures var r := sorted[..m];
      && NewestFirst(r)
      && multiset(r) <= multiset(sorted)
      && forall y :: multiset(r)[y] < multiset(sorted)[y] ==> forall k :: 0 <= k < |r| ==> r[k].gameDate >= y.gameDate
  {
    var r := sorted[..m];
    assert NewestFirst(r) by {
      assert forall k :: 0 <= k < m ==> r[k] == sorted[k];
    }
    PrefixSplit(sorted, m);
    forall y | multiset(r)[y] < multiset(sorted)[y]
      ensures forall k :: 0 <= k < |r| ==> r[k].gameDate >= y.gameDate
    {
      DroppedNotNewer(sorted, m, y);
    }
  }

  /** A sequence's records are those of its first `m` and of the rest. */
  lemma PrefixSplit(s: seq<SaveRecord>, m: nat)
    requires m <= |s|
    ensures multiset(s) == multiset(s[..m]) + multiset(s[m..])
  {
    assert s == s[..m] + s[m..];
  }

  /** A record found after the first `m` of a newest-first sequence is no newer than any of them. */
  lemma DroppedNotNewer(sorted: seq<SaveRecord>, m: nat, y: SaveRecord)
    requires NewestFirst(sorted) && m <= |sorted| && y in multiset(sorted[m..])
    ensures forall k :: 0 <= k < |sorted[..m]| ==> sorted[..m][k].gameDate >= y.gameDate
  {
    var dropped := sorted[m..];
    assert y in dropped;
    var j :| 0 <= j < |dropped| && dropped[j] == y;
    NotNewerThanPrefix(sorted, m, m + j);
  }

  /** In a newest-first sequence no record after the first `m` is newer than one of them. */
  lemma NotNewerThanPrefix(sorted: seq<SaveRecord>, m: nat, i: nat)
    requires NewestFirst(sorted) && m <= i < |sorted|
    ensures forall k :: 0 <= k < |sorted[..m]| ==> sorted[..m][k].gameDate >= sorted[i].gameDate
  {
    assert forall k :: 0 <= k < m ==> sorted[..m][k] == sorted[k];
  }

  /** The cap of a player's history. */
  const UserHistoryLimit: nat := 50
  /** The cap of the global history. */
  const GlobalHistoryLimit: nat := 100

  /** The saved summary records; `saveGameData` appends to them. */
  class GameStore {
    var saves: seq<SaveRecord>

    constructor ()
      ensures saves == []
    {
      saves := [];
    }

    /**
     * `saveGameData`: 400 and nothing saved for a body missing a required
     * field; otherwise the record is appended and 201 returned, unless the
     * database refuses the write (`accepted` false), which gives 500 and
     * saves nothing.
     */
    method SaveGameData(body: SaveBody, accepted: bool) returns (status: int)
      modifies this
      ensures status == 400 <==> MissingRequired(body)
      ensures status == 201 <==> !MissingRequired(body) && accepted
      ensures status == 201 ==> saves == old(saves) + [RecordOf(body).value]
      ensures status != 201 ==> saves == old(saves)
      ensures status in {400, 201, 500}
    {
      var record := RecordOf(body);
      if record.None? {
        return 400;
      }
      if !accepted {
        return 500;
      }
      saves := saves + [record.value];
      status := 201;
    }

    /**
     * `getGameHistory(userID)`: 400 without a user id; otherwise 500 when the
     * database query fails (`answered` false), else that player's records,
     * newest first, at most 50, with `count` their number.
     */
    function GetGameHistory(userID: Field<string>, answered: bool): (reply: HistoryReply)
      reads this
      ensures Status(reply) == 400 <==> !TruthyText(userID)
      ensures Status(reply) == 500 <==> TruthyText(userID) && !answered
      ensures Status(reply) == 200 <==> reply.History?
      ensures reply.History? ==> reply.count == |reply.data| <= UserHistoryLimit
      ensures reply.History? ==> forall k :: 0 <= k < |reply.data| ==> reply.data[k].userID == userID.v
    {
      if !TruthyText(userID) then MissingUserId
      else if !answered then QueryFailed
      else
        var data := Limit(SortNewestFirst(OfUser(saves, userID.v)), UserHistoryLimit);
        SelectionOfUser(saves, userID.v, UserHistoryLimit);
        History(data, |data|)
    }

    /**
     * `getAllGameHistory`: 500 when the database query fails, otherwise every
     * player's records, newest first, at most 100, with `count` their number.
     */
    function GetAllGameHistory(answered: bool): (reply: HistoryReply)
      reads this
      ensures Status(reply) == 500 <==> !answered
      ensures Status(reply) == 200 <==> answered
      ensures reply.History? ==> reply.count == |reply.data| <= GlobalHistoryLimit
    {
      if !answered then QueryFailed
      else
        var data := Limit(SortNewestFirst(saves), GlobalHistoryLimit);
        History(data, |data|)
    }
  }

  /** Every record of a player's selection belongs to that player. */
  lemma SelectionOfUser(saves: seq<SaveRecord>, userID: string, n: nat)
    ensures forall k :: 0 <= k < |Limit(SortNewestFirst(OfUser(saves, userID)), n)| ==>
      Limit(SortNewestFirst(OfUser(saves, userID)), n)[k].userID == userID
  {
    var mine := OfUser(saves, userID);
    var r := Limit(SortNewestFirst(mine), n);
    NewestSelection(mine, n);
    OfUserContents(saves, userID);
    forall k | 0 <= k < |r|
      ensures r[k].userID == userID
    {
      assert r[k] in multiset(r);
      assert r[k] in multiset(mine);
    }
  }

  /** A player's history is the newest-first selection, capped at 50, of exactly that player's records. */
  lemma UserHistorySelects(store: GameStore, userID: string)
    requires userID != ""
    ensures var reply := store.GetGameHistory(Value(userID), true);
      var mine := OfUser(store.saves, userID);
      && NewestFirst(reply.data)
      && multiset(reply.data) <= multiset(mine)
      && |reply.data| == (if |mine| < UserHistoryLimit then |mine| else UserHistoryLimit)
      && forall y :: multiset(reply.data)[y] < multiset(mine)[y] ==>
           forall k :: 0 <= k < |reply.data| ==> reply.data[k].gameDate >= y.gameDate
  {
    NewestSelection(OfUser(store.saves, userID), UserHistoryLimit);
  }

  /** The global history is the newest-first selection, capped at 100, of all records. */
  lemma GlobalHistorySelects(store: GameStore)
    ensures var reply := store.GetAllGameHistory(true);
      && NewestFirst(reply.data)
      && multiset(reply.data) <= multiset(store.saves)
      && |reply.data| == (if |store.saves| < GlobalHistoryLimit then |store.saves| else GlobalHistoryLimit)
      && forall y :: multiset(reply.data)[y] < multiset(store.saves)[y] ==>
           forall k :: 0 <= k < |reply.data| ==> reply.data[k].gameDate >= y.gameDate
  {
    NewestSelection(store.saves, GlobalHistoryLimit);
  }

  /** A saved record joins its player's records and leaves every other player's unchanged. */
  lemma SaveExtendsOwnHistory(saves: seq<SaveRecord>, r: SaveRecord, userID: string)
    ensures OfUser(saves + [r], userID) == OfUser(saves, userID) + (if r.userID == userID then [r] else [])
  {
    assert (saves + [r])[..|saves|] == saves;
  }
}
