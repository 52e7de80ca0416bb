/**
 * The statistics of the game-history page: filtering saved records by
 * difficulty, the completed-game rule, the success rate, the average time
 * and the `m:ss` time format.
 */
module GameHistory {
  import opened Decimal

  /** A saved game record as the page receives it; `timeTaken` is in seconds. */
  datatype Record = Record(difficulty: string, completed: int, timeTaken: int, failed: int)

  /** A record counts as completed when its `completed` count is positive. */
  predicate IsCompleted(r: Record) {
    r.completed > 0
  }

  /** The two selections the page makes over a list of records. */
  datatype Criterion =
    | ShownBy(filter: string) // the difficulty filter: "all", or one difficulty
    | Completed               // the completed records

  predicate Keeps(c: Criterion, r: Record) {
    match c
    case ShownBy(filter) => filter == "all" || r.difficulty == filter
    case Completed => IsCompleted(r)
  }

  /** `Array.prototype.filter` with criterion `c`: the kept records, in their original order. */
  function Where(s: seq<Record>, c: Criterion): (r: seq<Record>)
    ensures |r| <= |s|
  {
    if s == [] then []
    else Where(s[..|s| - 1], c) + (if Keeps(c, s[|s| - 1]) then [s[|s| - 1]] else [])
  }

  /** Filtering distributes over concatenation, so kept records stay in their original order. */
  lemma {:induction false} WhereAppend(a: seq<Record>, b: seq<Record>, c: Criterion)
    ensures Where(a + b, c) == Where(a, c) + Where(b, c)
  {
    if b != [] {
      var init := b[..|b| - 1];
      assert (a + b)[..|a + b| - 1] == a + init;
      WhereAppend(a, init, c);
    } else {
      assert a + b == a;
    }
  }

  /** Filtering keeps every record the criterion accepts, as often as it occurs, and nothing else. */
  lemma {:induction false} WhereContents(s: seq<Record>, c: Criterion)
    ensures forall r :: multiset(Where(s, c))[r] == if Keeps(c, r) then multiset(s)[r] else 0
  {
    if s != [] {
      var init := s[..|s| - 1];
      WhereContents(init, c);
      assert s == init + [s[|s| - 1]];
    }
  }

  /** A criterion that accepts every record keeps the whole list. */
  lemma {:induction false} WhereEverything(s: seq<Record>, c: Criterion)
    requires forall k :: 0 <= k < |s| ==> Keeps(c, s[k])
    ensures Where(s, c) == s
  {
    if s != [] {
      WhereEverything(s[..|s| - 1], c);
    }
  }

  /** The records shown under the difficulty filter `filter`. */
  function FilteredHistory(history: seq<Record>, filter: string): seq<Record> {
    Where(history, ShownBy(filter))
  }

  /**
   * The filter "all" shows every record; any other filter shows exactly the
   * records of that difficulty, each as often as it occurs, in their original order.
   */
  lemma FilteredHistorySpec(history: seq<Record>, filter: string)
    ensures filter == "all" ==> FilteredHistory(history, filter) == history
    ensures filter != "all" ==>
      forall r :: multiset(FilteredHistory(history, filter))[r] == if r.difficulty == filter then multiset(history)[r] else 0
    ensures forall a, b :: history == a + b ==>
      FilteredHistory(history, filter) == FilteredHistory(a, filter) + FilteredHistory(b, filter)
  {
    if filter == "all" {
      WhereEverything(history, ShownBy(filter));
    }
    WhereContents(history, ShownBy(filter));
    forall a, b | history == a + b
      ensures FilteredHistory(history, filter) == FilteredHistory(a, filter) + FilteredHistory(b, filter)
    {
      WhereAppend(a, b, ShownBy(filter));
    }
  }

  /** The completed records among `games`. */
  function CompletedGames(games: seq<Record>): seq<Record> {
    Where(games, Completed)
  }

  /** The label of the status column. */
  function StatusLabel(r: Record): (text: string)
    ensures text == "Completed" <==> IsCompleted(r)
  {
    if IsCompleted(r) then "Completed" else "Incomplete"
  }

  /**
   * One rule decides completion everywhere: a shown record is labelled
   * "Completed" exactly when it is among the records the success rate, the
   * average time and the Completed counter count.
   */
  lemma CompletedRuleShared(games: seq<Record>, r: Record)
    requires r in games
    ensures StatusLabel(r) == "Completed" <==> r in CompletedGames(games)
  {
    WhereContents(games, Completed);
    assert multiset(games)[r] > 0;
  }

  /**
   * `Math.round(n / d)` for a positive denominator: the integer nearest to
   * the quotient, halves rounded up.
   */
  function RoundDiv(n: int, d: int): (q: int)
    requires d > 0
    ensures 2 * d * q - d <= 2 * n < 2 * d * q + d
  {
    (2 * n + d) / (2 * d)
  }

  /** Rounding a quotient that lies in `lo..hi` stays in `lo..hi`. */
  lemma RoundDivBounds(n: int, d: int, lo: int, hi: int)
    requires d > 0 && lo * d <= n <= hi * d
    ensures lo <= RoundDiv(n, d) <= hi
  {
    var q := RoundDiv(n, d);
    MulMono(2 * d, hi + 1, q);
    MulMono(2 * d, q, lo - 1);
  }

  /** Multiplying by a non-negative factor keeps order. */
  lemma MulMono(c: int, x: int, y: int)
    requires c >= 0
    ensures x <= y ==> c * x <= c * y
  {
    if x <= y {
      assert c * y - c * x == c * (y - x);
    }
  }

  /**
   * `getSuccessRate`: 0 for an empty list, otherwise the percentage of
   * completed records, rounded; it always lies in 0..100.
   */
  function SuccessRate(games: seq<Record>): (rate: int)
    ensures 0 <= rate <= 100
    ensures games == [] ==> rate == 0
    ensures games != [] ==>
      2 * |games| * rate - |games| <= 200 * |CompletedGames(games)| < 2 * |games| * rate + |games|
  {
    if |games| == 0 then 0
    else
      var completed := |CompletedGames(games)|;
      RoundDivBounds(100 * completed, |games|, 0, 100);
      RoundDiv(100 * completed, |games|)
  }

  /** Every record completed gives a rate of 100; none completed gives 0. */
  lemma SuccessRateExtremes(games: seq<Record>)
    ensures (forall k :: 0 <= k < |games| ==> !IsCompleted(games[k])) ==> SuccessRate(games) == 0
    ensures games != [] && (forall k :: 0 <= k < |games| ==> IsCompleted(games[k])) ==> SuccessRate(games) == 100
  {
    if games != [] && forall k :: 0 <= k < |games| ==> IsCompleted(games[k]) {
      WhereEverything(games, Completed);
      RoundDivBounds(100 * |games|, |games|, 100, 100);
    }
    if games != [] && forall k :: 0 <= k < |games| ==> !IsCompleted(games[k]) {
      WhereNothing(games);
      RoundDivBounds(0, |games|, 0, 0);
    }
  }

  /** No completed record: nothing is kept. */
  lemma {:induction false} WhereNothing(s: seq<Record>)
    requires forall k :: 0 <= k < |s| ==> !IsCompleted(s[k])
    ensures Where(s, Completed) == []
  {
    if s != [] {
      WhereNothing(s[..|s| - 1]);
    }
  }

  /** The sum of `timeTaken` over `games` (the `reduce` of `getAverageTime`). */
  function TotalTime(games: seq<Record>): int {
    if games == [] then 0 else TotalTime(games[..|games| - 1]) + games[|games| - 1].timeTaken
  }

  /** When every time lies in `lo..hi`, the total lies between `|games|` times each bound. */
  lemma {:induction false} TotalTimeBounds(games: seq<Record>, lo: int, hi: int)
    requires forall k :: 0 <= k < |games| ==> lo <= games[k].timeTaken <= hi
    ensures lo * |games| <= TotalTime(games) <= hi * |games|
  {
    if games != [] {
      TotalTimeBounds(games[..|games| - 1], lo, hi);
    }
  }

  /** `getAverageTime`: 0 with no completed record, otherwise the rounded mean time of the completed ones. */
  function AverageTime(games: seq<Record>): (avg: int)
    ensures CompletedGames(games) == [] ==> avg == 0
    ensures CompletedGames(games) != [] ==>
      var c := CompletedGames(games);
      2 * |c| * avg - |c| <= 2 * TotalTime(c) < 2 * |c| * avg + |c|
  {
    var completed := CompletedGames(games);
    if |completed| == 0 then 0 else RoundDiv(TotalTime(completed), |completed|)
  }

  /** The average lies between the shortest and the longest completed time. */
  lemma AverageTimeBounds(games: seq<Record>, lo: int, hi: int)
    requires forall k :: 0 <= k < |games| && IsCompleted(games[k]) ==> lo <= games[k].timeTaken <= hi
    ensures CompletedGames(games) != [] ==> lo <= AverageTime(games) <= hi
  {
    var c := CompletedGames(games);
    WhereContents(games, Completed);
    forall k | 0 <= k < |c|
      ensures lo <= c[k].timeTaken <= hi
    {
      assert multiset(c)[c[k]] > 0;
      assert c[k] in games;
    }
    TotalTimeBounds(c, lo, hi);
    if c != [] {
      RoundDivBounds(TotalTime(c), |c|, lo, hi);
    }
  }

  /** The quotient `a / b` rounded toward zero, as `Math.trunc(a / b)` gives it. */
  function TruncQuot(a: int, b: int): int
    requires b > 0
  {
    if a >= 0 then a / b else -((-a) / b)
  }

  /**
   * JavaScript's `%`: the remainder of the division rounded toward zero, so
   * it takes the sign of the dividend and is smaller than the divisor.
   */
  function JsRem(a: int, b: int): (r: int)
    requires b > 0
    ensures a == b * TruncQuot(a, b) + r
    ensures a >= 0 ==> r == a % b
    ensures a < 0 ==> -b < r <= 0
  {
    if a >= 0 then a % b else -((-a) % b)
  }

  /** `padStart(2, '0')`: zeros in front until the string is at least two long. */
  function PadStart2(s: string): (r: string)
    ensures |r| == if |s| >= 2 then |s| else 2
    ensures r[|r| - |s|..] == s
    ensures forall k :: 0 <= k < |r| - |s| ==> r[k] == '0'
  {
    if |s| >= 2 then s else seq(2 - |s|, _ => '0') + s
  }

  /** `formatTime(seconds)`: the minutes `Math.floor(seconds / 60)`, a colon, then `seconds % 60` padded to two places. */
  function FormatTime(seconds: int): string {
    IntToString(seconds / 60) + ":" + PadStart2(IntToString(JsRem(seconds, 60)))
  }

  /**
   * For a non-negative time the text reads back: the part before the colon is
   * the minutes, the two digits after it are the seconds below 60, and
   * minutes * 60 + seconds is the time.
   */
  lemma FormatTimeReadsBack(seconds: int)
    requires seconds >= 0
    ensures var t := FormatTime(seconds);
      && |t| >= 4 && t[|t| - 3] == ':'
      && AllDigits(t[..|t| - 3]) && AllDigits(t[|t| - 2..])
      && ParseNat(t[|t| - 2..]) < 60
      && ParseNat(t[..|t| - 3]) * 60 + ParseNat(t[|t| - 2..]) == seconds
  {
    var minutes: nat := seconds / 60;
    var rest: nat := seconds % 60;
    var m := IntToString(minutes);
    var ss := PadStart2(IntToString(JsRem(seconds, 60)));
    var t := FormatTime(seconds);
    assert t == m + ":" + ss;
    assert |ss| == 2 && AllDigits(ss) && ParseNat(ss) == rest by {
      PaddedSeconds(seconds);
    }
    assert |m| >= 1 && AllDigits(m) && ParseNat(m) == minutes by {
      IntToStringOfNat(minutes);
      ParseNatToString(minutes);
    }
    ColonReadsBack(t, m, ss);
    assert minutes * 60 + rest == seconds;
  }

  /** Minutes, a colon and a two-digit field split back into the two fields. */
  lemma ColonReadsBack(t: string, m: string, ss: string)
    requires |m| >= 1 && AllDigits(m) && |ss| == 2 && AllDigits(ss)
    requires t == m + ":" + ss
    ensures |t| >= 4 && t[|t| - 3] == ':'
    ensures AllDigits(t[..|t| - 3]) && AllDigits(t[|t| - 2..])
    ensures ParseNat(t[..|t| - 3]) == ParseNat(m) && ParseNat(t[|t| - 2..]) == ParseNat(ss)
  {
    assert t[..|t| - 3] == m;
    assert t[|t| - 2..] == ss;
  }

  /** The seconds field is two digits whose value is the remainder below 60. */
  lemma PaddedSeconds(seconds: int)
    requires seconds >= 0
    ensures var ss := PadStart2(IntToString(JsRem(seconds, 60)));
      |ss| == 2 && AllDigits(ss) && ParseNat(ss) == seconds % 60
  {
    var rest: nat := seconds % 60;
    var rem := IntToString(JsRem(seconds, 60));
    IntToStringOfNat(rest);
    ParseNatToString(rest);
    TwoDigits(rest);
    PaddedValue(rem);
  }

  /** A number below 100 prints in at most two digits. */
  lemma TwoDigits(n: nat)
    requires n < 100
    ensures |NatToString(n)| <= 2
  {
    if n >= 10 {
      assert |NatToString(n / 10)| == 1;
    }
  }

  /** Leading zeros do not change a string's value. */
  lemma PaddedValue(s: string)
    requires AllDigits(s) && |s| <= 2
    ensures AllDigits(PadStart2(s)) && ParseNat(PadStart2(s)) == ParseNat(s)
  {
    var r := PadStart2(s);
    if |s| == 1 {
      assert r == ['0', s[0]];
      ParseTwoDigits('0', s[0]);
      assert s == [s[0]];
      ParseOneDigit(s[0]);
    } else if |s| == 0 {
      assert r == ['0', '0'];
      ParseTwoDigits('0', '0');
    }
  }

  lemma ParseOneDigit(c: char)
    requires IsDigit(c)
    ensures ParseNat([c]) == DigitValue(c)
  {
    assert [c][..0] == [];
  }

  lemma ParseTwoDigits(a: char, b: char)
    requires IsDigit(a) && IsDigit(b)
    ensures ParseNat([a, b]) == 10 * DigitValue(a) + DigitValue(b)
  {
    assert [a, b][..1] == [a];
    ParseOneDigit(a);
  }

  const EasyColor := "bg-green-100 text-green-800 border-green-200"
  const NormalColor := "bg-yellow-100 text-yellow-800 border-yellow-200"
  const HardColor := "bg-red-100 text-red-800 border-red-200"
  const OtherColor := "bg-gray-100 text-gray-800 border-gray-200"

  /** `getDifficultyColor`: green, yellow and red classes for the three difficulties, gray for anything else. */
  function DifficultyColor(difficulty: string): (classes: string)
    ensures classes == OtherColor <==> difficulty !in ["Easy", "Normal", "Hard"]
    ensures classes == EasyColor <==> difficulty == "Easy"
    ensures classes == NormalColor <==> difficulty == "Normal"
    ensures classes == HardColor <==> difficulty == "Hard"
  {
    match difficulty
    case "Easy" => EasyColor
    case "Normal" => NormalColor
    case "Hard" => HardColor
    case _ => OtherColor
  }
}
