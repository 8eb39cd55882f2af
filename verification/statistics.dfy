/**
  Game statistics: per-game counters, the record appended when a game
  ends, and the queries over the in-memory history (best score per mode,
  most recent games by date). Persistence, clocks and charts are not part
  of this model; the record's date string is an input.
 */
module Statistics {

  /** One finished game, as saved in the history. */
  datatype Record = Record(date: string, score: int, level: int, mode: string,
                           linesCleared: int, blocksPlaced: int, blockTypes: map<string, int>)

  /** The counters of the running game and the history of finished games. */
  datatype Stats = Stats(linesCleared: int, blocksPlaced: int, blockTypes: map<string, int>, history: seq<Record>)

  /** The statistics object as created over a loaded history: counters at zero. */
  function NewStats(history: seq<Record>): (s: Stats)
    ensures s.linesCleared == 0 && s.blocksPlaced == 0 && s.blockTypes == map[] && s.history == history
  {
    Stats(0, 0, map[], history)
  }

  /** How many pieces of type `t` were counted (absent keys count 0). */
  function TypeCount(m: map<string, int>, t: string): int {
    if t in m then m[t] else 0
  }

  /** `update`: add the cleared lines, one placed piece and one piece of type `t`. */
  function Update(s: Stats, lines: int, t: string): (r: Stats)
    ensures r.linesCleared == s.linesCleared + lines && r.blocksPlaced == s.blocksPlaced + 1
    ensures TypeCount(r.blockTypes, t) == TypeCount(s.blockTypes, t) + 1
    ensures r.blockTypes.Keys == s.blockTypes.Keys + {t}
    ensures forall u :: u != t ==> TypeCount(r.blockTypes, u) == TypeCount(s.blockTypes, u)
    ensures r.history == s.history
  {
    var types := if t !in s.blockTypes then s.blockTypes[t := 0] else s.blockTypes;
    s.(linesCleared := s.linesCleared + lines,
       blocksPlaced := s.blocksPlaced + 1,
       blockTypes := types[t := types[t] + 1])
  }

  /** The number of records the history keeps. */
  const HistoryLimit := 100

  /** `_save_history`'s truncation: keep only the last 100 records. */
  function Retain(h: seq<Record>): (r: seq<Record>)
    ensures |r| == if |h| > HistoryLimit then HistoryLimit else |h|
    ensures r == h[|h| - |r|..]
  {
    if |h| > HistoryLimit then h[|h| - HistoryLimit..] else h
  }

  /** `save_game_data`: append a record of the finished game, truncate the
      history and reset the counters. Returns the new statistics and the record. */
  function SaveGameData(s: Stats, score: int, level: int, mode: string, date: string): (r: (Stats, Record))
    ensures r.1 == Record(date, score, level, mode, s.linesCleared, s.blocksPlaced, s.blockTypes)
    ensures |r.0.history| == if |s.history| >= HistoryLimit then HistoryLimit else |s.history| + 1
    ensures r.0.history[|r.0.history| - 1] == r.1
    ensures r.0.history[..|r.0.history| - 1] == s.history[|s.history| - (|r.0.history| - 1)..]
    ensures r.0.linesCleared == 0 && r.0.blocksPlaced == 0 && r.0.blockTypes == map[]
  {
    var record := Record(date, score, level, mode, s.linesCleared, s.blocksPlaced, s.blockTypes);
    var h := s.history + [record];
    var kept := Retain(h);
    assert kept[..|kept| - 1] == s.history[|s.history| - (|kept| - 1)..];
    (Stats(0, 0, map[], kept), record)
  }

  // ---------------------------------------------------------------------
  // Queries

  /** The mode filter: an empty (falsy) mode matches every record. */
  predicate Matches(r: Record, mode: string) {
    mode == "" || r.mode == mode
  }

  /** The records of one mode, in history order: each record of the mode as
      many times as the history holds it, and no other record. */
  function ModeHistory(h: seq<Record>, mode: string): (r: seq<Record>)
    ensures forall x :: multiset(r)[x] == (if x.mode == mode then multiset(h)[x] else 0)
    ensures forall x :: x in r <==> x in h && x.mode == mode
    ensures |r| <= |h|
  {
    if h == [] then []
    else
      assert h == [h[0]] + h[1..];
      (if h[0].mode == mode then [h[0]] else []) + ModeHistory(h[1..], mode)
  }

  /** The largest score of a non-empty list of records. */
  function MaxScore(rs: seq<Record>): (m: int)
    requires |rs| > 0
    ensures exists i :: 0 <= i < |rs| && rs[i].score == m
    ensures forall i :: 0 <= i < |rs| ==> rs[i].score <= m
  {
    if |rs| == 1 then rs[0].score
    else
      var rest := MaxScore(rs[1..]);
      assert forall i :: 1 <= i < |rs| ==> rs[i] == rs[1..][i - 1];
      if rs[0].score >= rest then rs[0].score else rest
  }

  /** `get_highest_score`: 0 when no record matches the mode, otherwise the
      largest score among the matching records. */
  function HighestScore(h: seq<Record>, mode: string): (best: int)
    ensures (forall i :: 0 <= i < |h| ==> !Matches(h[i], mode)) ==> best == 0
    ensures (exists i :: 0 <= i < |h| && Matches(h[i], mode)) ==>
              (exists i :: 0 <= i < |h| && Matches(h[i], mode) && h[i].score == best) &&
              (forall i :: 0 <= i < |h| && Matches(h[i], mode) ==> h[i].score <= best)
  {
    if |h| == 0 then 0
    else if mode != "" then
      var mh := ModeHistory(h, mode);
      if |mh| == 0 then
        assert forall i :: 0 <= i < |h| ==> !Matches(h[i], mode) by {
          forall i | 0 <= i < |h| ensures !Matches(h[i], mode) {
            assert h[i] in h;
          }
        }
        0
      else
        var m := MaxScore(mh);
        forall i | 0 <= i < |h| && Matches(h[i], mode) ensures h[i].score <= m {
          assert h[i] in mh;
        }
        var j :| 0 <= j < |mh| && mh[j].score == m;
        assert mh[j] in h;
        m
    else MaxScore(h)
  }

  // ---------------------------------------------------------------------
  // Ordering by date

  /** Python's string order: lexicographic by character code. */
  predicate StrLe(a: string, b: string) {
    if |a| == 0 then true
    else if |b| == 0 then false
    else if a[0] != b[0] then a[0] < b[0]
    else StrLe(a[1..], b[1..])
  }

  lemma {:induction false} StrLeTotal(a: string, b: string)
    ensures StrLe(a, b) || StrLe(b, a)
  {
    if |a| > 0 && |b| > 0 && a[0] == b[0] {
      StrLeTotal(a[1..], b[1..]);
    }
  }

  lemma {:induction false} StrLeTransitive(a: string, b: string, c: string)
    requires StrLe(a, b) && StrLe(b, c)
    ensures StrLe(a, c)
  {
    if |a| > 0 && |b| > 0 && |c| > 0 && a[0] == b[0] && b[0] == c[0] {
      StrLeTransitive(a[1..], b[1..], c[1..]);
    }
  }

  /** Newest first: dates never increase along the list. */
  predicate SortedByDateDesc(s: seq<Record>) {
    forall i, j :: 0 <= i < j < |s| ==> StrLe(s[j].date, s[i].date)
  }

  /** Insert `x` before the first record whose date is not later than its own. */
  function Insert(x: Record, s: seq<Record>): seq<Record> {
    if s == [] then [x]
    else if StrLe(s[0].date, x.date) then [x] + s
    else [s[0]] + Insert(x, s[1..])
  }

  /** Every record of `s` is dated no later than `top`. */
  predicate DatedNoLaterThan(top: string, s: seq<Record>) {
    forall k :: 0 <= k < |s| ==> StrLe(s[k].date, top)
  }

  lemma {:induction false} InsertKeepsBound(top: string, x: Record, s: seq<Record>)
    requires DatedNoLaterThan(top, s) && StrLe(x.date, top)
    ensures DatedNoLaterThan(top, Insert(x, s))
  {
    if s != [] && !StrLe(s[0].date, x.date) {
      InsertKeepsBound(top, x, s[1..]);
      var t := Insert(x, s[1..]);
      assert forall k :: 1 <= k < |t| + 1 ==> ([s[0]] + t)[k] == t[k - 1];
    }
  }

  lemma {:induction false} InsertPermutes(x: Record, s: seq<Record>)
    ensures multiset(Insert(x, s)) == multiset(s) + multiset{x}
  {
    if s != [] && !StrLe(s[0].date, x.date) {
      InsertPermutes(x, s[1..]);
      assert s == [s[0]] + s[1..];
    }
  }

  lemma {:induction false} InsertSorted(x: Record, s: seq<Record>)
    requires SortedByDateDesc(s)
    ensures SortedByDateDesc(Insert(x, s))
  {
    if s == [] {
    } else if StrLe(s[0].date, x.date) {
      var r := [x] + s;
      forall j | 1 <= j < |r| ensures StrLe(r[j].date, x.date) {
        if j > 1 {
          StrLeTransitive(s[j - 1].date, s[0].date, x.date);
        }
      }
    } else {
      InsertSorted(x, s[1..]);
      StrLeTotal(s[0].date, x.date);
      assert DatedNoLaterThan(s[0].date, s[1..]) by {
        forall k | 0 <= k < |s[1..]| ensures StrLe(s[1..][k].date, s[0].date) {
          assert s[1..][k] == s[k + 1];
        }
      }
      InsertKeepsBound(s[0].date, x, s[1..]);
      var t := Insert(x, s[1..]);
      var r := [s[0]] + t;
      forall i, j | 0 <= i < j < |r| ensures StrLe(r[j].date, r[i].date) {
        assert r[j] == t[j - 1];
        if i > 0 {
          assert r[i] == t[i - 1];
        }
      }
    }
  }

  /** `sorted(..., key=date, reverse=True)`, as a stable insertion sort. */
  function SortByDateDesc(s: seq<Record>): (r: seq<Record>)
    ensures SortedByDateDesc(r)
    ensures multiset(r) == multiset(s)
  {
    if s == [] then []
    else
      var rest := SortByDateDesc(s[1..]);
      InsertSorted(s[0], rest);
      InsertPermutes(s[0], rest);
      assert s == [s[0]] + s[1..];
      Insert(s[0], rest)
  }

  /** Python's `s[:limit]`: a negative limit drops that many records from the end. */
  function PrefixLength(n: nat, limit: int): (k: nat)
    ensures k <= n
    ensures limit >= 0 ==> k == if limit < n then limit else n
  {
    if limit >= 0 then (if limit < n then limit else n)
    else if n + limit > 0 then n + limit else 0
  }

  /** The records the mode filter selects, in history order, each as many
      times as the history holds it. */
  function Selected(h: seq<Record>, mode: string): (r: seq<Record>)
    ensures forall x :: multiset(r)[x] == (if Matches(x, mode) then multiset(h)[x] else 0)
    ensures forall x :: x in r <==> x in h && Matches(x, mode)
  {
    if mode != "" then ModeHistory(h, mode) else h
  }

  /** A prefix of a newest-first list holds the newest records. */
  lemma PrefixIsNewest(sorted: seq<Record>, k: nat)
    requires SortedByDateDesc(sorted) && k <= |sorted|
    ensures SortedByDateDesc(sorted[..k])
    ensures multiset(sorted[..k]) <= multiset(sorted)
    ensures forall i, x :: 0 <= i < k && x in multiset(sorted) - multiset(sorted[..k]) ==>
              StrLe(x.date, sorted[i].date)
  {
    var r := sorted[..k];
    assert sorted == r + sorted[k..];
    forall i, x | 0 <= i < k && x in multiset(sorted) - multiset(r)
      ensures StrLe(x.date, sorted[i].date)
    {
      assert x in multiset(sorted[k..]);
      var j :| 0 <= j < |sorted[k..]| && sorted[k..][j] == x;
      assert sorted[k + j] == x;
    }
  }

  /** `get_recent_scores`: the matching records, newest first, cut to `limit`.
      For a non-negative limit at most `limit` records come back; every
      returned record matches; and no matching record left out is newer than
      one returned. */
  function RecentScores(h: seq<Record>, limit: int, mode: string): (r: seq<Record>)
    ensures |r| == PrefixLength(|Selected(h, mode)|, limit)
    ensures limit >= 0 ==> |r| <= limit
    ensures forall i :: 0 <= i < |r| ==> r[i] in h && Matches(r[i], mode)
    ensures SortedByDateDesc(r)
    ensures multiset(r) <= multiset(Selected(h, mode))
    ensures forall i, x :: 0 <= i < |r| && x in multiset(Selected(h, mode)) - multiset(r) ==>
              StrLe(x.date, r[i].date)
  {
    if |h| == 0 then []
    else
      var src := Selected(h, mode);
      var sorted := SortByDateDesc(src);
      var k := PrefixLength(|sorted|, limit);
      PrefixIsNewest(sorted, k);
      var r := sorted[..k];
      forall i | 0 <= i < |r| ensures r[i] in h && Matches(r[i], mode) {
        assert r[i] in multiset(sorted);
      }
      r
  }
}
