/**
 * The decision logic of `Storage` (app/storage.py:35-137) without SQLite:
 * each table is a field of the object, the clock reading `now` is a
 * parameter, and every method reads and then rewrites its table the way the
 * SQL statements do.
 */
module Store {
  import opened Wrappers

  /** A row of `cache`: the JSON text, when it was written, and for how long it is good. */
  datatype CacheRow = CacheRow(valueJson: string, updatedAt: int, ttlSeconds: int)

  /** A row of `rate_limit`: when the user's window opened and how many requests it has seen. */
  datatype RateRow = RateRow(windowStart: int, count: int)

  /** A row of `price_history`; rows are kept in insertion (`id`) order. */
  datatype PriceRow = PriceRow(nmid: int, ts: int, basicU: Option<int>, productU: Option<int>)

  /** A dictionary of the list `price_get_history` returns. */
  datatype PricePoint = PricePoint(ts: int, basicU: Option<int>, productU: Option<int>)

  // ----- cache -----

  /** Line 66: an entry is stale only once strictly more than its ttl has passed. */
  predicate Expired(row: CacheRow, now: int) {
    now - row.updatedAt > row.ttlSeconds
  }

  /** What `cache_get` returns: the stored text of a live entry, else nothing. */
  function CacheValue(cache: map<string, CacheRow>, key: string, now: int): Option<string> {
    if key in cache && !Expired(cache[key], now) then Some(cache[key].valueJson) else None
  }

  /** The cache after `cache_get`: a stale entry that was read is deleted. */
  function CacheAfterGet(cache: map<string, CacheRow>, key: string, now: int): map<string, CacheRow> {
    if key in cache && Expired(cache[key], now) then cache - {key} else cache
  }

  /** The cache after `cache_set`: the key's row is inserted or replaced. */
  function CacheAfterSet(cache: map<string, CacheRow>, key: string, valueJson: string, ttl: int, now: int): map<string, CacheRow> {
    cache[key := CacheRow(valueJson, now, ttl)]
  }

  /** A value just set is served until exactly `ttl` seconds later, and not after. */
  lemma SetThenGet(cache: map<string, CacheRow>, key: string, valueJson: string, ttl: int, now: int, later: int)
    ensures CacheValue(CacheAfterSet(cache, key, valueJson, ttl, now), key, later) ==
      if later - now > ttl then None else Some(valueJson)
  {
  }

  /** Setting one key changes what no other key returns. */
  lemma SetKeepsOthers(cache: map<string, CacheRow>, key: string, other: string, valueJson: string, ttl: int, now: int, at: int)
    requires other != key
    ensures CacheValue(CacheAfterSet(cache, key, valueJson, ttl, now), other, at) == CacheValue(cache, other, at)
  {
  }

  /** Reading again at the same moment gives the same answer: deleting a stale entry changes no result. */
  lemma GetIsStable(cache: map<string, CacheRow>, key: string, now: int)
    ensures CacheValue(CacheAfterGet(cache, key, now), key, now) == CacheValue(cache, key, now)
    ensures forall k :: CacheValue(CacheAfterGet(cache, key, now), k, now) == CacheValue(cache, k, now)
  {
  }

  // ----- rate limit -----

  /** Whether `rate_limit_allow` lets the request through. */
  function RateAllowed(rows: map<int, RateRow>, user: int, now: int, window: int, max: int): bool {
    user !in rows || now - rows[user].windowStart >= window || rows[user].count < max
  }

  /** The `rate_limit` table after `rate_limit_allow`. */
  function RateAfter(rows: map<int, RateRow>, user: int, now: int, window: int, max: int): map<int, RateRow> {
    if user !in rows then rows[user := RateRow(now, 1)]
    else if now - rows[user].windowStart >= window then rows[user := RateRow(now, 1)]
    else if rows[user].count >= max then rows
    else rows[user := RateRow(rows[user].windowStart, rows[user].count + 1)]
  }

  /** Every stored count lies between 1 and `max`. */
  predicate CountsWithin(rows: map<int, RateRow>, max: int) {
    forall u | u in rows :: 1 <= rows[u].count <= max
  }

  /** With `max_requests` at least 1, no user's count ever exceeds it. */
  lemma CountsStayWithin(rows: map<int, RateRow>, user: int, now: int, window: int, max: int)
    requires max >= 1 && CountsWithin(rows, max)
    ensures CountsWithin(RateAfter(rows, user, now, window, max), max)
  {
  }

  /** A denied request changes nothing; an allowed one touches only its own user's row. */
  lemma RateTouchesOnlyUser(rows: map<int, RateRow>, user: int, now: int, window: int, max: int)
    ensures !RateAllowed(rows, user, now, window, max) ==> RateAfter(rows, user, now, window, max) == rows
    ensures forall u | u != user :: (u in RateAfter(rows, user, now, window, max) <==> u in rows)
    ensures forall u | u != user && u in rows :: RateAfter(rows, user, now, window, max)[u] == rows[u]
  {
  }

  /** The four outcomes of lines 91-107, one per branch. */
  lemma RateOutcomes(rows: map<int, RateRow>, user: int, now: int, window: int, max: int)
    ensures user !in rows ==>
      RateAllowed(rows, user, now, window, max) && RateAfter(rows, user, now, window, max)[user] == RateRow(now, 1)
    ensures user in rows && now - rows[user].windowStart >= window ==>
      RateAllowed(rows, user, now, window, max) && RateAfter(rows, user, now, window, max)[user] == RateRow(now, 1)
    ensures user in rows && now - rows[user].windowStart < window && rows[user].count >= max ==>
      !RateAllowed(rows, user, now, window, max) && RateAfter(rows, user, now, window, max) == rows
    ensures user in rows && now - rows[user].windowStart < window && rows[user].count < max ==>
      RateAllowed(rows, user, now, window, max) &&
      RateAfter(rows, user, now, window, max)[user] == RateRow(rows[user].windowStart, rows[user].count + 1)
  {
  }

  /** How many of the requests made at `times`, one after another, are let through. */
  function AllowedCount(rows: map<int, RateRow>, user: int, times: seq<int>, window: int, max: int): nat
    decreases |times|
  {
    if times == [] then 0
    else
      (if RateAllowed(rows, user, times[0], window, max) then 1 else 0) +
      AllowedCount(RateAfter(rows, user, times[0], window, max), user, times[1..], window, max)
  }

  /**
   * Inside one window a user gets at most `max_requests` requests through:
   * requests that all fall before the window closes are allowed at most
   * `max - count` times.
   */
  lemma {:induction false} AtMostMaxPerWindow(rows: map<int, RateRow>, user: int, times: seq<int>, window: int, max: int)
    requires user in rows
    requires forall k | 0 <= k < |times| :: times[k] - rows[user].windowStart < window
    ensures AllowedCount(rows, user, times, window, max) <= if rows[user].count < max then max - rows[user].count else 0
  {
    if times != [] {
      var after := RateAfter(rows, user, times[0], window, max);
      assert after[user].windowStart == rows[user].windowStart;
      assert forall k | 0 <= k < |times[1..]| :: times[1..][k] == times[k + 1];
      AtMostMaxPerWindow(after, user, times[1..], window, max);
    }
  }

  // ----- price history -----

  /** `ts or time.time()`: a missing or zero time stamp means now. */
  function StampOrNow(ts: Option<int>, now: int): int {
    if ts.Some? && ts.value != 0 then ts.value else now
  }

  /** The rows of one article, in insertion order. */
  function RowsOf(history: seq<PriceRow>, nmid: int): (rs: seq<PriceRow>)
    ensures |rs| <= |history|
    ensures forall r | r in rs :: r in history && r.nmid == nmid
  {
    if history == [] then []
    else
      var n := |history| - 1;
      RowsOf(history[..n], nmid) + (if history[n].nmid == nmid then [history[n]] else [])
  }

  /**
   * `ORDER BY ts DESC LIMIT 1`: the article's row with the greatest time
   * stamp; among equal stamps the one inserted first, the order in which the
   * `(nmid, ts DESC)` index lists them.
   */
  function Latest(history: seq<PriceRow>, nmid: int): Option<PriceRow> {
    if history == [] then None
    else
      var n := |history| - 1;
      var prev := Latest(history[..n], nmid);
      if history[n].nmid == nmid && (prev.None? || history[n].ts > prev.value.ts) then Some(history[n]) else prev
  }

  /** Puts `r` after every row of the newest-first list `s` that is at least as new. */
  function InsertNewest(r: PriceRow, s: seq<PriceRow>): (t: seq<PriceRow>)
    ensures |t| == |s| + 1
    ensures multiset(t) == multiset(s) + multiset{r}
  {
    if s == [] || r.ts > s[0].ts then [r] + s
    else
      assert s == [s[0]] + s[1..];
      [s[0]] + InsertNewest(r, s[1..])
  }

  /** `ORDER BY ts DESC` over rows given in insertion order; equal stamps keep that order. */
  function NewestFirst(rows: seq<PriceRow>): seq<PriceRow> {
    if rows == [] then []
    else InsertNewest(rows[|rows| - 1], NewestFirst(rows[..|rows| - 1]))
  }

  predicate SortedNewestFirst(s: seq<PriceRow>) {
    forall i, j | 0 <= i < j < |s| :: s[i].ts >= s[j].ts
  }

  /** Inserting a row no newer than `c` into rows no newer than `c` gives rows no newer than `c`. */
  lemma {:induction false} InsertStaysBelow(r: PriceRow, s: seq<PriceRow>, c: int)
    requires r.ts <= c && forall k | 0 <= k < |s| :: s[k].ts <= c
    ensures forall k | 0 <= k < |InsertNewest(r, s)| :: InsertNewest(r, s)[k].ts <= c
  {
    if s != [] && r.ts <= s[0].ts {
      InsertStaysBelow(r, s[1..], c);
    }
  }

  lemma {:induction false} InsertKeepsSorted(r: PriceRow, s: seq<PriceRow>)
    requires SortedNewestFirst(s)
    ensures SortedNewestFirst(InsertNewest(r, s))
  {
    if s != [] && r.ts <= s[0].ts {
      InsertKeepsSorted(r, s[1..]);
      InsertStaysBelow(r, s[1..], s[0].ts);
    }
  }

  /** The inserted row comes first exactly when it is strictly newer than the old first row. */
  lemma InsertHead(r: PriceRow, s: seq<PriceRow>)
    ensures InsertNewest(r, s)[0] == if s == [] || r.ts > s[0].ts then r else s[0]
  {
  }

  /** The newest-first order is sorted by time stamp. */
  lemma {:induction false} NewestFirstIsSorted(rows: seq<PriceRow>)
    ensures SortedNewestFirst(NewestFirst(rows))
  {
    if rows != [] {
      var n := |rows| - 1;
      NewestFirstIsSorted(rows[..n]);
      InsertKeepsSorted(rows[n], NewestFirst(rows[..n]));
    }
  }

  /** The newest-first order holds exactly the given rows. */
  lemma {:induction false} NewestFirstPermutes(rows: seq<PriceRow>)
    ensures multiset(NewestFirst(rows)) == multiset(rows)
  {
    if rows != [] {
      var n := |rows| - 1;
      NewestFirstPermutes(rows[..n]);
      assert rows == rows[..n] + [rows[n]];
    }
  }

  /** The latest row is a row of the article. */
  lemma {:induction false} LatestIsRow(history: seq<PriceRow>, nmid: int)
    ensures Latest(history, nmid).Some? ==>
      Latest(history, nmid).value in history && Latest(history, nmid).value.nmid == nmid
  {
    if history != [] {
      LatestIsRow(history[..|history| - 1], nmid);
    }
  }

  lemma NewestFirstSnoc(front: seq<PriceRow>, r: PriceRow)
    ensures NewestFirst(front + [r]) == InsertNewest(r, NewestFirst(front))
  {
    assert (front + [r])[..|front|] == front;
  }

  /** The row the duplicate check compares with is the first row of the article's newest-first history. */
  lemma {:induction false} LatestIsNewest(history: seq<PriceRow>, nmid: int)
    ensures var s := NewestFirst(RowsOf(history, nmid));
      Latest(history, nmid) == if s == [] then None else Some(s[0])
  {
    if history != [] {
      var n := |history| - 1;
      LatestIsNewest(history[..n], nmid);
      var front := RowsOf(history[..n], nmid);
      var s0 := NewestFirst(front);
      if history[n].nmid == nmid {
        assert RowsOf(history, nmid) == front + [history[n]];
        NewestFirstSnoc(front, history[n]);
        InsertHead(history[n], s0);
        assert NewestFirst(RowsOf(history, nmid))[0] == InsertNewest(history[n], s0)[0];
      } else {
        assert RowsOf(history, nmid) == front;
      }
    }
  }

  /** The price table after `price_add_snapshot`. */
  function HistoryAfterAdd(history: seq<PriceRow>, nmid: int, basicU: Option<int>, productU: Option<int>,
                           ts: Option<int>, now: int): seq<PriceRow> {
    var last := Latest(history, nmid);
    if last.Some? && last.value.basicU == basicU && last.value.productU == productU then history
    else history + [PriceRow(nmid, StampOrNow(ts, now), basicU, productU)]
  }

  /**
   * A snapshot whose prices equal the article's latest ones adds nothing;
   * any other adds exactly one row at the end, stamped `ts` or now.
   */
  lemma AddSnapshotAppendsAtMostOne(history: seq<PriceRow>, nmid: int, basicU: Option<int>, productU: Option<int>,
                                    ts: Option<int>, now: int)
    ensures var after := HistoryAfterAdd(history, nmid, basicU, productU, ts, now);
      var last := Latest(history, nmid);
      && (last.Some? && last.value.basicU == basicU && last.value.productU == productU ==> after == history)
      && (!(last.Some? && last.value.basicU == basicU && last.value.productU == productU) ==>
            |after| == |history| + 1 && after[..|history|] == history &&
            after[|history|] == PriceRow(nmid, StampOrNow(ts, now), basicU, productU))
  {
  }

  /**
   * Once a snapshot newer than every stored one is added, the same prices
   * offered again are skipped, whatever their time stamp.
   */
  lemma RepeatedSnapshotIsSkipped(history: seq<PriceRow>, nmid: int, basicU: Option<int>, productU: Option<int>,
                                  now: int, ts: Option<int>, later: int)
    requires forall r | r in history && r.nmid == nmid :: r.ts < now
    ensures var once := HistoryAfterAdd(history, nmid, basicU, productU, Some(now), now);
      HistoryAfterAdd(once, nmid, basicU, productU, ts, later) == once
  {
    LatestIsRow(history, nmid);
    var once := HistoryAfterAdd(history, nmid, basicU, productU, Some(now), now);
    if once != history {
      var n := |history|;
      assert once[..n] == history;
      assert Latest(once, nmid) == Some(once[n]);
    }
  }

  /** `min(limit, |s|)` rows, or all of them for a negative limit (SQLite's `LIMIT -1`). */
  function Limited(s: seq<PriceRow>, limit: int): seq<PriceRow> {
    if limit < 0 || limit >= |s| then s else s[..limit]
  }

  function AsPoint(r: PriceRow): PricePoint {
    PricePoint(r.ts, r.basicU, r.productU)
  }

  /** What `price_get_history` returns. */
  function History(history: seq<PriceRow>, nmid: int, limit: int): seq<PricePoint> {
    var s := Limited(NewestFirst(RowsOf(history, nmid)), limit);
    seq(|s|, i requires 0 <= i < |s| => AsPoint(s[i]))
  }

  /** The history lists at most `limit` rows (all of the article's rows for a negative limit), newest first. */
  lemma HistoryIsNewestFirst(history: seq<PriceRow>, nmid: int, limit: int)
    ensures var h := History(history, nmid, limit);
      var all := RowsOf(history, nmid);
      && (forall i, j | 0 <= i < j < |h| :: h[i].ts >= h[j].ts)
      && |h| == (if limit < 0 || limit >= |all| then |all| else limit)
  {
    var all := RowsOf(history, nmid);
    var s := NewestFirst(all);
    NewestFirstIsSorted(all);
    NewestFirstPermutes(all);
    assert |s| == |multiset(s)| == |multiset(all)| == |all|;
  }

  /** Every listed point is a snapshot of the article. */
  lemma HistoryRowsBelong(history: seq<PriceRow>, nmid: int, limit: int, i: nat)
    requires i < |History(history, nmid, limit)|
    ensures exists r | r in history :: r.nmid == nmid && AsPoint(r) == History(history, nmid, limit)[i]
  {
    var all := RowsOf(history, nmid);
    var s := NewestFirst(all);
    NewestFirstPermutes(all);
    assert Limited(s, limit)[i] == s[i] && s[i] in multiset(all);
    assert s[i] in all;
  }

  /** No snapshot of the article is newer than the first point listed. */
  lemma HistoryStartsNewest(history: seq<PriceRow>, nmid: int, limit: int, r: PriceRow)
    requires History(history, nmid, limit) != []
    requires r in history && r.nmid == nmid
    ensures r.ts <= History(history, nmid, limit)[0].ts
  {
    var all := RowsOf(history, nmid);
    var s := NewestFirst(all);
    NewestFirstIsSorted(all);
    NewestFirstPermutes(all);
    RowsOfComplete(history, nmid, r);
    assert r in multiset(s);
    var m :| 0 <= m < |s| && s[m] == r;
    assert m == 0 || s[0].ts >= s[m].ts;
    assert Limited(s, limit)[0] == s[0];
  }

  /** Every row of the article is among its rows. */
  lemma {:induction false} RowsOfComplete(history: seq<PriceRow>, nmid: int, r: PriceRow)
    requires r in history && r.nmid == nmid
    ensures r in RowsOf(history, nmid)
  {
    var n := |history| - 1;
    if history[n] != r {
      var k :| 0 <= k < |history| && history[k] == r;
      assert history[..n][k] == r;
      RowsOfComplete(history[..n], nmid, r);
    }
  }

  /** The four tables' worth of state `Storage` keeps in SQLite. */
  class Storage {
    var cache: map<string, CacheRow>
    var rateLimit: map<int, RateRow>
    var priceHistory: seq<PriceRow>

    /** `connect()` on a fresh database: every table empty. */
    constructor()
      ensures cache == map[] && rateLimit == map[] && priceHistory == []
    {
      cache, rateLimit, priceHistory := map[], map[], [];
    }

    /** Lines 57-72: a live entry's text; a stale one is deleted and reads as missing. */
    method CacheGet(key: string, now: int) returns (value: Option<string>)
      modifies this
      ensures value == CacheValue(old(cache), key, now)
      ensures cache == CacheAfterGet(old(cache), key, now)
      ensures rateLimit == old(rateLimit) && priceHistory == old(priceHistory)
    {
      if key !in cache {
        return None;
      }
      var row := cache[key];
      if now - row.updatedAt > row.ttlSeconds {
        cache := cache - {key};
        return None;
      }
      return Some(row.valueJson);
    }

    /** Lines 74-82: the upsert. */
    method CacheSet(key: string, valueJson: string, ttlSeconds: int, now: int)
      modifies this
      ensures cache == CacheAfterSet(old(cache), key, valueJson, ttlSeconds, now)
      ensures rateLimit == old(rateLimit) && priceHistory == old(priceHistory)
    {
      cache := cache[key := CacheRow(valueJson, now, ttlSeconds)];
    }

    /** Lines 85-107: the fixed-window limiter. */
    method RateLimitAllow(user: int, windowSeconds: int, maxRequests: int, now: int) returns (allowed: bool)
      modifies this
      ensures allowed == RateAllowed(old(rateLimit), user, now, windowSeconds, maxRequests)
      ensures rateLimit == RateAfter(old(rateLimit), user, now, windowSeconds, maxRequests)
      ensures cache == old(cache) && priceHistory == old(priceHistory)
    {
      if user !in rateLimit {
        rateLimit := rateLimit[user := RateRow(now, 1)];
        return true;
      }
      var row := rateLimit[user];
      if now - row.windowStart >= windowSeconds {
        rateLimit := rateLimit[user := RateRow(now, 1)];
        return true;
      }
      if row.count >= maxRequests {
        return false;
      }
      rateLimit := rateLimit[user := RateRow(row.windowStart, row.count + 1)];
      return true;
    }

    /** Lines 110-128: store a snapshot unless it repeats the article's latest prices. */
    method PriceAddSnapshot(nmid: int, basicU: Option<int>, productU: Option<int>, ts: Option<int>, now: int)
      modifies this
      ensures priceHistory == HistoryAfterAdd(old(priceHistory), nmid, basicU, productU, ts, now)
      ensures cache == old(cache) && rateLimit == old(rateLimit)
    {
      var tsI := StampOrNow(ts, now);
      var last := Latest(priceHistory, nmid);
      if last.Some? && last.value.basicU == basicU && last.value.productU == productU {
        return;
      }
      priceHistory := priceHistory + [PriceRow(nmid, tsI, basicU, productU)];
    }

    /** Lines 130-137: the article's snapshots, newest first, at most `limit` of them. */
    method PriceGetHistory(nmid: int, limit: int) returns (points: seq<PricePoint>)
      ensures points == History(priceHistory, nmid, limit)
      ensures forall i, j | 0 <= i < j < |points| :: points[i].ts >= points[j].ts
      ensures limit >= 0 ==> |points| <= limit
    {
      var rows := Limited(NewestFirst(RowsOf(priceHistory, nmid)), limit);
      points := seq(|rows|, i requires 0 <= i < |rows| => AsPoint(rows[i]));
      HistoryIsNewestFirst(priceHistory, nmid, limit);
    }
  }
}
