/** The rate-limiting middleware: a sliding window per client address and route
    over a log of admitted requests, and a second window over a log of
    violations that blacklists a client once it has been refused too often.
    Both logs live in the database; here they are the two sequences of a
    `LogStore`, and a database call that throws is named by a `DbFault`. */
module RateLimit {
  import opened Runtime

  datatype Config = Config(limit: nat, window: nat, blacklistThreshold: nat, blacklistWindow: nat)

  /** The routes the limiter guards; windows are in seconds. */
  const RouteConfigs: map<string, Config> := map[
    "/api/chat" := Config(5, 60, 3, 3600),
    "/api/shorten" := Config(10, 60, 5, 3600),
    "/api/pastes" := Config(10, 60, 5, 3600),
    "/api/upload" := Config(5, 60, 3, 3600)
  ]

  /** A row of `requestLog` or `blacklistLog`; `timestamp` is `Date.now()` in milliseconds. */
  datatype LogEntry = LogEntry(ip: string, path: string, timestamp: int)

  datatype Logs = Logs(requests: seq<LogEntry>, blacklist: seq<LogEntry>)

  /** `null` lets the request through; a response refuses it. */
  datatype Verdict = Pass | Reject(status: nat, error: string)

  const Blacklisted: Verdict := Reject(403, "You have been blacklisted from this service")
  const TooManyRequests: Verdict := Reject(429, "Too many requests")

  datatype Outcome = Outcome(verdict: Verdict, logs: Logs)

  /** The database call that throws, if the handler reaches it. */
  datatype DbFault =
    | NoDbFault | CountBlacklistFails | CountRequestsFails
    | CreateBlacklistFails | CreateRequestFails | DeleteFails

  /** The client address: the first entry of `x-forwarded-for`, trimmed, or the
      loopback address when the header is absent. An empty header gives `""`. */
  function ClientIp(forwarded: Option<string>): (ip: string)
    ensures ',' !in ip
    ensures forwarded.None? ==> ip == "127.0.0.1"
    ensures forwarded.Some? && ',' !in forwarded.value ==> ip == Trim(forwarded.value)
    ensures forwarded.Some? ==> ip == [] || (!IsJsWhitespace(ip[0]) && !IsJsWhitespace(ip[|ip| - 1]))
  {
    match forwarded
    case None => "127.0.0.1"
    case Some(header) =>
      var first := FirstField(header, ',');
      TrimOmits(first, ',');
      if ',' in header then Trim(first)
      else FirstFieldWhole(header, ','); Trim(first)
  }

  /** A proxy chain `client, proxy, …` identifies the client by its first hop. */
  lemma ClientIpOfChain(client: string, proxies: string)
    requires ',' !in client
    ensures ClientIp(Some(client + "," + proxies)) == Trim(client)
  {
    FirstFieldOfJoin(client, proxies, ',');
  }

  /** `count` with `where: { ip, path, timestamp: { gt: after } }`. */
  function CountAfter(log: seq<LogEntry>, ip: string, path: string, after: int): (n: nat)
    ensures n <= |log|
  {
    if log == [] then 0
    else
      var e := log[|log| - 1];
      CountAfter(log[..|log| - 1], ip, path, after)
      + (if e.ip == ip && e.path == path && e.timestamp > after then 1 else 0)
  }

  /** `deleteMany` with `where: { timestamp: { lt: start } }`, for every address and route. */
  function Prune(log: seq<LogEntry>, start: int): (r: seq<LogEntry>)
    ensures |r| <= |log|
    ensures forall i | 0 <= i < |r| :: r[i].timestamp >= start && r[i] in log
  {
    if log == [] then []
    else
      var init := log[..|log| - 1];
      var e := log[|log| - 1];
      assert log == init + [e];
      Prune(init, start) + (if e.timestamp < start then [] else [e])
  }

  /** Every entry from `start` on survives the pruning. */
  lemma {:induction false} PruneKeepsRecent(log: seq<LogEntry>, start: int, i: nat)
    requires i < |log| && log[i].timestamp >= start
    ensures log[i] in Prune(log, start)
  {
    var init := log[..|log| - 1];
    if i < |log| - 1 {
      assert init[i] == log[i];
      PruneKeepsRecent(init, start, i);
    }
  }

  /** Pruning before `start` loses no entry that a count over a window starting at
      or after `start` would see. */
  lemma {:induction false} PruneKeepsWindow(log: seq<LogEntry>, ip: string, path: string, start: int, after: int)
    requires after >= start
    ensures CountAfter(Prune(log, start), ip, path, after) == CountAfter(log, ip, path, after)
  {
    if log != [] {
      var init := log[..|log| - 1];
      var e := log[|log| - 1];
      PruneKeepsWindow(init, ip, path, start, after);
      var p := Prune(init, start);
      if e.timestamp >= start {
        assert (p + [e])[..|p + [e]| - 1] == p;
      } else {
        assert p + [] == p;
      }
    }
  }

  lemma CountAppend(log: seq<LogEntry>, e: LogEntry, ip: string, path: string, after: int)
    ensures CountAfter(log + [e], ip, path, after)
         == CountAfter(log, ip, path, after) + (if e.ip == ip && e.path == path && e.timestamp > after then 1 else 0)
  {
    assert (log + [e])[..|log + [e]| - 1] == log;
  }

  /** The configuration of a route, when the limiter guards it. */
  function ConfigFor(path: string): (c: Option<Config>)
    ensures c.Some? <==> path in RouteConfigs
    ensures c.Some? ==> 0 < c.value.window && 0 < c.value.limit
  {
    if path in RouteConfigs then Some(RouteConfigs[path]) else None
  }

  /** The middleware as a whole, for the client `ip` on a route configured by
      `config`: from the logs before the request to the verdict and the logs
      after it. Every call that throws lets the request through. */
  function Decide(logs: Logs, ip: string, path: string, config: Option<Config>, now: int, fault: DbFault)
    : (r: Outcome)
    ensures config.None? ==> r == Outcome(Pass, logs)
    ensures r.verdict.Reject? ==> r.verdict == Blacklisted || r.verdict == TooManyRequests
    ensures r.verdict == Blacklisted ==> r.logs == logs
    ensures r.verdict == TooManyRequests ==>
              r.logs == logs.(blacklist := logs.blacklist + [LogEntry(ip, path, now)])
    ensures r.verdict == Pass ==> r.logs.blacklist == logs.blacklist
    ensures fault == CountBlacklistFails ==> r == Outcome(Pass, logs)
  {
    match config
    case None => Outcome(Pass, logs)
    case Some(c) =>
      var windowStart := now - c.window * 1000;
      var blacklistWindowStart := now - c.blacklistWindow * 1000;
      var entry := LogEntry(ip, path, now);
      if fault == CountBlacklistFails then Outcome(Pass, logs)
      else if CountAfter(logs.blacklist, ip, path, blacklistWindowStart) >= c.blacklistThreshold then
        Outcome(Blacklisted, logs)
      else if fault == CountRequestsFails then Outcome(Pass, logs)
      else if CountAfter(logs.requests, ip, path, windowStart) >= c.limit then
        if fault == CreateBlacklistFails then Outcome(Pass, logs)
        else Outcome(TooManyRequests, logs.(blacklist := logs.blacklist + [entry]))
      else if fault == CreateRequestFails then Outcome(Pass, logs)
      else Outcome(Pass, Logs(Record(logs.requests, entry, windowStart, fault), logs.blacklist))
  }

  /** `requestLog.create` of `entry`, then the `deleteMany` unless it throws. */
  function Record(requests: seq<LogEntry>, entry: LogEntry, windowStart: int, fault: DbFault): seq<LogEntry>
  {
    var added := requests + [entry];
    if fault == DeleteFails then added else Prune(added, windowStart)
  }

  /** Recording a request inside its window counts it once and keeps it. */
  lemma RecordCounts(requests: seq<LogEntry>, entry: LogEntry, windowStart: int, fault: DbFault)
    requires entry.timestamp > windowStart
    ensures var r := Record(requests, entry, windowStart, fault);
            && CountAfter(r, entry.ip, entry.path, windowStart) == CountAfter(requests, entry.ip, entry.path, windowStart) + 1
            && entry in r
  {
    var added := requests + [entry];
    CountAppend(requests, entry, entry.ip, entry.path, windowStart);
    assert added[|requests|] == entry;
    if fault != DeleteFails {
      PruneKeepsWindow(added, entry.ip, entry.path, windowStart, windowStart);
      PruneKeepsRecent(added, windowStart, |requests|);
    }
  }

  /** A request the limiter records leaves at most `limit` entries for its client and
      route inside the window, one more than before, and the request itself is among them. */
  lemma RecordedWithinLimit(logs: Logs, ip: string, path: string, c: Config, now: int, fault: DbFault)
    requires c.window > 0
    ensures var r := Decide(logs, ip, path, Some(c), now, fault);
            var windowStart := now - c.window * 1000;
            r.logs.requests != logs.requests ==>
              && CountAfter(r.logs.requests, ip, path, windowStart) == CountAfter(logs.requests, ip, path, windowStart) + 1
              && CountAfter(r.logs.requests, ip, path, windowStart) <= c.limit
              && LogEntry(ip, path, now) in r.logs.requests
  {
    var r := Decide(logs, ip, path, Some(c), now, fault);
    var windowStart := now - c.window * 1000;
    var entry := LogEntry(ip, path, now);
    if r.logs.requests != logs.requests {
      assert r.logs.requests == Record(logs.requests, entry, windowStart, fault);
      RecordCounts(logs.requests, entry, windowStart, fault);
    }
  }

  /** The database failing never refuses a request: a refusal under a fault is the
      refusal a healthy database gives, and a request a healthy database lets through
      goes through. */
  lemma FailOpen(logs: Logs, ip: string, path: string, config: Option<Config>, now: int, fault: DbFault)
    ensures var healthy := Decide(logs, ip, path, config, now, NoDbFault);
            var faulty := Decide(logs, ip, path, config, now, fault);
            && (faulty.verdict.Reject? ==> faulty == healthy)
            && (healthy.verdict == Pass ==> faulty.verdict == Pass)
  {
  }

  /** The window bounds are strict at both ends: an entry stamped exactly at the
      start of the window is neither counted nor deleted. */
  lemma WindowStartIsExclusive(log: seq<LogEntry>, e: LogEntry)
    ensures CountAfter(log + [e], e.ip, e.path, e.timestamp) == CountAfter(log, e.ip, e.path, e.timestamp)
    ensures e in Prune(log + [e], e.timestamp)
  {
    CountAppend(log, e, e.ip, e.path, e.timestamp);
    PruneKeepsRecent(log + [e], e.timestamp, |log|);
  }

  /** The upload route admits five requests a minute and blacklists after three
      refusals within an hour. */
  lemma UploadRouteLimits(logs: Logs, ip: string, now: int)
    ensures var r := Decide(logs, ip, "/api/upload", ConfigFor("/api/upload"), now, NoDbFault);
            var blacklisted := CountAfter(logs.blacklist, ip, "/api/upload", now - 3600000) >= 3;
            var full := CountAfter(logs.requests, ip, "/api/upload", now - 60000) >= 5;
            && (r.verdict == Blacklisted <==> blacklisted)
            && (r.verdict == TooManyRequests <==> !blacklisted && full)
            && (r.verdict == Pass <==> !blacklisted && !full)
  {
    assert ConfigFor("/api/upload") == Some(Config(5, 60, 3, 3600));
  }

  /** The decision for any configured route with a healthy database: 403 once the
      client has `blacklistThreshold` violations in the long window, else 429 once it
      has `limit` requests in the short window, else the request is recorded and the
      request log is pruned at the start of the short window. */
  lemma DecisionTable(logs: Logs, ip: string, path: string, c: Config, now: int)
    ensures var r := Decide(logs, ip, path, Some(c), now, NoDbFault);
            var windowStart := now - c.window * 1000;
            var blacklisted := CountAfter(logs.blacklist, ip, path, now - c.blacklistWindow * 1000) >= c.blacklistThreshold;
            var full := CountAfter(logs.requests, ip, path, windowStart) >= c.limit;
            && (r.verdict == Blacklisted <==> blacklisted)
            && (r.verdict == TooManyRequests <==> !blacklisted && full)
            && (r.verdict == Pass <==> !blacklisted && !full)
            && (r.verdict == Pass ==>
                  r.logs == Logs(Prune(logs.requests + [LogEntry(ip, path, now)], windowStart), logs.blacklist))
  {
  }

  /** The database tables the limiter reads and writes. */
  class LogStore {
    var requestLog: seq<LogEntry>
    var blacklistLog: seq<LogEntry>

    constructor()
      ensures requestLog == [] && blacklistLog == []
    {
      requestLog, blacklistLog := [], [];
    }

    function Tables(): Logs
      reads this
    {
      Logs(requestLog, blacklistLog)
    }

    /** `prisma.blacklistLog.create` */
    method CreateBlacklist(e: LogEntry)
      modifies this
      ensures blacklistLog == old(blacklistLog) + [e] && requestLog == old(requestLog)
    {
      blacklistLog := blacklistLog + [e];
    }

    /** `prisma.requestLog.create` */
    method CreateRequest(e: LogEntry)
      modifies this
      ensures requestLog == old(requestLog) + [e] && blacklistLog == old(blacklistLog)
    {
      requestLog := requestLog + [e];
    }

    /** `prisma.requestLog.deleteMany` of the entries older than `start`. */
    method DeleteRequestsBefore(start: int)
      modifies this
      ensures requestLog == Prune(old(requestLog), start) && blacklistLog == old(blacklistLog)
    {
      requestLog := Prune(requestLog, start);
    }
  }

  /** The middleware: the calls in the order the handler makes them; the first call
      that throws ends it with `null`. */
  method RateLimit(db: LogStore, forwarded: Option<string>, path: string, now: int, fault: DbFault)
    returns (v: Verdict)
    modifies db
    ensures Outcome(v, db.Tables()) == Decide(old(db.Tables()), ClientIp(forwarded), path, ConfigFor(path), now, fault)
  {
    v := LimitClient(db, ClientIp(forwarded), path, now, fault);
  }

  /** The middleware once the client address is known. */
  method LimitClient(db: LogStore, ip: string, path: string, now: int, fault: DbFault)
    returns (v: Verdict)
    modifies db
    ensures Outcome(v, db.Tables()) == Decide(old(db.Tables()), ip, path, ConfigFor(path), now, fault)
  {
    var found := ConfigFor(path);
    if found.None? {
      return Pass;
    }
    var config := found.value;
    var windowStart := now - config.window * 1000;
    var blacklistWindowStart := now - config.blacklistWindow * 1000;
    if fault == CountBlacklistFails {
      return Pass;
    }
    var blacklistCount := CountAfter(db.blacklistLog, ip, path, blacklistWindowStart);
    if blacklistCount >= config.blacklistThreshold {
      return Blacklisted;
    }
    if fault == CountRequestsFails {
      return Pass;
    }
    var requestCount := CountAfter(db.requestLog, ip, path, windowStart);
    if requestCount >= config.limit {
      if fault == CreateBlacklistFails {
        return Pass;
      }
      db.CreateBlacklist(LogEntry(ip, path, now));
      return TooManyRequests;
    }
    if fault == CreateRequestFails {
      return Pass;
    }
    db.CreateRequest(LogEntry(ip, path, now));
    if fault == DeleteFails {
      return Pass;
    }
    db.DeleteRequestsBefore(windowStart);
    return Pass;
  }
}
