/**
 * The logger: three linked lists of timestamped entries (device, console and
 * event logs) and an age limit. Adding a device or event entry first prunes
 * the expired entries from the head of that list and then appends the new
 * entry at the tail; adding a console entry only appends.
 *
 * Time is a whole number of seconds. The clock is not read here: every add
 * takes the current time `now` as a parameter. An entry is expired at `now`
 * when it is older than `oldestLogAge`, that is `now - timestamp > oldestLogAge`.
 */
module Logging {
  import opened Optional
  import opened LinkedLists

  /** The age limit a new logger starts with: one minute. */
  const DefaultOldestLogAge: int := 60

  /**
   * A log entry. Every kind carries a timestamp. The device entry's memory,
   * disk and battery readings are not part of this model.
   */
  datatype LogEntry =
    | DeviceLogEntry(timestamp: int)
    | ConsoleLogEntry(timestamp: int, log: string)
    | EventLogEntry(timestamp: int, eventType: int)

  datatype Logger = Logger(
    deviceLogs: LinkedList<LogEntry>,
    consoleLogs: LinkedList<LogEntry>,
    eventLogs: LinkedList<LogEntry>,
    oldestLogAge: int)

  /** Each of the three logs is a well-formed list. */
  ghost predicate LogsValid(g: Logger) {
    Valid(g.deviceLogs) && Valid(g.consoleLogs) && Valid(g.eventLogs)
  }

  predicate Expired(e: LogEntry, now: int, age: int) {
    now - e.timestamp > age
  }

  /** Entries in increasing chronological order (equal timestamps allowed). */
  ghost predicate Chronological(s: seq<LogEntry>) {
    forall i, j :: 0 <= i < j < |s| ==> s[i].timestamp <= s[j].timestamp
  }

  /** No entry of `s` is later than `t`. */
  ghost predicate NotAfter(s: seq<LogEntry>, t: int) {
    forall i :: 0 <= i < |s| ==> s[i].timestamp <= t
  }

  // ---------------------------------------------------------------------------
  // Reference definitions of what pruning keeps

  /** The length of the longest prefix of `s` whose entries are all expired. */
  function ExpiredPrefix(s: seq<LogEntry>, now: int, age: int): (n: nat)
    ensures n <= |s|
    ensures forall i :: 0 <= i < n ==> Expired(s[i], now, age)
    ensures n < |s| ==> !Expired(s[n], now, age)
  {
    if s != [] && Expired(s[0], now, age) then 1 + ExpiredPrefix(s[1..], now, age) else 0
  }

  /** The entries of `s` that are not expired, in their original order. */
  function InWindow(s: seq<LogEntry>, now: int, age: int): (r: seq<LogEntry>)
    ensures forall e :: e in r ==> e in s && !Expired(e, now, age)
    ensures forall e :: e in s && !Expired(e, now, age) ==> e in r
  {
    if s == [] then []
    else (if Expired(s[0], now, age) then [] else [s[0]]) + InWindow(s[1..], now, age)
  }

  // ---------------------------------------------------------------------------
  // Pruning

  /** Whether the head of `l` is an expired entry. */
  function HeadExpired(l: LinkedList<LogEntry>, now: int, age: int): (b: bool)
    ensures b <==> AllObjects(l) != [] && Expired(AllObjects(l)[0], now, age)
  {
    match FirstObject(l)
    case Some(e) => Expired(e, now, age)
    case None => false
  }

  /** Dropping the head and then `m` more elements drops `1 + m` elements. */
  lemma DropHeadThenPrefix<T>(s: seq<T>, t: seq<T>, r: seq<T>, m: nat)
    requires s != [] && t == s[1..] && m <= |t| && r == t[m..]
    ensures r == s[1 + m..]
  {
  }

  /**
   * Pop the head while it is expired. Only a prefix is removed, and it is
   * exactly the longest expired one; the remaining entries keep their
   * locations and objects, and no location is handed out again.
   */
  function Prune(l: LinkedList<LogEntry>, now: int, age: int): (r: LinkedList<LogEntry>)
    requires Valid(l)
    ensures Valid(r)
    ensures AllObjects(r) == AllObjects(l)[ExpiredPrefix(AllObjects(l), now, age)..]
    ensures r.cells == l.cells[ExpiredPrefix(AllObjects(l), now, age)..]
    ensures Live(r) <= Live(l)
    ensures KeepsObjects(l, r)
    ensures NeverReuses(l, r)
    decreases |l.cells|
  {
    if HeadExpired(l, now, age) then
      var l1 := RemoveFirstObject(l);
      var r := Prune(l1, now, age);
      var n1 := ExpiredPrefix(AllObjects(l1), now, age);
      assert ExpiredPrefix(AllObjects(l), now, age) == 1 + n1;
      DropHeadThenPrefix(l.cells, l1.cells, r.cells, n1);
      DropHeadThenPrefix(AllObjects(l), AllObjects(l1), AllObjects(r), n1);
      KeepsObjectsTransitive(l, l1, r);
      r
    else
      l
  }

  /** The pruning loop: repeatedly remove the first object while it is expired. */
  method PruneExpired(l: LinkedList<LogEntry>, now: int, age: int) returns (r: LinkedList<LogEntry>)
    requires Valid(l)
    ensures Valid(r)
    ensures r == Prune(l, now, age)
    ensures !HeadExpired(r, now, age)
  {
    r := l;
    while HeadExpired(r, now, age)
      invariant Valid(r)
      invariant Prune(r, now, age) == Prune(l, now, age)
      decreases |r.cells|
    {
      r := RemoveFirstObject(r);
    }
  }

  /** Prune-then-append on one list, the policy shared by the device and event logs. */
  function Admit(l: LinkedList<LogEntry>, e: LogEntry, now: int, age: int): (r: LinkedList<LogEntry>)
    requires Valid(l)
    ensures Valid(r)
    ensures AllObjects(r) == AllObjects(l)[ExpiredPrefix(AllObjects(l), now, age)..] + [e]
    ensures LastObject(r) == Some(e)
    ensures NeverReuses(l, r)
  {
    AddObject(Prune(l, now, age), e).0
  }

  // ---------------------------------------------------------------------------
  // The logger's operations

  /** A new logger: three empty logs and the default age limit. */
  function NewLogger(): (g: Logger)
    ensures LogsValid(g)
    ensures g.oldestLogAge == 60
    ensures AllObjects(g.deviceLogs) == [] && AllObjects(g.consoleLogs) == [] && AllObjects(g.eventLogs) == []
  {
    Logger(Empty(), Empty(), Empty(), DefaultOldestLogAge)
  }

  /** The `oldestLogAge` setter: the logs themselves are not touched until the next add. */
  function SetOldestLogAge(g: Logger, age: int): (r: Logger)
    ensures r.oldestLogAge == age
    ensures r.deviceLogs == g.deviceLogs && r.consoleLogs == g.consoleLogs && r.eventLogs == g.eventLogs
  {
    g.(oldestLogAge := age)
  }

  /** `-addDeviceLog:`: prune the expired device entries, then append `e`. */
  function AddDeviceLog(g: Logger, e: LogEntry, now: int): (r: Logger)
    requires LogsValid(g)
    ensures LogsValid(r)
    ensures AllObjects(r.deviceLogs) == AllObjects(g.deviceLogs)[ExpiredPrefix(AllObjects(g.deviceLogs), now, g.oldestLogAge)..] + [e]
    ensures r.consoleLogs == g.consoleLogs && r.eventLogs == g.eventLogs
    ensures r.oldestLogAge == g.oldestLogAge
  {
    g.(deviceLogs := Admit(g.deviceLogs, e, now, g.oldestLogAge))
  }

  /** `-addConsoleLog:`: append `e`; console entries are never pruned. */
  function AddConsoleLog(g: Logger, e: LogEntry): (r: Logger)
    requires LogsValid(g)
    ensures LogsValid(r)
    ensures AllObjects(r.consoleLogs) == AllObjects(g.consoleLogs) + [e]
    ensures Live(g.consoleLogs) <= Live(r.consoleLogs)
    ensures r.deviceLogs == g.deviceLogs && r.eventLogs == g.eventLogs
    ensures r.oldestLogAge == g.oldestLogAge
  {
    g.(consoleLogs := AddObject(g.consoleLogs, e).0)
  }

  /** `-addEventLog:`: prune the expired event entries, then append `e`. */
  function AddEventLog(g: Logger, e: LogEntry, now: int): (r: Logger)
    requires LogsValid(g)
    ensures LogsValid(r)
    ensures AllObjects(r.eventLogs) == AllObjects(g.eventLogs)[ExpiredPrefix(AllObjects(g.eventLogs), now, g.oldestLogAge)..] + [e]
    ensures r.deviceLogs == g.deviceLogs && r.consoleLogs == g.consoleLogs
    ensures r.oldestLogAge == g.oldestLogAge
  {
    g.(eventLogs := Admit(g.eventLogs, e, now, g.oldestLogAge))
  }

  // ---------------------------------------------------------------------------
  // Properties of the pruning policy

  /** In a chronological log, once one entry is within the window so is every later one. */
  lemma {:induction false} LaterEntriesStayInWindow(s: seq<LogEntry>, now: int, age: int)
    requires Chronological(s) && s != [] && !Expired(s[0], now, age)
    ensures InWindow(s, now, age) == s
    decreases |s|
  {
    var t := s[1..];
    if |s| > 1 {
      assert t[0] == s[1] && s[0].timestamp <= s[1].timestamp;
      assert Chronological(t) by {
        forall i, j | 0 <= i < j < |t| ensures t[i].timestamp <= t[j].timestamp {
          assert t[i] == s[i + 1] && t[j] == s[j + 1];
        }
      }
      LaterEntriesStayInWindow(t, now, age);
    } else {
      assert t == [];
    }
    assert InWindow(s, now, age) == [s[0]] + InWindow(t, now, age);
    assert s == [s[0]] + t;
  }

  /**
   * Pruning a chronological log removes exactly the expired entries: the
   * longest expired prefix is everything that is out of the window.
   */
  lemma {:induction false} PrunedIsInWindow(s: seq<LogEntry>, now: int, age: int)
    requires Chronological(s)
    ensures s[ExpiredPrefix(s, now, age)..] == InWindow(s, now, age)
    decreases |s|
  {
    if s == [] {
    } else if Expired(s[0], now, age) {
      var t := s[1..];
      var n := ExpiredPrefix(t, now, age);
      assert ExpiredPrefix(s, now, age) == 1 + n;
      assert InWindow(s, now, age) == [] + InWindow(t, now, age) == InWindow(t, now, age);
      PrunedIsInWindow(t, now, age);
      assert s[1 + n..] == t[n..];
    } else {
      LaterEntriesStayInWindow(s, now, age);
    }
  }

  /** The expired prefix is the only one that is expired throughout and followed by a live entry. */
  lemma {:induction false} ExpiredPrefixUnique(s: seq<LogEntry>, now: int, age: int, n: nat)
    requires n <= |s|
    requires forall i :: 0 <= i < n ==> Expired(s[i], now, age)
    requires n < |s| ==> !Expired(s[n], now, age)
    ensures ExpiredPrefix(s, now, age) == n
    decreases n
  {
    if n > 0 {
      ExpiredPrefixUnique(s[1..], now, age, n - 1);
    }
  }

  /** Appending an entry no earlier than every logged one keeps the order; so does dropping a prefix. */
  lemma ChronologicalSuffixAppend(s: seq<LogEntry>, k: nat, e: LogEntry)
    requires Chronological(s) && NotAfter(s, e.timestamp) && k <= |s|
    ensures Chronological(s[k..] + [e])
  {
    var t := s[k..] + [e];
    forall i, j | 0 <= i < j < |t| ensures t[i].timestamp <= t[j].timestamp {
      assert t[i] == s[k + i];
      if j < |t| - 1 {
        assert t[j] == s[k + j];
      }
    }
  }

  /**
   * After `-addDeviceLog:` on a chronological device log, the log holds
   * exactly the entries that were within the window at `now`, in their
   * original order, followed by the new entry; if the new entry is no
   * earlier than the logged ones, the log is still chronological.
   */
  lemma AddDeviceLogWindow(g: Logger, e: LogEntry, now: int)
    requires LogsValid(g) && Chronological(AllObjects(g.deviceLogs))
    ensures AllObjects(AddDeviceLog(g, e, now).deviceLogs) == InWindow(AllObjects(g.deviceLogs), now, g.oldestLogAge) + [e]
    ensures NotAfter(AllObjects(g.deviceLogs), e.timestamp) ==> Chronological(AllObjects(AddDeviceLog(g, e, now).deviceLogs))
  {
    var s := AllObjects(g.deviceLogs);
    PrunedIsInWindow(s, now, g.oldestLogAge);
    if NotAfter(s, e.timestamp) {
      ChronologicalSuffixAppend(s, ExpiredPrefix(s, now, g.oldestLogAge), e);
    }
  }

  /** The same window theorem for `-addEventLog:` on the event log. */
  lemma AddEventLogWindow(g: Logger, e: LogEntry, now: int)
    requires LogsValid(g) && Chronological(AllObjects(g.eventLogs))
    ensures AllObjects(AddEventLog(g, e, now).eventLogs) == InWindow(AllObjects(g.eventLogs), now, g.oldestLogAge) + [e]
    ensures NotAfter(AllObjects(g.eventLogs), e.timestamp) ==> Chronological(AllObjects(AddEventLog(g, e, now).eventLogs))
  {
    var s := AllObjects(g.eventLogs);
    PrunedIsInWindow(s, now, g.oldestLogAge);
    if NotAfter(s, e.timestamp) {
      ChronologicalSuffixAppend(s, ExpiredPrefix(s, now, g.oldestLogAge), e);
    }
  }

  /** A console entry no earlier than the logged ones keeps the console log chronological. */
  lemma AddConsoleLogChronological(g: Logger, e: LogEntry)
    requires LogsValid(g) && Chronological(AllObjects(g.consoleLogs))
    requires NotAfter(AllObjects(g.consoleLogs), e.timestamp)
    ensures Chronological(AllObjects(AddConsoleLog(g, e).consoleLogs))
  {
    ChronologicalSuffixAppend(AllObjects(g.consoleLogs), 0, e);
    assert AllObjects(g.consoleLogs)[0..] == AllObjects(g.consoleLogs);
  }

  /** Adding a run of console entries keeps every one of them: the console log is never pruned. */
  function AddConsoleLogs(g: Logger, es: seq<LogEntry>): (r: Logger)
    requires LogsValid(g)
    ensures LogsValid(r)
    ensures AllObjects(r.consoleLogs) == AllObjects(g.consoleLogs) + es
    ensures r.deviceLogs == g.deviceLogs && r.eventLogs == g.eventLogs
    decreases |es|
  {
    if es == [] then
      assert AllObjects(g.consoleLogs) + es == AllObjects(g.consoleLogs);
      g
    else
      var g1 := AddConsoleLog(g, es[0]);
      assert AllObjects(g.consoleLogs) + es == AllObjects(g1.consoleLogs) + es[1..];
      AddConsoleLogs(g1, es[1..])
  }

  /** One `-addDeviceLog:` on a log whose first `n` entries, and no more, are expired. */
  lemma AddDeviceLogDrops(g: Logger, e: LogEntry, now: int, n: nat)
    requires LogsValid(g) && n <= |AllObjects(g.deviceLogs)|
    requires forall i :: 0 <= i < n ==> Expired(AllObjects(g.deviceLogs)[i], now, g.oldestLogAge)
    requires n < |AllObjects(g.deviceLogs)| ==> !Expired(AllObjects(g.deviceLogs)[n], now, g.oldestLogAge)
    ensures AllObjects(AddDeviceLog(g, e, now).deviceLogs) == AllObjects(g.deviceLogs)[n..] + [e]
  {
    ExpiredPrefixUnique(AllObjects(g.deviceLogs), now, g.oldestLogAge, n);
  }

  /** When the oldest device entry is within the window, `-addDeviceLog:` only appends. */
  lemma AddDeviceLogKeepsFreshLog(g: Logger, e: LogEntry, now: int)
    requires LogsValid(g)
    requires AllObjects(g.deviceLogs) != [] ==> !Expired(AllObjects(g.deviceLogs)[0], now, g.oldestLogAge)
    ensures AllObjects(AddDeviceLog(g, e, now).deviceLogs) == AllObjects(g.deviceLogs) + [e]
  {
    AddDeviceLogDrops(g, e, now, 0);
    assert AllObjects(g.deviceLogs)[0..] == AllObjects(g.deviceLogs);
  }

  /** `s` is `t` plus `y`, with `t` known to be the list `known`. */
  lemma SnocOnto<T>(s: seq<T>, t: seq<T>, known: seq<T>, y: T)
    requires t == known && s == t + [y]
    ensures s == known + [y]
  {
  }

  /** The first two adds of the scenario below: nothing is old enough to be pruned yet. */
  lemma ScenarioFirstAdds(g: Logger)
    requires LogsValid(g) && g.oldestLogAge == 25 && AllObjects(g.deviceLogs) == []
    ensures AllObjects(AddDeviceLog(AddDeviceLog(g, DeviceLogEntry(0), 0), DeviceLogEntry(10), 10).deviceLogs)
         == [DeviceLogEntry(0), DeviceLogEntry(10)]
  {
    var g1 := AddDeviceLog(g, DeviceLogEntry(0), 0);
    var g2 := AddDeviceLog(g1, DeviceLogEntry(10), 10);
    AddDeviceLogKeepsFreshLog(g, DeviceLogEntry(0), 0);
    SnocOnto(AllObjects(g1.deviceLogs), AllObjects(g.deviceLogs), [], DeviceLogEntry(0));
    AddDeviceLogKeepsFreshLog(g1, DeviceLogEntry(10), 10);
    SnocOnto(AllObjects(g2.deviceLogs), AllObjects(g1.deviceLogs), [DeviceLogEntry(0)], DeviceLogEntry(10));
  }

  /** The third and fourth adds: the entry at 0 seconds is pruned at 30 seconds. */
  lemma ScenarioMiddleAdds(g: Logger)
    requires LogsValid(g) && g.oldestLogAge == 25
    requires AllObjects(g.deviceLogs) == [DeviceLogEntry(0), DeviceLogEntry(10)]
    ensures AllObjects(AddDeviceLog(AddDeviceLog(g, DeviceLogEntry(20), 20), DeviceLogEntry(30), 30).deviceLogs)
         == [DeviceLogEntry(10), DeviceLogEntry(20), DeviceLogEntry(30)]
  {
    AddDeviceLogKeepsFreshLog(g, DeviceLogEntry(20), 20);
    SlideWindow(AddDeviceLog(g, DeviceLogEntry(20), 20), DeviceLogEntry(0), DeviceLogEntry(10), DeviceLogEntry(20), DeviceLogEntry(30), 30);
  }

  /** A device log of three entries whose oldest alone has expired slides forward by one. */
  lemma SlideWindow(g: Logger, a: LogEntry, b: LogEntry, c: LogEntry, e: LogEntry, now: int)
    requires LogsValid(g) && AllObjects(g.deviceLogs) == [a, b, c]
    requires Expired(a, now, g.oldestLogAge) && !Expired(b, now, g.oldestLogAge)
    ensures AllObjects(AddDeviceLog(g, e, now).deviceLogs) == [b, c, e]
  {
    var s := AllObjects(g.deviceLogs);
    assert ExpiredPrefix(s, now, g.oldestLogAge) == 1 by {
      assert s[0] == a && s[1] == b;
      ExpiredPrefixUnique(s, now, g.oldestLogAge, 1);
    }
    assert s[1..] + [e] == [b, c, e];
  }

  /** The last two adds: each one prunes the oldest entry. */
  lemma ScenarioLastAdds(g: Logger)
    requires LogsValid(g) && g.oldestLogAge == 25
    requires AllObjects(g.deviceLogs) == [DeviceLogEntry(10), DeviceLogEntry(20), DeviceLogEntry(30)]
    ensures AllObjects(AddDeviceLog(AddDeviceLog(g, DeviceLogEntry(40), 40), DeviceLogEntry(50), 50).deviceLogs)
         == [DeviceLogEntry(30), DeviceLogEntry(40), DeviceLogEntry(50)]
  {
    SlideWindow(g, DeviceLogEntry(10), DeviceLogEntry(20), DeviceLogEntry(30), DeviceLogEntry(40), 40);
    SlideWindow(AddDeviceLog(g, DeviceLogEntry(40), 40), DeviceLogEntry(20), DeviceLogEntry(30), DeviceLogEntry(40), DeviceLogEntry(50), 50);
  }

  /**
   * Device entries at 0, 10, 20, 30 and 40 seconds with a 25-second limit,
   * each added at its own time; adding one more at 50 seconds leaves the
   * entries at 30, 40 and 50.
   */
  lemma PruningScenario()
    ensures var g0 := SetOldestLogAge(NewLogger(), 25);
      var g1 := AddDeviceLog(g0, DeviceLogEntry(0), 0);
      var g2 := AddDeviceLog(g1, DeviceLogEntry(10), 10);
      var g3 := AddDeviceLog(g2, DeviceLogEntry(20), 20);
      var g4 := AddDeviceLog(g3, DeviceLogEntry(30), 30);
      var g5 := AddDeviceLog(g4, DeviceLogEntry(40), 40);
      var g6 := AddDeviceLog(g5, DeviceLogEntry(50), 50);
      && AllObjects(g6.deviceLogs) == [DeviceLogEntry(30), DeviceLogEntry(40), DeviceLogEntry(50)]
      && Count(g6.deviceLogs) == 3
  {
    var g0 := SetOldestLogAge(NewLogger(), 25);
    ScenarioFirstAdds(g0);
    var g2 := AddDeviceLog(AddDeviceLog(g0, DeviceLogEntry(0), 0), DeviceLogEntry(10), 10);
    ScenarioMiddleAdds(g2);
    ScenarioLastAdds(AddDeviceLog(AddDeviceLog(g2, DeviceLogEntry(20), 20), DeviceLogEntry(30), 30));
  }
}
