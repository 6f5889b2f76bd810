/**
 Collection of metrics from a dumped store
 (pkg/discoveryservice/xdss/stats/metrics_collector.go): the aggregated counters, and
 per node, type and pod the version accepted last. The loops visit the items in an
 arbitrary order.
 */
module Metrics {
  import opened Wrappers
  import opened Strings
  import opened StatKeys
  import opened Stats
  import opened StatRuns

  datatype Current = Current(version: string, ts: int)

  /** An info item: the printed key with its version blanked, the version, and when it was accepted. */
  datatype Entry = Entry(group: string, version: string, ts: int)

  predicate IsCounter(stat: string) {
    stat == NACKS || stat == ACKS || stat == REQUESTS
  }

  /** The items whose value the collector takes for an integer. */
  predicate Collected(k: Key) {
    k.stat == INFO || (k.version == AGGREGATE && IsCounter(k.stat))
  }

  /** A dump that can be collected: neither the key reader nor a type assertion panics on it. */
  ghost predicate Collectable(items: Store) {
    forall s :: s in items ==> Parse(s).Some? && (Collected(Parse(s).value) ==> items[s].Int?)
  }

  // ---------------------------------------------------------------------
  // No reachable store makes collection fail

  /** Keys have five parts, and those that hold text have more: a nonce's stat name has a colon of its own. */
  ghost predicate Dumpable(st: Store) {
    forall s :: s in st ==> |Split(s)| >= 5 && (st[s].Text? ==> |Split(s)| >= 6)
  }

  lemma NonceHasSixParts(k: Key, x: string)
    requires k.stat == NONCE + x
    ensures |Split(Print(k))| >= 6
  {
    assert NONCE + x == "nonce" + ":" + x;
    SplitGrows("nonce", x);
    PrintShape(k);
    SplitGrows(k.pod, k.stat);
    SplitGrows(k.version, k.pod + ":" + k.stat);
    SplitGrows(k.rtype, k.version + ":" + (k.pod + ":" + k.stat));
    SplitGrows(k.node, k.rtype + ":" + (k.version + ":" + (k.pod + ":" + k.stat)));
  }

  lemma DumpablePut(st: Store, k: Key, n: int)
    requires Dumpable(st)
    ensures Dumpable(st[Print(k) := Int(n)])
  {
    PrintHasFiveParts(k);
  }

  lemma DumpableCounts(st: Store, n: string, t: string, v: string, p: string, stat: string)
    requires Dumpable(st)
    ensures Dumpable(Increment(Increment(st, Key(n, t, v, p, stat), 1), Key(n, t, AGGREGATE, p, stat), 1))
  {
    var one, all := Key(n, t, v, p, stat), Key(n, t, AGGREGATE, p, stat);
    DumpablePut(st, one, Counter(st, one) + 1);
    var st1 := Increment(st, one, 1);
    DumpablePut(st1, all, Counter(st1, all) + 1);
  }

  lemma DumpableStep(st: Store, e: Event)
    requires Dumpable(st)
    ensures Dumpable(After(st, e))
  {
    match e
    case Request(n, t, p) => PrintHasFiveParts(Key(n, t, AGGREGATE, p, REQUESTS));
    case Response(n, t, v, p, x) => NonceHasSixParts(Key(n, t, v, p, NONCE + x), x);
    case Nack(n, t, p, x) =>
      if NackVersion(st, n, t, p, x).Some? {
        DumpableCounts(st, n, t, NackVersion(st, n, t, p, x).value, p, NACKS);
      }
    case Ack(n, t, v, p, _) =>
      DumpableCounts(st, n, t, v, p, ACKS);
      PrintHasFiveParts(Key(n, t, v, p, INFO));
    case _ =>
  }

  lemma {:induction false} RunIsDumpable(es: seq<Event>)
    ensures Dumpable(Run(es))
  {
    if es != [] {
      RunIsDumpable(es[..|es| - 1]);
      DumpableStep(Run(es[..|es| - 1]), es[|es| - 1]);
    }
  }

  /** A stat name of several parts is none the collector looks for. */
  lemma SixPartsNotCollected(s: string)
    requires |Split(s)| >= 6
    ensures Parse(s).Some? && !Collected(Parse(s).value)
  {
    var rest := Split(s)[4..];
    assert Join(rest) == rest[0] + ":" + Join(rest[1..]);
    assert Join(rest)[|rest[0]|] == ':';
    assert ColonFree(INFO) && ColonFree(NACKS) && ColonFree(ACKS) && ColonFree(REQUESTS);
  }

  /** Whatever identifiers the clients send, colons included, collection never fails. */
  lemma ReachableIsCollectable(es: seq<Event>)
    ensures Collectable(Run(es))
  {
    RunIsDumpable(es);
    forall s | s in Run(es) && Run(es)[s].Text? ensures !Collected(Parse(s).value) {
      SixPartsNotCollected(s);
    }
  }

  /** A collected key reads back as printed from colon-free fields. */
  lemma CollectedIsPlain(s: string)
    requires Parse(s).Some? && Counting(Parse(s).value.stat)
    ensures Plain(Parse(s).value) && Print(Parse(s).value) == s
  {
    SplitPartsColonFree(s);
    PrintParse(s);
  }

  // ---------------------------------------------------------------------
  // The aggregated counters

  datatype CounterMetric = CounterMetric(stat: string, node: string, rtype: string, pod: string, value: int)

  function CounterKey(m: CounterMetric): (k: Key) {
    Key(m.node, m.rtype, "*", m.pod, m.stat)
  }

  /** The line reports what the store holds under its key. */
  ghost predicate Reports(items: Store, m: CounterMetric) {
    && m.stat in {"request_counter", "ack_counter", "nack_counter"} && Plain(CounterKey(m))
    && Print(CounterKey(m)) in items && items[Print(CounterKey(m))] == Int(m.value)
  }

  ghost predicate CountersDone(items: Store, seen: set<string>, lines: seq<CounterMetric>) {
    && (forall i :: 0 <= i < |lines| ==> Reports(items, lines[i]) && Print(CounterKey(lines[i])) in seen)
    && (forall i, j :: 0 <= i < j < |lines| ==> CounterKey(lines[i]) != CounterKey(lines[j]))
    && (forall m :: Reports(items, m) && Print(CounterKey(m)) in seen ==> m in lines)
  }

  method ReadCounter(items: Store, s: string) returns (line: Option<CounterMetric>)
    requires Collectable(items) && s in items
    ensures line.Some? ==> Reports(items, line.value) && Print(CounterKey(line.value)) == s
    ensures forall m :: Reports(items, m) && Print(CounterKey(m)) == s ==> line == Some(m)
  {
    var key := Parse(s).value;
    line := None;
    if key.version == AGGREGATE && IsCounter(key.stat) {
      line := Some(CounterMetric(key.stat, key.node, key.rtype, key.pod, items[s].n));
      CollectedIsPlain(s);
      assert CounterKey(line.value) == key;
    }
    forall m | Reports(items, m) && Print(CounterKey(m)) == s ensures line == Some(m) {
      ParsePrint(CounterKey(m));
    }
  }

  /** One line for every aggregated counter on record, with its value, and no other. */
  method CollectCounters(items: Store) returns (lines: seq<CounterMetric>)
    requires Collectable(items)
    ensures forall m :: m in lines <==> Reports(items, m)
    ensures forall i, j :: 0 <= i < j < |lines| ==> CounterKey(lines[i]) != CounterKey(lines[j])
  {
    lines := [];
    var rest := items.Keys;
    ghost var seen: set<string> := {};
    while rest != {}
      invariant rest <= items.Keys && seen == items.Keys - rest && CountersDone(items, seen, lines)
      decreases rest
    {
      var s :| s in rest;
      var line := ReadCounter(items, s);
      CountersNext(items, seen, lines, s, line);
      if line.Some? {
        lines := lines + [line.value];
      }
      seen := seen + {s};
      rest := rest - {s};
    }
    assert seen == items.Keys;
    assert forall m :: m in lines ==> Reports(items, m);
  }

  lemma CountersNext(items: Store, seen: set<string>, lines: seq<CounterMetric>, s: string, line: Option<CounterMetric>)
    requires CountersDone(items, seen, lines) && s !in seen
    requires line.Some? ==> Reports(items, line.value) && Print(CounterKey(line.value)) == s
    requires forall m :: Reports(items, m) && Print(CounterKey(m)) == s ==> line == Some(m)
    ensures CountersDone(items, seen + {s}, if line.Some? then lines + [line.value] else lines)
  {
    var later := if line.Some? then lines + [line.value] else lines;
    forall m | Reports(items, m) && Print(CounterKey(m)) in seen + {s} ensures m in later {
      assert Print(CounterKey(m)) in seen || line == Some(m);
    }
  }

  // ---------------------------------------------------------------------
  // The version accepted last

  function EntryOf(s: string, item: Item): (e: Option<Entry>) {
    match Parse(s)
    case None => None
    case Some(k) =>
      if k.stat == INFO && item.Int? then Some(Entry(Print(k.(version := AGGREGATE)), k.version, item.n)) else None
  }

  ghost function Entries(items: Store): (m: map<string, Entry>) {
    map s | s in items && EntryOf(s, items[s]).Some? :: EntryOf(s, items[s]).value
  }

  /** `c` is an acceptance of group `g` seen so far, and none seen so far is later. */
  ghost predicate Latest(m: map<string, Entry>, seen: set<string>, g: string, c: Current) {
    && (exists s :: s in seen && s in m && m[s] == Entry(g, c.version, c.ts))
    && (forall s :: s in seen && s in m && m[s].group == g ==> m[s].ts <= c.ts)
  }

  ghost predicate LatestAll(m: map<string, Entry>, seen: set<string>, info: map<string, Current>) {
    && (forall g :: g in info ==> Latest(m, seen, g, info[g]))
    && (forall s :: s in seen && s in m ==> m[s].group in info)
  }

  function Advance(info: map<string, Current>, e: Entry): (r: map<string, Current>) {
    if e.group !in info || e.ts > info[e.group].ts then info[e.group := Current(e.version, e.ts)] else info
  }

  lemma LatestGrow(m: map<string, Entry>, seen: set<string>, info: map<string, Current>, s: string)
    requires s in m && LatestAll(m, seen, info)
    ensures LatestAll(m, seen + {s}, Advance(info, m[s]))
  {
  }

  lemma LatestSkip(m: map<string, Entry>, seen: set<string>, info: map<string, Current>, s: string)
    requires s !in m && LatestAll(m, seen, info)
    ensures LatestAll(m, seen + {s}, info)
  {
  }

  lemma LatestNext(items: Store, seen: set<string>, info: map<string, Current>, s: string)
    requires s in items && LatestAll(Entries(items), seen, info)
    ensures var e := EntryOf(s, items[s]);
            LatestAll(Entries(items), seen + {s}, if e.Some? then Advance(info, e.value) else info)
  {
    if s in Entries(items) {
      LatestGrow(Entries(items), seen, info, s);
    } else {
      LatestSkip(Entries(items), seen, info, s);
    }
  }

  /** What one item yields, as the loop body reads it. */
  method ReadItem(s: string, item: Item) returns (e: Option<Entry>)
    requires Parse(s).Some? && (Collected(Parse(s).value) ==> item.Int?)
    ensures e == EntryOf(s, item)
  {
    var key := Parse(s).value;
    if key.stat == INFO {
      var version := key.version;
      key := key.(version := AGGREGATE);
      return Some(Entry(Print(key), version, item.n));
    }
    return None;
  }

  /** The body of the loop. */
  method VisitItem(items: Store, info: map<string, Current>, s: string, ghost seen: set<string>)
    returns (next: map<string, Current>)
    requires Collectable(items) && s in items && LatestAll(Entries(items), seen, info)
    ensures LatestAll(Entries(items), seen + {s}, next)
  {
    next := info;
    var e := ReadItem(s, items[s]);
    LatestNext(items, seen, info, s);
    if e.Some? && (e.value.group !in info || e.value.ts > info[e.value.group].ts) {
      next := info[e.value.group := Current(e.value.version, e.value.ts)];
    }
  }

  /** The running maximum over the items, in any order, is the latest version of every group. */
  method LatestVersions(items: Store) returns (info: map<string, Current>)
    requires Collectable(items)
    ensures LatestAll(Entries(items), items.Keys, info)
  {
    info := map[];
    ghost var seen: set<string> := {};
    var rest := items.Keys;
    while rest != {}
      invariant rest <= items.Keys && seen == items.Keys - rest
      invariant LatestAll(Entries(items), seen, info)
      decreases rest
    {
      var s :| s in rest;
      info := VisitItem(items, info, s, seen);
      seen := seen + {s};
      rest := rest - {s};
    }
    assert seen == items.Keys;
  }

  datatype InfoMetric = InfoMetric(node: string, rtype: string, pod: string, version: string)

  /** The acceptance timestamp of a version, if it is on record. */
  function AcceptedAt(items: Store, m: InfoMetric): (ts: Option<int>) {
    var s := Print(Key(m.node, m.rtype, m.version, m.pod, INFO));
    if s in items && items[s].Int? then Some(items[s].n) else None
  }

  lemma EntryIsAccepted(items: Store, s: string) returns (line: InfoMetric)
    requires s in Entries(items)
    ensures line.version == Entries(items)[s].version
    ensures AcceptedAt(items, line) == Some(Entries(items)[s].ts)
    ensures Entries(items)[s].group == Print(Key(line.node, line.rtype, AGGREGATE, line.pod, INFO))
    ensures Plain(Key(line.node, line.rtype, line.version, line.pod, INFO))
    ensures s == Print(Key(line.node, line.rtype, line.version, line.pod, INFO))
  {
    CollectedIsPlain(s);
    var k := Parse(s).value;
    line := InfoMetric(k.node, k.rtype, k.pod, k.version);
    assert k == Key(k.node, k.rtype, k.version, k.pod, INFO);
  }

  lemma AcceptedIsEntry(items: Store, line: InfoMetric)
    requires OnRecord(items, line)
    ensures var s := Print(Key(line.node, line.rtype, line.version, line.pod, INFO));
            && s in Entries(items)
            && Entries(items)[s] == Entry(Print(Key(line.node, line.rtype, AGGREGATE, line.pod, INFO)),
                                          line.version, AcceptedAt(items, line).value)
  {
    ParsePrint(Key(line.node, line.rtype, line.version, line.pod, INFO));
  }

  ghost predicate OnRecord(items: Store, line: InfoMetric) {
    AcceptedAt(items, line).Some? && Plain(Key(line.node, line.rtype, line.version, line.pod, INFO))
  }

  /** An info line names a version on record whose acceptance is not earlier than any other of its client. */
  ghost predicate NamesLatest(items: Store, line: InfoMetric) {
    && OnRecord(items, line)
    && forall v: string :: OnRecord(items, line.(version := v)) ==>
         AcceptedAt(items, line.(version := v)).value <= AcceptedAt(items, line).value
  }

  lemma GroupLine(items: Store, info: map<string, Current>, g: string) returns (line: InfoMetric)
    requires LatestAll(Entries(items), items.Keys, info) && g in info
    ensures NamesLatest(items, line) && line.version == info[g].version
    ensures g == Print(Key(line.node, line.rtype, AGGREGATE, line.pod, INFO))
    ensures Parse(g) == Some(Key(line.node, line.rtype, AGGREGATE, line.pod, INFO))
  {
    var m := Entries(items);
    assert Latest(m, items.Keys, g, info[g]);
    var s :| s in items.Keys && s in m && m[s] == Entry(g, info[g].version, info[g].ts);
    line := EntryIsAccepted(items, s);
    forall v: string | OnRecord(items, line.(version := v))
      ensures AcceptedAt(items, line.(version := v)).value <= AcceptedAt(items, line).value
    {
      AcceptedIsEntry(items, line.(version := v));
    }
    ParsePrint(Key(line.node, line.rtype, AGGREGATE, line.pod, INFO));
  }

  /** The line reported for a group, as the last loop prints it. */
  function LineOf(g: string, c: Current): (line: InfoMetric) {
    match Parse(g)
    case Some(k) => InfoMetric(k.node, k.rtype, k.pod, c.version)
    case None => InfoMetric("", "", "", c.version)
  }

  /** The groups visited so far, each once, and the line printed for each. */
  ghost predicate Printed(info: map<string, Current>, visited: set<string>, groups: seq<string>,
                          lines: seq<InfoMetric>) {
    && |groups| == |lines| && visited <= info.Keys
    && (forall i :: 0 <= i < |groups| ==> groups[i] in visited && lines[i] == LineOf(groups[i], info[groups[i]]))
    && (forall i, j :: 0 <= i < j < |groups| ==> groups[i] != groups[j])
    && (forall g :: g in visited ==> g in groups)
  }

  /** The last loop: one line for each group, in any order. */
  method PrintLines(info: map<string, Current>) returns (lines: seq<InfoMetric>, ghost groups: seq<string>)
    requires forall g :: g in info ==> Parse(g).Some?
    ensures Printed(info, info.Keys, groups, lines)
  {
    lines, groups := [], [];
    var rest := info.Keys;
    ghost var visited: set<string> := {};
    while rest != {}
      invariant rest <= info.Keys && visited == info.Keys - rest && Printed(info, visited, groups, lines)
      decreases rest
    {
      var g :| g in rest;
      var key := Parse(g).value;
      lines := lines + [InfoMetric(key.node, key.rtype, key.pod, info[g].version)];
      groups := groups + [g];
      visited := visited + {g};
      rest := rest - {g};
    }
    assert visited == info.Keys;
  }

  /** One line per client and type, never two, each naming a version accepted last; no client is missed. */
  method CollectInfo(items: Store) returns (lines: seq<InfoMetric>)
    requires Collectable(items)
    ensures forall i :: 0 <= i < |lines| ==> NamesLatest(items, lines[i])
    ensures forall i, j :: 0 <= i < j < |lines| ==>
              (lines[i].node, lines[i].rtype, lines[i].pod) != (lines[j].node, lines[j].rtype, lines[j].pod)
    ensures forall line: InfoMetric :: OnRecord(items, line) ==>
              exists i :: 0 <= i < |lines| && lines[i].(version := line.version) == line
  {
    var info := LatestVersions(items);
    forall g | g in info ensures Parse(g).Some? {
      var line := GroupLine(items, info, g);
    }
    ghost var groups;
    lines, groups := PrintLines(info);
    LinesNameLatest(items, info, groups, lines);
    LinesComplete(items, info, groups, lines);
  }

  lemma LinesNameLatest(items: Store, info: map<string, Current>, groups: seq<string>, lines: seq<InfoMetric>)
    requires LatestAll(Entries(items), items.Keys, info)
    requires Printed(info, info.Keys, groups, lines)
    ensures forall i :: 0 <= i < |lines| ==> NamesLatest(items, lines[i])
    ensures forall i, j :: 0 <= i < j < |lines| ==>
              (lines[i].node, lines[i].rtype, lines[i].pod) != (lines[j].node, lines[j].rtype, lines[j].pod)
  {
    forall i | 0 <= i < |lines|
      ensures NamesLatest(items, lines[i])
      ensures groups[i] == Print(Key(lines[i].node, lines[i].rtype, AGGREGATE, lines[i].pod, INFO))
    {
      var line := GroupLine(items, info, groups[i]);
      assert lines[i] == line;
    }
  }

  lemma LinesComplete(items: Store, info: map<string, Current>, groups: seq<string>, lines: seq<InfoMetric>)
    requires LatestAll(Entries(items), items.Keys, info) && Printed(info, info.Keys, groups, lines)
    ensures forall line: InfoMetric :: OnRecord(items, line) ==>
              exists i :: 0 <= i < |lines| && lines[i].(version := line.version) == line
  {
    forall line: InfoMetric | OnRecord(items, line)
      ensures exists i :: 0 <= i < |lines| && lines[i].(version := line.version) == line
    {
      AcceptedIsEntry(items, line);
      var all := Key(line.node, line.rtype, AGGREGATE, line.pod, INFO);
      var g := Print(all);
      assert g in info;
      var i :| 0 <= i < |groups| && groups[i] == g;
      ParsePrint(all);
      assert lines[i].(version := line.version) == line;
    }
  }
}
