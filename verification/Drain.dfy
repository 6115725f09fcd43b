/** Draining the lifecycle event queue into the database: any number of
    drainers, each able to crash between any two of its calls. */
module Drain {
  import opened Basics

  /** A queued value: an event object, JSON that is not an object, an object the
      table refuses (a required column missing, or a value of the wrong type),
      something that does not parse, or nothing at all. */
  datatype Value = EventObject(payload: string) | Scalar | Refused(payload: string) | Garbled | Empty

  /** It parses, but no row can be made of it. */
  predicate Fatal(v: Value) { v.Scalar? || v.Refused? }

  predicate AnyFatal(read: seq<(string, Value)>) { exists i | 0 <= i < |read| :: Fatal(read[i].1) }

  datatype Row = Row(key: string, payload: string)

  /** A drainer between two calls: it still has to drop the garbled keys it found
      while reading, then to insert, then to delete the keys it read. */
  datatype Drainer =
    | Dropping(read: seq<(string, Value)>, garbled: seq<string>)
    | Deleting(read: seq<(string, Value)>, left: seq<string>)
    | Completed(read: seq<(string, Value)>)

  /** `sent` is everything the hosts ever queued, under keys used once. */
  datatype State = State(
    queue: map<string, Value>, table: seq<Row>, drainers: map<nat, Drainer>, sent: map<string, Value>)

  datatype Action =
    | Enqueue(key: string, value: Value)
    | Begin(pid: nat, order: seq<string>)
    | Continue(pid: nat)
    | Crash(pid: nat)

  /** The rows already present under a key. */
  function RowsUnder(table: seq<Row>, key: string): seq<Row> {
    if table == [] then []
    else
      RowsUnder(table[..|table| - 1], key)
      + if table[|table| - 1].key == key then [table[|table| - 1]] else []
  }

  /** `INSERT ... ON CONFLICT (etcd_key) DO NOTHING`, one transaction. */
  function InsertAll(table: seq<Row>, read: seq<(string, Value)>): seq<Row> {
    if read == [] then table
    else
      InsertEntry(InsertAll(table, read[..|read| - 1]), read[|read| - 1])
  }

  /** The parseable entries of a queue scan, in scan order. */
  function Parsed(queue: map<string, Value>, order: seq<string>): seq<(string, Value)> {
    if order == [] then []
    else
      var k := order[|order| - 1];
      Parsed(queue, order[..|order| - 1])
      + if k in queue && (queue[k].EventObject? || Fatal(queue[k])) then [(k, queue[k])] else []
  }

  function GarbledIn(queue: map<string, Value>, order: seq<string>): seq<string> {
    if order == [] then []
    else
      var k := order[|order| - 1];
      GarbledIn(queue, order[..|order| - 1]) + if k in queue && queue[k].Garbled? then [k] else []
  }

  function KeysOf(read: seq<(string, Value)>): seq<string> {
    seq(|read|, i requires 0 <= i < |read| => read[i].0)
  }

  predicate Scans(order: seq<string>, queue: map<string, Value>) {
    NoDuplicates(order) && (forall k | k in order :: k in queue) && (forall k | k in queue :: k in order)
  }

  /** One call of a drainer; `None` is a drainer that died building or inserting its rows. */
  function Proceed(x: State, d: Drainer): (State, Option<Drainer>) {
    match d
    case Dropping(read, garbled) =>
      if garbled != [] then (x.(queue := x.queue - {garbled[0]}), Some(Dropping(read, garbled[1..])))
      else if read == [] then (x, Some(Completed(read)))
      else if AnyFatal(read) then (x, None)
      else (x.(table := InsertAll(x.table, read)), Some(Deleting(read, KeysOf(read))))
    case Deleting(read, left) =>
      if left == [] then (x, Some(Completed(read)))
      else (x.(queue := x.queue - {left[0]}), Some(Deleting(read, left[1..])))
    case Completed(_) => (x, Some(d))
  }

  /** An action that does not apply changes nothing. */
  function Next(x: State, a: Action): State {
    match a
    case Enqueue(key, value) =>
      if key in x.sent then x else x.(queue := x.queue[key := value], sent := x.sent[key := value])
    case Begin(pid, order) =>
      if pid in x.drainers || !Scans(order, x.queue) then x
      else x.(drainers := x.drainers[pid := Dropping(Parsed(x.queue, order), GarbledIn(x.queue, order))])
    case Continue(pid) =>
      if pid !in x.drainers then x
      else
        var (y, d) := Proceed(x, x.drainers[pid]);
        y.(drainers := if d.Some? then x.drainers[pid := d.value] else x.drainers - {pid})
    case Crash(pid) => x.(drainers := x.drainers - {pid})
  }

  function Run(x: State, actions: seq<Action>): State {
    if actions == [] then x else Next(Run(x, actions[..|actions| - 1]), actions[|actions| - 1])
  }

  // ---------------------------------------------------------------------
  // Safety
  // ---------------------------------------------------------------------

  type Values = map<string, Value>

  /** The event sent under `key` has exactly its one row. */
  predicate Recorded(sent: Values, table: seq<Row>, key: string) {
    key in sent && sent[key].EventObject? && RowsUnder(table, key) == [Row(key, sent[key].payload)]
  }

  predicate WasSent(sent: Values, entry: (string, Value)) { entry.0 in sent && sent[entry.0] == entry.1 }

  predicate AllSent(sent: Values, read: seq<(string, Value)>) {
    forall i | 0 <= i < |read| :: WasSent(sent, read[i])
  }

  /** A drainer that deletes has committed everything it read. */
  predicate DrainerSafe(sent: Values, table: seq<Row>, d: Drainer) {
    match d
    case Dropping(read, garbled) =>
      && AllSent(sent, read) && (forall i | 0 <= i < |read| :: read[i].1.EventObject? || Fatal(read[i].1))
      && (forall k | k in garbled :: k in sent && sent[k].Garbled?)
    case Deleting(read, left) =>
      && (forall i | 0 <= i < |read| :: Recorded(sent, table, read[i].0))
      && (forall k | k in left :: Recorded(sent, table, k))
    case Completed(read) => forall i | 0 <= i < |read| :: Recorded(sent, table, read[i].0)
  }

  /** No key has two rows or a row nobody sent. */
  ghost predicate TableSafe(sent: Values, table: seq<Row>) {
    forall k :: RowsUnder(table, k) == [] || Recorded(sent, table, k)
  }

  /** What is queued was sent, and an event that is not queued has its row. */
  ghost predicate QueueSafe(queue: Values, sent: Values, table: seq<Row>) {
    && (forall k | k in queue :: k in sent && sent[k] == queue[k])
    && (forall k | k in sent && sent[k].EventObject? :: k in queue || Recorded(sent, table, k))
  }

  ghost predicate Safe(x: State) {
    && QueueSafe(x.queue, x.sent, x.table) && TableSafe(x.sent, x.table)
    && forall pid | pid in x.drainers :: DrainerSafe(x.sent, x.table, x.drainers[pid])
  }

  lemma RowsUnderAppend(table: seq<Row>, r: Row, key: string)
    ensures RowsUnder(table + [r], key) == RowsUnder(table, key) + if r.key == key then [r] else []
  {
    assert (table + [r])[..|table|] == table;
  }

  /** The insert of one entry. */
  function InsertEntry(table: seq<Row>, entry: (string, Value)): seq<Row> {
    if entry.1.EventObject? && RowsUnder(table, entry.0) == [] then table + [Row(entry.0, entry.1.payload)] else table
  }

  lemma InsertEntrySafe(sent: Values, table: seq<Row>, entry: (string, Value), k: string)
    requires WasSent(sent, entry) && (RowsUnder(table, k) == [] || Recorded(sent, table, k))
    ensures var t := InsertEntry(table, entry);
      && (RowsUnder(t, k) == [] || Recorded(sent, t, k))
      && (Recorded(sent, table, k) || (k == entry.0 && entry.1.EventObject?) ==> Recorded(sent, t, k))
  {
    if entry.1.EventObject? { RowsUnderAppend(table, Row(entry.0, entry.1.payload), k); }
  }

  /** One key through an insert: never twice, and a recorded event stays. */
  lemma {:induction false} InsertOne(sent: Values, table: seq<Row>, read: seq<(string, Value)>, k: string)
    requires AllSent(sent, read) && (RowsUnder(table, k) == [] || Recorded(sent, table, k))
    ensures var t := InsertAll(table, read);
      (RowsUnder(t, k) == [] || Recorded(sent, t, k)) && (Recorded(sent, table, k) ==> Recorded(sent, t, k))
  {
    if read != [] {
      InsertOne(sent, table, read[..|read| - 1], k);
      InsertEntrySafe(sent, InsertAll(table, read[..|read| - 1]), read[|read| - 1], k);
    }
  }

  /** An event on the list is recorded by the insert. */
  lemma {:induction false} InsertLists(sent: Values, table: seq<Row>, read: seq<(string, Value)>, i: nat)
    requires AllSent(sent, read) && i < |read| && read[i].1.EventObject?
    requires RowsUnder(table, read[i].0) == [] || Recorded(sent, table, read[i].0)
    ensures Recorded(sent, InsertAll(table, read), read[i].0)
  {
    var init := read[..|read| - 1];
    InsertOne(sent, table, init, read[i].0);
    if i < |init| { InsertLists(sent, table, init, i); }
    InsertEntrySafe(sent, InsertAll(table, init), read[|read| - 1], read[i].0);
  }

  lemma InsertSafe(sent: Values, table: seq<Row>, read: seq<(string, Value)>)
    requires AllSent(sent, read) && TableSafe(sent, table)
    ensures var t := InsertAll(table, read);
      && TableSafe(sent, t) && (forall k | Recorded(sent, table, k) :: Recorded(sent, t, k))
      && (forall i | 0 <= i < |read| && read[i].1.EventObject? :: Recorded(sent, t, read[i].0))
  {
    var t := InsertAll(table, read);
    forall k
      ensures RowsUnder(t, k) == [] || Recorded(sent, t, k)
      ensures Recorded(sent, table, k) ==> Recorded(sent, t, k)
    {
      InsertOne(sent, table, read, k);
    }
    forall i | 0 <= i < |read| && read[i].1.EventObject? ensures Recorded(sent, t, read[i].0) {
      InsertLists(sent, table, read, i);
    }
  }

  /** A scan only lists what was sent, and only what parses. */
  lemma {:induction false} ScanIsSent(queue: Values, sent: Values, order: seq<string>)
    requires forall k | k in queue :: k in sent && sent[k] == queue[k]
    ensures AllSent(sent, Parsed(queue, order))
    ensures forall k | k in GarbledIn(queue, order) :: k in sent && sent[k].Garbled?
    ensures forall i | 0 <= i < |Parsed(queue, order)| ::
      Parsed(queue, order)[i].1.EventObject? || Fatal(Parsed(queue, order)[i].1)
  {
    if order != [] { ScanIsSent(queue, sent, order[..|order| - 1]); }
  }

  /** More sent events and more recorded rows keep a drainer safe. */
  lemma SafeStays(sent: Values, table: seq<Row>, sent': Values, table': seq<Row>, d: Drainer)
    requires DrainerSafe(sent, table, d)
    requires forall k | k in sent :: k in sent' && sent'[k] == sent[k]
    requires forall k | Recorded(sent, table, k) :: Recorded(sent', table', k)
    ensures DrainerSafe(sent', table', d)
  {
    if d.Dropping? {
      forall i | 0 <= i < |d.read| ensures WasSent(sent', d.read[i]) { assert WasSent(sent, d.read[i]); }
    }
  }

  lemma DropSafe(queue: Values, sent: Values, table: seq<Row>, k: string)
    requires QueueSafe(queue, sent, table) && k in sent && (sent[k].Garbled? || Recorded(sent, table, k))
    ensures QueueSafe(queue - {k}, sent, table)
  {
  }

  /** The insert of everything a drainer read, all of it events. */
  lemma {:induction false} CommitSafe(queue: Values, sent: Values, table: seq<Row>, read: seq<(string, Value)>)
    requires QueueSafe(queue, sent, table) && TableSafe(sent, table) && AllSent(sent, read)
    requires forall i | 0 <= i < |read| :: read[i].1.EventObject?
    ensures var t := InsertAll(table, read);
      && QueueSafe(queue, sent, t) && TableSafe(sent, t)
      && (forall k | Recorded(sent, table, k) :: Recorded(sent, t, k))
      && DrainerSafe(sent, t, Deleting(read, KeysOf(read)))
  {
    InsertSafe(sent, table, read);
  }

  /** What a call of a drainer must preserve. */
  ghost predicate Preserves(x: State, y: State) {
    && y.sent == x.sent && (forall k | Recorded(x.sent, x.table, k) :: Recorded(y.sent, y.table, k))
    && QueueSafe(y.queue, y.sent, y.table) && TableSafe(y.sent, y.table)
  }

  lemma DropSafeTail(sent: Values, table: seq<Row>, read: seq<(string, Value)>, keys: seq<string>)
    requires keys != []
    ensures DrainerSafe(sent, table, Dropping(read, keys)) ==> DrainerSafe(sent, table, Dropping(read, keys[1..]))
    ensures DrainerSafe(sent, table, Deleting(read, keys)) ==> DrainerSafe(sent, table, Deleting(read, keys[1..]))
  {
    assert forall k | k in keys[1..] :: k in keys;
  }

  /** One key out of the queue that may go. */
  lemma DropPreserves(x: State, k: string)
    requires QueueSafe(x.queue, x.sent, x.table) && TableSafe(x.sent, x.table)
    requires k in x.sent && (x.sent[k].Garbled? || Recorded(x.sent, x.table, k))
    ensures Preserves(x, x.(queue := x.queue - {k}))
  {
    DropSafe(x.queue, x.sent, x.table, k);
  }

  /** One call of a safe drainer. */
  lemma ProceedSafe(x: State, d: Drainer)
    requires QueueSafe(x.queue, x.sent, x.table) && TableSafe(x.sent, x.table) && DrainerSafe(x.sent, x.table, d)
    ensures var (y, q) := Proceed(x, d);
      Preserves(x, y) && (q.Some? ==> DrainerSafe(y.sent, y.table, q.value))
  {
    match d {
      case Dropping(read, garbled) =>
        if garbled != [] {
          assert garbled[0] in garbled;
          DropPreserves(x, garbled[0]);
          DropSafeTail(x.sent, x.table, read, garbled);
        } else if read != [] && !AnyFatal(read) {
          CommitSafe(x.queue, x.sent, x.table, read);
        }
      case Deleting(read, left) =>
        if left != [] {
          assert left[0] in left;
          DropPreserves(x, left[0]);
          DropSafeTail(x.sent, x.table, read, left);
        }
      case Completed(_) =>
    }
  }

  lemma NextSafe(x: State, a: Action)
    requires Safe(x)
    ensures Safe(Next(x, a))
  {
    var y := Next(x, a);
    match a {
      case Enqueue(key, value) =>
        forall pid | pid in y.drainers ensures DrainerSafe(y.sent, y.table, y.drainers[pid]) {
          SafeStays(x.sent, x.table, y.sent, y.table, x.drainers[pid]);
        }
      case Begin(pid, order) => ScanIsSent(x.queue, x.sent, order);
      case Continue(pid) =>
        if pid in x.drainers {
          ProceedSafe(x, x.drainers[pid]);
          forall p | p in y.drainers && p != pid ensures DrainerSafe(y.sent, y.table, y.drainers[p]) {
            SafeStays(x.sent, x.table, y.sent, y.table, x.drainers[p]);
          }
        }
      case Crash(_) =>
    }
  }

  /** Over every run, with crashes anywhere and drainers overlapping: no parseable
      event leaves the queue before its row is committed, no event has two rows,
      and every event a completed drain read has exactly one row. */
  lemma {:induction false} DrainIsSafe(x: State, actions: seq<Action>)
    requires Safe(x)
    ensures var y := Run(x, actions);
      && Safe(y)
      && (forall k | k in y.sent && y.sent[k].EventObject? && k !in y.queue :: Recorded(y.sent, y.table, k))
      && (forall k :: |RowsUnder(y.table, k)| <= 1)
      && (forall pid | pid in y.drainers && y.drainers[pid].Completed? ::
            forall i | 0 <= i < |y.drainers[pid].read| :: Recorded(y.sent, y.table, y.drainers[pid].read[i].0))
  {
    if actions != [] {
      DrainIsSafe(x, actions[..|actions| - 1]);
      NextSafe(Run(x, actions[..|actions| - 1]), actions[|actions| - 1]);
    }
  }

  // ---------------------------------------------------------------------
  // Completion, and the value that prevents it
  // ---------------------------------------------------------------------

  /** An empty queue and an empty table are a safe start. */
  lemma StartsSafe()
    ensures Safe(State(map[], [], map[], map[]))
  {
  }

  /** Bound on the calls a drainer still makes. */
  function CallsLeft(d: Drainer): nat {
    match d
    case Dropping(read, garbled) => |garbled| + |read| + 2
    case Deleting(_, left) => |left| + 1
    case Completed(_) => 0
  }

  /** `k` calls of one drainer with nobody else at work. */
  function Turns(pid: nat, k: nat): seq<Action> { seq(k, i => Continue(pid)) }

  lemma {:induction false} RunFrom(x: State, a: Action, rest: seq<Action>)
    ensures Run(x, [a] + rest) == Run(Next(x, a), rest)
  {
    if rest == [] {
      assert [a] + rest == [a] && [a][..0] == [];
    } else {
      assert ([a] + rest)[..|rest|] == [a] + rest[..|rest| - 1];
      RunFrom(x, a, rest[..|rest| - 1]);
    }
  }

  /** The keys a drainer is still going to delete if it completes. */
  predicate ToDelete(d: Drainer, k: string) {
    match d
    case Dropping(read, garbled) => k in garbled || (!AnyFatal(read) && k in KeysOf(read))
    case Deleting(_, left) => k in left
    case Completed(_) => false
  }

  predicate WillComplete(d: Drainer) { d.Dropping? ==> !AnyFatal(d.read) }

  lemma OneTurn(x: State, pid: nat)
    requires pid in x.drainers
    ensures var d, y := x.drainers[pid], Next(x, Continue(pid));
      && (pid in y.drainers ==>
            && y.drainers[pid].read == d.read && WillComplete(y.drainers[pid]) == WillComplete(d)
            && (d.Completed? || CallsLeft(y.drainers[pid]) < CallsLeft(d)))
      && (pid !in y.drainers ==> !WillComplete(d))
      && (forall k :: Get(y.queue, k) != Get(x.queue, k) ==> k !in y.queue && ToDelete(d, k))
      && (forall k | ToDelete(d, k) :: k !in y.queue || (pid in y.drainers && ToDelete(y.drainers[pid], k)))
      && (pid in y.drainers ==> forall k | ToDelete(y.drainers[pid], k) :: ToDelete(d, k))
  {
    var d := x.drainers[pid];
    match d {
      case Dropping(read, garbled) => if garbled != [] { assert garbled == [garbled[0]] + garbled[1..]; }
      case Deleting(read, left) => if left != [] { assert left == [left[0]] + left[1..]; }
      case Completed(_) =>
    }
  }

  /** Left alone for as many calls as it may need, a drain completes iff a row can be
      made of everything it read, and otherwise dies; exactly the keys it found
      garbled, and if it completes those it read, are out of the queue then. */
  lemma {:induction false} CompletesIff(x: State, pid: nat, turns: nat)
    requires pid in x.drainers && turns >= CallsLeft(x.drainers[pid])
    ensures var d, z := x.drainers[pid], Run(x, Turns(pid, turns));
      && (if WillComplete(d) then pid in z.drainers && z.drainers[pid] == Completed(d.read) else pid !in z.drainers)
      && (forall k :: Get(z.queue, k) == if ToDelete(d, k) then None else Get(x.queue, k))
    decreases turns
  {
    var d, y := x.drainers[pid], Next(x, Continue(pid));
    if turns == 0 {
      assert Turns(pid, 0) == [];
    } else {
      assert Turns(pid, turns) == [Continue(pid)] + Turns(pid, turns - 1);
      RunFrom(x, Continue(pid), Turns(pid, turns - 1));
      OneTurn(x, pid);
      if pid in y.drainers { CompletesIff(y, pid, turns - 1); } else { DeadStays(y, pid, turns - 1); }
    }
  }

  lemma {:induction false} DeadStays(x: State, pid: nat, turns: nat)
    requires pid !in x.drainers
    ensures Run(x, Turns(pid, turns)) == x
  {
    if turns > 0 {
      assert Turns(pid, turns)[..turns - 1] == Turns(pid, turns - 1);
      DeadStays(x, pid, turns - 1);
    }
  }

  // What a scan reads

  lemma {:induction false} ParsedIs(queue: Values, order: seq<string>, k: string, v: Value)
    ensures (k, v) in Parsed(queue, order) <==>
      k in order && k in queue && queue[k] == v && v !in {Garbled, Empty}
  {
    if order != [] {
      assert order == order[..|order| - 1] + [order[|order| - 1]];
      ParsedIs(queue, order[..|order| - 1], k, v);
    }
  }

  lemma {:induction false} GarbledAre(queue: Values, order: seq<string>, k: string)
    ensures k in GarbledIn(queue, order) <==> k in order && k in queue && queue[k] == Garbled
  {
    if order != [] {
      assert order == order[..|order| - 1] + [order[|order| - 1]];
      GarbledAre(queue, order[..|order| - 1], k);
    }
  }

  /** A drain reads every queued value that parses, and finds every garbled one. */
  lemma ScanIsComplete(queue: Values, order: seq<string>)
    requires Scans(order, queue)
    ensures forall k, v ::
      (k, v) in Parsed(queue, order) <==> k in queue && queue[k] == v && v !in {Garbled, Empty}
    ensures forall k :: k in GarbledIn(queue, order) <==> k in queue && queue[k] == Garbled
  {
    forall k, v ensures (k, v) in Parsed(queue, order) <==> k in queue && queue[k] == v && v !in {Garbled, Empty} {
      ParsedIs(queue, order, k, v);
    }
    forall k ensures k in GarbledIn(queue, order) <==> k in queue && queue[k] == Garbled {
      GarbledAre(queue, order, k);
    }
  }

  lemma InKeys(read: seq<(string, Value)>, k: string)
    ensures k in KeysOf(read) <==> exists v :: (k, v) in read
  {
    if k in KeysOf(read) {
      var i :| 0 <= i < |read| && KeysOf(read)[i] == k;
      assert (k, read[i].1) == read[i] && (k, read[i].1) in read;
    }
    if v :| (k, v) in read {
      var i :| 0 <= i < |read| && read[i] == (k, v);
      assert KeysOf(read)[i] == k;
    }
  }

  /** What a drain begun now has before it. */
  lemma {:induction false} Begun(x: State, pid: nat, order: seq<string>)
    requires pid !in x.drainers && Scans(order, x.queue) && forall k | k in x.queue :: !Fatal(x.queue[k])
    ensures var y := Next(x, Begin(pid, order));
      && y == x.(drainers := y.drainers) && pid in y.drainers && y.drainers[pid].Dropping?
      && WillComplete(y.drainers[pid]) && CallsLeft(y.drainers[pid]) <= |x.queue| + 2
      && (forall k | k in x.queue && x.queue[k].EventObject? :: (k, x.queue[k]) in y.drainers[pid].read)
      && (forall k | k in x.queue :: ToDelete(y.drainers[pid], k) <==> x.queue[k].EventObject? || x.queue[k] == Garbled)
  {
    var d := Next(x, Begin(pid, order)).drainers[pid];
    ScanIsComplete(x.queue, order);
    ScanSize(x.queue, order);
    forall i | 0 <= i < |d.read| ensures !Fatal(d.read[i].1) { assert (d.read[i].0, d.read[i].1) in d.read; }
    forall k | k in x.queue ensures k in KeysOf(d.read) <==> x.queue[k].EventObject? {
      InKeys(d.read, k);
      assert (k, x.queue[k]) in d.read <==> x.queue[k] !in {Garbled, Empty};
      if v :| (k, v) in d.read { assert x.queue[k] == v; }
    }
  }

  /** In a safe state a completed drain has a row for each event it read. */
  lemma {:induction false} CompletedRow(z: State, pid: nat, k: string, v: Value)
    requires Safe(z) && pid in z.drainers && z.drainers[pid].Completed? && (k, v) in z.drainers[pid].read
    requires k in z.sent && z.sent[k] == v && v.EventObject?
    ensures RowsUnder(z.table, k) == [Row(k, v.payload)]
  {
    var i :| 0 <= i < |z.drainers[pid].read| && z.drainers[pid].read[i] == (k, v);
    assert Recorded(z.sent, z.table, z.drainers[pid].read[i].0);
  }

  /** End to end: a drain begun while no value is queued of which no row can be made,
      and left alone, completes; every event queued at its start has its one row and
      is out of the queue, every garbled value is out, and empty ones stay. */
  lemma {:induction false} DrainDelivers(x: State, pid: nat, order: seq<string>, turns: nat)
    requires Safe(x) && pid !in x.drainers && Scans(order, x.queue) && (forall k | k in x.queue :: !Fatal(x.queue[k]))
    requires turns >= |x.queue| + 2
    ensures var z := Run(Next(x, Begin(pid, order)), Turns(pid, turns));
      && pid in z.drainers && z.drainers[pid].Completed?
      && (forall k | k in x.queue && x.queue[k].EventObject? ::
            k !in z.queue && RowsUnder(z.table, k) == [Row(k, x.queue[k].payload)])
      && (forall k | k in x.queue && x.queue[k] == Garbled :: k !in z.queue)
      && (forall k | k in x.queue && x.queue[k] == Empty :: k in z.queue)
  {
    var y := Next(x, Begin(pid, order));
    Begun(x, pid, order);
    CompletesIff(y, pid, turns);
    NextSafe(x, Begin(pid, order));
    DrainIsSafe(y, Turns(pid, turns));
    SentStays(y, Turns(pid, turns));
    var z := Run(y, Turns(pid, turns));
    forall k | k in x.queue
      ensures x.queue[k].EventObject? ==> k !in z.queue && RowsUnder(z.table, k) == [Row(k, x.queue[k].payload)]
      ensures x.queue[k] == Garbled ==> k !in z.queue
      ensures x.queue[k] == Empty ==> k in z.queue
    {
      assert Get(z.queue, k) == if ToDelete(y.drainers[pid], k) then None else Get(x.queue, k);
      if x.queue[k].EventObject? { CompletedRow(z, pid, k, x.queue[k]); }
    }
  }

  lemma {:induction false} ScanSize(queue: Values, order: seq<string>)
    requires Scans(order, queue)
    ensures |Parsed(queue, order)| + |GarbledIn(queue, order)| <= |queue|
  {
    ScanLength(queue, order);
    OrderSize(order, queue.Keys);
  }

  lemma {:induction false} ScanLength(queue: Values, order: seq<string>)
    ensures |Parsed(queue, order)| + |GarbledIn(queue, order)| <= |order|
  {
    if order != [] { ScanLength(queue, order[..|order| - 1]); }
  }

  lemma {:induction false} OrderSize(order: seq<string>, keys: set<string>)
    requires NoDuplicates(order) && forall k | k in order :: k in keys
    ensures |order| <= |keys|
  {
    if order != [] {
      var k := order[|order| - 1];
      OrderSize(order[..|order| - 1], keys - {k});
    }
  }

  lemma {:induction false} SentStays(x: State, actions: seq<Action>)
    ensures forall k | k in x.sent :: k in Run(x, actions).sent && Run(x, actions).sent[k] == x.sent[k]
  {
    if actions != [] { SentStays(x, actions[..|actions| - 1]); }
  }

  /** Under `key` a value of which no row can be made is queued, and every drainer
      at work has read it. */
  ghost predicate Wedged(x: State, key: string) {
    && Safe(x) && key in x.queue && Fatal(x.queue[key])
    && forall pid | pid in x.drainers :: x.drainers[pid].Dropping? && (key, x.queue[key]) in x.drainers[pid].read
  }

  lemma {:induction false} ParsedHas(queue: Values, order: seq<string>, key: string)
    requires key in order && key in queue && Fatal(queue[key])
    ensures (key, queue[key]) in Parsed(queue, order)
  {
    var init, k := order[..|order| - 1], order[|order| - 1];
    assert order == init + [k];
    if k != key { ParsedHas(queue, init, key); }
  }

  lemma NextWedged(x: State, a: Action, key: string)
    requires Wedged(x, key)
    ensures Wedged(Next(x, a), key) && Next(x, a).table == x.table
  {
    NextSafe(x, a);
    match a {
      case Enqueue(_, _) =>
      case Begin(pid, order) => if Scans(order, x.queue) { ParsedHas(x.queue, order, key); }
      case Continue(pid) =>
        if pid in x.drainers {
          var d := x.drainers[pid];
          var i :| 0 <= i < |d.read| && d.read[i] == (key, x.queue[key]);
          assert Fatal(d.read[i].1);
          if d.garbled != [] { assert d.garbled[0] in d.garbled; }
        }
      case Crash(_) =>
    }
  }

  /** A value that parses and of which no row can be made wedges the queue for good:
      from a state in which it is queued and nobody is past reading, no run ever
      removes it, records another row or completes a drain. */
  lemma {:induction false} FatalWedges(x: State, actions: seq<Action>, key: string)
    requires Wedged(x, key)
    ensures var y := Run(x, actions);
      && key in y.queue && y.table == x.table && Wedged(y, key)
      && forall pid | pid in y.drainers :: !y.drainers[pid].Completed?
  {
    if actions != [] {
      FatalWedges(x, actions[..|actions| - 1], key);
      NextWedged(Run(x, actions[..|actions| - 1]), actions[|actions| - 1], key);
    }
  }

  function OneQueued(v: Value): State { State(map["k" := v], [], map[], map["k" := v]) }

  lemma OneFatalWedges(v: Value, actions: seq<Action>)
    requires Fatal(v)
    ensures "k" in Run(OneQueued(v), actions).queue && Run(OneQueued(v), actions).table == []
  {
    FatalWedges(OneQueued(v), actions, "k");
  }

  /** A queue with one scalar, and any run from there. */
  lemma OneScalarWedges(actions: seq<Action>)
    ensures "k" in Run(OneQueued(Scalar), actions).queue && Run(OneQueued(Scalar), actions).table == []
  {
    OneFatalWedges(Scalar, actions);
  }

  /** A queue with one object the table refuses, the empty one, and any run from there. */
  lemma OneRefusedWedges(actions: seq<Action>)
    ensures var x := OneQueued(Refused("{}")); "k" in Run(x, actions).queue && Run(x, actions).table == []
  {
    OneFatalWedges(Refused("{}"), actions);
  }
}
