/** The incremental scan of a key-value bucket in src/nats_kv.cpp against its full snapshot. */
module KvScan {
  import opened Options
  import opened Bytes

  type Key = Bytes

  datatype Operation = Put(value: Bytes) | Delete | Purge

  /** A change of the bucket; change `i` of a log, counted from 0, has revision `i + 1`. */
  datatype Change = Change(key: Key, op: Operation)

  /** The KV-Operation header of a message. */
  datatype Header = NoHeader | DelHeader | PurgeHeader | OtherHeader

  datatype Message = Message(subject: Bytes, header: Header, data: Bytes, revision: nat)

  datatype Row = Row(key: Key, op: Operation, revision: nat)

  // ---------------------------------------------------------------- the scan

  /** The key is the subject without the bucket's prefix; an operation other than a deletion is a put. */
  function RowOf(prefix: Bytes, m: Message): Row {
    Row(if prefix <= m.subject then m.subject[|prefix|..] else m.subject,
        match m.header
        case DelHeader => Delete
        case PurgeHeader => Purge
        case _ => Put(m.data),
        m.revision)
  }

  /** The rows of the messages up to the captured end of the stream. */
  function RowsUpTo(prefix: Bytes, messages: seq<Message>, lastSeq: nat): seq<Row> {
    if messages == [] then []
    else
      var earlier, m := RowsUpTo(prefix, messages[..|messages| - 1], lastSeq), messages[|messages| - 1];
      if m.revision <= lastSeq then earlier + [RowOf(prefix, m)] else earlier
  }

  ghost predicate Increasing(messages: seq<Message>) {
    forall i, j | 0 <= i < j < |messages| :: messages[i].revision < messages[j].revision
  }

  lemma RowsSnoc(prefix: Bytes, messages: seq<Message>, m: Message, lastSeq: nat)
    ensures RowsUpTo(prefix, messages + [m], lastSeq)
            == if m.revision <= lastSeq then RowsUpTo(prefix, messages, lastSeq) + [RowOf(prefix, m)]
               else RowsUpTo(prefix, messages, lastSeq)
  {
    assert (messages + [m])[..|messages|] == messages;
  }

  lemma RowsOneMore(prefix: Bytes, messages: seq<Message>, next: nat, lastSeq: nat)
    requires next < |messages| && messages[next].revision <= lastSeq
    ensures RowsUpTo(prefix, messages[..next + 1], lastSeq)
            == RowsUpTo(prefix, messages[..next], lastSeq) + [RowOf(prefix, messages[next])]
  {
    RowsSnoc(prefix, messages[..next], messages[next], lastSeq);
    assert messages[..next + 1] == messages[..next] + [messages[next]];
  }

  /** Nothing behind the end is read. */
  lemma {:induction false} NothingLater(prefix: Bytes, messages: seq<Message>, next: nat, lastSeq: nat)
    requires next <= |messages| && forall i | next <= i < |messages| :: messages[i].revision > lastSeq
    ensures RowsUpTo(prefix, messages[..next], lastSeq) == RowsUpTo(prefix, messages, lastSeq)
    decreases |messages| - next
  {
    if next == |messages| {
      assert messages[..next] == messages;
    } else {
      assert messages[..next + 1] == messages[..next] + [messages[next]];
      RowsSnoc(prefix, messages[..next], messages[next], lastSeq);
      NothingLater(prefix, messages, next + 1, lastSeq);
    }
  }

  /** What a row has to say of its message: the key that the subject names, the revision, and what was done. */
  predicate Tells(row: Row, prefix: Bytes, m: Message) {
    && row.revision == m.revision
    && (m.subject == prefix + row.key || (!(prefix <= m.subject) && m.subject == row.key))
    && (row.op == Delete <==> m.header == DelHeader) && (row.op == Purge <==> m.header == PurgeHeader)
    && (row.op.Put? ==> row.op.value == m.data)
  }

  lemma RowTells(prefix: Bytes, m: Message)
    ensures Tells(RowOf(prefix, m), prefix, m)
  {
  }

  /** The rows tell the messages up to the end one by one. */
  lemma {:induction false} RowsTell(prefix: Bytes, messages: seq<Message>, lastSeq: nat)
    requires Increasing(messages)
    ensures |RowsUpTo(prefix, messages, lastSeq)| <= |messages|
    ensures forall i | 0 <= i < |messages| ::
              i < |RowsUpTo(prefix, messages, lastSeq)| <==> messages[i].revision <= lastSeq
    ensures forall i | 0 <= i < |RowsUpTo(prefix, messages, lastSeq)| ::
              Tells(RowsUpTo(prefix, messages, lastSeq)[i], prefix, messages[i])
  {
    if messages != [] {
      var earlier, m := messages[..|messages| - 1], messages[|messages| - 1];
      RowsTell(prefix, earlier, lastSeq);
      RowTells(prefix, m);
      assert messages == earlier + [m];
      if m.revision <= lastSeq {
        assert forall i | 0 <= i < |earlier| :: messages[i].revision < messages[|earlier|].revision;
      }
    }
  }

  /** Reads what the subscription delivers, from behind `since` to the end captured before it was opened. */
  method NatsKvScanIncremental(prefix: Bytes, messages: seq<Message>, since: nat, lastSeq: nat) returns (rows: seq<Row>)
    requires Increasing(messages) && forall i | 0 <= i < |messages| :: messages[i].revision > since
    ensures rows == RowsUpTo(prefix, messages, lastSeq)
    ensures |rows| <= |messages| && forall i | 0 <= i < |messages| :: i < |rows| <==> messages[i].revision <= lastSeq
    ensures forall i | 0 <= i < |rows| :: Tells(rows[i], prefix, messages[i])
  {
    RowsTell(prefix, messages, lastSeq);
    rows := [];
    if since + 1 > lastSeq {
      NothingLater(prefix, messages, 0, lastSeq);
      return;
    }
    var next := 0;
    while next < |messages|
      invariant next <= |messages| && rows == RowsUpTo(prefix, messages[..next], lastSeq)
    {
      var message := messages[next];
      if message.revision > lastSeq {
        break;
      }
      RowsOneMore(prefix, messages, next, lastSeq);
      rows := rows + [RowOf(prefix, message)];
      next := next + 1;
      if message.revision >= lastSeq {
        break;
      }
    }
    NothingLater(prefix, messages, next, lastSeq);
  }

  // ---------------------------------------------------------------- the bucket

  datatype Entry = Entry(value: Bytes, revision: nat)

  type Snapshot = map<Key, Entry>

  function ApplyRow(snapshot: Snapshot, row: Row): Snapshot {
    match row.op
    case Put(value) => snapshot[row.key := Entry(value, row.revision)]
    case _ => snapshot - {row.key}
  }

  function ApplyRows(snapshot: Snapshot, rows: seq<Row>): Snapshot {
    if rows == [] then snapshot else ApplyRow(ApplyRows(snapshot, rows[..|rows| - 1]), rows[|rows| - 1])
  }

  /** The key that a revision changed. */
  function KeyAt(log: seq<Change>, revision: nat): Key
    requires 1 <= revision <= |log|
  {
    log[revision - 1].key
  }

  function RowAt(log: seq<Change>, revision: nat): Row
    requires 1 <= revision <= |log|
  {
    Row(KeyAt(log, revision), log[revision - 1].op, revision)
  }

  /** The full snapshot: each key that its latest change up to a revision left in place. */
  function SnapshotAt(log: seq<Change>, revision: nat): Snapshot
    requires revision <= |log|
    decreases revision
  {
    if revision == 0 then map[] else ApplyRow(SnapshotAt(log, revision - 1), RowAt(log, revision))
  }

  function Restrict(snapshot: Snapshot, filter: Key -> bool): Snapshot {
    map key | key in snapshot && filter(key) :: snapshot[key]
  }

  function MessageOf(prefix: Bytes, log: seq<Change>, revision: nat): Message
    requires 1 <= revision <= |log|
  {
    var change := log[revision - 1];
    match change.op
    case Put(value) => Message(prefix + change.key, NoHeader, value, revision)
    case Delete => Message(prefix + change.key, DelHeader, [], revision)
    case Purge => Message(prefix + change.key, PurgeHeader, [], revision)
  }

  /** What a subscription from behind `since` has delivered up to a revision: the changes that the stream has kept and
      the filter selects. */
  function Delivered(prefix: Bytes, log: seq<Change>, kept: nat -> bool, filter: Key -> bool, since: nat, upTo: nat)
    : seq<Message>
    requires upTo <= |log|
    decreases upTo
  {
    if upTo <= since then []
    else
      var earlier := Delivered(prefix, log, kept, filter, since, upTo - 1);
      if kept(upTo) && filter(KeyAt(log, upTo)) then earlier + [MessageOf(prefix, log, upTo)] else earlier
  }

  /** The changes themselves, as rows. */
  function Changes(log: seq<Change>, kept: nat -> bool, filter: Key -> bool, since: nat, upTo: nat): seq<Row>
    requires upTo <= |log|
    decreases upTo
  {
    if upTo <= since then []
    else
      var earlier := Changes(log, kept, filter, since, upTo - 1);
      if kept(upTo) && filter(KeyAt(log, upTo)) then earlier + [RowAt(log, upTo)] else earlier
  }

  // ---------------------------------------------------------------- the rows are the kept changes

  lemma RowOfMessage(prefix: Bytes, log: seq<Change>, revision: nat)
    requires 1 <= revision <= |log|
    ensures RowOf(prefix, MessageOf(prefix, log, revision)) == RowAt(log, revision)
  {
    var key := KeyAt(log, revision);
    assert (prefix + key)[|prefix|..] == key;
  }

  /** In order, and all revisions in the window. */
  ghost predicate InWindow(messages: seq<Message>, since: nat, upTo: nat) {
    Increasing(messages) && forall i | 0 <= i < |messages| :: since < messages[i].revision <= upTo
  }

  lemma InWindowSnoc(messages: seq<Message>, since: nat, m: Message)
    requires m.revision > since && InWindow(messages, since, m.revision - 1)
    ensures InWindow(messages + [m], since, m.revision)
  {
  }

  /** The subscription delivers in order, from behind `since` on. */
  lemma {:induction false} DeliveredInOrder(prefix: Bytes, log: seq<Change>, kept: nat -> bool, filter: Key -> bool,
                                            since: nat, upTo: nat)
    requires upTo <= |log|
    ensures InWindow(Delivered(prefix, log, kept, filter, since, upTo), since, upTo)
    decreases upTo
  {
    if upTo > since {
      DeliveredInOrder(prefix, log, kept, filter, since, upTo - 1);
      if kept(upTo) && filter(KeyAt(log, upTo)) {
        InWindowSnoc(Delivered(prefix, log, kept, filter, since, upTo - 1), since, MessageOf(prefix, log, upTo));
      }
    }
  }

  /** One more delivered message is one more row, if it is not behind the end. */
  lemma OneChange(prefix: Bytes, log: seq<Change>, kept: nat -> bool, filter: Key -> bool, since: nat, upTo: nat,
                  lastSeq: nat, rows: seq<Row>)
    requires since < upTo <= |log|
    requires rows == RowsUpTo(prefix, Delivered(prefix, log, kept, filter, since, upTo - 1), lastSeq)
    ensures RowsUpTo(prefix, Delivered(prefix, log, kept, filter, since, upTo), lastSeq)
            == if kept(upTo) && filter(KeyAt(log, upTo)) && upTo <= lastSeq then rows + [RowAt(log, upTo)] else rows
  {
    if kept(upTo) && filter(KeyAt(log, upTo)) {
      RowsSnoc(prefix, Delivered(prefix, log, kept, filter, since, upTo - 1), MessageOf(prefix, log, upTo), lastSeq);
      RowOfMessage(prefix, log, upTo);
    }
  }

  lemma ChangesStep(log: seq<Change>, kept: nat -> bool, filter: Key -> bool, since: nat, upTo: nat)
    requires since < upTo <= |log|
    ensures Changes(log, kept, filter, since, upTo)
            == if kept(upTo) && filter(KeyAt(log, upTo)) then
                 Changes(log, kept, filter, since, upTo - 1) + [RowAt(log, upTo)]
               else
                 Changes(log, kept, filter, since, upTo - 1)
  {
  }

  lemma EmptyWindow(prefix: Bytes, log: seq<Change>, kept: nat -> bool, filter: Key -> bool, since: nat, upTo: nat,
                    lastSeq: nat)
    requires upTo <= since && upTo <= |log|
    ensures RowsUpTo(prefix, Delivered(prefix, log, kept, filter, since, upTo), lastSeq) == []
    ensures Changes(log, kept, filter, since, upTo) == []
  {
  }

  lemma {:induction false} RowsInWindow(prefix: Bytes, log: seq<Change>, kept: nat -> bool, filter: Key -> bool,
                                        since: nat, upTo: nat, lastSeq: nat)
    requires upTo <= lastSeq && upTo <= |log|
    ensures RowsUpTo(prefix, Delivered(prefix, log, kept, filter, since, upTo), lastSeq)
            == Changes(log, kept, filter, since, upTo)
    decreases upTo
  {
    if upTo <= since {
      EmptyWindow(prefix, log, kept, filter, since, upTo, lastSeq);
    } else {
      RowsInWindow(prefix, log, kept, filter, since, upTo - 1, lastSeq);
      RowInWindow(prefix, log, kept, filter, since, upTo, lastSeq,
                  RowsUpTo(prefix, Delivered(prefix, log, kept, filter, since, upTo - 1), lastSeq));
    }
  }

  lemma RowInWindow(prefix: Bytes, log: seq<Change>, kept: nat -> bool, filter: Key -> bool, since: nat, upTo: nat,
                    lastSeq: nat, rows: seq<Row>)
    requires since < upTo <= lastSeq && upTo <= |log|
    requires rows == RowsUpTo(prefix, Delivered(prefix, log, kept, filter, since, upTo - 1), lastSeq)
    requires rows == Changes(log, kept, filter, since, upTo - 1)
    ensures RowsUpTo(prefix, Delivered(prefix, log, kept, filter, since, upTo), lastSeq)
            == Changes(log, kept, filter, since, upTo)
  {
    OneChange(prefix, log, kept, filter, since, upTo, lastSeq, rows);
    ChangesStep(log, kept, filter, since, upTo);
  }

  lemma {:induction false} RowsBehind(prefix: Bytes, log: seq<Change>, kept: nat -> bool, filter: Key -> bool,
                                      since: nat, upTo: nat, lastSeq: nat, rows: seq<Row>, all: seq<Row>)
    requires lastSeq <= upTo <= |log|
    requires rows == RowsUpTo(prefix, Delivered(prefix, log, kept, filter, since, upTo), lastSeq)
    requires all == RowsUpTo(prefix, Delivered(prefix, log, kept, filter, since, lastSeq), lastSeq)
    ensures rows == all
    decreases upTo
  {
    if upTo > lastSeq && upTo > since {
      var earlier := RowsUpTo(prefix, Delivered(prefix, log, kept, filter, since, upTo - 1), lastSeq);
      OneChange(prefix, log, kept, filter, since, upTo, lastSeq, earlier);
      RowsBehind(prefix, log, kept, filter, since, upTo - 1, lastSeq, earlier, all);
    }
  }

  /** The scan's rows are the kept changes up to the captured end, however many more have arrived since. */
  lemma RowsAreChanges(prefix: Bytes, log: seq<Change>, kept: nat -> bool, filter: Key -> bool, since: nat, upTo: nat,
                       lastSeq: nat)
    requires lastSeq <= |log| && upTo <= |log|
    ensures RowsUpTo(prefix, Delivered(prefix, log, kept, filter, since, upTo), lastSeq)
            == Changes(log, kept, filter, since, if upTo < lastSeq then upTo else lastSeq)
  {
    var rows := RowsUpTo(prefix, Delivered(prefix, log, kept, filter, since, upTo), lastSeq);
    if upTo < lastSeq {
      RowsInWindow(prefix, log, kept, filter, since, upTo, lastSeq);
    } else {
      var all := RowsUpTo(prefix, Delivered(prefix, log, kept, filter, since, lastSeq), lastSeq);
      RowsBehind(prefix, log, kept, filter, since, upTo, lastSeq, rows, all);
      RowsInWindow(prefix, log, kept, filter, since, lastSeq, lastSeq);
    }
  }

  // ---------------------------------------------------------------- one key at a time

  function Lookup(snapshot: Snapshot, key: Key): Option<Entry> {
    if key in snapshot then Some(snapshot[key]) else None
  }

  /** What a change leaves of its key. */
  function Outcome(log: seq<Change>, revision: nat): Option<Entry>
    requires 1 <= revision <= |log|
  {
    match log[revision - 1].op case Put(value) => Some(Entry(value, revision)) case _ => None
  }

  /** The latest kept change of a key in the window, 0 when there is none. */
  function Latest(log: seq<Change>, kept: nat -> bool, since: nat, upTo: nat, key: Key): (v: nat)
    requires upTo <= |log|
    ensures v == 0 || (since < v <= upTo && kept(v) && KeyAt(log, v) == key)
    ensures forall w | since < w <= upTo && v < w && kept(w) :: KeyAt(log, w) != key
    decreases upTo
  {
    if upTo <= since then 0
    else if kept(upTo) && KeyAt(log, upTo) == key then upTo
    else Latest(log, kept, since, upTo - 1, key)
  }

  /** What a window of changes makes of a key. */
  function After(log: seq<Change>, latest: nat, before: Option<Entry>): Option<Entry>
    requires latest <= |log|
  {
    if latest == 0 then before else Outcome(log, latest)
  }

  /** What rows make of a key. */
  function Final(rows: seq<Row>, key: Key, before: Option<Entry>): Option<Entry> {
    if rows == [] then before
    else
      var row := rows[|rows| - 1];
      if row.key != key then Final(rows[..|rows| - 1], key, before)
      else match row.op case Put(value) => Some(Entry(value, row.revision)) case _ => None
  }

  lemma {:induction false} ApplyRowsAt(snapshot: Snapshot, rows: seq<Row>, key: Key)
    ensures Lookup(ApplyRows(snapshot, rows), key) == Final(rows, key, Lookup(snapshot, key))
  {
    if rows != [] {
      ApplyRowsAt(snapshot, rows[..|rows| - 1], key);
    }
  }

  lemma FinalNext(log: seq<Change>, kept: nat -> bool, filter: Key -> bool, since: nat, upTo: nat, key: Key,
                  before: Option<Entry>)
    requires since < upTo <= |log|
    ensures Final(Changes(log, kept, filter, since, upTo), key, before)
            == if kept(upTo) && filter(key) && KeyAt(log, upTo) == key then Outcome(log, upTo)
               else Final(Changes(log, kept, filter, since, upTo - 1), key, before)
  {
    var rest, row := Changes(log, kept, filter, since, upTo - 1), RowAt(log, upTo);
    assert (rest + [row])[..|rest|] == rest;
  }

  lemma {:induction false} ChangesAt(log: seq<Change>, kept: nat -> bool, filter: Key -> bool, since: nat, upTo: nat,
                                     key: Key, before: Option<Entry>)
    requires upTo <= |log|
    ensures Final(Changes(log, kept, filter, since, upTo), key, before)
            == if filter(key) then After(log, Latest(log, kept, since, upTo, key), before) else before
    decreases upTo
  {
    if upTo > since {
      ChangesAt(log, kept, filter, since, upTo - 1, key, before);
      FinalNext(log, kept, filter, since, upTo, key, before);
    }
  }

  predicate Any(revision: nat) { true }

  lemma {:induction false} SnapshotFrom(log: seq<Change>, since: nat, upTo: nat, key: Key)
    requires since <= upTo <= |log|
    ensures Lookup(SnapshotAt(log, upTo), key)
            == After(log, Latest(log, Any, since, upTo, key), Lookup(SnapshotAt(log, since), key))
    decreases upTo
  {
    if upTo > since {
      SnapshotFrom(log, since, upTo - 1, key);
    }
  }

  /** The revisions in a snapshot are those of changes up to it. */
  lemma {:induction false} SnapshotRevisions(log: seq<Change>, upTo: nat, key: Key)
    requires upTo <= |log| && key in SnapshotAt(log, upTo)
    ensures SnapshotAt(log, upTo)[key].revision <= upTo
    decreases upTo
  {
    if upTo > 0 && KeyAt(log, upTo) != key {
      assert key in SnapshotAt(log, upTo - 1);
      SnapshotRevisions(log, upTo - 1, key);
    }
  }

  // ---------------------------------------------------------------- agreement

  /** The stream still has the key's latest change in the window, or that is a deletion and what is left of the key
      without it is nothing either. */
  predicate KeyAgrees(log: seq<Change>, kept: nat -> bool, since: nat, lastSeq: nat, key: Key)
    requires since <= lastSeq <= |log|
  {
    var latest, latestKept := Latest(log, Any, since, lastSeq, key), Latest(log, kept, since, lastSeq, key);
    || latest == latestKept
    || (latest > 0 && !log[latest - 1].op.Put?
        && if latestKept == 0 then key !in SnapshotAt(log, since) else !log[latestKept - 1].op.Put?)
  }

  lemma KeyAgreement(log: seq<Change>, kept: nat -> bool, filter: Key -> bool, since: nat, lastSeq: nat, key: Key)
    requires since <= lastSeq <= |log|
    ensures var rows := Changes(log, kept, filter, since, lastSeq);
            var scanned := ApplyRows(Restrict(SnapshotAt(log, since), filter), rows);
            Lookup(scanned, key) == Lookup(Restrict(SnapshotAt(log, lastSeq), filter), key)
            <==> !filter(key) || KeyAgrees(log, kept, since, lastSeq, key)
  {
    var before := Restrict(SnapshotAt(log, since), filter);
    ApplyRowsAt(before, Changes(log, kept, filter, since, lastSeq), key);
    ChangesAt(log, kept, filter, since, lastSeq, key, Lookup(before, key));
    SnapshotFrom(log, since, lastSeq, key);
    var latest, latestKept := Latest(log, Any, since, lastSeq, key), Latest(log, kept, since, lastSeq, key);
    if key in SnapshotAt(log, since) {
      SnapshotRevisions(log, since, key);
    }
    assert latestKept <= latest;
  }

  /** The rows of an incremental scan turn the snapshot at `since` into the snapshot at the captured end. */
  ghost predicate ScanAgrees(prefix: Bytes, log: seq<Change>, kept: nat -> bool, filter: Key -> bool, since: nat,
                             lastSeq: nat)
    requires since <= lastSeq <= |log|
  {
    var rows := RowsUpTo(prefix, Delivered(prefix, log, kept, filter, since, |log|), lastSeq);
    ApplyRows(Restrict(SnapshotAt(log, since), filter), rows) == Restrict(SnapshotAt(log, lastSeq), filter)
  }

  /** The rows of an incremental scan turn the snapshot at `since` into the snapshot at the captured end, under any
      filter, exactly when every selected key agrees. */
  lemma IncrementalIff(prefix: Bytes, log: seq<Change>, kept: nat -> bool, filter: Key -> bool, since: nat,
                       lastSeq: nat)
    requires since <= lastSeq <= |log|
    ensures ScanAgrees(prefix, log, kept, filter, since, lastSeq)
            <==> forall key | filter(key) :: KeyAgrees(log, kept, since, lastSeq, key)
  {
    RowsAreChanges(prefix, log, kept, filter, since, |log|, lastSeq);
    var scanned := ApplyRows(Restrict(SnapshotAt(log, since), filter), Changes(log, kept, filter, since, lastSeq));
    var full := Restrict(SnapshotAt(log, lastSeq), filter);
    forall key
      ensures Lookup(scanned, key) == Lookup(full, key) <==> !filter(key) || KeyAgrees(log, kept, since, lastSeq, key)
    {
      KeyAgreement(log, kept, filter, since, lastSeq, key);
    }
    if forall key | filter(key) :: KeyAgrees(log, kept, since, lastSeq, key) {
      SameLookups(scanned, full);
    }
  }

  lemma SameLookups(a: Snapshot, b: Snapshot)
    requires forall key :: Lookup(a, key) == Lookup(b, key)
    ensures a == b
  {
    forall key ensures (key in a <==> key in b) && (key in a ==> a[key] == b[key]) {
      assert Lookup(a, key) == Lookup(b, key);
    }
  }

  /** The full scan lists the keys, then gets each one; a key deleted in between is skipped. */
  method NatsKvScanFullSnapshot(keys: seq<Key>, bucket: Snapshot, filter: Key -> bool) returns (rows: seq<Row>)
    requires forall key | key in bucket && filter(key) :: key in keys
    requires forall key | key in keys :: filter(key)
    ensures ApplyRows(map[], rows) == Restrict(bucket, filter)
    ensures |rows| <= |keys|
    ensures forall row | row in rows ::
              row.key in bucket && row == Row(row.key, Put(bucket[row.key].value), bucket[row.key].revision)
  {
    rows := [];
    for i := 0 to |keys|
      invariant forall key :: Final(rows, key, None) == if key in keys[..i] then Lookup(bucket, key) else None
      invariant |rows| <= i && forall row | row in rows ::
                  row.key in bucket && row == Row(row.key, Put(bucket[row.key].value), bucket[row.key].revision)
    {
      assert keys[..i + 1] == keys[..i] + [keys[i]];
      if keys[i] in bucket {
        var entry := bucket[keys[i]];
        var row := Row(keys[i], Put(entry.value), entry.revision);
        assert (rows + [row])[..|rows|] == rows;
        rows := rows + [row];
      }
    }
    assert keys[..|keys|] == keys;
    forall key ensures Lookup(ApplyRows(map[], rows), key) == Lookup(Restrict(bucket, filter), key) {
      ApplyRowsAt(map[], rows, key);
    }
    SameLookups(ApplyRows(map[], rows), Restrict(bucket, filter));
  }

  // ---------------------------------------------------------------- history limits

  /** How many changes of a key lie in a window. */
  function CountChanges(log: seq<Change>, since: nat, upTo: nat, key: Key): nat
    requires upTo <= |log|
    decreases upTo
  {
    if upTo <= since then 0
    else CountChanges(log, since, upTo - 1, key) + if KeyAt(log, upTo) == key then 1 else 0
  }

  /** The key is purged somewhere in a window. */
  predicate Purged(log: seq<Change>, since: nat, upTo: nat, key: Key)
    requires upTo <= |log|
  {
    exists v :: since < v <= upTo && PurgeAt(log, v, key)
  }

  predicate PurgeAt(log: seq<Change>, revision: nat, key: Key) {
    1 <= revision <= |log| && log[revision - 1] == Change(key, Purge)
  }

  /** Writes behind a revision push the key's changes up to it out of the bucket: as many as its history holds, or a
      purge, which rolls up everything before it. */
  predicate PushedOut(log: seq<Change>, limit: nat, revision: nat, key: Key)
    requires revision <= |log|
  {
    CountChanges(log, revision, |log|, key) >= limit || Purged(log, revision, |log|, key)
  }

  /** A bucket with history `limit` keeps the last `limit` changes of each key, from its last purge on. */
  function KeptByHistory(log: seq<Change>, limit: nat): nat -> bool {
    (revision: nat) => 1 <= revision <= |log| && !PushedOut(log, limit, revision, KeyAt(log, revision))
  }

  lemma {:induction false} CountSplits(log: seq<Change>, since: nat, middle: nat, upTo: nat, key: Key)
    requires since <= middle <= upTo <= |log|
    ensures CountChanges(log, since, upTo, key)
            == CountChanges(log, since, middle, key) + CountChanges(log, middle, upTo, key)
    decreases upTo
  {
    if upTo > middle {
      CountSplits(log, since, middle, upTo - 1, key);
    }
  }

  lemma {:induction false} NoChanges(log: seq<Change>, since: nat, upTo: nat, key: Key)
    requires upTo <= |log| && forall w | since < w <= upTo :: KeyAt(log, w) != key
    ensures CountChanges(log, since, upTo, key) == 0
    decreases upTo
  {
    if upTo > since {
      NoChanges(log, since, upTo - 1, key);
    }
  }

  /** What pushes out the changes up to the captured end pushes out a change in the window. */
  lemma PushedOutBefore(log: seq<Change>, limit: nat, v: nat, lastSeq: nat, key: Key)
    requires v <= lastSeq <= |log| && PushedOut(log, limit, lastSeq, key)
    ensures PushedOut(log, limit, v, key)
  {
    CountSplits(log, v, lastSeq, |log|, key);
  }

  /** A key's latest change in the window is still there exactly when writes behind the captured end have not pushed it
      out, and if they have, no change of that key in the window is. */
  lemma HistoryKeepsLatest(log: seq<Change>, limit: nat, since: nat, lastSeq: nat, key: Key)
    requires since <= lastSeq <= |log|
    ensures Latest(log, KeptByHistory(log, limit), since, lastSeq, key)
            == if PushedOut(log, limit, lastSeq, key) then 0 else Latest(log, Any, since, lastSeq, key)
  {
    var latest := Latest(log, Any, since, lastSeq, key);
    var latestKept := Latest(log, KeptByHistory(log, limit), since, lastSeq, key);
    if PushedOut(log, limit, lastSeq, key) {
      if latestKept > 0 {
        PushedOutBefore(log, limit, latestKept, lastSeq, key);
      }
    } else if latest > 0 {
      CountSplits(log, latest, lastSeq, |log|, key);
      NoChanges(log, latest, lastSeq, key);
      forall v | latest < v <= |log| ensures !PurgeAt(log, v, key) {
        assert v <= lastSeq ==> KeyAt(log, v) != key;
      }
      assert KeptByHistory(log, limit)(latest);
    }
  }

  /** The window does nothing to the key: no change, or deletions of a key that was not there. */
  predicate NothingToLose(log: seq<Change>, since: nat, lastSeq: nat, key: Key)
    requires since <= lastSeq <= |log|
  {
    var latest := Latest(log, Any, since, lastSeq, key);
    latest == 0 || (!log[latest - 1].op.Put? && key !in SnapshotAt(log, since))
  }

  /** With any history limit and any purges, the incremental scan agrees with the snapshot at the captured end exactly
      when every selected key that later writes have pushed out had nothing to lose. */
  lemma HistoryIff(prefix: Bytes, log: seq<Change>, limit: nat, filter: Key -> bool, since: nat, lastSeq: nat)
    requires since <= lastSeq <= |log|
    ensures ScanAgrees(prefix, log, KeptByHistory(log, limit), filter, since, lastSeq)
            <==> forall key | filter(key) && PushedOut(log, limit, lastSeq, key) ::
                   NothingToLose(log, since, lastSeq, key)
  {
    var kept := KeptByHistory(log, limit);
    IncrementalIff(prefix, log, kept, filter, since, lastSeq);
    forall key
      ensures KeyAgrees(log, kept, since, lastSeq, key)
              <==> !PushedOut(log, limit, lastSeq, key) || NothingToLose(log, since, lastSeq, key)
    {
      HistoryKeepsLatest(log, limit, since, lastSeq, key);
    }
  }

  /** Each key's newest change is still in the bucket. */
  ghost predicate KeepsNewest(log: seq<Change>, kept: nat -> bool) {
    forall v | 1 <= v <= |log| && Newest(log, v) :: kept(v)
  }

  ghost predicate Newest(log: seq<Change>, v: nat)
    requires 1 <= v <= |log|
  {
    forall w | v < w <= |log| :: KeyAt(log, w) != KeyAt(log, v)
  }

  /** A history of at least one change does that, whatever is purged. */
  lemma HistoryKeepsNewest(log: seq<Change>, limit: nat)
    requires limit >= 1
    ensures KeepsNewest(log, KeptByHistory(log, limit))
  {
    forall v | 1 <= v <= |log| && Newest(log, v) ensures KeptByHistory(log, limit)(v) {
      NoChanges(log, v, |log|, KeyAt(log, v));
      forall w | v < w <= |log| ensures !PurgeAt(log, w, KeyAt(log, v)) {
        assert KeyAt(log, w) != KeyAt(log, v);
      }
    }
  }

  /** Whatever else retention drops, a scan that no write overtakes agrees with the full snapshot, under any filter, as
      long as the newest change of each key is kept. */
  lemma QuietScanAgrees(prefix: Bytes, log: seq<Change>, kept: nat -> bool, filter: Key -> bool, since: nat)
    requires since <= |log| && KeepsNewest(log, kept)
    ensures ScanAgrees(prefix, log, kept, filter, since, |log|)
  {
    forall key | filter(key) ensures KeyAgrees(log, kept, since, |log|, key) {
      var latest := Latest(log, Any, since, |log|, key);
      assert latest > 0 ==> Newest(log, latest);
    }
    IncrementalIff(prefix, log, kept, filter, since, |log|);
  }

  /** With any history limit and any purges, the two scans agree when no write overtakes the read. */
  lemma QuietHistoryAgrees(prefix: Bytes, log: seq<Change>, limit: nat, filter: Key -> bool, since: nat)
    requires since <= |log| && limit >= 1
    ensures ScanAgrees(prefix, log, KeptByHistory(log, limit), filter, since, |log|)
  {
    HistoryKeepsNewest(log, limit);
    QuietScanAgrees(prefix, log, KeptByHistory(log, limit), filter, since);
  }

  /** Writes that land between capturing the end and reading can push out the last put before it; then the rows do not
      give the snapshot at the captured end. */
  lemma OvertakenScanDisagrees(prefix: Bytes, log: seq<Change>, limit: nat, filter: Key -> bool, since: nat,
                               lastSeq: nat, key: Key)
    requires since <= lastSeq <= |log| && filter(key) && PushedOut(log, limit, lastSeq, key)
    requires var latest := Latest(log, Any, since, lastSeq, key); latest > 0 && log[latest - 1].op.Put?
    ensures !ScanAgrees(prefix, log, KeptByHistory(log, limit), filter, since, lastSeq)
  {
    HistoryIff(prefix, log, limit, filter, since, lastSeq);
    assert !NothingToLose(log, since, lastSeq, key);
  }
}
