/** Range scans over a stream: the message counts and the row loop of src/nats_scan.cpp. */
module StreamScan {
  import opened Basics
  import opened Bytes

  /** What the server reports of a stream; `deleted` lists the sequences that are gone. */
  datatype StreamState = StreamState(msgs: nat, firstSeq: nat, lastSeq: nat, deleted: seq<nat>)

  /** UINT64_MAX, standing for no target count. */
  const NO_TARGET: nat := 0xffff_ffff_ffff_ffff

  function Retained(state: StreamState): set<nat> {
    set s | state.firstSeq <= s <= state.lastSeq && s !in state.deleted
  }

  /** The server counts its messages right; sequences start at 1 and never reach UINT64_MAX. */
  ghost predicate Sound(state: StreamState) {
    state.msgs == |Retained(state)| && state.firstSeq >= 1 && state.lastSeq < NO_TARGET
  }

  // ---------------------------------------------------------------- counting

  function CountIn(deleted: seq<nat>, startSeq: nat, endSeq: nat): nat {
    if deleted == [] then 0
    else CountIn(deleted[..|deleted| - 1], startSeq, endSeq)
         + if startSeq <= deleted[|deleted| - 1] <= endSeq then 1 else 0
  }

  method CountDeletedInRange(deleted: seq<nat>, startSeq: nat, endSeq: nat) returns (count: nat)
    ensures count == CountIn(deleted, startSeq, endSeq)
  {
    count := 0;
    for i := 0 to |deleted|
      invariant count == CountIn(deleted[..i], startSeq, endSeq)
    {
      assert deleted[..i + 1][..i] == deleted[..i];
      if deleted[i] >= startSeq && deleted[i] <= endSeq {
        count := count + 1;
      }
    }
    assert deleted[..|deleted|] == deleted;
  }

  ghost function PlacesIn(deleted: seq<nat>, lo: nat, hi: nat): set<nat> {
    set i | 0 <= i < |deleted| && lo <= deleted[i] <= hi
  }

  lemma PlacesSnoc(rest: seq<nat>, last: nat, lo: nat, hi: nat)
    ensures PlacesIn(rest + [last], lo, hi) == PlacesIn(rest, lo, hi) + if lo <= last <= hi then {|rest|} else {}
  {
    assert forall i | 0 <= i < |rest| :: (rest + [last])[i] == rest[i];
  }

  /** Every place of the list whose sequence lies in the range counts once. */
  lemma {:induction false} CountedPlaces(deleted: seq<nat>, lo: nat, hi: nat)
    ensures CountIn(deleted, lo, hi) == |PlacesIn(deleted, lo, hi)|
  {
    if deleted != [] {
      var rest, last := deleted[..|deleted| - 1], deleted[|deleted| - 1];
      CountedPlaces(rest, lo, hi);
      assert deleted == rest + [last];
      PlacesSnoc(rest, last, lo, hi);
      OneMore(PlacesIn(rest, lo, hi), PlacesIn(deleted, lo, hi), |rest|, lo <= last <= hi);
    }
  }

  function CountAvailable(state: StreamState, startSeq: nat, endSeq: nat): nat {
    var lo, hi := Max(startSeq, state.firstSeq), Min(endSeq, state.lastSeq);
    if state.msgs == 0 || endSeq < state.firstSeq || startSeq > state.lastSeq || lo > hi then 0
    else
      var overlap, gone := hi - lo + 1, CountIn(state.deleted, lo, hi);
      if overlap >= gone then overlap - gone else 0
  }

  /** How many messages the range holds.  The caller has already dealt with an empty range. */
  method CountAvailableInSequenceRange(state: StreamState, startSeq: nat, endSeq: nat) returns (count: nat)
    requires Sound(state) && startSeq <= endSeq
    ensures count == CountAvailable(state, startSeq, endSeq)
  {
    if state.msgs == 0 || endSeq < state.firstSeq || startSeq > state.lastSeq {
      return 0;
    }
    SomeRetained(state);
    var overlapStart := Max(startSeq, state.firstSeq);
    var overlapEnd := Min(endSeq, state.lastSeq);
    var overlapMessages := overlapEnd - overlapStart + 1;
    var deletedInRange := CountDeletedInRange(state.deleted, overlapStart, overlapEnd);
    count := if overlapMessages >= deletedInRange then overlapMessages - deletedInRange else 0;
  }

  lemma SomeRetained(state: StreamState)
    requires Sound(state) && state.msgs > 0
    ensures state.firstSeq <= state.lastSeq
  {
    assert Retained(state) != {};
    var s :| s in Retained(state);
  }

  function Available(state: StreamState, startSeq: nat, endSeq: nat): set<nat> {
    set s | s in Retained(state) && startSeq <= s <= endSeq
  }

  function Range(lo: nat, hi: int): (r: set<nat>)
    ensures forall s :: s in r <==> lo <= s <= hi
    ensures |r| == if lo <= hi then hi - lo + 1 else 0
    decreases hi
  {
    if lo > hi then {} else Range(lo, hi - 1) + {hi}
  }

  function GoneIn(deleted: seq<nat>, lo: nat, hi: nat): set<nat> {
    set s | s in deleted && lo <= s <= hi
  }

  predicate DuplicateFreeIn(deleted: seq<nat>, lo: nat, hi: nat) {
    forall i, j | 0 <= i < j < |deleted| && lo <= deleted[i] <= hi :: deleted[i] != deleted[j]
  }

  /** The count is the size of the set of deleted sequences unless one is listed twice; then it is larger. */
  lemma {:induction false} CountOfList(deleted: seq<nat>, lo: nat, hi: nat)
    ensures CountIn(deleted, lo, hi) >= |GoneIn(deleted, lo, hi)|
    ensures CountIn(deleted, lo, hi) == |GoneIn(deleted, lo, hi)| <==> DuplicateFreeIn(deleted, lo, hi)
  {
    if deleted != [] {
      var rest, last := deleted[..|deleted| - 1], deleted[|deleted| - 1];
      assert deleted == rest + [last];
      CountOfList(rest, lo, hi);
      DuplicateFreeSnoc(rest, last, lo, hi);
      GoneSnoc(rest, last, lo, hi);
    }
  }

  lemma GoneSnoc(rest: seq<nat>, last: nat, lo: nat, hi: nat)
    ensures |GoneIn(rest + [last], lo, hi)|
            == |GoneIn(rest, lo, hi)| + if lo <= last <= hi && last !in rest then 1 else 0
  {
    var gone := GoneIn(rest, lo, hi);
    if lo <= last <= hi {
      assert GoneIn(rest + [last], lo, hi) == gone + {last};
      assert last in gone <==> last in rest;
    } else {
      assert GoneIn(rest + [last], lo, hi) == gone;
    }
  }

  lemma DuplicateFreeSnoc(rest: seq<nat>, last: nat, lo: nat, hi: nat)
    ensures DuplicateFreeIn(rest + [last], lo, hi)
            <==> DuplicateFreeIn(rest, lo, hi) && !(lo <= last <= hi && last in rest)
  {
    var deleted := rest + [last];
    if lo <= last <= hi && last in rest {
      var i :| 0 <= i < |rest| && rest[i] == last;
      assert deleted[i] == deleted[|rest|];
    }
    if DuplicateFreeIn(deleted, lo, hi) {
      forall i, j | 0 <= i < j < |rest| && lo <= rest[i] <= hi ensures rest[i] != rest[j] {
        assert deleted[i] != deleted[j];
      }
    }
  }

  /** Without an underflow in any case, the count is the number of retained messages in the range exactly when no
      deleted sequence in the overlap is listed twice, or the range holds nothing. */
  lemma CountAvailableIff(state: StreamState, startSeq: nat, endSeq: nat)
    requires Sound(state) && startSeq <= endSeq
    ensures CountAvailable(state, startSeq, endSeq) == |Available(state, startSeq, endSeq)|
            <==> Available(state, startSeq, endSeq) == {}
                 || DuplicateFreeIn(state.deleted, Max(startSeq, state.firstSeq), Min(endSeq, state.lastSeq))
  {
    var lo, hi := Max(startSeq, state.firstSeq), Min(endSeq, state.lastSeq);
    var available := Available(state, startSeq, endSeq);
    if state.msgs == 0 {
      assert Retained(state) == {};
      assert available == {};
    } else if lo > hi {
      assert available == {};
    } else {
      CountOfList(state.deleted, lo, hi);
      AvailableCount(state, startSeq, endSeq, lo, hi);
      assert available == {} <==> |available| == 0;
    }
  }

  /** What is retained of the overlap is what has not been deleted. */
  lemma AvailableCount(state: StreamState, startSeq: nat, endSeq: nat, lo: nat, hi: nat)
    requires lo == Max(startSeq, state.firstSeq) && hi == Min(endSeq, state.lastSeq) && lo <= hi
    ensures |Available(state, startSeq, endSeq)| == hi - lo + 1 - |GoneIn(state.deleted, lo, hi)|
  {
    var available, gone := Available(state, startSeq, endSeq), GoneIn(state.deleted, lo, hi);
    assert available == Range(lo, hi) - gone && gone <= Range(lo, hi);
    assert |available| == |Range(lo, hi)| - |gone|;
  }

  // ---------------------------------------------------------------- the rows of a scan

  datatype Message = Message(seqNo: nat, subject: Bytes)

  /** The subject_contains filter; an empty one keeps everything. */
  predicate Passes(contains: Bytes, message: Message) {
    contains == [] || Contains(message.subject, contains)
  }

  /** The messages up to `endSeq` that pass the filter, in order. */
  function Select(messages: seq<Message>, contains: Bytes, endSeq: nat): seq<Message> {
    if messages == [] then []
    else
      var last := messages[|messages| - 1];
      Select(messages[..|messages| - 1], contains, endSeq)
      + if last.seqNo <= endSeq && Passes(contains, last) then [last] else []
  }

  ghost predicate InOrder(messages: seq<Message>) {
    (forall i | 0 <= i < |messages| :: messages[i].seqNo >= 1)
    && (forall i, j | 0 <= i < j < |messages| :: messages[i].seqNo < messages[j].seqNo)
  }

  lemma SelectNext(messages: seq<Message>, contains: Bytes, endSeq: nat, k: nat)
    requires k < |messages|
    ensures Select(messages[..k + 1], contains, endSeq)
            == Select(messages[..k], contains, endSeq)
               + if messages[k].seqNo <= endSeq && Passes(contains, messages[k]) then [messages[k]] else []
  {
    assert messages[..k + 1][..k] == messages[..k];
  }

  lemma {:induction false} SelectPrefix(messages: seq<Message>, contains: Bytes, endSeq: nat, k: nat)
    requires k <= |messages|
    ensures Select(messages[..k], contains, endSeq) <= Select(messages, contains, endSeq)
    decreases |messages| - k
  {
    if k == |messages| {
      assert messages[..k] == messages;
    } else {
      SelectNext(messages, contains, endSeq, k);
      SelectPrefix(messages, contains, endSeq, k + 1);
    }
  }

  /** Behind the end of the range nothing is selected. */
  lemma {:induction false} NothingLater(messages: seq<Message>, contains: Bytes, endSeq: nat, k: nat)
    requires k <= |messages| && forall i | k <= i < |messages| :: messages[i].seqNo > endSeq
    ensures Select(messages[..k], contains, endSeq) == Select(messages, contains, endSeq)
    decreases |messages| - k
  {
    if k == |messages| {
      assert messages[..k] == messages;
    } else {
      SelectNext(messages, contains, endSeq, k);
      NothingLater(messages, contains, endSeq, k + 1);
    }
  }

  /** Without a filter everything passes; with one, exactly the messages whose subject has the text somewhere in it. */
  lemma PassesIff(contains: Bytes, m: Message)
    ensures Passes(contains, m) <==> contains == [] || exists a, c :: m.subject == a + contains + c
  {
    ContainsIff(m.subject, contains);
  }

  lemma {:induction false} SelectedMembers(messages: seq<Message>, contains: Bytes, endSeq: nat)
    ensures forall m :: m in Select(messages, contains, endSeq)
                        <==> m in messages && m.seqNo <= endSeq && Passes(contains, m)
  {
    if messages != [] {
      var rest, last := messages[..|messages| - 1], messages[|messages| - 1];
      SelectedMembers(rest, contains, endSeq);
      assert messages == rest + [last];
    }
  }

  lemma {:induction false} SelectedInOrder(messages: seq<Message>, contains: Bytes, endSeq: nat)
    requires InOrder(messages)
    ensures InOrder(Select(messages, contains, endSeq))
  {
    if messages != [] {
      var rest, last := messages[..|messages| - 1], messages[|messages| - 1];
      SelectedInOrder(rest, contains, endSeq);
      SelectedMembers(rest, contains, endSeq);
      assert messages == rest + [last];
      OrderSnoc(rest, last, Select(rest, contains, endSeq));
    }
  }

  lemma OrderSnoc(rest: seq<Message>, last: Message, selected: seq<Message>)
    requires InOrder(rest + [last]) && InOrder(selected) && forall m | m in selected :: m in rest
    ensures InOrder(selected + [last])
  {
    var messages := rest + [last];
    forall i | 0 <= i < |selected| ensures selected[i].seqNo < last.seqNo {
      assert selected[i] in selected;
      var k :| 0 <= k < |rest| && rest[k] == selected[i];
      assert messages[k].seqNo < messages[|rest|].seqNo;
    }
    assert messages[|rest|] == last;
  }

  /** Selected are the delivered messages up to the end that pass the filter, no others, in their order. */
  lemma SelectedIff(messages: seq<Message>, contains: Bytes, endSeq: nat)
    requires InOrder(messages)
    ensures forall m :: m in Select(messages, contains, endSeq)
                        <==> m in messages && m.seqNo <= endSeq
                             && (contains == [] || exists a, c :: m.subject == a + contains + c)
    ensures InOrder(Select(messages, contains, endSeq))
  {
    SelectedMembers(messages, contains, endSeq);
    SelectedInOrder(messages, contains, endSeq);
    forall m ensures Passes(contains, m) <==> contains == [] || exists a, c :: m.subject == a + contains + c {
      PassesIff(contains, m);
    }
  }

  /** The first `target` of the selected messages; all of them unless the target is smaller. */
  function Wanted(all: seq<Message>, target: nat): seq<Message> {
    if target < |all| then all[..target] else all
  }

  class NatsScan {
    const messages: seq<Message>
    const contains: Bytes
    const endSeq: nat
    const target: nat
    var next: nat
    var currentSeq: nat
    var emitted: nat
    var done: bool
    ghost var rows: seq<Message>

    ghost function All(): seq<Message> {
      Select(messages, contains, endSeq)
    }

    /** While the scan goes on, its rows are what the delivered messages select; once done, they are all wanted. */
    ghost predicate Valid()
      reads this
    {
      && InOrder(messages) && next <= |messages| && emitted == |rows|
      && (forall i | next <= i < |messages| :: messages[i].seqNo >= currentSeq)
      && (if done then rows == Wanted(All(), target)
          else rows == Select(messages[..next], contains, endSeq) && emitted < target)
    }

    /** A scan over the messages that the subscription delivers, in order. */
    constructor (messages: seq<Message>, contains: Bytes, startSeq: nat, endSeq: nat, target: nat)
      requires InOrder(messages) && forall i | 0 <= i < |messages| :: messages[i].seqNo >= startSeq
      ensures Valid() && rows == []
      ensures this.messages == messages && this.contains == contains && this.endSeq == endSeq && this.target == target
    {
      this.messages, this.contains, this.endSeq, this.target := messages, contains, endSeq, target;
      next, currentSeq, emitted, done, rows := 0, startSeq, 0, target == 0, [];
      new;
      assert messages[..0] == [];
    }

    method Next() returns (message: Message, ok: bool)
      modifies this`next
      requires next <= |messages|
      ensures ok == (old(next) < |messages|)
      ensures if ok then next == old(next) + 1 && message == messages[old(next)] else next == old(next)
    {
      ok := next < |messages|;
      message := Message(0, []);
      if ok {
        message, next := messages[next], next + 1;
      }
    }

    method Stop()
      requires InOrder(messages) && next <= |messages| && emitted == |rows|
      requires forall i | next <= i < |messages| :: messages[i].seqNo >= currentSeq
      requires rows == Select(messages[..next], contains, endSeq) && emitted <= target
      requires emitted < target ==> forall i | next <= i < |messages| :: messages[i].seqNo > endSeq
      modifies this`done
      ensures Valid() && done
    {
      SelectPrefix(messages, contains, endSeq, next);
      if emitted < target {
        NothingLater(messages, contains, endSeq, next);
      }
      done := true;
    }

    /** Takes one message: at most one row, or the end of the scan. */
    method NextRow() returns (row: seq<Message>)
      requires Valid() && !done && currentSeq <= endSeq
      modifies this
      ensures Valid() && |row| <= 1 && rows == old(rows) + row && next >= old(next) + |row|
      ensures done || next > old(next)
    {
      row := [];
      var message, ok := Next();
      if !ok {
        Stop();
        return;
      }
      SelectNext(messages, contains, endSeq, next - 1);
      currentSeq := message.seqNo + 1;
      if message.seqNo > endSeq {
        Stop();
        return;
      }
      if !Passes(contains, message) {
        return;
      }
      row := [message];
      rows := rows + row;
      emitted := emitted + 1;
      if emitted >= target {
        Stop();
      }
    }

    /** One call: at most `maxRows` rows, and none at all only when the scan is over. */
    method NatsScanExecute(maxRows: nat) returns (output: seq<Message>)
      requires Valid() && maxRows > 0
      modifies this
      ensures Valid() && |output| <= maxRows && rows == old(rows) + output && next >= old(next) + |output|
      ensures output == [] ==> done
      ensures old(done) ==> output == []
    {
      output := [];
      if done || currentSeq > endSeq {
        if !done {
          Stop();
        }
        return;
      }
      while !done && |output| < maxRows && currentSeq <= endSeq
        invariant Valid() && |output| <= maxRows && rows == old(rows) + output && next >= old(next) + |output|
        decreases |messages| - next, if done then 0 else 1
      {
        var row := NextRow();
        output := output + row;
      }
      if currentSeq > endSeq {
        if !done {
          Stop();
        }
      }
    }
  }

  // ---------------------------------------------------------------- whole scans

  function SeqNos(messages: seq<Message>): set<nat> {
    if messages == [] then {} else SeqNos(messages[..|messages| - 1]) + {messages[|messages| - 1].seqNo}
  }

  lemma {:induction false} HasSeqNo(messages: seq<Message>, i: nat)
    requires i < |messages|
    ensures messages[i].seqNo in SeqNos(messages)
  {
    if i < |messages| - 1 {
      HasSeqNo(messages[..|messages| - 1], i);
    }
  }

  lemma {:induction false} SeqNosBelow(messages: seq<Message>, bound: nat)
    requires forall i | 0 <= i < |messages| :: messages[i].seqNo < bound
    ensures forall s | s in SeqNos(messages) :: s < bound
  {
    if messages != [] {
      SeqNosBelow(messages[..|messages| - 1], bound);
    }
  }

  /** The subscription delivers, in order, exactly the retained messages from `startSeq` on. */
  ghost predicate Delivered(state: StreamState, startSeq: nat, messages: seq<Message>) {
    InOrder(messages) && forall s :: s in SeqNos(messages) <==> s in Retained(state) && s >= startSeq
  }

  /** The early-stop count: of the whole range without a filter, none with one. */
  function Target(state: StreamState, contains: Bytes, startSeq: nat, endSeq: nat): nat {
    if contains == [] then CountAvailable(state, startSeq, endSeq) else NO_TARGET
  }

  /** All calls of a scan, until one returns no rows. */
  method Scan(state: StreamState, messages: seq<Message>, contains: Bytes, startSeq: nat, endSeq: nat, maxRows: nat)
    returns (all: seq<Message>)
    requires Sound(state) && Delivered(state, startSeq, messages) && maxRows > 0
    ensures all == Wanted(Select(messages, contains, endSeq), Target(state, contains, startSeq, endSeq))
  {
    all := [];
    StartBound(state, startSeq, messages);
    if startSeq > endSeq {
      NothingLater(messages, contains, endSeq, 0);
      assert messages[..0] == [];
      return;
    }
    var target := NO_TARGET;
    if contains == [] {
      target := CountAvailableInSequenceRange(state, startSeq, endSeq);
    }
    var scan := new NatsScan(messages, contains, startSeq, endSeq, target);
    var output := scan.NatsScanExecute(maxRows);
    while output != []
      invariant scan.Valid() && scan.rows == all + output && (output == [] ==> scan.done)
      invariant scan.messages == messages && scan.All() == Select(messages, contains, endSeq) && scan.target == target
      decreases |messages| - scan.next, |output|
    {
      all := all + output;
      output := scan.NatsScanExecute(maxRows);
    }
  }

  lemma StartBound(state: StreamState, startSeq: nat, messages: seq<Message>)
    requires Delivered(state, startSeq, messages)
    ensures forall i | 0 <= i < |messages| :: messages[i].seqNo >= startSeq
  {
    forall i | 0 <= i < |messages| ensures messages[i].seqNo >= startSeq {
      HasSeqNo(messages, i);
    }
  }

  function UpTo(seqs: set<nat>, endSeq: nat): set<nat> {
    set s | s in seqs && s <= endSeq
  }

  /** Without a filter, the selected messages are those up to the end, and there are as many as sequences. */
  lemma {:induction false} SelectedSeqs(messages: seq<Message>, endSeq: nat)
    requires InOrder(messages)
    ensures |Select(messages, [], endSeq)| == |UpTo(SeqNos(messages), endSeq)|
  {
    if messages != [] {
      var rest, last := messages[..|messages| - 1], messages[|messages| - 1];
      SelectedSeqs(rest, endSeq);
      SeqNosBelow(rest, last.seqNo);
      OneMore(UpTo(SeqNos(rest), endSeq), UpTo(SeqNos(messages), endSeq), last.seqNo, last.seqNo <= endSeq);
    }
  }

  /** A filtered scan, too, selects at most the messages delivered, fewer than UINT64_MAX. */
  lemma {:induction false} SelectShorter(messages: seq<Message>, contains: Bytes, endSeq: nat)
    ensures |Select(messages, contains, endSeq)| <= |messages|
  {
    if messages != [] {
      SelectShorter(messages[..|messages| - 1], contains, endSeq);
    }
  }

  lemma {:induction false} DistinctSeqs(messages: seq<Message>)
    requires InOrder(messages)
    ensures |SeqNos(messages)| == |messages|
  {
    if messages != [] {
      var rest, last := messages[..|messages| - 1], messages[|messages| - 1];
      DistinctSeqs(rest);
      SeqNosBelow(rest, last.seqNo);
    }
  }

  lemma SubsetSize(a: set<nat>, b: set<nat>)
    requires a <= b
    ensures |a| <= |b|
  {
    assert b == a + (b - a);
  }

  /** The early stop never cuts a scan short exactly when there is a filter, nothing to read, or no deleted sequence of
      the range listed twice. */
  lemma ScanIff(state: StreamState, messages: seq<Message>, contains: Bytes, startSeq: nat, endSeq: nat)
    requires Sound(state) && Delivered(state, startSeq, messages) && startSeq <= endSeq
    ensures Wanted(Select(messages, contains, endSeq), Target(state, contains, startSeq, endSeq))
            == Select(messages, contains, endSeq)
            <==> contains != [] || Available(state, startSeq, endSeq) == {}
                 || DuplicateFreeIn(state.deleted, Max(startSeq, state.firstSeq), Min(endSeq, state.lastSeq))
  {
    var all := Select(messages, contains, endSeq);
    if contains == [] {
      SelectedSeqs(messages, endSeq);
      assert Available(state, startSeq, endSeq) == UpTo(SeqNos(messages), endSeq);
      CountAvailableIff(state, startSeq, endSeq);
      CountAtMost(state, startSeq, endSeq);
    } else {
      SelectShorter(messages, contains, endSeq);
      DistinctSeqs(messages);
      SubsetSize(SeqNos(messages), Range(state.firstSeq, state.lastSeq));
    }
  }

  /** The count never exceeds what is there. */
  lemma CountAtMost(state: StreamState, startSeq: nat, endSeq: nat)
    requires Sound(state) && startSeq <= endSeq
    ensures CountAvailable(state, startSeq, endSeq) <= |Available(state, startSeq, endSeq)|
  {
    var lo, hi := Max(startSeq, state.firstSeq), Min(endSeq, state.lastSeq);
    if state.msgs > 0 && lo <= hi {
      CountOfList(state.deleted, lo, hi);
      AvailableCount(state, startSeq, endSeq, lo, hi);
    }
  }
}
