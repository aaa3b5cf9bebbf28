/** The bounded event history and its cursors (src/a2gspu_context.hpp): events are numbered,
    the oldest are dropped, and a reader that polls with the cursor it was last given can
    account for every number.
 */
module EventHistory {

  datatype Result<+T> = Ok(value: T) | Fail(reason: string)

  const PAYLOAD_CAP := 4096
  const ROW_BUDGET := 6000
  const MAX_CAPACITY := 4096
  const DEFAULT_CAPACITY := 256

  /** `around` is the length of a row without its payload: numbers, kind and stamp. */
  datatype Event = Event(id: nat, parent: nat, kind: string, payload: string, around: nat)
  {
    function Row(): nat { around + |payload| }
  }

  /** The mark left for a payload that is too large; its text names the original size. */
  function Hole(size: nat): string {
    "{\"omitted\":true,\"reason\":\"context-payload-cap\",\"original_bytes\":" + Digits(size) + "}"
  }

  function Digits(n: nat): string {
    (if n < 10 then "" else Digits(n / 10)) + ["0123456789"[n % 10]]
  }

  function Stored(payload: string): string { if |payload| > PAYLOAD_CAP then Hole(|payload|) else payload }

  // ---------------------------------------------------------------- state

  datatype State = State(history: seq<Event>, sequence: nat, discarded: nat, oversized: nat, capacity: nat, active: bool)

  /** The retained events are the last ones, and no more than there is room for. */
  predicate Valid(s: State) {
    && |s.history| <= s.capacity && |s.history| <= s.sequence && s.capacity > 0
    && (forall i :: 0 <= i < |s.history| ==> s.history[i].id == s.sequence - |s.history| + 1 + i)
  }

  /** `retain`: nothing while inactive. */
  function Kept(s: State, parent: nat, kind: string, payload: string, around: nat): State {
    if !s.active then s
    else
      var full := |s.history| == s.capacity;
      var kept := if full && s.history != [] then s.history[1..] else s.history;
      s.(history := kept + [Event(s.sequence + 1, parent, kind, Stored(payload), around)],
         sequence := s.sequence + 1,
         discarded := if full then s.discarded + 1 else s.discarded,
         oversized := if |payload| > PAYLOAD_CAP then s.oversized + 1 else s.oversized)
  }

  /** `on`: a fresh history, but numbers go on. */
  function Opened(s: State, capacity: nat): (r: Result<State>) {
    if s.active then Fail("context-history-already-active")
    else if capacity == 0 || capacity > MAX_CAPACITY then Fail("capacity must be 1..4096")
    else Ok(s.(capacity := capacity, history := [], discarded := 0, oversized := 0, active := true))
  }

  /** `off`: what was kept can still be read. */
  function Closed(s: State): (r: Result<State>) {
    if !s.active then Fail("context-history-not-active") else Ok(s.(active := false))
  }

  datatype Answer = Answer(rows: seq<Event>, next: nat, more: bool, lost: nat, complete: bool)

  function Size(rows: seq<Event>): nat { if rows == [] then 0 else Size(rows[..|rows| - 1]) + rows[|rows| - 1].Row() }

  /** The events after a cursor. */
  function After(s: State, after: nat): seq<Event>
    requires Valid(s)
  {
    var first := s.sequence - |s.history|;
    if after <= first then s.history
    else if after <= s.sequence then s.history[after - first..]
    else []
  }

  /** What a page is, without saying how it is filled: as many of the pending events as the
      count and the row budget allow, and always at least one. */
  ghost predicate IsPage(pending: seq<Event>, count: nat, n: nat) {
    && n <= |pending| && n <= count
    && (n < |pending| ==> n == count || (n > 0 && Size(pending[..n]) + pending[n].Row() > ROW_BUDGET))
    && (n > 1 ==> Size(pending[..n]) <= ROW_BUDGET)
  }

  ghost predicate Answers(s: State, after: nat, count: nat, a: Answer)
    requires Valid(s)
  {
    var pending := After(s, after);
    && IsPage(pending, count, |a.rows|) && a.rows == pending[..|a.rows|]
    && a.next == (if a.rows == [] then after else a.rows[|a.rows| - 1].id)
    && (a.more <==> |a.rows| < |pending|)
    && a.lost == (if s.history == [] || s.history[0].id <= after + 1 then 0 else s.history[0].id - after - 1)
    && (a.complete <==> a.lost == 0 && s.oversized == 0)
  }

  class History {
    var history: seq<Event>
    var sequence: nat
    var discarded: nat
    var oversized: nat
    var capacity: nat
    var active: bool

    function View(): State
      reads this
    {
      State(history, sequence, discarded, oversized, capacity, active)
    }

    constructor ()
      ensures View() == State([], 0, 0, 0, DEFAULT_CAPACITY, false)
    {
      history, sequence, discarded, oversized, capacity, active := [], 0, 0, 0, DEFAULT_CAPACITY, false;
    }

    method Retain(parent: nat, kind: string, payload: string, around: nat) returns (id: nat)
      requires Valid(View())
      modifies this
      ensures View() == Kept(old(View()), parent, kind, payload, around) && Valid(View())
      ensures id == if active then sequence else 0
    {
      if !active { return 0; }
      var value := payload;
      if |value| > PAYLOAD_CAP {
        oversized := oversized + 1;
        value := Hole(|value|);
      }
      if |history| == capacity {
        history := history[1..];
        discarded := discarded + 1;
      }
      sequence := sequence + 1;
      history := history + [Event(sequence, parent, kind, value, around)];
      return sequence;
    }

    method TurnOn(n: nat) returns (r: Result<()>)
      modifies this
      ensures var t := Opened(old(View()), n);
              if t.Ok? then r.Ok? && View() == t.value && Valid(View()) else r == Fail(t.reason) && View() == old(View())
    {
      if active { return Fail("context-history-already-active"); }
      if n == 0 || n > MAX_CAPACITY { return Fail("capacity must be 1..4096"); }
      capacity, history, discarded, oversized, active := n, [], 0, 0, true;
      return Ok(());
    }

    method TurnOff() returns (r: Result<()>)
      modifies this
      ensures var t := Closed(old(View()));
              if t.Ok? then r.Ok? && View() == t.value else r == Fail(t.reason) && View() == old(View())
    {
      if !active { return Fail("context-history-not-active"); }
      active := false;
      return Ok(());
    }

    /** `events`: rows after a cursor, with what was missed. */
    method Events(after: nat, count: nat) returns (r: Result<Answer>)
      requires Valid(View()) && 1 <= count <= 8
      ensures r.Ok? <==> after <= sequence
      ensures r.Ok? ==> Answers(View(), after, count, r.value)
    {
      hide After, Size, Valid, Event.Row, Answers, IsPage, First;
      if after > sequence { return Fail("event cursor is ahead of this history"); }
      var lost := if history == [] then 0 else if after + 1 < history[0].id then history[0].id - after - 1 else 0;
      var rows: seq<Event>, bytes, next, more := [], 0, after, false;
      ghost var pending := After(View(), after);
      var all := history;
      ghost var skipped := |all| - |pending|;
      AfterIsSuffix(View(), after);
      PrefixSize(pending, 0);
      var i := 0;
      while i < |all| && !more
        invariant 0 <= i <= |all| && |rows| <= |pending| && rows == First(pending, |rows|)
        invariant i <= skipped ==> rows == []
        invariant !more && i > skipped ==> i == skipped + |rows|
        invariant |rows| <= count && (|rows| > 1 ==> bytes <= ROW_BUDGET) && bytes == Size(First(pending, |rows|))
        invariant more ==> |rows| < |pending| && (|rows| == count || (rows != [] && bytes + pending[|rows|].Row() > ROW_BUDGET))
        invariant next == if rows == [] then after else rows[|rows| - 1].id
      {
        var e := all[i];
        if e.id > after {
          if |rows| == count || (rows != [] && bytes + e.Row() > ROW_BUDGET) {
            more := true;
          } else {
            PrefixSize(pending, |rows|);
            rows, bytes, next := rows + [e], bytes + e.Row(), e.id;
          }
        }
        i := i + 1;
      }
      r := Ok(Answer(rows, next, more, lost, lost == 0 && oversized == 0));
      IsTheAnswer(View(), after, count, r.value);
    }
  }

  lemma IsTheAnswer(s: State, after: nat, count: nat, a: Answer)
    requires Valid(s)
    requires var pending := After(s, after);
             var n := |a.rows|;
             && n <= |pending| && a.rows == First(pending, n) && (n > 1 ==> Size(First(pending, n)) <= ROW_BUDGET) && n <= count
             && (a.more <==> n < |pending|)
             && (a.more ==> n == count || (n > 0 && Size(First(pending, n)) + pending[n].Row() > ROW_BUDGET))
             && a.next == (if a.rows == [] then after else a.rows[n - 1].id)
    requires a.lost == (if s.history == [] || s.history[0].id <= after + 1 then 0 else s.history[0].id - after - 1)
    requires a.complete <==> a.lost == 0 && s.oversized == 0
    ensures Answers(s, after, count, a)
  {
    hide After, Size, Event.Row, Valid;
  }

  function First(rows: seq<Event>, n: nat): seq<Event> { if n <= |rows| then rows[..n] else rows }

  lemma PrefixSize(rows: seq<Event>, n: nat)
    ensures First(rows, 0) == [] && Size([]) == 0
    ensures n < |rows| ==> First(rows, n + 1) == First(rows, n) + [rows[n]] && Size(First(rows, n + 1)) == Size(First(rows, n)) + rows[n].Row()
  {
    if n < |rows| { assert rows[..n + 1][..n] == rows[..n]; }
  }

  lemma AfterIsSuffix(s: State, after: nat)
    requires Valid(s) && after <= s.sequence
    ensures var p := After(s, after);
            var k := |s.history| - |p|;
            && k >= 0 && p == s.history[k..]
            && (forall i :: 0 <= i < k ==> s.history[i].id <= after)
            && (forall i :: k <= i < |s.history| ==> s.history[i].id > after)
  {
  }

  // ---------------------------------------------------------------- one query

  /** So many rows may be sent: within the count, and more than one only within the budget. */
  predicate MayBeSent(pending: seq<Event>, count: nat, k: nat) {
    k <= |pending| && k <= count && (k <= 1 || Size(pending[..k]) <= ROW_BUDGET)
  }

  /** A page is the longest beginning of the pending events that may be sent. */
  lemma PageIsLongest(pending: seq<Event>, count: nat, n: nat)
    requires count >= 1
    ensures IsPage(pending, count, n) <==> MayBeSent(pending, count, n) && forall k: nat :: MayBeSent(pending, count, k) ==> k <= n
  {
    hide Size, Event.Row;
    if n < |pending| { OneRowMore(pending, n); }
    if MayBeSent(pending, count, n) && !IsPage(pending, count, n) {
      assert MayBeSent(pending, count, n + 1);
    }
    if IsPage(pending, count, n) {
      forall k: nat | MayBeSent(pending, count, k) ensures k <= n {
        if k > n { LongerIsLarger(pending, n + 1, k); }
      }
    }
  }

  lemma OneRowMore(rows: seq<Event>, n: nat)
    requires n < |rows|
    ensures Size(rows[..n + 1]) == Size(rows[..n]) + rows[n].Row()
  {
    assert rows[..n + 1][..n] == rows[..n];
  }

  lemma {:induction false} LongerIsLarger(rows: seq<Event>, n: nat, k: nat)
    requires n <= k <= |rows|
    ensures Size(rows[..n]) <= Size(rows[..k])
  {
    hide Size, Event.Row;
    if n < k {
      LongerIsLarger(rows, n, k - 1);
      OneRowMore(rows, k - 1);
    }
  }

  /** The cursor advances by what was lost and what was returned, and by nothing else; what was
      returned is numbered without a gap, and what was lost is not in the history. */
  lemma QueryAccounts(s: State, after: nat, count: nat, a: Answer)
    requires Valid(s) && after <= s.sequence && count >= 1 && Answers(s, after, count, a)
    ensures a.next - after == a.lost + |a.rows| && a.next <= s.sequence
    ensures forall i :: 0 <= i < |a.rows| ==> a.rows[i].id == after + a.lost + 1 + i && a.rows[i] in s.history
    ensures forall i :: 0 <= i < |s.history| && after < s.history[i].id <= a.next ==> s.history[i] in a.rows
    ensures forall i :: 0 <= i < |s.history| ==> !(after < s.history[i].id <= after + a.lost)
    ensures !a.more ==> (a.next == s.sequence <==> s.history != [] || after == s.sequence)
    ensures a.more ==> a.next > after
  {
    hide Valid, Answers;
    QueryNumbers(s, after, count, a);
    QueryHandsOver(s, after, count, a);
  }

  lemma QueryNumbers(s: State, after: nat, count: nat, a: Answer)
    requires Valid(s) && after <= s.sequence && count >= 1 && Answers(s, after, count, a)
    ensures a.next - after == a.lost + |a.rows| && a.next <= s.sequence
    ensures forall i :: 0 <= i < |a.rows| ==> a.rows[i].id == after + a.lost + 1 + i && a.rows[i] in s.history
    ensures forall i :: 0 <= i < |s.history| ==> !(after < s.history[i].id <= after + a.lost)
    ensures !a.more ==> (a.next == s.sequence <==> s.history != [] || after == s.sequence)
    ensures a.more ==> a.next > after
  {
    hide Valid, After, Size, Event.Row;
    PendingIds(s, after);
  }

  lemma QueryHandsOver(s: State, after: nat, count: nat, a: Answer)
    requires Valid(s) && after <= s.sequence && Answers(s, after, count, a)
    ensures forall i :: 0 <= i < |s.history| && after < s.history[i].id <= a.next ==> s.history[i] in a.rows
  {
    hide Valid, After, Size, Event.Row, IsPage;
    AfterIsSuffix(s, after);
    HistoryIds(s);
    var pending := After(s, after);
    var skipped := |s.history| - |pending|;
    forall i | 0 <= i < |s.history| && after < s.history[i].id <= a.next ensures s.history[i] in a.rows {
      assert pending[i - skipped] == s.history[i];
      assert a.rows[i - skipped] == s.history[i];
    }
  }

  lemma HistoryIds(s: State)
    requires Valid(s)
    ensures forall i :: 0 <= i < |s.history| ==> s.history[i].id == s.sequence - |s.history| + 1 + i
  {
  }

  lemma PendingIds(s: State, after: nat)
    requires Valid(s) && after <= s.sequence
    ensures var p := After(s, after);
            && (forall i :: 0 <= i < |p| ==> p[i].id == s.sequence - |p| + 1 + i && p[i] in s.history)
            && (s.history != [] ==> |p| == if after < s.history[0].id then |s.history| else s.sequence - after)
            && (s.history != [] ==> s.sequence == s.history[0].id + |s.history| - 1)
            && (s.history == [] ==> p == [])
            && (forall i :: 0 <= i < |s.history| ==> s.history[i].id >= s.history[0].id)
  {
  }

  /** A reader that polls again and again while nothing is added, from its last cursor each time. */
  ghost predicate Polls(s: State, after: nat, counts: seq<nat>, answers: seq<Answer>)
    requires Valid(s)
    decreases |answers|
  {
    |counts| == |answers|
    && (answers == [] ||
        (counts[0] >= 1 && Answers(s, after, counts[0], answers[0]) && Polls(s, answers[0].next, counts[1..], answers[1..])))
  }

  /** As many polls as there are numbers to catch up with are enough, and one when the cursor is
      already there: the last of them reaches the last number and says that there is no more. */
  lemma {:induction false} PollingCatchesUp(s: State, after: nat, counts: seq<nat>, answers: seq<Answer>)
    requires Valid(s) && s.history != [] && after <= s.sequence && Polls(s, after, counts, answers)
    requires answers != [] && |answers| >= s.sequence - after
    ensures var last := answers[|answers| - 1]; last.next == s.sequence && !last.more
    decreases |answers|
  {
    hide Valid, Answers;
    var a := answers[0];
    QueryAccounts(s, after, counts[0], a);
    if |answers| == 1 {
      LastPageIsLast(s, after, counts[0], a);
    } else {
      PollingCatchesUp(s, a.next, counts[1..], answers[1..]);
    }
  }

  lemma LastPageIsLast(s: State, after: nat, count: nat, a: Answer)
    requires Valid(s) && s.history != [] && after <= s.sequence <= after + 1 && count >= 1 && Answers(s, after, count, a)
    ensures !a.more
  {
    hide Valid, Size, Event.Row;
    QueryAccounts(s, after, count, a);
    PendingIds(s, after);
    hide After;
  }

  // ---------------------------------------------------------------- runs with a polling reader

  datatype Op = Keep(parent: nat, kind: string, payload: string, around: nat) | On(capacity: nat) | Off | Poll(answer: Answer, count: nat)

  /** The machine, the reader's cursor, what it got, what it was told it lost, and how many
      events were kept since the history was last turned on. */
  datatype World = World(s: State, cursor: nat, got: seq<Event>, lost: nat, since: nat)

  ghost predicate Legal(w: World, op: Op)
    requires Valid(w.s)
  {
    op.Poll? ==> 1 <= op.count <= 8 && Answers(w.s, w.cursor, op.count, op.answer)
  }

  function Next(w: World, op: Op): World {
    match op
    case Keep(parent, kind, payload, around) =>
      w.(s := Kept(w.s, parent, kind, payload, around), since := if w.s.active then w.since + 1 else w.since)
    case On(capacity) =>
      var r := Opened(w.s, capacity);
      if r.Ok? then w.(s := r.value, since := 0) else w
    case Off =>
      var r := Closed(w.s);
      if r.Ok? then w.(s := r.value) else w
    case Poll(a, _) => w.(cursor := a.next, got := w.got + a.rows, lost := w.lost + a.lost)
  }

  /** A run: each poll's answer is one that the history gives. */
  ghost predicate RunTo(w: World, ops: seq<Op>, end: World)
    decreases |ops|
  {
    if ops == [] then w == end
    else exists mid: World :: RunTo(w, ops[..|ops| - 1], mid) && Valid(mid.s) && Legal(mid, ops[|ops| - 1]) && end == Next(mid, ops[|ops| - 1])
  }

  ghost predicate Accounted(w: World) {
    && Valid(w.s) && w.cursor <= w.s.sequence
    && w.s.discarded + |w.s.history| == w.since
    && w.cursor == |w.got| + w.lost
    && (forall i, j :: 0 <= i < j < |w.got| ==> w.got[i].id < w.got[j].id)
    && (forall i :: 0 <= i < |w.got| ==> 1 <= w.got[i].id <= w.cursor)
    && (forall i :: 0 <= i < |w.s.history| && w.s.history[i].id <= w.cursor ==> w.s.history[i] in w.got)
  }

  const START := World(State([], 0, 0, 0, DEFAULT_CAPACITY, false), 0, [], 0, 0)

  lemma PollAccounts(w: World, a: Answer, count: nat)
    requires Accounted(w) && Legal(w, Poll(a, count))
    ensures Accounted(Next(w, Poll(a, count)))
  {
    hide Answers, After, IsPage, Valid;
    QueryAccounts(w.s, w.cursor, count, a);
    var t := Next(w, Poll(a, count));
    assert forall i :: 0 <= i < |a.rows| ==> a.rows[i].id == (w.cursor + a.lost) + 1 + i;
    GotGrows(w.got, a.rows, w.cursor, w.cursor + a.lost, a.next);
    forall i | 0 <= i < |w.s.history| && w.s.history[i].id <= a.next ensures w.s.history[i] in t.got {
      if w.s.history[i].id <= w.cursor {
        assert w.s.history[i] in w.got;
      } else {
        assert w.s.history[i] in a.rows;
      }
    }
  }

  lemma GotGrows(got: seq<Event>, rows: seq<Event>, cursor: nat, from: nat, next: nat)
    requires forall i, j :: 0 <= i < j < |got| ==> got[i].id < got[j].id
    requires forall i :: 0 <= i < |got| ==> 1 <= got[i].id <= cursor
    requires cursor <= from <= from + |rows| <= next && forall i :: 0 <= i < |rows| ==> rows[i].id == from + 1 + i
    ensures var all := got + rows;
            && (forall i, j :: 0 <= i < j < |all| ==> all[i].id < all[j].id)
            && (forall i :: 0 <= i < |all| ==> 1 <= all[i].id <= next)
  {
  }

  lemma KeepAccounts(w: World, op: Op)
    requires Accounted(w) && op.Keep?
    ensures Accounted(Next(w, op))
  {
    hide Stored;
    var t := Next(w, op);
    if w.s.active {
      var drop := |w.s.history| - (|t.s.history| - 1);
      assert forall i :: 0 <= i < |t.s.history| - 1 ==> t.s.history[i] == w.s.history[i + drop];
    }
  }

  lemma SwitchAccounts(w: World, op: Op)
    requires op.On? || op.Off?
    ensures Accounted(w) ==> Accounted(Next(w, op))
    ensures Accounted(START)
  {
  }

  /** In every run, every number up to the cursor was handed to the reader once or reported as
      lost, every event that is still kept and not after the cursor was handed over, and the
      history's own counters add up. */
  lemma {:induction false} EveryRunIsAccounted(ops: seq<Op>, end: World)
    requires RunTo(START, ops, end)
    ensures Accounted(end)
  {
    hide Accounted, Next, Legal, Valid;
    SwitchAccounts(START, Off);
    if ops != [] {
      var before, op := ops[..|ops| - 1], ops[|ops| - 1];
      var mid: World :| RunTo(START, before, mid) && Valid(mid.s) && Legal(mid, op) && end == Next(mid, op);
      EveryRunIsAccounted(before, mid);
      match op
      case Keep(_, _, _, _) => KeepAccounts(mid, op);
      case On(_) => SwitchAccounts(mid, op);
      case Off => SwitchAccounts(mid, op);
      case Poll(a, count) => PollAccounts(mid, a, count);
    }
  }

  // ---------------------------------------------------------------- what the history holds

  /** What a run calls for: every event kept since the history was turned on, with its number,
      kind, parent and payload, and how many payloads were too large. */
  datatype Wanted = Wanted(events: seq<Event>, numbers: nat, large: nat, capacity: nat, active: bool)

  function WantedBy(ops: seq<Op>): Wanted {
    if ops == [] then Wanted([], 0, 0, 256, false) else WantedNext(WantedBy(ops[..|ops| - 1]), ops[|ops| - 1])
  }

  function WantedNext(w: Wanted, op: Op): Wanted {
    match op
    case Keep(parent, kind, payload, around) =>
      if !w.active then w
      else
        w.(events := w.events + [Event(w.numbers + 1, parent, kind, Body(payload), around)], numbers := w.numbers + 1,
           large := if |payload| > 4096 then w.large + 1 else w.large)
    case On(capacity) =>
      if w.active || capacity == 0 || capacity > 4096 then w else w.(events := [], large := 0, capacity := capacity, active := true)
    case Off => w.(active := false)
    case Poll(_, _) => w
  }

  /** A payload of up to 4096 characters as it is; a larger one as a note of its size. */
  function Body(payload: string): string {
    if |payload| <= 4096 then payload
    else "{\"omitted\":true,\"reason\":\"context-payload-cap\",\"original_bytes\":" + Digits(|payload|) + "}"
  }

  lemma BodyIsStored(payload: string)
    ensures Body(payload) == Stored(payload)
  {
    hide Digits;
  }

  ghost predicate HoldsWanted(s: State, w: Wanted) {
    var n := if |w.events| <= w.capacity then |w.events| else w.capacity;
    && w.capacity > 0 && s.history == w.events[|w.events| - n..]
    && s.discarded == |w.events| - n && s.oversized == w.large && s.sequence == w.numbers
    && s.capacity == w.capacity && s.active == w.active
  }

  /** In every run the history holds the last of the wanted events, as many as there is room for,
      unchanged; and its counters say how many were dropped and how many were too large. */
  lemma {:induction false} HistoryHoldsTheLast(ops: seq<Op>, end: World)
    requires RunTo(START, ops, end)
    ensures HoldsWanted(end.s, WantedBy(ops))
  {
    hide Next, Legal, Valid, HoldsWanted;
    if ops == [] {
      FirstWanted();
    } else {
      var before, op := ops[..|ops| - 1], ops[|ops| - 1];
      var mid: World :| RunTo(START, before, mid) && Valid(mid.s) && Legal(mid, op) && end == Next(mid, op);
      HistoryHoldsTheLast(before, mid);
      OpHoldsWanted(mid, op, before, ops);
    }
  }

  lemma FirstWanted()
    ensures HoldsWanted(START.s, WantedBy([]))
  {
  }

  lemma OpHoldsWanted(w: World, op: Op, before: seq<Op>, ops: seq<Op>)
    requires HoldsWanted(w.s, WantedBy(before)) && ops == before + [op]
    ensures HoldsWanted(Next(w, op).s, WantedBy(ops))
  {
    hide Body, Stored, HoldsWanted;
    assert ops[..|ops| - 1] == before;
    var x := WantedBy(before);
    hide WantedBy;
    if op.Keep? {
      BodyIsStored(op.payload);
      ActiveAlike(w.s, x);
      if x.active {
        var n := if |x.events| <= x.capacity then |x.events| else x.capacity;
        SuffixGrows(x.events, n, Event(x.numbers + 1, op.parent, op.kind, Stored(op.payload), op.around));
        KeepHoldsWanted(w.s, x, WantedNext(x, op), op);
      }
    } else {
      SwitchHoldsWanted(w, x, op);
    }
  }

  lemma ActiveAlike(s: State, x: Wanted)
    requires HoldsWanted(s, x)
    ensures s.active == x.active
  {
  }

  lemma SwitchHoldsWanted(w: World, x: Wanted, op: Op)
    requires HoldsWanted(w.s, x) && !op.Keep?
    ensures HoldsWanted(Next(w, op).s, WantedNext(x, op))
  {
    hide Body;
  }

  lemma KeepHoldsWanted(s: State, x: Wanted, y: Wanted, op: Op)
    requires HoldsWanted(s, x) && op.Keep? && x.active
    requires var e := Event(x.numbers + 1, op.parent, op.kind, Stored(op.payload), op.around);
             && y.events == x.events + [e] && y.numbers == x.numbers + 1 && y.capacity == x.capacity && y.active
             && y.large == (if |op.payload| > PAYLOAD_CAP then x.large + 1 else x.large)
             && var n := if |x.events| <= x.capacity then |x.events| else x.capacity;
                && y.events[|x.events| - n..] == x.events[|x.events| - n..] + [e]
                && (n > 0 ==> y.events[|y.events| - n..] == x.events[|x.events| - n..][1..] + [e])
    ensures HoldsWanted(Kept(s, op.parent, op.kind, op.payload, op.around), y)
  {
    hide Stored;
  }

  lemma SuffixGrows(es: seq<Event>, n: nat, e: Event)
    requires n <= |es|
    ensures (es + [e])[|es| - n..] == es[|es| - n..] + [e]
    ensures n > 0 ==> (es + [e])[|es| + 1 - n..] == es[|es| - n..][1..] + [e]
  {
  }

  /** The size in a hole is written in decimal. */
  lemma {:induction false} DigitsAreDecimal(n: nat)
    ensures Digits(n) != "" && (forall i :: 0 <= i < |Digits(n)| ==> '0' <= Digits(n)[i] <= '9') && Decimal(Digits(n)) == n
  {
    assert "0123456789"[n % 10] as int == '0' as int + n % 10;
    if n >= 10 {
      DigitsAreDecimal(n / 10);
      assert Digits(n)[..|Digits(n)| - 1] == Digits(n / 10);
    } else {
      assert Digits(n)[..0] == "" && Decimal("") == 0;
    }
  }

  function Decimal(s: string): int {
    if s == "" then 0 else 10 * Decimal(s[..|s| - 1]) + (s[|s| - 1] as int - '0' as int)
  }

  // ---------------------------------------------------------------- an emptied history

  lemma RunStep(w: World, ops: seq<Op>, mid: World, op: Op)
    requires RunTo(w, ops, mid) && Valid(mid.s) && Legal(mid, op)
    ensures RunTo(w, ops + [op], Next(mid, op))
  {
    assert (ops + [op])[..|ops|] == ops;
  }

  /** Turning the history off and on again empties it, and until the next event the answer to an
      old cursor is complete and without loss, although events after the cursor are gone. */
  lemma ReopenedHistoryIsSilent() returns (ops: seq<Op>, w: World, a: Answer)
    ensures RunTo(START, ops, w) && Valid(w.s) && Answers(w.s, 0, 4, a)
    ensures a.complete && a.lost == 0 && !a.more && a.rows == [] && a.next < w.s.sequence
  {
    var keep := Keep(0, "command", "{}", 0);
    var w1 := Next(START, On(1));
    var w2 := Next(w1, keep);
    var w3 := Next(w2, Off);
    w := Next(w3, On(1));
    RunStep(START, [], START, On(1));
    RunStep(START, [] + [On(1)], w1, keep);
    RunStep(START, [] + [On(1)] + [keep], w2, Off);
    RunStep(START, [] + [On(1)] + [keep] + [Off], w3, On(1));
    ops := [] + [On(1)] + [keep] + [Off] + [On(1)];
    a := Answer([], 0, false, 0, true);
    assert w.s.history == [] && w.s.sequence == 1;
  }
}
