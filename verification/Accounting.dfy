// The transports of a program that share one source_info: the data callbacks of
// one write to others, and what is queued is counted against the input read.
module Accounting {
  import opened Sockets
  import opened WaitQueues
  import opened Transport

  // What a data callback, or the program elsewhere, does with transports.
  datatype Action =
    | WriteCopy(to: nat, out: Bytes)
    | ForceWrite(to: nat, out: Bytes)

  // An action that was carried out, and what it returned.
  datatype Done = Done(action: Action, rv: int)

  // What transport j has accepted: the writes to it that returned 0, in order.
  function Accepted(log: seq<Done>, j: nat): Bytes {
    if log == [] then []
    else
      var (before, last) := (log[..|log| - 1], log[|log| - 1]);
      if last.action.to == j && last.rv == 0 then Accepted(before, j) + last.action.out else Accepted(before, j)
  }

  // Whether these are the given actions, each carried out once and in order.
  predicate Records(done: seq<Done>, actions: seq<Action>) {
    if actions == [] then done == []
    else done != [] && done[0].action == actions[0] && Records(done[1..], actions[1..])
  }

  lemma {:induction false} RecordMore(log: seq<Done>, first: Done, more: seq<Done>)
    ensures (log + [first]) + more == log + ([first] + more) && ([first] + more)[1..] == more
  {
  }

  // A data callback: what it does, the header size it leaves, and its result.
  // With `keeps` the input stream is left as it is (no_stream_init_on_data_in).
  datatype Handler = Handler(actions: seq<Action>, headerSize: nat, keeps: bool, rv: int)

  datatype Event =
    | Act(action: Action)
    | Check(trans: nat, onData: Handler)

  // What an event does; the callback of a check may not have run.
  function ActionsOf(event: Event, ran: bool): seq<Action> {
    match event
    case Act(action) => [action]
    case Check(_, onData) => if ran then onData.actions else []
  }

  // What the first |ran| events of a run do.
  function ActionsIn(events: seq<Event>, ran: seq<bool>): seq<Action>
    requires |ran| <= |events|
  {
    if ran == [] then [] else ActionsOf(events[0], ran[0]) + ActionsIn(events[1..], ran[1..])
  }

  lemma {:induction false} RecordsJoin(first: seq<Done>, a: seq<Action>, more: seq<Done>, b: seq<Action>)
    requires Records(first, a) && Records(more, b)
    ensures Records(first + more, a + b)
    decreases |a|
  {
    if a == [] {
      assert first + more == more && a + b == b;
    } else {
      RecordsJoin(first[1..], a[1..], more, b);
      assert (first + more)[1..] == first[1..] + more && (a + b)[1..] == a[1..] + b;
    }
  }

  lemma {:induction false} RunStep(log: seq<Done>, events: seq<Event>, now: bool, first: seq<Done>,
                                   later: seq<bool>, more: seq<Done>)
    requires events != [] && |later| <= |events| - 1
    requires Records(first, ActionsOf(events[0], now)) && Records(more, ActionsIn(events[1..], later))
    ensures Records(first + more, ActionsIn(events, [now] + later))
    ensures (log + first) + more == log + (first + more) && (more == [] ==> log + (first + more) == log + first)
  {
    RecordsJoin(first, ActionsOf(events[0], now), more, ActionsIn(events[1..], later));
    assert ([now] + later)[1..] == later;
  }

  predicate GoodActions(actions: seq<Action>, n: nat) {
    actions == [] || (actions[0].to < n && GoodActions(actions[1..], n))
  }

  predicate GoodEvent(event: Event, n: nat) {
    match event
    case Act(action) => action.to < n
    case Check(trans, onData) => trans < n && GoodActions(onData.actions, n)
  }

  predicate GoodEvents(events: seq<Event>, n: nat) {
    events == [] || (GoodEvent(events[0], n) && GoodEvents(events[1..], n))
  }

  ghost function QueuesOf(all: seq<Trans>): seq<Queue>
    reads all
  {
    seq(|all|, i requires 0 <= i < |all| reads all => all[i].waitS)
  }

  // Every count is the number of bytes queued anywhere for that source.
  ghost predicate Counted(source: seq<int>, queues: seq<Queue>) {
    && |source| == XRDP_SOURCE_MAX_COUNT
    && source[XRDP_SOURCE_NONE] == 0
    && forall k: Source | k != XRDP_SOURCE_NONE :: source[k] == Total(queues, k)
  }

  // Changing one queue and its counts keeps the counts of all right.
  lemma {:induction false} CountedUpdate(was: seq<int>, queues: seq<Queue>, source: seq<int>, i: nat, queue: Queue)
    requires Counted(was, queues) && i < |queues| && |source| == XRDP_SOURCE_MAX_COUNT
    requires OtherCounts(source, queue) == OtherCounts(was, queues[i])
    ensures Counted(source, queues[i := queue])
  {
    var other, otherWas := OtherCounts(source, queue), OtherCounts(was, queues[i]);
    assert other[XRDP_SOURCE_NONE] == otherWas[XRDP_SOURCE_NONE];
    forall k: Source | k != XRDP_SOURCE_NONE
      ensures source[k] == Total(queues[i := queue], k)
    {
      TotalUpdate(queues, i, queue, k);
      assert other[k] == otherWas[k];
    }
  }

  // No count except that of `charged` has gone up.
  predicate NotRaised(was: seq<int>, now: seq<int>, charged: Source) {
    && |was| == |now| == XRDP_SOURCE_MAX_COUNT
    && forall k: Source | k != XRDP_SOURCE_NONE && k != charged :: now[k] <= was[k]
  }

  // A write of transport i counted against `source`, after which `queue` is
  // what is left of its output.
  lemma {:induction false} WriteStep(was: seq<int>, queues: seq<Queue>, now: seq<int>, i: nat,
                                     queue: Queue, out: Bytes, source: Source)
    requires Counted(was, queues) && i < |queues| && Good(queues[i], true)
    requires |now| == XRDP_SOURCE_MAX_COUNT && OtherCounts(now, queue) == OtherCounts(was, queues[i])
    requires Rest(Appended(queues[i], out, source), queue)
    ensures Counted(now, queues[i := queue])
    ensures NotRaised(was, now, source)
  {
    CountedUpdate(was, queues, now, i, queue);
    forall k: Source | k != XRDP_SOURCE_NONE && k != source
      ensures now[k] <= was[k]
    {
      WriteCharges(queues[i], queue, out, source, k);
      assert OtherCounts(now, queue)[k] == OtherCounts(was, queues[i])[k];
    }
  }

  lemma {:induction false} NeverRaised(was: seq<int>, mid: seq<int>, now: seq<int>, charged: Source)
    requires NotRaised(was, mid, charged) && NotRaised(mid, now, charged)
    ensures NotRaised(was, now, charged)
  {
    forall k: Source | k != XRDP_SOURCE_NONE && k != charged
      ensures now[k] <= was[k]
    {
      assert mid[k] <= was[k];
    }
  }

  lemma {:induction false} NothingQueued(queues: seq<Queue>, k: Source)
    requires forall i :: 0 <= i < |queues| ==> queues[i] == End
    ensures Total(queues, k) == 0
  {
    if queues != [] {
      NothingQueued(queues[1..], k);
    }
  }

  // Two transports share no object other than the source_info.
  predicate Apart(t: Trans, u: Trans) {
    t != u && t.sock != u.sock && t.inS != u.inS && t.inS.data != u.inS.data
  }

  twostate predicate Untouched(t: Trans)
    reads t.Repr()
  {
    unchanged(t) && unchanged(t.sock) && unchanged(t.inS) && unchanged(t.inS.data)
  }

  class Program {
    const si: SourceInfo
    const all: seq<Trans>

    ghost var log: seq<Done> // the writes so far

    constructor (si: SourceInfo, all: seq<Trans>)
      requires forall i, j :: 0 <= i < |all| && 0 <= j < |all| && i != j ==> Apart(all[i], all[j])
      requires forall i :: 0 <= i < |all| ==> all[i].si == si && all[i].Valid() && all[i].waitS == End && all[i].accepted == []
      requires si.source[..] == [0, 0, 0, 0, 0, 0, 0]
      ensures Valid() && this.si == si && this.all == all && log == []
    {
      this.si, this.all, log := si, all, [];
      forall k: Source {
        NothingQueued(QueuesOf(all), k);
      }
    }

    ghost predicate Separate() {
      && (forall i, j {:trigger Apart(all[i], all[j])} :: 0 <= i < |all| && 0 <= j < |all| && i != j ==> Apart(all[i], all[j]))
      && (forall i :: 0 <= i < |all| ==> all[i].si == si)
    }

    ghost predicate Valid()
      reads this, si, si.source, all, Owned()
    {
      Balanced() && Logged()
    }

    // What every transport has accepted is in the log.
    ghost predicate Logged()
      reads this, all
    {
      forall j :: 0 <= j < |all| ==> all[j].accepted == Accepted(log, j)
    }

    ghost predicate Balanced()
      reads si, si.source, all, Owned()
    {
      && Separate()
      && (forall i :: 0 <= i < |all| ==> all[i].Valid())
      && Counted(si.source[..], QueuesOf(all))
    }

    // The objects the transports are made of.
    ghost function Owned(): set<object> {
      (set t | t in all :: t as object) + (set t | t in all :: t.sock as object)
      + (set t | t in all :: t.inS as object) + (set t | t in all :: t.inS.data as object)
    }

    lemma {:induction false} Owns(i: nat)
      requires i < |all|
      ensures all[i] in Owned() && all[i].sock in Owned() && all[i].inS in Owned() && all[i].inS.data in Owned()
    {
      assert all[i] in all;
    }

    // Transport i alone has changed: as by a write of `out`, counted against
    // `source`, and by sending from the front of its queue.
    twostate predicate Changed(i: nat, new out: Bytes, new source: Source)
      requires i < |all| && Separate()
      reads si, si.source, all, Owned()
    {
      && (forall t :: t in all && t != all[i] ==> Untouched(t))
      && all[i].Valid() && all[i].Elsewhere() == old(all[i].Elsewhere())
      && Rest(Appended(old(all[i].waitS), out, source), all[i].waitS)
    }

    twostate lemma {:induction false} Settled(new i: nat, new out: Bytes, new source: Source)
      requires old(Balanced()) && i < |all| && Separate() && Changed(i, out, source)
      ensures Balanced() && NotRaised(old(si.source[..]), si.source[..], source)
    {
      Others(i);
      forall j | 0 <= j < |all| && j != i
        ensures all[j].waitS == old(all[j].waitS) && all[j].Valid()
      {
        assert Apart(all[i], all[j]) && all[j] in all;
        assert Untouched(all[j]);
      }
      assert QueuesOf(all) == old(QueuesOf(all))[i := all[i].waitS];
      WriteStep(old(si.source[..]), old(QueuesOf(all)), si.source[..], i, all[i].waitS, out, source);
    }

    twostate lemma {:induction false} LogKept(new i: nat)
      requires old(Logged()) && i < |all| && Separate() && Changed(i, [], XRDP_SOURCE_NONE)
      requires log == old(log) && all[i].accepted == old(all[i].accepted)
      ensures Logged()
    {
      forall j | 0 <= j < |all| && j != i
        ensures all[j].accepted == old(all[j].accepted)
      {
        assert Apart(all[i], all[j]) && all[j] in all;
        assert Untouched(all[j]);
      }
    }

    twostate lemma {:induction false} LogWritten(new done: Done, new queued: Bytes, new source: Source)
      requires old(Logged()) && done.action.to < |all| && Separate() && Changed(done.action.to, queued, source)
      requires log == old(log) + [done]
      requires done.rv == 0 ==> all[done.action.to].accepted == old(all[done.action.to].accepted) + done.action.out
      requires done.rv != 0 ==> all[done.action.to].accepted == old(all[done.action.to].accepted)
      ensures Logged()
    {
      var i := done.action.to;
      assert log[..|log| - 1] == old(log);
      forall j | 0 <= j < |all| && j != i
        ensures all[j].accepted == old(all[j].accepted)
      {
        assert Apart(all[i], all[j]) && all[j] in all;
        assert Untouched(all[j]);
      }
    }

    lemma {:induction false} Others(i: nat)
      requires i < |all| && Separate()
      ensures forall t :: t in all && t != all[i] ==> Apart(all[i], t)
    {
      forall t | t in all && t != all[i]
        ensures Apart(all[i], t)
      {
        var j :| 0 <= j < |all| && all[j] == t;
        assert Apart(all[i], all[j]);
      }
    }

    method CopyOne(i: nat, out: Bytes) returns (rv: int, ghost queued: Bytes, ghost source: Source)
      requires i < |all| && Separate() && all[i].Valid()
      modifies (all[i] as Trans)`up, (all[i] as Trans)`waitS, (all[i] as Trans)`accepted
      modifies all[i].sock`wire, all[i].sock`refusals, si.source
      ensures Changed(i, queued, source) && (rv == 0 || rv == 1)
      ensures source == if si.curSource == all[i].mySource then XRDP_SOURCE_NONE else si.curSource
      ensures queued == if rv == 0 then out else []
      ensures (rv == 0 && out != []) || old(Ends(all[i])) ==> Ends(all[i])
      ensures rv == 0 ==> all[i].accepted == old(all[i].accepted) + out
      ensures rv == 1 ==> all[i].accepted == old(all[i].accepted)
    {
      Others(i);
      var t := all[i];
      source := t.Charged();
      ghost var before := t.waitS;
      rv := t.TryWriteCopyS(out);
      queued := if rv == 0 then out else [];
      if queued != [] || EndsWith(before, source) {
        WrittenEnds(before, queued, source, t.waitS);
      }
    }

    method Note(ghost done: Done)
      requires Balanced()
      modifies this`log
      ensures Balanced() && log == old(log) + [done]
    {
      log := log + [done];
    }

    method CopyCounted(i: nat, out: Bytes) returns (rv: int, ghost queued: Bytes, ghost source: Source)
      requires Balanced() && i < |all|
      modifies (all[i] as Trans)`up, (all[i] as Trans)`waitS, (all[i] as Trans)`accepted
      modifies all[i].sock`wire, all[i].sock`refusals, si.source
      ensures Balanced() && Changed(i, queued, source) && (rv == 0 || rv == 1)
      ensures source == if si.curSource == all[i].mySource then XRDP_SOURCE_NONE else si.curSource
      ensures NotRaised(old(si.source[..]), si.source[..], source)
      ensures (rv == 0 && out != []) || old(Ends(all[i])) ==> Ends(all[i])
      ensures rv == 0 ==> all[i].accepted == old(all[i].accepted) + out
      ensures rv == 1 ==> all[i].accepted == old(all[i].accepted)
    {
      rv, queued, source := CopyOne(i, out);
      Settled(i, queued, source);
    }

    method WriteCopy(i: nat, out: Bytes) returns (rv: int)
      requires Valid() && i < |all|
      modifies this`log, (all[i] as Trans)`up, (all[i] as Trans)`waitS, (all[i] as Trans)`accepted
      modifies all[i].sock`wire, all[i].sock`refusals, si.source
      ensures Valid() && (rv == 0 || rv == 1)
      ensures log == old(log) + [Done(Action.WriteCopy(i, out), rv)]
      ensures NotRaised(old(si.source[..]), si.source[..],
                        if si.curSource == all[i].mySource then XRDP_SOURCE_NONE else si.curSource)
      ensures (rv == 0 && out != []) || old(Ends(all[i])) ==> Ends(all[i])
    {
      ghost var queued, source;
      rv, queued, source := CopyCounted(i, out);
      ghost var done := Done(Action.WriteCopy(i, out), rv);
      Note(done);
      LogWritten(done, queued, source);
    }

    method ForceOne(i: nat, out: Bytes) returns (rv: int)
      requires i < |all| && Separate() && all[i].Valid()
      modifies (all[i] as Trans)`up, (all[i] as Trans)`waitS, (all[i] as Trans)`accepted, (all[i] as Trans)`partial
      modifies all[i].sock`wire, all[i].sock`refusals, si.source
      ensures Changed(i, [], XRDP_SOURCE_NONE) && (rv == 0 || rv == 1)
      ensures old(Ends(all[i])) ==> Ends(all[i])
      ensures rv == 0 ==> all[i].accepted == old(all[i].accepted) + out
      ensures rv == 1 ==> all[i].accepted == old(all[i].accepted)
    {
      Others(i);
      var t := all[i];
      ghost var before := t.waitS;
      rv := t.ForceWriteS(out);
      if EndsWith(before, si.curSource) {
        RestEnds(before, t.waitS, si.curSource);
      }
    }

    method ForceCounted(i: nat, out: Bytes) returns (rv: int)
      requires Balanced() && i < |all|
      modifies (all[i] as Trans)`up, (all[i] as Trans)`waitS, (all[i] as Trans)`accepted, (all[i] as Trans)`partial
      modifies all[i].sock`wire, all[i].sock`refusals, si.source
      ensures Balanced() && Changed(i, [], XRDP_SOURCE_NONE) && (rv == 0 || rv == 1)
      ensures NotRaised(old(si.source[..]), si.source[..], XRDP_SOURCE_NONE)
      ensures old(Ends(all[i])) ==> Ends(all[i])
      ensures rv == 0 ==> all[i].accepted == old(all[i].accepted) + out
      ensures rv == 1 ==> all[i].accepted == old(all[i].accepted)
    {
      rv := ForceOne(i, out);
      Settled(i, [], XRDP_SOURCE_NONE);
    }

    method ForceWrite(i: nat, out: Bytes) returns (rv: int)
      requires Valid() && i < |all|
      modifies this`log, (all[i] as Trans)`up, (all[i] as Trans)`waitS, (all[i] as Trans)`accepted, (all[i] as Trans)`partial
      modifies all[i].sock`wire, all[i].sock`refusals, si.source
      ensures Valid() && (rv == 0 || rv == 1)
      ensures log == old(log) + [Done(Action.ForceWrite(i, out), rv)]
      ensures NotRaised(old(si.source[..]), si.source[..], XRDP_SOURCE_NONE)
      ensures old(Ends(all[i])) ==> Ends(all[i])
    {
      rv := ForceCounted(i, out);
      ghost var done := Done(Action.ForceWrite(i, out), rv);
      Note(done);
      LogWritten(done, [], XRDP_SOURCE_NONE);
    }

    // The last byte that transport u has queued is counted against the source whose
    // input is processed, unless that is its own.
    ghost predicate Ends(u: Trans)
      reads si, u
    {
      u.mySource != si.curSource ==> EndsWith(u.waitS, si.curSource)
    }

    // Whether a write of some bytes to transport u was accepted, to be sent when it can be.
    ghost predicate Wrote(done: seq<Done>, u: Trans) {
      done != [] && (WroteOnce(done[0], u) || Wrote(done[1..], u))
    }

    ghost predicate WroteOnce(d: Done, u: Trans) {
      d.action.WriteCopy? && d.action.to < |all| && all[d.action.to] == u && d.action.out != [] && d.rv == 0
    }

    lemma {:induction false} WroteOne(d: Done, u: Trans)
      ensures Wrote([d], u) <==> WroteOnce(d, u)
    {
      assert [d][1..] == [];
    }

    method Do(action: Action, ghost t: Trans, ghost u: Trans) returns (ghost done: Done)
      requires Valid() && action.to < |all| && t in all && u in all
      modifies this`log, Owned(), si.source
      ensures Valid() && si.curSource == old(si.curSource)
      ensures log == old(log) + [done] && done.action == action
      ensures t.headerSize == old(t.headerSize) && t.inS.end == old(t.inS.end)
      ensures NotRaised(old(si.source[..]), si.source[..], si.curSource)
      ensures old(Ends(u)) || Wrote([done], u) ==> Ends(u)
    {
      if action.WriteCopy? {
        done := DoCopy(action, t, u);
      } else {
        done := DoForce(action, t, u);
      }
    }

    method DoCopy(action: Action, ghost t: Trans, ghost u: Trans) returns (ghost done: Done)
      requires Valid() && action.WriteCopy? && action.to < |all| && t in all && u in all
      modifies this`log, Owned(), si.source
      ensures Valid() && si.curSource == old(si.curSource)
      ensures log == old(log) + [done] && done.action == action
      ensures t.headerSize == old(t.headerSize) && t.inS.end == old(t.inS.end)
      ensures NotRaised(old(si.source[..]), si.source[..], si.curSource)
      ensures old(Ends(u)) || Wrote([done], u) ==> Ends(u)
    {
      Owns(action.to);
      var rv := WriteCopy(action.to, action.out);
      done := Done(action, rv);
      WroteOne(done, u);
    }

    method DoForce(action: Action, ghost t: Trans, ghost u: Trans) returns (ghost done: Done)
      requires Valid() && action.ForceWrite? && action.to < |all| && t in all && u in all
      modifies this`log, Owned(), si.source
      ensures Valid() && si.curSource == old(si.curSource)
      ensures log == old(log) + [done] && done.action == action
      ensures t.headerSize == old(t.headerSize) && t.inS.end == old(t.inS.end)
      ensures NotRaised(old(si.source[..]), si.source[..], si.curSource)
      ensures old(Ends(u)) || Wrote([done], u) ==> Ends(u)
    {
      Owns(action.to);
      var rv := ForceWrite(action.to, action.out);
      done := Done(action, rv);
      WroteOne(done, u);
    }

    // What a data callback does with the transports. The input of transport t
    // is not touched.
    method Perform(actions: seq<Action>, ghost t: Trans, ghost u: Trans) returns (ghost done: seq<Done>)
      requires Valid() && GoodActions(actions, |all|) && t in all && u in all
      modifies this`log, Owned(), si.source
      ensures Valid() && si.curSource == old(si.curSource)
      ensures log == old(log) + done && Records(done, actions)
      ensures t.headerSize == old(t.headerSize) && t.inS.end == old(t.inS.end)
      ensures NotRaised(old(si.source[..]), si.source[..], si.curSource)
      ensures old(Ends(u)) || Wrote(done, u) ==> Ends(u)
      decreases |actions|
    {
      done := [];
      assert log + [] == log;
      if actions != [] {
        ghost var first := Do(actions[0], t, u);
        ghost var now := si.source[..];
        ghost var more := Perform(actions[1..], t, u);
        done := [first] + more;
        RecordMore(old(log), first, more);
        NeverRaised(old(si.source[..]), now, si.source[..], si.curSource);
      }
    }

    // trans_send_waiting(self, 0) in trans_check_wait_objs
    method SendLeftOver(i: nat, ghost was: seq<int>) returns (failed: int)
      requires Valid() && i < |all| && NotRaised(was, si.source[..], all[i].mySource)
      modifies (all[i] as Trans)`up, (all[i] as Trans)`waitS
      modifies all[i].sock`wire, all[i].sock`refusals, si.source
      ensures Valid() && si.curSource == old(si.curSource)
      ensures NotRaised(was, si.source[..], all[i].mySource)
      ensures (failed == 0 || failed == 1)
      ensures failed == 1 ==> !all[i].up
      ensures all[i].sock.refusals <= old(all[i].sock.refusals)
      ensures all[i].inS.Contents() == old(all[i].inS.Contents())
      ensures log == old(log) && all[i].headerSize == old(all[i].headerSize)
    {
      ghost var now := si.source[..];
      failed := SendOne(i);
      Settled(i, [], XRDP_SOURCE_NONE);
      LogKept(i);
      NeverRaised(was, now, si.source[..], all[i].mySource);
    }

    method SendOne(i: nat) returns (failed: int)
      requires i < |all| && Separate() && all[i].Valid()
      modifies (all[i] as Trans)`up, (all[i] as Trans)`waitS
      modifies all[i].sock`wire, all[i].sock`refusals, si.source
      ensures Changed(i, [], XRDP_SOURCE_NONE) && (failed == 0 || failed == 1)
      ensures failed == 1 ==> !all[i].up
      ensures all[i].sock.refusals <= old(all[i].sock.refusals)
    {
      Others(i);
      var t := all[i];
      failed := t.SendWaiting(false);
      if failed != 0 {
        t.up := false;
      }
    }

    // The poll and the read of trans_check_wait_objs; a lost connection or a
    // header size beyond the buffer takes the transport down.
    method ReadOne(i: nat) returns (ready: bool, inside: bool, ghost chunk: Bytes)
      requires i < |all| && Separate() && all[i].Valid() && all[i].up
      modifies (all[i] as Trans)`up, all[i].inS`end, all[i].inS.data, all[i].sock`incoming, all[i].sock`refusals
      ensures Changed(i, [], XRDP_SOURCE_NONE)
      ensures all[i].inS.Contents() == old(all[i].inS.Contents()) + chunk
      ensures old(all[i].sock.incoming) == chunk + all[i].sock.incoming
      ensures !ready || !all[i].up || !inside ==> chunk == []
      ensures !ready || !inside ==> all[i].up
      ensures !inside <==> ready && old(all[i].headerSize < all[i].inS.end) && all[i].headerSize <= all[i].inS.data.Length
      ensures all[i].sock.refusals <= old(all[i].sock.refusals)
      ensures old(all[i].inS.end < all[i].headerSize) ==>
                chunk != [] || !all[i].up || all[i].sock.refusals < old(all[i].sock.refusals)
      ensures inside && ready && all[i].up ==> all[i].inS.end <= all[i].headerSize
    {
      Others(i);
      var self := all[i];
      inside, chunk := true, [];
      ready := self.sock.Poll();
      if ready {
        if self.headerSize > self.inS.data.Length {
          self.up := false;
        } else {
          inside, chunk := self.ReadInput();
        }
      }
    }

    // A data callback leaves the header size for the next read, and the stream
    // is emptied unless the owner of the transport does so.
    method FinishOne(i: nat, onData: Handler)
      requires i < |all| && Separate() && all[i].Valid()
      modifies (all[i] as Trans)`headerSize, all[i].inS`end, all[i].inS`p
      ensures Changed(i, [], XRDP_SOURCE_NONE)
      ensures all[i].headerSize == onData.headerSize && all[i].up == old(all[i].up)
      ensures all[i].inS.end == if onData.keeps then old(all[i].inS.end) else 0
    {
      Others(i);
      var self := all[i];
      self.headerSize := onData.headerSize;
      if !onData.keeps {
        self.inS.p, self.inS.end := 0, 0;
      }
    }

    method SetSource(source: Source)
      requires Valid()
      modifies si`curSource
      ensures Valid() && si.curSource == source
    {
      si.curSource := source;
    }

    method FinishInput(i: nat, onData: Handler)
      requires Valid() && i < |all|
      modifies (all[i] as Trans)`headerSize, all[i].inS`end, all[i].inS`p
      ensures Valid() && all[i].headerSize == onData.headerSize
      ensures all[i].inS.end == if onData.keeps then old(all[i].inS.end) else 0
    {
      FinishOne(i, onData);
      Settled(i, [], XRDP_SOURCE_NONE);
      LogKept(i);
    }

    // The callback of transport i has written to transport u, which still has something
    // to send.
    ghost predicate Holding(i: nat, u: Trans, done: seq<Done>)
      requires i < |all|
      reads u
    {
      && all[i].mySource != XRDP_SOURCE_NONE && u.mySource != all[i].mySource
      && Wrote(done, u) && u.waitS.Waiting?
    }

    // Then a byte is counted against the source of transport i.
    lemma {:induction false} HeldBack(i: nat, u: Trans, done: seq<Done>)
      requires Valid() && i < |all| && u in all
      requires Holding(i, u, done) ==> EndsWith(u.waitS, all[i].mySource)
      ensures Holding(i, u, done) ==> si.source[all[i].mySource] > 0
    {
      if Holding(i, u, done) {
        var j :| 0 <= j < |all| && all[j] == u;
        var k := all[i].mySource;
        EndsCounted(u.waitS, k, true);
        TotalAtLeast(QueuesOf(all), j, k);
      }
    }

    // The data callback of trans_check_wait_objs, which does what it does once
    // and in order. What it writes is counted against the source that was read.
    method HandleInput(i: nat, onData: Handler, ghost u: Trans) returns (rv: int, ghost done: seq<Done>)
      requires Valid() && i < |all| && GoodActions(onData.actions, |all|) && u in all
      requires all[i].inS.end == all[i].headerSize
      modifies this`log, Owned(), si`curSource, si.source
      ensures Valid() && si.curSource == old(si.curSource) && rv == onData.rv
      ensures log == old(log) + done && Records(done, onData.actions)
      ensures all[i].headerSize == onData.headerSize
      ensures all[i].inS.end == if onData.keeps then old(all[i].inS.end) else 0
      ensures NotRaised(old(si.source[..]), si.source[..], all[i].mySource)
      ensures Holding(i, u, done) ==> EndsWith(u.waitS, all[i].mySource)
    {
      Owns(i);
      var curSource := si.curSource;
      SetSource(all[i].mySource);
      done := RunCallback(i, onData, u);
      SetSource(curSource);
      rv := onData.rv;
    }

    // The callback itself, while the source of transport i is the current one.
    method RunCallback(i: nat, onData: Handler, ghost u: Trans) returns (ghost done: seq<Done>)
      requires Valid() && i < |all| && GoodActions(onData.actions, |all|) && u in all
      requires all[i].inS.end == all[i].headerSize && si.curSource == all[i].mySource
      modifies this`log, Owned(), si.source
      ensures Valid() && si.curSource == old(si.curSource)
      ensures log == old(log) + done && Records(done, onData.actions)
      ensures all[i].headerSize == onData.headerSize
      ensures all[i].inS.end == if onData.keeps then old(all[i].inS.end) else 0
      ensures NotRaised(old(si.source[..]), si.source[..], all[i].mySource)
      ensures Holding(i, u, done) ==> EndsWith(u.waitS, all[i].mySource)
    {
      Owns(i);
      done := Perform(onData.actions, all[i], u);
      FinishInput(i, onData);
    }

    // The part of trans_check_wait_objs for a transport that may be read;
    // `failed` is its early return, with the transport down. The callback is
    // called when the bytes that are expected have been read, and only then.
    method CheckInput(i: nat, onData: Handler, ghost u: Trans, ghost had: nat, ghost need: nat)
      returns (failed: bool, rv: int, inside: bool, ran: bool, ghost chunk: Bytes, ghost done: seq<Done>)
      requires Valid() && i < |all| && GoodActions(onData.actions, |all|) && u in all && all[i].up
      requires had == all[i].inS.end && need == all[i].headerSize
      modifies this`log, Owned(), si`curSource, si.source
      ensures Valid() && si.curSource == old(si.curSource) && log == old(log) + done
      ensures NotRaised(old(si.source[..]), si.source[..], all[i].mySource)
      ensures Records(done, if ran then onData.actions else [])
      ensures failed ==> !all[i].up && rv == 1 && !ran && chunk == []
      ensures !inside ==> !failed && !ran && chunk == [] && need < had
      ensures ran ==> inside && !failed && rv == onData.rv && had + |chunk| == need
      ensures ran ==> all[i].headerSize == onData.headerSize
      ensures !ran ==> (failed || rv == 0) && all[i].inS.Contents() == old(all[i].inS.Contents()) + chunk
      ensures chunk != [] && had + |chunk| == need ==> ran
      ensures had < need ==>
                chunk != [] || failed || all[i].sock.refusals < old(all[i].sock.refusals)
      ensures need < had ==> chunk == [] && !ran
      ensures Holding(i, u, done) ==> EndsWith(u.waitS, all[i].mySource)
    {
      Owns(i);
      var self := all[i];
      var ready;
      ready, inside, chunk := ReadOne(i);
      Settled(i, [], XRDP_SOURCE_NONE);
      LogKept(i);
      ghost var now := si.source[..];
      failed, rv, ran, done := false, 0, false, [];
      assert log + [] == log;
      if !self.up {
        failed, rv := true, 1;
      } else if inside && ready && self.inS.end == self.headerSize {
        rv, done := HandleInput(i, onData, u);
        ran := true;
        NeverRaised(old(si.source[..]), now, si.source[..], self.mySource);
      }
    }

    // Input of a source is read only if no byte counted against it is queued
    // anywhere.
    method CheckSource(i: nat, onData: Handler, ghost u: Trans, ghost had: nat, ghost need: nat)
      returns (failed: bool, rv: int, inside: bool, ran: bool, ghost chunk: Bytes, ghost done: seq<Done>)
      requires Valid() && i < |all| && GoodActions(onData.actions, |all|) && u in all && all[i].up
      requires had == all[i].inS.end && need == all[i].headerSize
      modifies this`log, Owned(), si`curSource, si.source
      ensures Valid() && si.curSource == old(si.curSource) && log == old(log) + done
      ensures NotRaised(old(si.source[..]), si.source[..], all[i].mySource)
      ensures Records(done, if ran then onData.actions else [])
      ensures chunk != [] && all[i].mySource != XRDP_SOURCE_NONE ==>
        Total(old(QueuesOf(all)), all[i].mySource) == 0
      ensures failed ==> !all[i].up && rv == 1 && !ran && chunk == []
      ensures !inside ==> !failed && !ran && chunk == [] && need < had
      ensures ran ==> inside && !failed && rv == onData.rv && had + |chunk| == need
      ensures ran ==> all[i].headerSize == onData.headerSize
      ensures !ran ==> (failed || rv == 0) && all[i].inS.Contents() == old(all[i].inS.Contents()) + chunk
      ensures chunk != [] && had + |chunk| == need ==> ran
      ensures old(si.source[all[i].mySource]) <= 0 && had < need ==>
                chunk != [] || failed || all[i].sock.refusals < old(all[i].sock.refusals)
      ensures need < had ==> chunk == [] && !ran
      ensures Holding(i, u, done) ==> EndsWith(u.waitS, all[i].mySource)
      ensures old(si.source[all[i].mySource]) > 0 ==> chunk == [] && !ran
    {
      if si.source[all[i].mySource] > MAX_SBYTES {
        failed, rv, inside, ran, chunk, done := false, 0, true, false, [], [];
        assert log + [] == log && all[i].inS.Contents() + [] == all[i].inS.Contents();
      } else {
        failed, rv, inside, ran, chunk, done := CheckInput(i, onData, u, had, need);
      }
    }

    // trans_check_wait_objs. The callback has run (`ran`) exactly if the bytes that
    // were expected are all there after the read.
    method CheckWaitObjs(i: nat, onData: Handler, ghost u: Trans)
      returns (rv: int, inside: bool, ran: bool, ghost chunk: Bytes, ghost done: seq<Done>)
      requires Valid() && i < |all| && GoodActions(onData.actions, |all|) && u in all
      modifies this`log, Owned(), si`curSource, si.source
      ensures Valid() && si.curSource == old(si.curSource) && log == old(log) + done
      ensures NotRaised(old(si.source[..]), si.source[..], all[i].mySource)
      ensures Records(done, if ran then onData.actions else [])
      ensures chunk != [] && all[i].mySource != XRDP_SOURCE_NONE ==>
        Total(old(QueuesOf(all)), all[i].mySource) == 0
      ensures !ran ==> all[i].inS.Contents() == old(all[i].inS.Contents()) + chunk
      ensures ran ==> old(all[i].inS.end) + |chunk| == old(all[i].headerSize) && all[i].headerSize == onData.headerSize
      ensures ran ==> rv == onData.rv || !all[i].up
      ensures chunk != [] && old(all[i].inS.end) + |chunk| == old(all[i].headerSize) ==> ran
      ensures !old(all[i].up) ==> rv == 1 && chunk == [] && !ran
      ensures rv == 0 || (ran && rv == onData.rv) || (rv == 1 && !all[i].up)
      ensures !inside ==> chunk == [] && !ran && old(all[i].headerSize < all[i].inS.end)
      ensures old(all[i].headerSize < all[i].inS.end) ==> chunk == [] && !ran
      ensures old(all[i].up && si.source[all[i].mySource] <= 0 && all[i].inS.end < all[i].headerSize) ==>
                chunk != [] || !all[i].up || all[i].sock.refusals < old(all[i].sock.refusals)
      ensures Holding(i, u, done) ==> si.source[all[i].mySource] > 0
      ensures old(si.source[all[i].mySource]) > 0 ==> chunk == [] && !ran
    {
      if all[i].up {
        rv, inside, ran, chunk, done := CheckUp(i, onData, u, all[i].inS.end, all[i].headerSize);
      } else {
        rv, inside, ran, chunk, done := 1, true, false, [], [];
        assert log + [] == log && all[i].inS.Contents() + [] == all[i].inS.Contents();
      }
    }

    // The same for a transport that is up: read, and then send what is left over.
    method CheckUp(i: nat, onData: Handler, ghost u: Trans, ghost had: nat, ghost need: nat)
      returns (rv: int, inside: bool, ran: bool, ghost chunk: Bytes, ghost done: seq<Done>)
      requires Valid() && i < |all| && GoodActions(onData.actions, |all|) && u in all && all[i].up
      requires had == all[i].inS.end && need == all[i].headerSize
      modifies this`log, Owned(), si`curSource, si.source
      ensures Valid() && si.curSource == old(si.curSource) && log == old(log) + done
      ensures NotRaised(old(si.source[..]), si.source[..], all[i].mySource)
      ensures Records(done, if ran then onData.actions else [])
      ensures chunk != [] && all[i].mySource != XRDP_SOURCE_NONE ==>
        Total(old(QueuesOf(all)), all[i].mySource) == 0
      ensures !ran ==> all[i].inS.Contents() == old(all[i].inS.Contents()) + chunk
      ensures ran ==> had + |chunk| == need && all[i].headerSize == onData.headerSize
      ensures ran ==> rv == onData.rv || !all[i].up
      ensures chunk != [] && had + |chunk| == need ==> ran
      ensures rv == 0 || (ran && rv == onData.rv) || (rv == 1 && !all[i].up)
      ensures !inside ==> chunk == [] && !ran && need < had
      ensures need < had ==> chunk == [] && !ran
      ensures old(si.source[all[i].mySource]) <= 0 && had < need ==>
                chunk != [] || !all[i].up || all[i].sock.refusals < old(all[i].sock.refusals)
      ensures Holding(i, u, done) ==> si.source[all[i].mySource] > 0
      ensures old(si.source[all[i].mySource]) > 0 ==> chunk == [] && !ran
    {
      Owns(i);
      var failed;
      failed, rv, inside, ran, chunk, done := CheckSource(i, onData, u, had, need);
      if !failed && inside {
        var stop := SendLeftOver(i, old(si.source[..]));
        if stop != 0 {
          rv := 1;
        }
      }
      HeldBack(i, u, done);
    }

    // Back-pressure. When the callback of transport i has written to transport u, and not
    // all of it has been sent by then (`queued` is what u has to send), the next check of
    // any transport l of the same source reads nothing and calls nothing.
    method CheckTwice(i: nat, onData: Handler, u: Trans, l: nat, next: Handler)
      returns (ran: bool, ghost done: seq<Done>, ghost queued: Queue, ranNext: bool, ghost chunk: Bytes)
      requires Valid() && i < |all| && l < |all| && u in all && all[l].mySource == all[i].mySource
      requires GoodActions(onData.actions, |all|) && GoodActions(next.actions, |all|)
      modifies this`log, Owned(), si`curSource, si.source
      ensures Valid() && Records(done, if ran then onData.actions else [])
      ensures all[i].mySource != XRDP_SOURCE_NONE && u.mySource != all[i].mySource && Wrote(done, u) && queued.Waiting? ==>
                chunk == [] && !ranNext
    {
      var rv, inside;
      ghost var first;
      rv, inside, ran, first, done := CheckWaitObjs(i, onData, u);
      queued := u.waitS;
      ghost var doneNext;
      rv, inside, ranNext, chunk, doneNext := CheckWaitObjs(l, next, all[l]);
    }

    // A run ends where a read would go beyond its buffer.
    method Handle(event: Event) returns (inside: bool, ran: bool, ghost done: seq<Done>)
      requires Valid() && GoodEvent(event, |all|)
      modifies this`log, Owned(), si`curSource, si.source
      ensures Valid() && si.curSource == old(si.curSource) && log == old(log) + done
      ensures Records(done, ActionsOf(event, ran))
      ensures !inside ==> event.Check? && !ran && old(all[event.trans].headerSize < all[event.trans].inS.end)
    {
      inside, ran := true, true;
      match event {
        case Act(action) =>
          ghost var one := Do(action, all[action.to], all[action.to]);
          done := [one];
        case Check(i, onData) =>
          var rv;
          ghost var chunk;
          rv, inside, ran, chunk, done := CheckWaitObjs(i, onData, all[i]);
      }
    }

    // Any run: whatever the program and its callbacks write and whatever the
    // sockets do. The log is the writes of the program and of the callbacks that
    // ran, each once and in order.
    method Run(events: seq<Event>) returns (ran: seq<bool>, ghost done: seq<Done>)
      requires Valid() && GoodEvents(events, |all|)
      modifies this`log, Owned(), si`curSource, si.source
      ensures Valid() && si.curSource == old(si.curSource) && log == old(log) + done
      ensures |ran| <= |events| && Records(done, ActionsIn(events, ran))
      decreases |events|
    {
      ran, done := [], [];
      assert log + [] == log;
      if events != [] {
        var inside, now;
        ghost var first;
        inside, now, first := Handle(events[0]);
        ghost var more := [];
        var later := [];
        if inside {
          later, more := Run(events[1..]);
        }
        ran, done := [now] + later, first + more;
        RunStep(old(log), events, now, first, later, more);
      }
    }

    // What holds in every state of a run: what every transport has sent and what
    // it has queued are the writes to it that returned 0, in order, and a part of
    // at most one failed write, after which it is down with nothing queued; and
    // every count is the number of bytes queued anywhere for that source.
    lemma {:induction false} RunKeeps(j: nat, k: Source)
      requires Valid() && j < |all|
      ensures all[j].sock.wire + Unsent(all[j].waitS) == Accepted(log, j) + all[j].partial
      ensures all[j].partial != [] ==> !all[j].up && all[j].waitS == End
      ensures k != XRDP_SOURCE_NONE ==> si.source[k] == Total(QueuesOf(all), k) >= 0
      ensures k != XRDP_SOURCE_NONE && si.source[k] == 0 ==> !CountedIn(all[j].waitS, k)
    {
      if k != XRDP_SOURCE_NONE && si.source[k] == 0 {
        NoneCounted(QueuesOf(all), j, k);
      }
    }
  }
}
