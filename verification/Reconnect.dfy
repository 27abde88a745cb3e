/** Publishers that log, draw an offset and dispatch, interleaved with one durable subscriber that registers, reads the
    latest offset and backfills. One topic; messages are told apart by number. The broker starts on any log: it
    publishes every record again, in order, before it accepts a connection. */
module Reconnect {
  import opened Bytes
  import opened Lists

  datatype Got = Got(offset: nat, msg: nat)

  datatype World = World(
    log: seq<nat>,               // the topic's records, oldest first
    unlogged: set<nat>,          // the messages whose log write failed; they are published all the same
    drawn: seq<nat>,             // drawn[k - 1] is the message with offset k
    dispatched: set<nat>,        // the offsets dispatched
    registered: bool,
    latest: Option<nat>,         // what the subscriber read after registering
    pos: nat,                    // records the backfill has read
    ended: bool,
    live: set<nat>,              // the offsets that reached the subscriber live
    got: set<Got>)               // everything enqueued for the subscriber

  function UpTo(n: nat): (s: set<nat>)
    ensures forall k :: k in s <==> 1 <= k <= n
  {
    if n == 0 then {} else UpTo(n - 1) + {n}
  }

  /** A broker that has found a log and not looked at it yet. */
  function Cold(kept: seq<nat>): World { World(kept, {}, [], {}, false, None, 0, false, {}, {}) }

  /** The broker when it starts to listen: the records it found have drawn the first offsets, in log order. */
  function Init(kept: seq<nat>): World
  {
    Cold(kept).(drawn := kept, dispatched := UpTo(|kept|))
  }

  datatype Label =
    | Log(msg: nat)
    | LogFails(msg: nat)
    | Draw(msg: nat)
    | Dispatch(k: nat)
    | Register
    | ReadLatest
    | BackfillNext
    | BackfillEnd

  predicate Enabled(w: World, start: nat, l: Label)
  {
    match l
    case Log(msg) => msg !in w.log && msg !in w.unlogged
    case LogFails(msg) => msg !in w.log && msg !in w.unlogged
    case Draw(msg) => (msg in w.log || msg in w.unlogged) && msg !in w.drawn
    case Dispatch(k) => 1 <= k <= |w.drawn| && k !in w.dispatched
    case Register => !w.registered
    case ReadLatest => w.registered && w.latest.None?
    case BackfillNext => w.latest.Some? && start < w.latest.value && !w.ended && w.pos < |w.log|
    case BackfillEnd => w.latest.Some? && !w.ended && (start < w.latest.value ==> w.pos == |w.log|)
  }

  function Step(w: World, start: nat, l: Label): World
    requires Enabled(w, start, l)
  {
    match l
    case Log(msg) => w.(log := w.log + [msg])
    case LogFails(msg) => w.(unlogged := w.unlogged + {msg})
    case Draw(msg) => w.(drawn := w.drawn + [msg])
    case Dispatch(k) =>
      var w1 := w.(dispatched := w.dispatched + {k});
      if w.registered then w1.(live := w.live + {k}, got := w.got + {Got(k, w.drawn[k - 1])}) else w1
    case Register => w.(registered := true)
    case ReadLatest => w.(latest := Some(|w.drawn|))
    case BackfillNext =>
      var k := w.pos + 1;
      var w1 := w.(pos := k);
      if start < k <= w.latest.value then w1.(got := w.got + {Got(k, w.log[w.pos])}) else w1
    case BackfillEnd => w.(ended := true)
  }

  function Latest(w: World): nat { if w.latest.Some? then w.latest.value else 0 }

  /** The offset k was backfilled. */
  predicate Filled(w: World, start: nat, k: nat) { start < k <= Latest(w) && k <= w.pos }

  ghost predicate Subset(a: seq<nat>, b: seq<nat>, c: set<nat>) { forall i :: 0 <= i < |a| ==> a[i] in b || a[i] in c }

  /** What every step keeps. Records and drawn messages are told apart, and every drawn message was logged first or
      failed to be; what was read as latest was drawn; an offset beyond it is live once dispatched; the backfill does
      not end short of the log; and the subscriber has been given exactly the backfilled records and the live
      messages. */
  ghost predicate Inv(w: World, start: nat) { Ordered(w, start) && Exactly(w, start) }

  ghost predicate Exactly(w: World, start: nat) { forall g :: g in w.got <==> Given(w, start, g) }

  ghost predicate Ordered(w: World, start: nat)
  {
    && Distinct(w.log) && Distinct(w.drawn) && Subset(w.drawn, w.log, w.unlogged)
    && w.pos <= |w.log| && (w.latest.None? ==> w.pos == 0)
    && (w.latest.Some? ==> w.registered && w.latest.value <= |w.drawn|)
    && (forall k :: k in w.dispatched ==> 1 <= k <= |w.drawn|)
    && w.live <= w.dispatched
    && (forall k :: k in w.dispatched && k > Latest(w) && w.latest.Some? ==> k in w.live)
    && (w.ended ==> w.latest.Some?)
    && (w.ended && start < Latest(w) && w.unlogged == {} ==> w.pos >= Latest(w))
  }

  predicate Given(w: World, start: nat, g: Got)
  {
    || (Filled(w, start, g.offset) && 1 <= g.offset <= |w.log| && w.log[g.offset - 1] == g.msg)
    || (g.offset in w.live && 1 <= g.offset <= |w.drawn| && w.drawn[g.offset - 1] == g.msg)
  }

  /** Log before publish: there are at least as many records as offsets drawn. */
  lemma LogCoversOffsets(drawn: seq<nat>, log: seq<nat>)
    requires Distinct(drawn) && Distinct(log) && Subset(drawn, log, {})
    ensures |drawn| <= |log|
  {
    DistinctSize(drawn);
    DistinctSize(log);
    SubsetSize(SetOf(drawn), SetOf(log));
  }

  lemma StepOrdered(w: World, start: nat, l: Label)
    requires Ordered(w, start) && Enabled(w, start, l)
    ensures Ordered(Step(w, start, l), start)
  {
    if w.unlogged == {} {
      LogCoversOffsets(w.drawn, w.log);
    }
  }

  lemma StepExactly(w: World, start: nat, l: Label)
    requires Ordered(w, start) && Exactly(w, start) && Enabled(w, start, l)
    ensures Exactly(Step(w, start, l), start)
  {
    hide Distinct, Subset;
    var w' := Step(w, start, l);
    forall g ensures g in w'.got <==> Given(w', start, g) {
      assert g in w.got <==> Given(w, start, g);
    }
  }

  lemma StepInv(w: World, start: nat, l: Label)
    requires Inv(w, start) && Enabled(w, start, l)
    ensures Inv(Step(w, start, l), start)
  {
    hide Ordered, Exactly, Step;
    StepOrdered(w, start, l);
    StepExactly(w, start, l);
  }

  predicate Runs(w: World, start: nat, ls: seq<Label>, w': World)
    decreases ls
  {
    if ls == [] then w == w' else Enabled(w, start, ls[0]) && Runs(Step(w, start, ls[0]), start, ls[1..], w')
  }

  lemma InitInv(kept: seq<nat>, start: nat)
    requires Distinct(kept)
    ensures Inv(Init(kept), start)
  {
  }

  /** The start-up replay of the first n records. */
  function Replayed(kept: seq<nat>, n: nat): World
    requires n <= |kept|
  {
    Cold(kept).(drawn := kept[..n], dispatched := UpTo(n))
  }

  function ReplayLabels(kept: seq<nat>, n: nat): seq<Label>
    requires n <= |kept|
    decreases |kept| - n
  {
    if n == |kept| then [] else [Draw(kept[n]), Dispatch(n + 1)] + ReplayLabels(kept, n + 1)
  }

  /** Publishing the records found again, one by one, leads to where listening starts. */
  lemma {:induction false} StartUp(kept: seq<nat>, start: nat, n: nat)
    requires Distinct(kept) && n <= |kept|
    ensures Runs(Replayed(kept, n), start, ReplayLabels(kept, n), Init(kept))
    decreases |kept| - n
  {
    if n == |kept| {
      assert kept[..n] == kept;
    } else {
      hide Runs;
      StartUp(kept, start, n + 1);
      var w0 := Replayed(kept, n);
      var w1 := Step(w0, start, Draw(kept[n]));
      assert w1.drawn == kept[..n + 1];
      var w2 := Step(w1, start, Dispatch(n + 1));
      assert w2 == Replayed(kept, n + 1);
      var rest := ReplayLabels(kept, n + 1);
      RunsCons(w1, start, Dispatch(n + 1), rest, Init(kept));
      RunsCons(w0, start, Draw(kept[n]), [Dispatch(n + 1)] + rest, Init(kept));
      assert [Draw(kept[n])] + ([Dispatch(n + 1)] + rest) == ReplayLabels(kept, n);
    }
  }

  lemma {:induction false} RunsInv(w: World, start: nat, ls: seq<Label>, w': World)
    requires Inv(w, start) && Runs(w, start, ls, w')
    ensures Inv(w', start)
    decreases ls
  {
    hide Inv, Step, Enabled;
    if ls != [] {
      StepInv(w, start, ls[0]);
      RunsInv(Step(w, start, ls[0]), start, ls[1..], w');
    }
  }

  // ---- What a run says ---------------------------------------------------------------------------------------------

  /** What the subscriber reads as latest: the offsets drawn by then. */
  function LatestIn(ls: seq<Label>, drawn: nat): nat
  {
    if ls == [] || ls[0].ReadLatest? then drawn else LatestIn(ls[1..], drawn + if ls[0].Draw? then 1 else 0)
  }

  /** The records there are when the backfill ends: those at the start and the log writes that succeed by then. */
  function RecordsIn(ls: seq<Label>, logged: nat): nat
  {
    if ls == [] || ls[0].BackfillEnd? then logged else RecordsIn(ls[1..], logged + if ls[0].Log? then 1 else 0)
  }

  /** The offset is dispatched after the subscriber has registered. */
  predicate LiveIn(ls: seq<Label>, registered: bool, k: nat)
  {
    ls != [] && ((registered && ls[0] == Dispatch(k)) || LiveIn(ls[1..], registered || ls[0].Register?, k))
  }

  predicate NoFails(ls: seq<Label>) { forall i :: 0 <= i < |ls| ==> !ls[i].LogFails? }

  lemma {:induction false} LatestKept(w: World, start: nat, ls: seq<Label>, w': World)
    requires Runs(w, start, ls, w') && w.latest.Some?
    ensures w'.latest == w.latest
    decreases ls
  {
    if ls != [] {
      LatestKept(Step(w, start, ls[0]), start, ls[1..], w');
    }
  }

  lemma {:induction false} LatestTold(w: World, start: nat, ls: seq<Label>, w': World)
    requires Runs(w, start, ls, w') && w.latest.None? && w'.latest.Some?
    ensures w'.latest == Some(LatestIn(ls, |w.drawn|))
    decreases ls
  {
    if ls != [] {
      var w1 := Step(w, start, ls[0]);
      if ls[0].ReadLatest? {
        LatestKept(w1, start, ls[1..], w');
      } else {
        LatestTold(w1, start, ls[1..], w');
      }
    }
  }

  lemma {:induction false} PosKept(w: World, start: nat, ls: seq<Label>, w': World)
    requires Runs(w, start, ls, w') && w.ended
    ensures w'.pos == w.pos
    decreases ls
  {
    if ls != [] {
      PosKept(Step(w, start, ls[0]), start, ls[1..], w');
    }
  }

  lemma {:induction false} PosTold(w: World, start: nat, ls: seq<Label>, w': World)
    requires Runs(w, start, ls, w') && !w.ended && w'.ended && start < Latest(w')
    ensures w'.pos == RecordsIn(ls, |w.log|)
    decreases ls
  {
    if ls != [] {
      var w1 := Step(w, start, ls[0]);
      if ls[0].BackfillEnd? {
        LatestKept(w1, start, ls[1..], w');
        PosKept(w1, start, ls[1..], w');
      } else {
        PosTold(w1, start, ls[1..], w');
      }
    }
  }

  lemma {:induction false} LiveTold(w: World, start: nat, ls: seq<Label>, w': World, k: nat)
    requires Runs(w, start, ls, w')
    ensures k in w'.live <==> k in w.live || LiveIn(ls, w.registered, k)
    decreases ls
  {
    if ls != [] {
      LiveTold(Step(w, start, ls[0]), start, ls[1..], w', k);
    }
  }

  lemma {:induction false} AllLogged(w: World, start: nat, ls: seq<Label>, w': World)
    requires Runs(w, start, ls, w') && NoFails(ls)
    ensures w'.unlogged == w.unlogged
    decreases ls
  {
    if ls != [] {
      assert !ls[0].LogFails? && forall i :: 0 <= i < |ls[1..]| ==> ls[1..][i] == ls[i + 1];
      AllLogged(Step(w, start, ls[0]), start, ls[1..], w');
    }
  }

  /** Which offsets arrive: once the backfill has ended, an offset above the requested one and up to what was read as
      latest has been enqueued exactly when there were that many records by then, failed log writes not counted, or it
      was dispatched after the subscriber registered; one beyond latest has been as soon as it is dispatched. */
  lemma NoGapIff(kept: seq<nat>, start: nat, ls: seq<Label>, w: World, k: nat)
    requires Distinct(kept) && Runs(Init(kept), start, ls, w)
    requires w.ended && start < k <= |w.drawn|
    ensures k <= LatestIn(ls, |kept|) ==>
      ((exists m :: Got(k, m) in w.got) <==> k <= RecordsIn(ls, |kept|) || LiveIn(ls, false, k))
    ensures k > LatestIn(ls, |kept|) && k in w.dispatched ==> Got(k, w.drawn[k - 1]) in w.got
  {
    hide Runs, LatestIn, RecordsIn, LiveIn;
    InitInv(kept, start);
    RunsInv(Init(kept), start, ls, w);
    LatestTold(Init(kept), start, ls, w);
    LiveTold(Init(kept), start, ls, w, k);
    if k <= Latest(w) {
      PosTold(Init(kept), start, ls, w);
    }
    if k <= Latest(w) && k <= w.pos {
      assert Given(w, start, Got(k, w.log[k - 1]));
    }
    if k in w.live {
      assert Given(w, start, Got(k, w.drawn[k - 1]));
    }
  }

  /** No gap: in every run of a broker started on any log, if no log write fails, once the backfill has ended every
      offset above the requested one has been enqueued for the subscriber, from the log up to what was read as latest,
      and live beyond it as soon as it is dispatched. */
  lemma NoGap(kept: seq<nat>, start: nat, ls: seq<Label>, w: World, k: nat)
    requires Distinct(kept) && Runs(Init(kept), start, ls, w) && NoFails(ls)
    requires w.ended && start < k <= |w.drawn| && (k > Latest(w) ==> k in w.dispatched)
    ensures exists m :: Got(k, m) in w.got
    ensures k <= Latest(w) ==> k <= |w.log| && Got(k, w.log[k - 1]) in w.got
    ensures k > Latest(w) ==> Got(k, w.drawn[k - 1]) in w.got
  {
    hide Runs, NoFails;
    InitInv(kept, start);
    RunsInv(Init(kept), start, ls, w);
    AllLogged(Init(kept), start, ls, w);
    var g := Got(k, if k <= Latest(w) then w.log[k - 1] else w.drawn[k - 1]);
    assert Given(w, start, g);
  }

  /** Nothing but offsets above the requested one is backfilled, and no offset that was never drawn turns up. */
  lemma NothingElse(kept: seq<nat>, start: nat, ls: seq<Label>, w: World, g: Got)
    requires Distinct(kept) && Runs(Init(kept), start, ls, w) && g in w.got
    ensures 1 <= g.offset <= |w.drawn|
    ensures g.offset !in w.live ==> start < g.offset <= Latest(w)
  {
    hide Runs;
    InitInv(kept, start);
    RunsInv(Init(kept), start, ls, w);
    assert Given(w, start, g);
  }

  /** Which message comes under an offset: the one published with it exactly when it was dispatched live to the
      subscriber or its record stands at the same place in the log as the backfill read it. */
  lemma OwnMessageIff(kept: seq<nat>, start: nat, ls: seq<Label>, w: World, k: nat)
    requires Distinct(kept) && Runs(Init(kept), start, ls, w)
    requires w.ended && start < k <= |w.drawn| && k in w.dispatched
    ensures w.pos <= |w.log|
    ensures Got(k, w.drawn[k - 1]) in w.got <==>
      k in w.live || (k <= Latest(w) && k <= w.pos && w.log[k - 1] == w.drawn[k - 1])
  {
    hide Runs;
    InitInv(kept, start);
    RunsInv(Init(kept), start, ls, w);
    assert Got(k, w.drawn[k - 1]) in w.got <==> Given(w, start, Got(k, w.drawn[k - 1]));
  }

  /** Publishers that do not overtake each other between logging and drawing. */
  predicate InOrder(w: World, start: nat, ls: seq<Label>)
    decreases ls
  {
    ls == [] || (
      && Enabled(w, start, ls[0])
      && (ls[0].Draw? ==> |w.drawn| < |w.log| && ls[0].msg == w.log[|w.drawn|])
      && InOrder(Step(w, start, ls[0]), start, ls[1..]))
  }

  lemma {:induction false} InOrderPrefix(w: World, start: nat, ls: seq<Label>, w': World)
    requires Runs(w, start, ls, w') && InOrder(w, start, ls) && w.drawn <= w.log
    ensures w'.drawn <= w'.log
    decreases ls
  {
    if ls != [] {
      assert Step(w, start, ls[0]).drawn <= Step(w, start, ls[0]).log;
      InOrderPrefix(Step(w, start, ls[0]), start, ls[1..], w');
    }
  }

  /** Started on any log, with no failing log write and publishers that do not overtake, the subscriber gets every
      message above the requested offset, each under its own offset. */
  lemma NoMessageLost(kept: seq<nat>, start: nat, ls: seq<Label>, w: World, k: nat)
    requires Distinct(kept) && Runs(Init(kept), start, ls, w) && InOrder(Init(kept), start, ls) && NoFails(ls)
    requires w.ended && start < k <= |w.drawn| && k in w.dispatched
    ensures Got(k, w.drawn[k - 1]) in w.got
  {
    hide Runs, InOrder, NoFails;
    InOrderPrefix(Init(kept), start, ls, w);
    NoGap(kept, start, ls, w, k);
  }

  lemma RunsCons(w: World, start: nat, l: Label, ls: seq<Label>, w': World)
    requires Enabled(w, start, l) && Runs(Step(w, start, l), start, ls, w')
    ensures Runs(w, start, [l] + ls, w')
  {
    assert ([l] + ls)[1..] == ls;
  }

  /** A publisher that overtakes another between logging and drawing can cost the subscriber a message: message 1 is
      published with offset 1 before the subscriber registers, the log holds message 0 in that place, and message 1 is
      never enqueued, although everything was dispatched and the backfill ran to the end. */
  lemma OvertakingLosesMessage() returns (ls: seq<Label>, w: World)
    ensures Runs(Init([]), 0, ls, w) && w.ended
    ensures w.drawn == [1, 0] && w.dispatched == {1, 2}
    ensures forall g :: g in w.got ==> g.msg != 1
  {
    hide Runs;
    var w0 := Init([]);
    var w1 := Step(w0, 0, Log(0));
    var w2 := Step(w1, 0, Log(1));
    var w3 := Step(w2, 0, Draw(1));
    var w4 := Step(w3, 0, Dispatch(1));
    var w5 := Step(w4, 0, Register);
    var w6 := Step(w5, 0, ReadLatest);
    var w7 := Step(w6, 0, BackfillNext);
    var w8 := Step(w7, 0, BackfillNext);
    var w9 := Step(w8, 0, BackfillEnd);
    var w10 := Step(w9, 0, Draw(0));
    w := Step(w10, 0, Dispatch(2));
    ls := [];
    RunsNone(w);
    RunsCons(w10, 0, Dispatch(2), ls, w); ls := [Dispatch(2)] + ls;
    RunsCons(w9, 0, Draw(0), ls, w); ls := [Draw(0)] + ls;
    RunsCons(w8, 0, BackfillEnd, ls, w); ls := [BackfillEnd] + ls;
    RunsCons(w7, 0, BackfillNext, ls, w); ls := [BackfillNext] + ls;
    RunsCons(w6, 0, BackfillNext, ls, w); ls := [BackfillNext] + ls;
    RunsCons(w5, 0, ReadLatest, ls, w); ls := [ReadLatest] + ls;
    RunsCons(w4, 0, Register, ls, w); ls := [Register] + ls;
    RunsCons(w3, 0, Dispatch(1), ls, w); ls := [Dispatch(1)] + ls;
    RunsCons(w2, 0, Draw(1), ls, w); ls := [Draw(1)] + ls;
    RunsCons(w1, 0, Log(1), ls, w); ls := [Log(1)] + ls;
    RunsCons(w0, 0, Log(0), ls, w); ls := [Log(0)] + ls;
  }

  lemma RunsNone(w: World)
    ensures Runs(w, 0, [], w)
  {
  }

  /** A failed log write can cost the subscriber an offset: message 0 is published with offset 1 and has no record, so
      the backfill has nothing to send. */
  lemma FailedWriteLeavesGap() returns (ls: seq<Label>, w: World)
    ensures Runs(Init([]), 0, ls, w) && w.ended
    ensures w.drawn == [0] && w.dispatched == {1} && w.got == {}
  {
    hide Runs;
    var w0 := Init([]);
    var w1 := Step(w0, 0, LogFails(0));
    var w2 := Step(w1, 0, Draw(0));
    var w3 := Step(w2, 0, Dispatch(1));
    var w4 := Step(w3, 0, Register);
    var w5 := Step(w4, 0, ReadLatest);
    w := Step(w5, 0, BackfillEnd);
    ls := [];
    RunsNone(w);
    RunsCons(w5, 0, BackfillEnd, ls, w); ls := [BackfillEnd] + ls;
    RunsCons(w4, 0, ReadLatest, ls, w); ls := [ReadLatest] + ls;
    RunsCons(w3, 0, Register, ls, w); ls := [Register] + ls;
    RunsCons(w2, 0, Dispatch(1), ls, w); ls := [Dispatch(1)] + ls;
    RunsCons(w1, 0, Draw(0), ls, w); ls := [Draw(0)] + ls;
    RunsCons(w0, 0, LogFails(0), ls, w); ls := [LogFails(0)] + ls;
  }
}
