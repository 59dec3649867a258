/** The replayer: which captured payloads are replayed, and the order in which requests
    are dispatched, skipped and separated by pauses over several passes. Each dispatch is
    an event carrying the curl command line. Of running curl only whether the call raises,
    before or after sending, is modelled; the pause length is not. */
module HttpReplay {
  import opened Wrappers
  import opened Seqs
  import opened Text
  import opened HttpRequest

  // ---------------------------------------------------------------- extraction

  /** A captured packet: the payload of its raw layer, decoded as UTF-8 with undecodable
      bytes dropped, or `None` when it has no raw layer. */
  type Packet = Option<string>

  /** A payload is replayed when it mentions both `HTTP` and `GET`, anywhere. */
  predicate IsHttpGet(payload: string) {
    Contains(payload, "HTTP") && Contains(payload, "GET")
  }

  function PickHttpGet(p: Packet): Option<string> {
    if p.Some? && IsHttpGet(p.value) then p else None
  }

  /** The payloads to replay, in capture order. */
  function ExtractRequests(packets: seq<Packet>): (reqs: seq<string>)
    ensures |reqs| <= |packets|
    ensures forall k :: 0 <= k < |reqs| ==> IsHttpGet(reqs[k])
  {
    var reqs := Choose(packets, PickHttpGet);
    ChooseAtPositions(packets, PickHttpGet);
    reqs
  }

  /** The extracted requests are exactly the qualifying payloads in capture order: they
      are the payloads at the strictly increasing positions `idx`, which hold every
      qualifying packet and no other. */
  lemma ExtractionIsOrderedFilter(packets: seq<Packet>)
    ensures var reqs := ExtractRequests(packets);
            var idx := Positions(packets, PickHttpGet);
            && |reqs| == |idx|
            && (forall k :: 0 <= k < |idx| ==> packets[idx[k]] == Some(reqs[k]))
            && (forall a, b :: 0 <= a < b < |idx| ==> idx[a] < idx[b])
            && (forall i :: 0 <= i < |packets| ==>
                  (i in idx <==> packets[i].Some? && IsHttpGet(packets[i].value)))
  {
    ChooseAtPositions(packets, PickHttpGet);
  }

  // ---------------------------------------------------------------- schedule

  /** Why an attempt produced no dispatch: the request line has fewer than three fields,
      or curl could not be started. */
  datatype SkipReason = BadRequestLine | CurlNotStarted

  /** What the replay loop does, in order. `pass` and `index` count from 0. */
  datatype Event =
    | Dispatch(pass: nat, index: nat, argv: seq<string>)
    | Sleep
    | Skip(pass: nat, index: nat, reason: SkipReason)

  /** The curl command line for one captured request, or `None` when it does not parse. */
  function Command(target: string, req: string): Option<seq<string>> {
    match ParseRequest(req)
    case Failure(_) => None
    case Success(r) => Some(CurlArgv(r, FullUrl(target, r.path)))
  }

  /** The command of every extracted request. Parsing is deterministic, so the command a
      request yields is the same in every pass. */
  function Commands(target: string, reqs: seq<string>): (cmds: seq<Option<seq<string>>>)
    ensures |cmds| == |reqs|
  {
    Map(reqs, req => Command(target, req))
  }

  /** How the call that runs curl ends at each attempt `(pass, index)`. At the attempts
      of `unstarted` it raises before curl runs (curl missing, say), so nothing is sent.
      At those of `raisedAfter` curl runs and sends the request, but the call raises
      afterwards (curl's output does not decode as text, say). Otherwise it returns. A
      raise ends the attempt at once, so no pause follows it. */
  datatype Launches = Launches(unstarted: set<(nat, nat)>, raisedAfter: set<(nat, nat)>)

  /** What decides the events of a replay: the command of each request, and how running
      curl ends at each attempt. */
  datatype Run = Run(commands: seq<Option<seq<string>>>, launches: Launches)

  /** The dispatch or skip for request `j` in pass `p`. */
  function AttemptEvent(run: Run, p: nat, j: nat): (e: Event)
    requires j < |run.commands|
    ensures !e.Sleep? && e.pass == p && e.index == j
  {
    match run.commands[j]
    case None => Skip(p, j, BadRequestLine)
    case Some(argv) =>
      if (p, j) in run.launches.unstarted then Skip(p, j, CurlNotStarted) else Dispatch(p, j, argv)
  }

  /** One iteration of the inner loop: the event, then a pause if a request was dispatched,
      running it returned, and it is not the last of the list. */
  function Attempt(run: Run, p: nat, j: nat): seq<Event>
    requires j < |run.commands|
  {
    var e := AttemptEvent(run, p, j);
    if e.Dispatch? && (p, j) !in run.launches.raisedAfter && j < |run.commands| - 1 then [e, Sleep] else [e]
  }

  /** The events of the first `j` requests of pass `p`. */
  function PassEvents(run: Run, p: nat, j: nat): seq<Event>
    requires j <= |run.commands|
    decreases j
  {
    if j == 0 then [] else PassEvents(run, p, j - 1) + Attempt(run, p, j - 1)
  }

  /** The events of the first `passes` passes. */
  function Schedule(run: Run, passes: nat): seq<Event>
    decreases passes
  {
    if passes == 0 then [] else Schedule(run, passes - 1) + PassEvents(run, passes - 1, |run.commands|)
  }

  /** The number of passes: a count below one runs none. */
  function Passes(count: int): nat {
    if count > 0 then count else 0
  }

  datatype Outcome = NoRequestsFound | Replayed(trace: seq<Event>)

  /** The whole replay: give up when no payload qualifies, else run `count` passes over
      the extracted requests. */
  function ReplayHttpRequests(packets: seq<Packet>, target: string, count: int, launches: Launches): (o: Outcome)
    ensures o.NoRequestsFound? <==> forall i :: 0 <= i < |packets| ==> PickHttpGet(packets[i]).None?
    ensures o.Replayed? ==>
              o.trace == Schedule(Run(Commands(target, ExtractRequests(packets)), launches), Passes(count))
  {
    var reqs := ExtractRequests(packets);
    ChooseEmpty(packets, PickHttpGet);
    if reqs == [] then NoRequestsFound
    else Replayed(Schedule(Run(Commands(target, reqs), launches), Passes(count)))
  }

  /** The loop of the replayer, pass after pass. */
  method Replay(target: string, reqs: seq<string>, count: int, launches: Launches)
    returns (trace: seq<Event>)
    ensures trace == Schedule(Run(Commands(target, reqs), launches), Passes(count))
  {
    ghost var run := Run(Commands(target, reqs), launches);
    assert CommandsOf(run, target, reqs);
    var passes := Passes(count);
    trace := [];
    var i := 0;
    while i < passes
      invariant 0 <= i <= passes
      invariant trace == Schedule(run, i)
    {
      var events := ReplayPass(target, reqs, launches, i, run);
      trace := trace + events;
      i := i + 1;
    }
  }

  /** `run` holds the command of each request of `reqs`, in order. */
  ghost predicate CommandsOf(run: Run, target: string, reqs: seq<string>) {
    && |run.commands| == |reqs|
    && forall k {:trigger Command(target, reqs[k])} :: 0 <= k < |reqs| ==> run.commands[k] == Command(target, reqs[k])
  }

  /** One pass: the requests in list order. */
  method ReplayPass(target: string, reqs: seq<string>, launches: Launches, i: nat, ghost run: Run)
    returns (events: seq<Event>)
    requires CommandsOf(run, target, reqs) && run.launches == launches
    ensures events == PassEvents(run, i, |reqs|)
  {
    var n := |reqs|;
    events := [];
    var j := 0;
    while j < n
      invariant 0 <= j <= n
      invariant events == PassEvents(run, i, j)
    {
      var attempt := ReplayOne(target, reqs, launches, i, j, run);
      events := events + attempt;
      j := j + 1;
    }
  }

  /** One turn of the inner loop: parse request `j` anew, build its command, run it, and
      pause unless running it raised or it is the last request. A request is dispatched
      when its request line has two spaces and the call does not raise before curl runs,
      and it carries the command `run` holds for the request, which `CommandsOf` makes the
      one built from its text (see `BuildCommand`); otherwise the one event is a skip
      saying why. */
  method ReplayOne(target: string, reqs: seq<string>, launches: Launches, i: nat, j: nat, ghost run: Run)
    returns (events: seq<Event>)
    requires CommandsOf(run, target, reqs) && run.launches == launches
    requires j < |reqs|
    ensures 1 <= |events| <= 2
    ensures events[0].Dispatch? <==> multiset(Lines(reqs[j])[0])[' '] >= 2 && (i, j) !in launches.unstarted
    ensures events[0].Dispatch? ==>
              events[0].pass == i && events[0].index == j && run.commands[j] == Some(events[0].argv)
    ensures !events[0].Dispatch? ==>
              events == [Skip(i, j, if multiset(Lines(reqs[j])[0])[' '] < 2 then BadRequestLine else CurlNotStarted)]
    ensures |events| == 2 <==> events[0].Dispatch? && (i, j) !in launches.raisedAfter && j < |reqs| - 1
    ensures |events| == 2 ==> events[1] == Sleep
    ensures events == Attempt(run, i, j)
  {
    var cmd := BuildCommand(target, reqs[j]);
    assert run.commands[j] == cmd;
    if cmd.None? {
      events := [Skip(i, j, BadRequestLine)];
    } else if (i, j) in launches.unstarted {
      events := [Skip(i, j, CurlNotStarted)];
    } else if (i, j) !in launches.raisedAfter && j < |reqs| - 1 {
      events := [Dispatch(i, j, cmd.value), Sleep];
    } else {
      events := [Dispatch(i, j, cmd.value)];
    }
  }

  /** Parses a request and builds its curl command line. There is none exactly when the
      request line has fewer than two spaces. Otherwise the command is `curl -X` with the
      text before the first space and the URL of the text between the first two spaces,
      then one `-H` pair per header in dictionary order, then `-d` and the body exactly
      when the request has a non-empty body. */
  method BuildCommand(target: string, req: string) returns (cmd: Option<seq<string>>)
    ensures cmd == Command(target, req)
    ensures cmd.None? <==> multiset(Lines(req)[0])[' '] < 2
    ensures cmd.Some? ==>
              var f := Split(Lines(req)[0], " ", 2);
              && |f| == 3 && ' ' !in f[0] && ' ' !in f[1] && f[0] + " " + f[1] + " " <= Lines(req)[0]
              && |cmd.value| >= 4 && cmd.value[..4] == ["curl", "-X", f[0], FullUrl(target, f[1])]
    ensures cmd.Some? ==>
              var h := ParseHeaders(Lines(req)[1..]);
              && |cmd.value| == 4 + 2 * |h| + (if Body(req).Some? && Body(req).value != "" then 2 else 0)
              && forall k :: 0 <= k < |h| ==> cmd.value[4 + 2 * k] == "-H" && cmd.value[5 + 2 * k] == h[k].0 + ": " + h[k].1
    ensures cmd.Some? ==>
              ((exists k :: 4 <= k < |cmd.value| && cmd.value[k] == "-d") <==> Body(req).Some? && Body(req).value != "")
    ensures cmd.Some? && Body(req).Some? && Body(req).value != "" ==>
              cmd.value[|cmd.value| - 2..] == ["-d", Body(req).value]
  {
    var parsed := ParseRequest(req);
    ParseRequestFields(req);
    if parsed.Failure? {
      cmd := None;
    } else {
      var r := parsed.value;
      var url := FullUrl(target, r.path);
      CurlArgvLayout(r, url);
      CurlDataFlag(r, url);
      cmd := Some(CurlArgv(r, url));
    }
  }

  // ---------------------------------------------------------------- properties of the schedule

  predicate Keyed(e: Event) {
    !e.Sleep?
  }

  /** Attempt `a` comes before attempt `b`: an earlier pass, or the same pass and an
      earlier request. */
  predicate Before(a: Event, b: Event)
    requires Keyed(a) && Keyed(b)
  {
    a.pass < b.pass || (a.pass == b.pass && a.index < b.index)
  }

  /** Dispatches and skips appear in strictly increasing `(pass, index)` order. */
  predicate InOrder(t: seq<Event>) {
    forall a, b :: 0 <= a < b < |t| && Keyed(t[a]) && Keyed(t[b]) ==> Before(t[a], t[b])
  }

  /** Every dispatch or skip of `t` sorts before `bound`. */
  predicate AllBefore(t: seq<Event>, bound: Event)
    requires Keyed(bound)
  {
    forall i :: 0 <= i < |t| && Keyed(t[i]) ==> Before(t[i], bound)
  }

  /** A dispatch that needs a pause after it: running it returned (its attempt is not in
      `raised`) and it is not the last request of the list. */
  predicate Pausing(e: Event, n: nat, raised: set<(nat, nat)>) {
    e.Dispatch? && e.index + 1 < n && (e.pass, e.index) !in raised
  }

  /** Every pause directly follows a dispatch that needs one (so no trace starts with a
      pause, and none follows a dispatch whose run raised)... */
  predicate PausesFollowDispatches(t: seq<Event>, n: nat, raised: set<(nat, nat)>) {
    forall i :: 0 <= i < |t| && t[i].Sleep? ==> i > 0 && Pausing(t[i - 1], n, raised)
  }

  /** ...and every such dispatch is directly followed by a pause. */
  predicate DispatchesPaused(t: seq<Event>, n: nat, raised: set<(nat, nat)>) {
    forall i :: 0 <= i < |t| && Pausing(t[i], n, raised) ==> i + 1 < |t| && t[i + 1].Sleep?
  }

  predicate PausesPlaced(t: seq<Event>, n: nat, raised: set<(nat, nat)>) {
    PausesFollowDispatches(t, n, raised) && DispatchesPaused(t, n, raised)
  }

  /** Appending events that all sort at or after `bound` to events that all sort before it
      keeps the order. */
  lemma InOrderConcat(x: seq<Event>, y: seq<Event>, bound: Event)
    requires Keyed(bound) && InOrder(x) && InOrder(y) && AllBefore(x, bound)
    requires forall b :: 0 <= b < |y| && Keyed(y[b]) ==> !Before(y[b], bound)
    ensures InOrder(x + y)
  {
    var t := x + y;
    forall a, b | 0 <= a < b < |t| && Keyed(t[a]) && Keyed(t[b])
      ensures Before(t[a], t[b])
    {
      if b < |x| {
        assert t[a] == x[a] && t[b] == x[b];
      } else if a >= |x| {
        assert t[a] == y[a - |x|] && t[b] == y[b - |x|];
      } else {
        assert t[a] == x[a] && t[b] == y[b - |x|];
      }
    }
  }

  lemma AllBeforeConcat(x: seq<Event>, y: seq<Event>, bound: Event)
    requires Keyed(bound) && AllBefore(x, bound) && AllBefore(y, bound)
    ensures AllBefore(x + y, bound)
  {
    var t := x + y;
    forall i | 0 <= i < |t| && Keyed(t[i])
      ensures Before(t[i], bound)
    {
      if i < |x| {
        assert t[i] == x[i];
      } else {
        assert t[i] == y[i - |x|];
      }
    }
  }

  lemma PausesConcat(x: seq<Event>, y: seq<Event>, n: nat, raised: set<(nat, nat)>)
    requires PausesPlaced(x, n, raised) && PausesPlaced(y, n, raised)
    ensures PausesPlaced(x + y, n, raised)
  {
    PausesFollowConcat(x, y, n, raised);
    DispatchesPausedConcat(x, y, n, raised);
  }

  lemma PausesFollowConcat(x: seq<Event>, y: seq<Event>, n: nat, raised: set<(nat, nat)>)
    requires PausesFollowDispatches(x, n, raised) && PausesFollowDispatches(y, n, raised)
    ensures PausesFollowDispatches(x + y, n, raised)
  {
    var t := x + y;
    forall i | 0 <= i < |t| && t[i].Sleep?
      ensures i > 0 && Pausing(t[i - 1], n, raised)
    {
      if i < |x| {
        assert t[i] == x[i] && t[i - 1] == x[i - 1];
      } else {
        assert t[i] == y[i - |x|];
        assert t[i - 1] == y[i - 1 - |x|];
      }
    }
  }

  lemma DispatchesPausedConcat(x: seq<Event>, y: seq<Event>, n: nat, raised: set<(nat, nat)>)
    requires DispatchesPaused(x, n, raised) && DispatchesPaused(y, n, raised)
    ensures DispatchesPaused(x + y, n, raised)
  {
    var t := x + y;
    forall i | 0 <= i < |t| && Pausing(t[i], n, raised)
      ensures i + 1 < |t| && t[i + 1].Sleep?
    {
      if i < |x| {
        assert t[i] == x[i];
        assert t[i + 1] == x[i + 1];
      } else {
        assert t[i] == y[i - |x|];
        assert t[i + 1] == y[i + 1 - |x|];
      }
    }
  }

  /** Every dispatch or skip of `t` belongs to pass `p` and to a request before `j`. */
  predicate WithinPass(t: seq<Event>, p: nat, j: nat) {
    forall i :: 0 <= i < |t| && Keyed(t[i]) ==> t[i].pass == p && t[i].index < j
  }

  lemma WithinPassConcat(x: seq<Event>, y: seq<Event>, p: nat, j: nat)
    requires WithinPass(x, p, j) && WithinPass(y, p, j)
    ensures WithinPass(x + y, p, j)
  {
    var t := x + y;
    forall i | 0 <= i < |t| && Keyed(t[i])
      ensures t[i].pass == p && t[i].index < j
    {
      if i < |x| {
        assert t[i] == x[i];
      } else {
        assert t[i] == y[i - |x|];
      }
    }
  }

  /** What one attempt contributes: its own dispatch or skip, and possibly a pause. */
  lemma AttemptKeys(run: Run, p: nat, j: nat)
    requires j < |run.commands|
    ensures var y := Attempt(run, p, j);
            && InOrder(y)
            && WithinPass(y, p, j + 1)
            && forall i :: 0 <= i < |y| && Keyed(y[i]) ==> !Before(y[i], Skip(p, j, BadRequestLine))
  {
  }

  /** The attempts of the first `j` requests of pass `p` belong to that pass and to
      those requests. */
  lemma {:induction false} PassEventsWithin(run: Run, p: nat, j: nat)
    requires j <= |run.commands|
    ensures WithinPass(PassEvents(run, p, j), p, j)
    decreases j
  {
    if j > 0 {
      PassEventsWithin(run, p, j - 1);
      AttemptKeys(run, p, j - 1);
      WithinPassConcat(PassEvents(run, p, j - 1), Attempt(run, p, j - 1), p, j);
    }
  }

  /** The attempts of the first `j` requests of pass `p` come in list order. */
  lemma {:induction false} PassEventsOrder(run: Run, p: nat, j: nat)
    requires j <= |run.commands|
    ensures InOrder(PassEvents(run, p, j))
    decreases j
  {
    if j > 0 {
      PassEventsOrder(run, p, j - 1);
      PassEventsWithin(run, p, j - 1);
      AttemptKeys(run, p, j - 1);
      var x := PassEvents(run, p, j - 1);
      var bound := Skip(p, j - 1, BadRequestLine);
      assert AllBefore(x, bound);
      InOrderConcat(x, Attempt(run, p, j - 1), bound);
    }
  }

  /** Pauses inside a pass sit exactly after the dispatches that need one. */
  lemma {:induction false} PassEventsPauses(run: Run, p: nat, j: nat)
    requires j <= |run.commands|
    ensures PausesPlaced(PassEvents(run, p, j), |run.commands|, run.launches.raisedAfter)
    decreases j
  {
    if j > 0 {
      PassEventsPauses(run, p, j - 1);
      AttemptPauses(run, p, j - 1);
      PausesConcat(PassEvents(run, p, j - 1), Attempt(run, p, j - 1), |run.commands|, run.launches.raisedAfter);
    }
  }

  lemma AttemptPauses(run: Run, p: nat, j: nat)
    requires j < |run.commands|
    ensures PausesPlaced(Attempt(run, p, j), |run.commands|, run.launches.raisedAfter)
  {
  }

  /** A full pass never ends with a pause: the last request is never followed by one. */
  lemma FullPassEnd(run: Run, p: nat)
    ensures var t := PassEvents(run, p, |run.commands|);
            t != [] ==> !t[|t| - 1].Sleep?
  {
    if |run.commands| > 0 {
      var n := |run.commands|;
      assert Attempt(run, p, n - 1) == [AttemptEvent(run, p, n - 1)];
    }
  }

  /** Over all passes, dispatches and skips come in strictly increasing `(pass, index)`
      order: list order within a pass, pass after pass. */
  lemma {:induction false} ScheduleInOrder(run: Run, passes: nat)
    ensures InOrder(Schedule(run, passes))
    ensures AllBefore(Schedule(run, passes), Skip(passes, 0, BadRequestLine))
    decreases passes
  {
    if passes > 0 {
      ScheduleInOrder(run, passes - 1);
      PassEventsOrder(run, passes - 1, |run.commands|);
      PassEventsWithin(run, passes - 1, |run.commands|);
      var x := Schedule(run, passes - 1);
      var y := PassEvents(run, passes - 1, |run.commands|);
      var bound := Skip(passes - 1, 0, BadRequestLine);
      var next := Skip(passes, 0, BadRequestLine);
      InOrderConcat(x, y, bound);
      assert AllBefore(x, next);
      assert AllBefore(y, next);
      AllBeforeConcat(x, y, next);
    }
  }

  /** Over all passes, each pause directly follows a dispatch that is not the last
      request, each such dispatch is directly followed by a pause, and the trace neither
      starts nor ends with a pause: no pause separates two passes. */
  lemma {:induction false} SchedulePauses(run: Run, passes: nat)
    ensures var t := Schedule(run, passes);
            PausesPlaced(t, |run.commands|, run.launches.raisedAfter) && (t != [] ==> !t[0].Sleep? && !t[|t| - 1].Sleep?)
    decreases passes
  {
    if passes > 0 {
      SchedulePauses(run, passes - 1);
      PassEventsPauses(run, passes - 1, |run.commands|);
      FullPassEnd(run, passes - 1);
      var x := Schedule(run, passes - 1);
      var y := PassEvents(run, passes - 1, |run.commands|);
      PausesConcat(x, y, |run.commands|, run.launches.raisedAfter);
      var t := x + y;
      if y == [] {
        assert t == x;
      } else {
        assert t[|t| - 1] == y[|y| - 1];
      }
    }
  }

  /** The attempts of a pass prefix are exactly the attempt events of its indices. */
  lemma {:induction false} PassEventsMembers(run: Run, p: nat, j: nat, e: Event)
    requires j <= |run.commands| && Keyed(e)
    ensures e in PassEvents(run, p, j) <==> e.pass == p && e.index < j && e == AttemptEvent(run, p, e.index)
    decreases j
  {
    if j > 0 {
      PassEventsMembers(run, p, j - 1, e);
    }
  }

  /** Every attempt of every pass appears in the trace, as its dispatch or skip, and
      nothing else does. */
  lemma {:induction false} ScheduleMembers(run: Run, passes: nat, e: Event)
    requires Keyed(e)
    ensures e in Schedule(run, passes) <==>
              e.pass < passes && e.index < |run.commands| && e == AttemptEvent(run, e.pass, e.index)
    decreases passes
  {
    if passes > 0 {
      ScheduleMembers(run, passes - 1, e);
      PassEventsMembers(run, passes - 1, |run.commands|, e);
    }
  }

  /** A request is dispatched in a pass exactly when it parses and the call does not raise
      before curl runs, and then with the curl command built from it. Whether the call
      raises after curl has sent the request does not matter here: that only drops the
      pause (see `RaisedNotPaused`). */
  lemma DispatchedExactly(target: string, reqs: seq<string>, launches: Launches,
                          passes: nat, p: nat, j: nat, argv: seq<string>)
    ensures Dispatch(p, j, argv) in Schedule(Run(Commands(target, reqs), launches), passes) <==>
              && p < passes && j < |reqs|
              && Command(target, reqs[j]) == Some(argv)
              && (p, j) !in launches.unstarted
  {
    ScheduleMembers(Run(Commands(target, reqs), launches), passes, Dispatch(p, j, argv));
    if j < |reqs| {
      assert Commands(target, reqs)[j] == Command(target, reqs[j]);
    }
  }

  /** When the call raises after curl has sent a request, the dispatch is recorded but no
      pause follows it, even when more requests come after it in the list. */
  lemma RaisedNotPaused(run: Run, passes: nat, i: nat)
    requires i + 1 < |Schedule(run, passes)|
    requires var e := Schedule(run, passes)[i]; e.Dispatch? && (e.pass, e.index) in run.launches.raisedAfter
    ensures !Schedule(run, passes)[i + 1].Sleep?
  {
    SchedulePauses(run, passes);
  }

  /** A request is skipped as malformed, in every pass, exactly when its request line
      has fewer than three fields. */
  lemma SkippedExactly(target: string, reqs: seq<string>, launches: Launches,
                       passes: nat, p: nat, j: nat)
    ensures Skip(p, j, BadRequestLine) in Schedule(Run(Commands(target, reqs), launches), passes) <==>
              p < passes && j < |reqs| && ParseRequest(reqs[j]).Failure?
  {
    ScheduleMembers(Run(Commands(target, reqs), launches), passes, Skip(p, j, BadRequestLine));
    if j < |reqs| {
      assert Commands(target, reqs)[j] == Command(target, reqs[j]);
    }
  }

  /** With no pass to run, nothing happens. */
  lemma NoPassNoEvent(packets: seq<Packet>, target: string, count: int, launches: Launches)
    requires count <= 0
    ensures var o := ReplayHttpRequests(packets, target, count, launches);
            o.Replayed? ==> o.trace == []
  {
  }
}
