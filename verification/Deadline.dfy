/**
  Deadline moderation and the deadline-enforcing stream of connectrpc/src/deadline.rs, as a poll
  state machine. Time is a natural number that the caller of a poll supplies, and so is whether the
  inner stream is ready.
 */
module Deadline {
  import opened Options

  // ----- Policy ------------------------------------------------------------------------------

  datatype Policy = Policy(
    min: nat, max: Option<nat>, default: Option<nat>, enforceOnStreams: bool, interMessage: Option<nat>)
  {
    /** The effective timeout: the client's, clamped, or the default. */
    function Moderate(client: Option<nat>): Option<nat> {
      match client
      case None => default
      case Some(asserted) =>
        var lower := if max.Some? && max.value < min then max.value else min;
        if asserted < lower then Some(lower)
        else if max.Some? && asserted > max.value then max
        else client
    }

    /** The response stream to poll, given what is left of the request's deadline at `start`. */
    function EnforceOnResponseStream<T>(items: seq<T>, start: nat, remaining: Option<nat>): Body<T> {
      var absolute := if enforceOnStreams then remaining else None;
      if absolute.None? && interMessage.None? then Bare(Inner(items, false))
      else Guarded(Fresh(items, start, absolute, interMessage))
    }
  }

  predicate Admits(p: Policy, timeout: nat) {
    && (p.max.Some? ==> timeout <= p.max.value)
    && (p.min <= timeout || (p.max.Some? && p.max.value < p.min && timeout == p.max.value))
  }

  function Distance(a: nat, b: nat): nat {
    if a < b then b - a else a - b
  }

  /**
    The moderated timeout is the admissible one nearest to what the client asked for; the default is
    for a client that asked for nothing.
   */
  lemma ModeratedIsNearest(p: Policy, asserted: nat)
    ensures p.Moderate(None) == p.default
    ensures var r := p.Moderate(Some(asserted));
            && r.Some? && Admits(p, r.value)
            && (forall t :: Admits(p, t) ==> Distance(asserted, r.value) <= Distance(asserted, t))
            && p.Moderate(r) == r
  {
  }

  // ----- The stream --------------------------------------------------------------------------

  datatype Reason = RequestDeadline | StreamStalled

  /** The answer to one poll. */
  datatype Poll<T> = Waiting | Yield(item: T) | Lapsed(reason: Reason) | Done

  /** One poll from outside: the time, and whether the inner stream has something to say. */
  datatype Tick = Tick(now: nat, ready: bool)

  /** The stream inside: the items still to come, and whether it has said that there are no more. */
  datatype Inner<T> = Inner(left: seq<T>, ended: bool)

  function InnerStep<T>(s: Inner<T>, ready: bool): (Poll<T>, Inner<T>) {
    if s.ended then (Done, s)
    else if !ready then (Waiting, s)
    else if s.left == [] then (Done, s.(ended := true))
    else (Yield(s.left[0]), s.(left := s.left[1..]))
  }

  /** A response stream as it is returned: untouched, or wrapped. */
  datatype Body<T> = Bare(inner: Inner<T>) | Guarded(stream: State<T>)

  /** The stream's fields; `inner` holds the items still to come, until it is dropped. */
  datatype State<T> = State(
    inner: Option<seq<T>>, absolute: Option<nat>, perItem: Option<nat>, gap: Option<nat>, finished: bool)

  function Fresh<T>(items: seq<T>, start: nat, absolute: Option<nat>, gap: Option<nat>): State<T> {
    State(Some(items), if absolute.Some? then Some(start + absolute.value) else None, None, gap, false)
  }

  predicate Past(deadline: Option<nat>, now: nat) {
    deadline.Some? && now >= deadline.value
  }

  function Step<T>(s: State<T>, t: Tick): (Poll<T>, State<T>) {
    if s.finished then (Done, s) else
      var armed := if s.perItem.None? && s.gap.Some? then s.(perItem := Some(t.now + s.gap.value)) else s;
      if Past(armed.absolute, t.now) then (Lapsed(RequestDeadline), armed.(finished := true, inner := None))
      else if Past(armed.perItem, t.now) then (Lapsed(StreamStalled), armed.(finished := true, inner := None))
      else if armed.inner.None? then (Done, armed.(finished := true))
      else if !t.ready then (Waiting, armed)
      else if armed.inner.value == [] then (Done, armed.(finished := true, inner := None))
      else
        var rearmed := if s.gap.Some? then armed.(perItem := Some(t.now + s.gap.value)) else armed;
        (Yield(armed.inner.value[0]), rearmed.(inner := Some(armed.inner.value[1..])))
  }

  class DeadlineStream<T> {
    var inner: Option<seq<T>>
    var absolute: Option<nat>
    var perItem: Option<nat>
    var gap: Option<nat>
    var finished: bool

    ghost function View(): State<T>
      reads this
    {
      State(inner, absolute, perItem, gap, finished)
    }

    constructor (items: seq<T>, start: nat, absolute: Option<nat>, gap: Option<nat>)
      ensures View() == Fresh(items, start, absolute, gap)
    {
      inner := Some(items);
      this.absolute := if absolute.Some? then Some(start + absolute.value) else None;
      perItem := None;
      this.gap := gap;
      finished := false;
    }

    method PollNext(t: Tick) returns (r: Poll<T>)
      modifies this
      ensures (r, View()) == Step(old(View()), t)
    {
      if finished {
        return Done;
      }
      if perItem.None? && gap.Some? {
        perItem := Some(t.now + gap.value);
      }
      if absolute.Some? && t.now >= absolute.value {
        finished := true;
        inner := None;
        return Lapsed(RequestDeadline);
      }
      if perItem.Some? && t.now >= perItem.value {
        finished := true;
        inner := None;
        return Lapsed(StreamStalled);
      }
      if inner.None? {
        finished := true;
        return Done;
      }
      if !t.ready {
        return Waiting;
      }
      if inner.value == [] {
        finished := true;
        inner := None;
        return Done;
      }
      r := Yield(inner.value[0]);
      inner := Some(inner.value[1..]);
      if gap.Some? {
        perItem := Some(t.now + gap.value);
      }
    }
  }

  // ----- Runs --------------------------------------------------------------------------------

  function After<T>(s: State<T>, ticks: seq<Tick>): State<T> {
    if ticks == [] then s
    else Step(After(s, ticks[..|ticks| - 1]), ticks[|ticks| - 1]).1
  }

  /** What a run of polls answers. */
  function Answers<T>(s: State<T>, ticks: seq<Tick>): (outs: seq<Poll<T>>)
    ensures |outs| == |ticks|
  {
    if ticks == [] then []
    else
      var n := |ticks| - 1;
      Answers(s, ticks[..n]) + [Step(After(s, ticks[..n]), ticks[n]).0]
  }

  predicate Goes<T>(p: Poll<T>) {
    p.Waiting? || p.Yield?
  }

  /** No answer so far has ended the stream. */
  predicate Live<T>(outs: seq<Poll<T>>) {
    forall i :: 0 <= i < |outs| ==> Goes(outs[i])
  }

  function Yielded<T>(outs: seq<Poll<T>>): seq<T> {
    if outs == [] then []
    else
      var n := |outs| - 1;
      Yielded(outs[..n]) + (if outs[n].Yield? then [outs[n].item] else [])
  }

  /** When the gap timer was last set: at the last item, or else at the first poll. */
  function Armed<T>(ticks: seq<Tick>, outs: seq<Poll<T>>): nat
    requires |ticks| == |outs| > 0
  {
    var n := |ticks| - 1;
    if n == 0 || outs[n].Yield? then ticks[n].now else Armed(ticks[..n], outs[..n])
  }

  /** The gap timer was last set by poll `k`: the last that yielded an item, or else the first. */
  ghost predicate LastSet<T>(outs: seq<Poll<T>>, k: nat) {
    k < |outs| && (k == 0 || outs[k].Yield?) && forall j :: k < j < |outs| ==> !outs[j].Yield?
  }

  lemma {:induction false} ArmedIsLastSet<T>(ticks: seq<Tick>, outs: seq<Poll<T>>) returns (k: nat)
    requires |ticks| == |outs| > 0
    ensures LastSet(outs, k) && Armed(ticks, outs) == ticks[k].now
    ensures forall l: nat :: LastSet(outs, l) ==> l == k
    decreases |ticks|
  {
    var n := |ticks| - 1;
    if n == 0 || outs[n].Yield? {
      k := n;
    } else {
      k := ArmedIsLastSet(ticks[..n], outs[..n]);
      forall l: nat | LastSet(outs, l)
        ensures l == k
      {
        assert l < n;
        assert forall j :: l < j < n ==> outs[..n][j] == outs[j];
        assert LastSet(outs[..n], l);
      }
      assert forall j :: k < j < n ==> outs[..n][j] == outs[j];
    }
  }

  /** Whether a poll at `now`, after the run `ticks`, finds the gap bound lapsed. */
  ghost predicate Stalled<T>(gap: Option<nat>, ticks: seq<Tick>, outs: seq<Poll<T>>, now: nat)
    requires |ticks| == |outs|
  {
    && gap.Some?
    && if ticks == [] then gap.value == 0 else exists k: nat :: LastSet(outs, k) && now >= ticks[k].now + gap.value
  }

  lemma StalledIff<T>(gap: Option<nat>, ticks: seq<Tick>, outs: seq<Poll<T>>, now: nat)
    requires |ticks| == |outs|
    ensures Stalled(gap, ticks, outs, now) <==> Past(TimerAt(gap, ticks, outs, now), now)
  {
    if ticks != [] {
      var k := ArmedIsLastSet(ticks, outs);
    }
  }

  /** What the fields hold after a run that has not ended. */
  ghost predicate Tracks<T>(
    s: State<T>, items: seq<T>, deadline: Option<nat>, gap: Option<nat>, ticks: seq<Tick>, outs: seq<Poll<T>>)
    requires |ticks| == |outs|
  {
    && !s.finished && s.absolute == deadline && s.gap == gap
    && Yielded(outs) <= items && s.inner == Some(items[|Yielded(outs)|..])
    && s.perItem == if gap.None? || ticks == [] then None else Some(Armed(ticks, outs) + gap.value)
  }

  lemma {:induction false} LiveRun<T>(
    items: seq<T>, start: nat, absolute: Option<nat>, gap: Option<nat>, ticks: seq<Tick>)
    ensures var s := Fresh(items, start, absolute, gap);
            var outs := Answers(s, ticks);
            if Live(outs) then Tracks(After(s, ticks), items, s.absolute, gap, ticks, outs)
            else After(s, ticks).finished
    decreases |ticks|
  {
    var s := Fresh(items, start, absolute, gap);
    if ticks == [] {
      FreshTracks(items, start, absolute, gap);
    } else {
      hide Step, Tracks, After, Answers, Live, AnswerFits;
      var n := |ticks| - 1;
      LiveRun(items, start, absolute, gap, ticks[..n]);
      var before := Answers(s, ticks[..n]);
      OneMorePoll(s, ticks);
      LiveNext(before, Step(After(s, ticks[..n]), ticks[n]).0);
      if Live(before) {
        StepTracks(After(s, ticks[..n]), items, s.absolute, gap, ticks[..n], before, ticks[n]);
        assert ticks == ticks[..n] + [ticks[n]];
      } else {
        FinishedIsDone(After(s, ticks[..n]), ticks[n]);
      }
    }
  }

  lemma FreshTracks<T>(items: seq<T>, start: nat, absolute: Option<nat>, gap: Option<nat>)
    ensures var s := Fresh(items, start, absolute, gap);
            && Answers(s, []) == [] && After(s, []) == s && Live<T>([])
            && Tracks(s, items, s.absolute, gap, [], [])
  {
    hide Step;
    NothingYielded<T>();
    assert items[0..] == items;
  }

  lemma OneMorePoll<T>(s: State<T>, ticks: seq<Tick>)
    requires ticks != []
    ensures var n := |ticks| - 1;
            var step := Step(After(s, ticks[..n]), ticks[n]);
            After(s, ticks) == step.1 && Answers(s, ticks) == Answers(s, ticks[..n]) + [step.0]
  {
    hide Step;
  }

  lemma LiveNext<T>(outs: seq<Poll<T>>, r: Poll<T>)
    ensures Live(outs + [r]) <==> Live(outs) && Goes(r)
  {
    var all := outs + [r];
    assert all[|outs|] == r;
    if Live(all) {
      assert forall i :: 0 <= i < |outs| ==> outs[i] == all[i];
    }
  }

  lemma YieldedNext<T>(outs: seq<Poll<T>>, r: Poll<T>)
    ensures Yielded(outs + [r]) == Yielded(outs) + (if r.Yield? then [r.item] else [])
  {
    assert (outs + [r])[..|outs|] == outs;
  }

  /** What was yielded, in order: the items of the answers that have one. */
  lemma {:induction false} YieldedRule<T>(a: seq<Poll<T>>, b: seq<Poll<T>>, r: Poll<T>)
    ensures Yielded(a + b) == Yielded(a) + Yielded(b)
    ensures Yielded([r]) == if r.Yield? then [r.item] else []
    decreases |b|
  {
    hide Yielded;
    NothingYielded<T>();
    YieldedNext([], r);
    assert [] + [r] == [r];
    if b == [] {
      assert a + b == a;
    } else {
      var n := |b| - 1;
      var given := if b[n].Yield? then [b[n].item] else [];
      assert a + b == (a + b[..n]) + [b[n]] && b == b[..n] + [b[n]];
      YieldedRule(a, b[..n], r);
      YieldedNext(a + b[..n], b[n]);
      YieldedNext(b[..n], b[n]);
      assert Yielded(a) + (Yielded(b[..n]) + given) == Yielded(a) + Yielded(b[..n]) + given;
    }
  }

  lemma ArmedNext<T>(ticks: seq<Tick>, outs: seq<Poll<T>>, t: Tick, r: Poll<T>)
    requires |ticks| == |outs|
    ensures Armed(ticks + [t], outs + [r]) == if ticks == [] || r.Yield? then t.now else Armed(ticks, outs)
  {
    assert (ticks + [t])[..|ticks|] == ticks && (outs + [r])[..|outs|] == outs;
  }

  /** What a poll must answer, told from the run before it. */
  ghost predicate AnswerFits<T>(
    r: Poll<T>, items: seq<T>, deadline: Option<nat>, gap: Option<nat>, ticks: seq<Tick>, outs: seq<Poll<T>>, t: Tick)
    requires |ticks| == |outs|
  {
    var given := |Yielded(outs)|;
    if deadline.Some? && t.now >= deadline.value then r == Lapsed(RequestDeadline)
    else if Stalled(gap, ticks, outs, t.now) then r == Lapsed(StreamStalled)
    else if !t.ready then r == Waiting
    else if given < |items| then r == Yield(items[given])
    else r == Done && Yielded(outs) == items
  }

  /** The gap timer a poll works with: set now at the first poll. */
  function TimerAt<T>(gap: Option<nat>, ticks: seq<Tick>, outs: seq<Poll<T>>, now: nat): Option<nat>
    requires |ticks| == |outs|
  {
    if gap.None? then None else Some((if ticks == [] then now else Armed(ticks, outs)) + gap.value)
  }

  lemma StepAnswers<T>(
    s: State<T>, items: seq<T>, deadline: Option<nat>, gap: Option<nat>, ticks: seq<Tick>, outs: seq<Poll<T>>, t: Tick)
    requires |ticks| == |outs| && Tracks(s, items, deadline, gap, ticks, outs)
    ensures AnswerFits(Step(s, t).0, items, deadline, gap, ticks, outs, t)
    ensures var (r, s') := Step(s, t);
            if !Goes(r) then s'.finished
            else
              && !s'.finished && s'.absolute == deadline && s'.gap == gap
              && s'.inner == Some(items[|Yielded(outs)| + (if r.Yield? then 1 else 0)..])
              && s'.perItem == TimerAt(gap, if r.Yield? then [] else ticks, if r.Yield? then [] else outs, t.now)
  {
    StalledIff(gap, ticks, outs, t.now);
    hide Armed, Yielded, Stalled;
    var given := Yielded(outs);
    var left := items[|given|..];
    assert given == items[..|given|];
    if left != [] {
      assert left[0] == items[|given|] && left[1..] == items[|given| + 1..];
    } else {
      assert given == items;
    }
  }

  lemma StepTracks<T>(
    s: State<T>, items: seq<T>, deadline: Option<nat>, gap: Option<nat>, ticks: seq<Tick>, outs: seq<Poll<T>>, t: Tick)
    requires |ticks| == |outs| && Tracks(s, items, deadline, gap, ticks, outs)
    ensures AnswerFits(Step(s, t).0, items, deadline, gap, ticks, outs, t)
    ensures var (r, s') := Step(s, t);
            if Goes(r) then Tracks(s', items, deadline, gap, ticks + [t], outs + [r]) else s'.finished
  {
    hide Step, Armed, Yielded, Past, Stalled;
    StepAnswers(s, items, deadline, gap, ticks, outs, t);
    var (r, s') := Step(s, t);
    YieldedNext(outs, r);
    ArmedNext(ticks, outs, t, r);
    if Goes(r) {
      assert Yielded(outs + [r]) <= items;
    }
  }

  lemma FinishedIsDone<T>(s: State<T>, t: Tick)
    requires s.finished
    ensures Step(s, t) == (Done, s)
  {
  }

  /**
    Every run of polls, at any times. While the stream is live, a poll answers with the deadline error
    exactly when a bound has lapsed, and otherwise as the inner stream does: it waits when that is not
    ready, yields its next item, or ends after the last one. What was yielded is a prefix of the inner
    stream, and after an error or the end there is nothing but the end.
   */
  lemma TraceTheorem<T>(items: seq<T>, start: nat, absolute: Option<nat>, gap: Option<nat>, ticks: seq<Tick>, i: nat)
    requires i < |ticks|
    ensures var s := Fresh(items, start, absolute, gap);
            var before, r := Answers(s, ticks[..i]), Answers(s, ticks)[i];
            && |before| == i && before == Answers(s, ticks)[..i]
            && Yielded(before) <= items
            && var deadline := if absolute.Some? then Some(start + absolute.value) else None;
               (if Live(before) then AnswerFits(r, items, deadline, gap, ticks[..i], before, ticks[i]) else r == Done)
  {
    hide Step, Tracks, After, Answers, AnswerFits;
    var s := Fresh(items, start, absolute, gap);
    AnswersPrefix(s, ticks, i);
    var before := Answers(s, ticks[..i]);
    LiveRun(items, start, absolute, gap, ticks[..i]);
    YieldedIsPrefix(items, start, absolute, gap, ticks[..i]);
    if Live(before) {
      StepTracks(After(s, ticks[..i]), items, s.absolute, gap, ticks[..i], before, ticks[i]);
    } else {
      FinishedIsDone(After(s, ticks[..i]), ticks[i]);
    }
  }

  lemma {:induction false} AnswersPrefix<T>(s: State<T>, ticks: seq<Tick>, i: nat)
    requires i < |ticks|
    ensures Answers(s, ticks)[..i] == Answers(s, ticks[..i])
    ensures Answers(s, ticks)[i] == Step(After(s, ticks[..i]), ticks[i]).0
    decreases |ticks|
  {
    hide Step;
    var n := |ticks| - 1;
    if i < n {
      AnswersPrefix(s, ticks[..n], i);
      assert ticks[..n][..i] == ticks[..i];
    }
  }

  lemma YieldedOneMore<T>(items: seq<T>, before: seq<Poll<T>>, r: Poll<T>)
    requires Yielded(before) <= items
    requires r.Yield? ==> |Yielded(before)| < |items| && r.item == items[|Yielded(before)|]
    ensures Yielded(before + [r]) <= items
  {
    assert (before + [r])[..|before|] == before;
  }

  lemma {:induction false} YieldedIsPrefix<T>(
    items: seq<T>, start: nat, absolute: Option<nat>, gap: Option<nat>, ticks: seq<Tick>)
    ensures Yielded(Answers(Fresh(items, start, absolute, gap), ticks)) <= items
    decreases |ticks|
  {
    hide Step, Tracks, After, Stalled, Past, Yielded;
    var s := Fresh(items, start, absolute, gap);
    if ticks == [] {
      NothingYielded<T>();
    } else {
      var n := |ticks| - 1;
      var before := Answers(s, ticks[..n]);
      YieldedIsPrefix(items, start, absolute, gap, ticks[..n]);
      LiveRun(items, start, absolute, gap, ticks[..n]);
      if Live(before) {
        StepTracks(After(s, ticks[..n]), items, s.absolute, gap, ticks[..n], before, ticks[n]);
      } else {
        FinishedIsDone(After(s, ticks[..n]), ticks[n]);
      }
      YieldedOneMore(items, before, Step(After(s, ticks[..n]), ticks[n]).0);
    }
  }

  lemma NothingYielded<T>()
    ensures Yielded<T>([]) == []
  {
  }

  // ----- Whether to wrap ---------------------------------------------------------------------

  function InnerAfter<T>(s: Inner<T>, ticks: seq<Tick>): Inner<T> {
    if ticks == [] then s
    else InnerStep(InnerAfter(s, ticks[..|ticks| - 1]), ticks[|ticks| - 1].ready).1
  }

  /** What the inner stream answers to the same polls, asked directly. */
  function InnerAnswers<T>(s: Inner<T>, ticks: seq<Tick>): seq<Poll<T>> {
    if ticks == [] then []
    else
      var n := |ticks| - 1;
      InnerAnswers(s, ticks[..n]) + [InnerStep(InnerAfter(s, ticks[..n]), ticks[n].ready).0]
  }

  function BodyAnswers<T>(b: Body<T>, ticks: seq<Tick>): seq<Poll<T>> {
    match b
    case Bare(inner) => InnerAnswers(inner, ticks)
    case Guarded(s) => Answers(s, ticks)
  }

  /** The wrapper has no timer to look at and is as far as the inner stream. */
  ghost predicate Mirrors<T>(w: State<T>, s: Inner<T>) {
    && w.absolute.None? && w.gap.None? && w.perItem.None?
    && (w.finished <==> s.ended) && (!w.finished ==> w.inner == Some(s.left))
  }

  lemma MirrorStep<T>(w: State<T>, s: Inner<T>, t: Tick)
    requires Mirrors(w, s)
    ensures Step(w, t).0 == InnerStep(s, t.ready).0 && Mirrors(Step(w, t).1, InnerStep(s, t.ready).1)
  {
  }

  lemma {:induction false} MirrorRun<T>(w: State<T>, s: Inner<T>, ticks: seq<Tick>)
    requires Mirrors(w, s)
    ensures Answers(w, ticks) == InnerAnswers(s, ticks) && Mirrors(After(w, ticks), InnerAfter(s, ticks))
    decreases |ticks|
  {
    if ticks != [] {
      hide Mirrors, Step, InnerStep;
      var n := |ticks| - 1;
      MirrorRun(w, s, ticks[..n]);
      MirrorStep(After(w, ticks[..n]), InnerAfter(s, ticks[..n]), ticks[n]);
    }
  }

  /** Without bounds every poll, after the end too, is what the inner stream answers. */
  lemma UnboundedIsTransparent<T>(items: seq<T>, start: nat, ticks: seq<Tick>)
    ensures Answers(Fresh(items, start, None, None), ticks) == InnerAnswers(Inner(items, false), ticks)
    ensures var outs := InnerAnswers(Inner(items, false), ticks);
            forall i :: 0 <= i < |ticks| && Live(outs[..i]) ==>
              outs[i] == if !ticks[i].ready then Waiting
                         else if |Yielded(outs[..i])| >= |items| then Done
                         else Yield(items[|Yielded(outs[..i])|])
  {
    hide Step, InnerStep, Answers, InnerAnswers, Live, Yielded;
    MirrorRun(Fresh(items, start, None, None), Inner(items, false), ticks);
    var outs := Answers(Fresh(items, start, None, None), ticks);
    forall i | 0 <= i < |ticks| && Live(outs[..i])
      ensures outs[i] == if !ticks[i].ready then Waiting
                         else if |Yielded(outs[..i])| >= |items| then Done
                         else Yield(items[|Yielded(outs[..i])|])
    {
      TraceTheorem(items, start, None, None, ticks, i);
    }
  }

  /** A bound that is not set never lapses. */
  lemma OnlySetBoundsLapse<T>(
    items: seq<T>, start: nat, absolute: Option<nat>, gap: Option<nat>, ticks: seq<Tick>, i: nat)
    requires i < |ticks|
    ensures var r := Answers(Fresh(items, start, absolute, gap), ticks)[i];
            && (absolute.None? ==> r != Lapsed(RequestDeadline))
            && (gap.None? ==> r != Lapsed(StreamStalled))
  {
    hide Step, Answers, Live, Yielded;
    TraceTheorem(items, start, absolute, gap, ticks, i);
  }

  /**
    What a policy makes of a response stream. Its answers are always those of the wrapper with the
    bounds that the policy sets, so returning the stream unchanged when there is none shows nowhere.
    The request's deadline is only ever reported when the policy enforces it on streams, a stall only
    under a gap bound, and with neither the answers are the inner stream's own.
   */
  lemma EnforcementTheorem<T>(p: Policy, items: seq<T>, start: nat, remaining: Option<nat>, ticks: seq<Tick>)
    ensures var outs := BodyAnswers(p.EnforceOnResponseStream(items, start, remaining), ticks);
            var bound := p.enforceOnStreams && remaining.Some?;
            && (p.EnforceOnResponseStream(items, start, remaining).Bare? <==> !bound && p.interMessage.None?)
            && outs == Answers(Fresh(items, start, if bound then remaining else None, p.interMessage), ticks)
            && (!bound ==> Lapsed(RequestDeadline) !in outs)
            && (p.interMessage.None? ==> Lapsed(StreamStalled) !in outs)
            && (!bound && p.interMessage.None? ==> outs == InnerAnswers(Inner(items, false), ticks))
  {
    hide Step, InnerStep, Answers, InnerAnswers;
    var absolute := if p.enforceOnStreams then remaining else None;
    UnboundedIsTransparent(items, start, ticks);
    forall i | 0 <= i < |ticks|
      ensures var r := Answers(Fresh(items, start, absolute, p.interMessage), ticks)[i];
              && (absolute.None? ==> r != Lapsed(RequestDeadline))
              && (p.interMessage.None? ==> r != Lapsed(StreamStalled))
    {
      OnlySetBoundsLapse(items, start, absolute, p.interMessage, ticks, i);
    }
  }
}
