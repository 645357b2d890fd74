/** The hand-off between the encoder thread (the producer) and the render
    thread (the consumer), as a token machine run one step at a time. Two
    channels carry unit tokens: "request" from the consumer to the producer
    and "ready" from the producer to the consumer. A receive blocks until a
    token is there. The frames in the two slots are named by number: frame 0
    is the blank frame both slots start with, frame k > 0 is the one written
    by the producer's k-th pass. */
module Handoff {
  import opened Paths
  import opened Optional

  /** Where the render thread is in its loop. */
  datatype ConsumerPc =
    | Starting        // before the first request is sent
    | AwaitingReady   // ready not yet received: resetting the cursor or blocked in the receive
    | Displaying      // serialising and writing out the front slot
    | Swapped         // roles exchanged, the next request not yet sent

  /** Where the encoder thread is in its loop. */
  datatype ProducerPc =
    | AwaitingRequest // request not yet received: decoding the next image or blocked in the receive
    | Writing         // overwriting the back slot
    | Written         // back slot written, ready not yet sent

  datatype Step =
    | SendFirstRequest // the render thread's request before its loop
    | RecvRequest
    | WriteBack
    | SendReady
    | RecvReady
    | SwapRoles
    | SendRequest

  /** `front` is the index of the front slot (the other one is the back
      slot), `slots` the frame number each slot holds, `encoded` the number of
      frames written so far and `shown` the frame numbers displayed, in
      order. */
  datatype State = State(
    consumer: ConsumerPc, producer: ProducerPc,
    requests: nat, readies: nat,
    front: nat, slots: seq<nat>,
    encoded: nat, shown: seq<nat>)
  {
    predicate WellFormed() {
      |slots| == 2 && front < 2
    }

    function Back(): nat
      requires WellFormed()
    {
      1 - front
    }
  }

  /** Both threads at the top of their code, both slots blank, no token sent.
      The only step that can run is the render thread's first request. */
  function Init(): (s: State)
    ensures s.WellFormed() && s.slots[s.front] == 0 && s.slots[s.Back()] == 0
    ensures s.requests == 0 && s.readies == 0
    ensures s.shown == [] && s.encoded == 0
    ensures forall step :: Enabled(s, step) <==> step == SendFirstRequest
  {
    State(Starting, AwaitingRequest, 0, 0, 0, [0, 0], 0, [])
  }

  /** The step can run: its thread is at that point and, for a receive, a
      token is waiting. */
  predicate Enabled(s: State, step: Step) {
    match step
    case SendFirstRequest => s.consumer == Starting
    case RecvRequest => s.producer == AwaitingRequest && s.requests > 0
    case WriteBack => s.producer == Writing
    case SendReady => s.producer == Written
    case RecvReady => s.consumer == AwaitingReady && s.readies > 0
    case SwapRoles => s.consumer == Displaying
    case SendRequest => s.consumer == Swapped
  }

  /** Runs one enabled step. Displaying appends the front slot's frame to
      `shown`; writing stores the next frame number in the back slot. */
  function Apply(s: State, step: Step): (t: State)
    requires s.WellFormed() && Enabled(s, step)
    ensures t.WellFormed()
    ensures step != SwapRoles ==> t.front == s.front && t.slots[t.front] == s.slots[s.front]
    ensures step == SwapRoles ==> t.front == s.Back() && t.slots == s.slots
  {
    match step
    case SendFirstRequest => s.(consumer := AwaitingReady, requests := s.requests + 1)
    case RecvRequest => s.(producer := Writing, requests := s.requests - 1)
    case WriteBack => s.(producer := Written, slots := s.slots[s.Back() := s.encoded + 1], encoded := s.encoded + 1)
    case SendReady => s.(producer := AwaitingRequest, readies := s.readies + 1)
    case RecvReady => s.(consumer := Displaying, readies := s.readies - 1, shown := s.shown + [s.slots[s.front]])
    case SwapRoles => s.(consumer := Swapped, front := s.Back())
    case SendRequest => s.(consumer := AwaitingReady, requests := s.requests + 1)
  }

  /** Both threads waiting on one request: the state after the first send and
      after every complete round. */
  predicate AtRoundStart(s: State)
    requires s.WellFormed()
  {
    var n := |s.shown|;
    s.consumer == AwaitingReady && s.producer == AwaitingRequest &&
    s.requests == 1 && s.readies == 0 && s.encoded == n && s.slots[s.front] == n &&
    s.slots[s.Back()] == if n == 0 then 0 else n - 1
  }

  /** The reachable states: the seven points of the round, with what each
      slot holds at that point, and every display so far showing frame
      number equal to its position. */
  predicate Inv(s: State) {
    s.WellFormed() &&
    (forall k :: 0 <= k < |s.shown| ==> s.shown[k] == k) &&
    var n, f, b := |s.shown|, s.slots[s.front], s.slots[s.Back()];
    (s.consumer == Starting && s.producer == AwaitingRequest && s.requests == 0 && s.readies == 0 &&
       n == 0 && s.encoded == 0 && f == 0 && b == 0) ||
    AtRoundStart(s) ||
    (s.consumer == AwaitingReady && s.producer == Writing && s.requests == 0 && s.readies == 0 &&
       s.encoded == n && f == n && b == if n == 0 then 0 else n - 1) ||
    (s.consumer == AwaitingReady && s.producer == Written && s.requests == 0 && s.readies == 0 &&
       s.encoded == n + 1 && f == n && b == n + 1) ||
    (s.consumer == AwaitingReady && s.producer == AwaitingRequest && s.requests == 0 && s.readies == 1 &&
       s.encoded == n + 1 && f == n && b == n + 1) ||
    (s.consumer == Displaying && s.producer == AwaitingRequest && s.requests == 0 && s.readies == 0 &&
       n >= 1 && s.encoded == n && f == n - 1 && b == n) ||
    (s.consumer == Swapped && s.producer == AwaitingRequest && s.requests == 0 && s.readies == 0 &&
       n >= 1 && s.encoded == n && f == n && b == n - 1)
  }

  lemma InitInv()
    ensures Inv(Init())
  {
  }

  /** Every step keeps the machine among the reachable states. */
  lemma StepPreservesInv(s: State, step: Step)
    requires Inv(s) && Enabled(s, step)
    ensures Inv(Apply(s, step))
  {
    var t := Apply(s, step);
    if step == RecvReady {
      assert t.shown == s.shown + [|s.shown|];
    }
  }

  /** At most one token is ever in flight. */
  lemma OneToken(s: State)
    requires Inv(s)
    ensures s.requests + s.readies <= 1
  {
  }

  /** Strict alternation: in every reachable state at most one of the token
      and slot steps can run, so the order of those steps is fixed. Decoding
      the next image is not one of them: it overlaps the render thread's
      display. */
  lemma AtMostOneEnabled(s: State, a: Step, b: Step)
    requires Inv(s) && Enabled(s, a) && Enabled(s, b)
    ensures a == b
  {
  }

  /** No deadlock: in every reachable state some step can run. With
      `AtMostOneEnabled`, exactly one can. */
  lemma SomeStepEnabled(s: State)
    requires Inv(s)
    ensures exists step :: Enabled(s, step)
  {
    if s.consumer == Starting {
      assert Enabled(s, SendFirstRequest);
    } else if s.consumer == Displaying {
      assert Enabled(s, SwapRoles);
    } else if s.consumer == Swapped {
      assert Enabled(s, SendRequest);
    } else if s.producer == Writing {
      assert Enabled(s, WriteBack);
    } else if s.producer == Written {
      assert Enabled(s, SendReady);
    } else if s.requests > 0 {
      assert Enabled(s, RecvRequest);
    } else {
      assert Enabled(s, RecvReady);
    }
  }

  /** Exclusive access to the slots: the producer writes the back slot only
      while the consumer has not yet received ready, and the consumer reads
      the front slot and swaps the roles only while the producer has not yet
      received the next request (it may be decoding the next image, which
      touches neither slot). */
  lemma ExclusiveAccess(s: State)
    requires Inv(s)
    ensures s.producer == Writing ==> s.consumer == AwaitingReady
    ensures s.consumer == Displaying || s.consumer == Swapped ==> s.producer == AwaitingRequest
  {
  }

  /** The producer writes the slot displayed last, never the front slot,
      which holds the frame to be displayed next. */
  lemma WriteSparesFront(s: State)
    requires Inv(s) && Enabled(s, WriteBack)
    ensures Apply(s, WriteBack).slots[s.front] == |s.shown|
    ensures |s.shown| > 0 ==> s.slots[s.Back()] == s.shown[|s.shown| - 1]
  {
  }

  /** The display lags encoding by one frame: the consumer never shows a
      frame beyond those written, and is at most one frame behind. */
  lemma DisplayLag(s: State)
    requires Inv(s)
    ensures |s.shown| <= s.encoded <= |s.shown| + 1
  {
  }

  /** Runs `steps` in order; None when one of them cannot run. */
  function Run(s: State, steps: seq<Step>): (r: Option<State>)
    requires s.WellFormed()
    ensures r.Some? ==> r.value.WellFormed()
    decreases |steps|
  {
    if steps == [] then Some(s)
    else if !Enabled(s, steps[0]) then None
    else Run(Apply(s, steps[0]), steps[1..])
  }

  /** Every state reached from a reachable state is reachable. */
  lemma {:induction false} RunPreservesInv(s: State, steps: seq<Step>)
    requires Inv(s) && Run(s, steps).Some?
    ensures Inv(Run(s, steps).value)
    decreases |steps|
  {
    if steps != [] {
      StepPreservesInv(s, steps[0]);
      RunPreservesInv(Apply(s, steps[0]), steps[1..]);
    }
  }

  /** One round: the producer receives the request, writes and signals; the
      consumer receives ready, displays, swaps and requests again. */
  const ROUND: seq<Step> := [RecvRequest, WriteBack, SendReady, RecvReady, SwapRoles, SendRequest]

  /** A round displays the next frame and brings both threads back to the
      start of the next one. */
  lemma RoundDisplaysNext(s: State)
    requires s.WellFormed() && AtRoundStart(s)
    ensures Run(s, ROUND).Some?
    ensures AtRoundStart(Run(s, ROUND).value)
    ensures Run(s, ROUND).value.shown == s.shown + [|s.shown|]
  {
    var s1 := Apply(s, RecvRequest);
    var s2 := Apply(s1, WriteBack);
    var s3 := Apply(s2, SendReady);
    var s4 := Apply(s3, RecvReady);
    var s5 := Apply(s4, SwapRoles);
    var s6 := Apply(s5, SendRequest);
    assert Run(s6, []) == Some(s6);
    assert ROUND[5..][1..] == [];
    assert Run(s5, ROUND[5..]) == Some(s6);
    assert ROUND[4..][1..] == ROUND[5..];
    assert Run(s4, ROUND[4..]) == Some(s6);
    assert ROUND[3..][1..] == ROUND[4..];
    assert Run(s3, ROUND[3..]) == Some(s6);
    assert ROUND[2..][1..] == ROUND[3..];
    assert Run(s2, ROUND[2..]) == Some(s6);
    assert ROUND[1..][1..] == ROUND[2..];
    assert Run(s1, ROUND[1..]) == Some(s6);
    assert Run(s, ROUND) == Some(s6);
  }

  /** The first request followed by `n` rounds. */
  function Schedule(n: nat): (steps: seq<Step>)
    ensures |steps| == 1 + 6 * n
  {
    if n == 0 then [SendFirstRequest] else Schedule(n - 1) + ROUND
  }

  lemma {:induction false} RunAppend(s: State, a: seq<Step>, b: seq<Step>)
    requires s.WellFormed() && Run(s, a).Some?
    ensures Run(s, a + b) == Run(Run(s, a).value, b)
    decreases |a|
  {
    if a == [] {
      assert a + b == b;
    } else {
      assert (a + b)[0] == a[0] && (a + b)[1..] == a[1..] + b;
      RunAppend(Apply(s, a[0]), a[1..], b);
    }
  }

  /** The first request and `n` rounds run to completion and display `n`
      frames. */
  lemma {:induction false} RoundsRun(n: nat)
    ensures Run(Init(), Schedule(n)).Some?
    ensures |Run(Init(), Schedule(n)).value.shown| == n
    ensures AtRoundStart(Run(Init(), Schedule(n)).value)
  {
    if n == 0 {
      assert [SendFirstRequest][1..] == [];
    } else {
      var prev := Schedule(n - 1);
      RoundsRun(n - 1);
      var s := Run(Init(), prev).value;
      RunAppend(Init(), prev, ROUND);
      RoundDisplaysNext(s);
    }
  }

  /** After the first request and `n` rounds the screen has shown frames
      0, 1, ..., n - 1 in that order while `n` frames have been written: the
      first display is the blank initial frame, and display k + 1 shows the
      frame written in the producer's k-th pass, one behind the writes. */
  lemma Playback(n: nat)
    ensures Run(Init(), Schedule(n)).Some?
    ensures Inv(Run(Init(), Schedule(n)).value)
    ensures |Run(Init(), Schedule(n)).value.shown| == n
    ensures forall k :: 0 <= k < n ==> Run(Init(), Schedule(n)).value.shown[k] == k
    ensures Run(Init(), Schedule(n)).value.encoded == n
  {
    RoundsRun(n);
    InitInv();
    RunPreservesInv(Init(), Schedule(n));
  }

  /** The image each of the producer's first `count` passes reads: the outer
      `loop` runs the path list from the start again and again. */
  method ImageSchedule(count: nat) returns (images: seq<nat>)
    ensures |images| == count
    ensures forall k :: 0 <= k < count ==> images[k] == k % FRAME_COUNT + 1
    ensures forall k :: 0 <= k < count ==> SourceOf(k + 1) == PathOf(images[k])
  {
    images := [];
    ghost var laps := 0;
    while |images| < count
      invariant |images| <= count && (|images| == laps * FRAME_COUNT || |images| == count)
      invariant forall k :: 0 <= k < |images| ==> images[k] == k % FRAME_COUNT + 1
    {
      var i := 1;
      while i <= FRAME_COUNT && |images| < count
        invariant 1 <= i <= FRAME_COUNT + 1 && |images| <= count
        invariant |images| == laps * FRAME_COUNT + i - 1
        invariant forall k :: 0 <= k < |images| ==> images[k] == k % FRAME_COUNT + 1
      {
        images := images + [i];
        i := i + 1;
      }
      if |images| < count {
        laps := laps + 1;
      }
    }
  }

  /** The image file a frame number comes from: frame k > 0 was written from
      the ((k - 1) mod 4989 + 1)-th path, so the frames cycle through the list. */
  function SourceOf(frame: nat): (path: string)
    requires frame > 0
    ensures exists i :: 1 <= i <= FRAME_COUNT && path == PathOf(i)
  {
    var i := (frame - 1) % FRAME_COUNT + 1;
    assert 1 <= i <= FRAME_COUNT;
    PathOf(i)
  }

  /** The path list of `get_path` indexed by frame number: frame k > 0 is
      written from element (k - 1) mod 4989 of the list. */
  lemma SourceInList(paths: seq<string>, frame: nat)
    requires |paths| == FRAME_COUNT
    requires forall k :: 0 <= k < |paths| ==> paths[k] == PathOf(k + 1)
    requires frame > 0
    ensures SourceOf(frame) == paths[(frame - 1) % FRAME_COUNT]
  {
  }
}
