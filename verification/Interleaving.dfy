/** Sender and receiver at once: every interleaving of the partial writes of `putMessage` with the partial
    reads of `recvMessage` into its growing buffer. It also justifies what `Transport.IOSocket.Read`
    promises: whatever the timing, a read returns the next part of the stream the peer has decided to
    send, and end of stream only after all of it. */
module Interleaving {
  import opened Text

  /** `held` is what the receiver has, in a string of that `capacity`. */
  datatype State = State(unsent: string, wire: string, shut: bool, held: string, capacity: nat, ended: bool)

  datatype Step =
    | Write(n: nat)              // the kernel accepts n bytes of the loop in putMessage
    | Shut                       // the sender is done and shuts its side
    | Read(n: nat, slack: nat)   // the receiver's kernel hands over n bytes, and the string grows
    | ReadEnd                    // a read returns 0
    | Full                       // there is no room to read into: nothing is read, and that ends the loop

  /** What `getMessage` is given room for: one less than what is free. */
  function Room(s: State): int { s.capacity - 1 - |s.held| }

  predicate Enabled(s: State, step: Step) {
    !s.ended &&
    match step
    case Write(n) => 1 <= n <= |s.unsent| && !s.shut
    case Shut => s.unsent == "" && !s.shut
    case Read(n, _) => 1 <= n <= |s.wire| && n <= Room(s)
    case ReadEnd => s.wire == "" && s.shut && Room(s) > 0
    case Full => Room(s) <= 0
  }

  function Apply(s: State, step: Step): State
    requires Enabled(s, step)
  {
    match step
    case Write(n) => s.(unsent := s.unsent[n..], wire := s.wire + s.unsent[..n])
    case Shut => s.(shut := true)
    case Read(n, slack) =>
      s.(wire := s.wire[n..], held := s.held + s.wire[..n], capacity := 3 * s.capacity / 2 + 10 + slack)
    case ReadEnd => s.(ended := true)
    case Full => s.(ended := true)
  }

  ghost predicate IsRun(s: State, steps: seq<Step>)
    decreases |steps|
  {
    steps == [] || (Enabled(s, steps[0]) && IsRun(Apply(s, steps[0]), steps[1..]))
  }

  function After(s: State, steps: seq<Step>): State
    requires IsRun(s, steps)
    decreases |steps|
  {
    if steps == [] then s else After(Apply(s, steps[0]), steps[1..])
  }

  /** A series of messages to send, and an empty string to receive into. */
  function Initial(messages: seq<string>, capacity: nat): State {
    State(Flatten(messages), "", false, "", capacity, false)
  }

  /** No byte is lost, repeated or reordered, there is always room, and the end is the real one. */
  ghost predicate Sound(s: State, stream: string) {
    && s.held + s.wire + s.unsent == stream && Room(s) > 0
    && (s.shut ==> s.unsent == "") && (s.ended ==> s.shut && s.wire == "")
  }

  /** Bytes still to be written and to be read, and the two ends still to come. */
  function Work(s: State): nat {
    2 * |s.unsent| + |s.wire| + (if s.shut then 0 else 1) + (if s.ended then 0 else 1)
  }

  lemma StepIsSound(s: State, step: Step, stream: string)
    requires Sound(s, stream) && Enabled(s, step)
    ensures Sound(Apply(s, step), stream) && Work(Apply(s, step)) < Work(s)
  {
    match step
    case Write(n) =>
      assert s.held + (s.wire + s.unsent[..n]) + s.unsent[n..] == s.held + s.wire + s.unsent;
    case Read(n, _) =>
      assert (s.held + s.wire[..n]) + s.wire[n..] + s.unsent == s.held + s.wire + s.unsent;
    case _ =>
  }

  lemma {:induction false} RunIsSound(s: State, steps: seq<Step>, stream: string)
    requires Sound(s, stream) && IsRun(s, steps)
    ensures Sound(After(s, steps), stream) && Work(After(s, steps)) + |steps| <= Work(s)
    decreases |steps|
  {
    if steps != [] {
      StepIsSound(s, steps[0], stream);
      RunIsSound(Apply(s, steps[0]), steps[1..], stream);
    }
  }

  /** In every run of both ends at once, however the kernels cut the stream and time their calls: what is
      held is a front of what was sent, the next read brings the part that follows, the loop ends with the
      whole, and it does end, after two steps for each byte and two more at most. */
  lemma EveryRun(messages: seq<string>, capacity: nat, steps: seq<Step>)
    requires capacity >= 2 && IsRun(Initial(messages, capacity), steps)
    ensures var s, stream := After(Initial(messages, capacity), steps), Flatten(messages);
      && s.held <= stream && (s.ended ==> s.held == stream)
      && (forall n: nat, slack: nat | Enabled(s, Read(n, slack)) ::
            |s.held| + n <= |stream| && s.wire[..n] == stream[|s.held|..|s.held| + n])
      && |steps| <= 2 * |stream| + 2
  {
    RunIsSound(Initial(messages, capacity), steps, Flatten(messages));
    var s := After(Initial(messages, capacity), steps);
    assert s.held + s.wire + s.unsent == Flatten(messages);
  }

  /** A run that has not ended can always go on: no deadlock. */
  lemma Progress(messages: seq<string>, capacity: nat, steps: seq<Step>)
    requires capacity >= 2 && IsRun(Initial(messages, capacity), steps)
    requires !After(Initial(messages, capacity), steps).ended
    ensures exists step :: Enabled(After(Initial(messages, capacity), steps), step)
  {
    var s := After(Initial(messages, capacity), steps);
    RunIsSound(Initial(messages, capacity), steps, Flatten(messages));
    if s.wire != "" {
      assert Enabled(s, Read(1, 0));
    } else if s.shut {
      assert Enabled(s, ReadEnd);
    } else if s.unsent != "" {
      assert Enabled(s, Write(1));
    } else {
      assert Enabled(s, Shut);
    }
  }

  lemma {:induction false} NothingIsRead(s: State, steps: seq<Step>)
    requires Room(s) <= 0 && IsRun(s, steps)
    ensures After(s, steps).held == s.held
    decreases |steps|
  {
    if steps != [] {
      NothingIsRead(Apply(s, steps[0]), steps[1..]);
    }
  }

  /** With room for one character and no more, the loop ends at once, with nothing. */
  lemma RoomForOneIsNone(messages: seq<string>, steps: seq<Step>)
    requires IsRun(Initial(messages, 1), steps)
    ensures After(Initial(messages, 1), steps).held == ""
  {
    NothingIsRead(Initial(messages, 1), steps);
  }
}
