// The keyboard ring of a tty: the buffer updated in place, and the same code as interleaved loads, stores and
// publishing steps of an interrupt handler and a reader.
module Ttys {
  const TTY_BUF := 1024

  function RingNext(v: nat): nat { (v + 1) % TTY_BUF }

  // Slots of consecutive positions.
  function Slot(k: nat): (i: nat)
    ensures i < TTY_BUF
  {
    k % TTY_BUF
  }

  lemma SlotNext(k: nat)
    ensures Slot(k + 1) == RingNext(Slot(k))
  {
  }

  // Two positions less than a lap apart have different slots.
  lemma SlotsApart(j: nat, k: nat)
    requires j < k < j + TTY_BUF
    ensures Slot(j) != Slot(k)
  {
    if Slot(j) == Slot(k) {
      assert (k - j) % TTY_BUF == 0 by { SlotGap(j, k); }
      assert false;
    }
  }

  lemma SlotGap(j: nat, k: nat)
    requires j <= k && j % TTY_BUF == k % TTY_BUF
    ensures (k - j) % TTY_BUF == 0
  {
    assert k - j == TTY_BUF * (k / TTY_BUF - j / TTY_BUF);
  }

  // ---- Interleaved steps ----

  // Between the steps of tty_kbd_putc: the next head is computed, room was seen, the byte is stored.
  datatype Producer = Idle | Fetched(c: char, nh: nat) | Roomy(c: char, nh: nat) | Written(c: char, nh: nat)

  // Between the steps of tty_read's loop: a byte was seen to be there, and it was copied out.
  datatype Consumer = Waiting | Seen | Copied

  // The ring with what has happened: keys pressed, which of the finished ones were kept, bytes published, bytes
  // copied to readers, and slots released.
  datatype State = State(
    buf: seq<char>, head: nat, tail: nat, producer: Producer, consumer: Consumer,
    pressed: seq<char>, kept: seq<bool>, accepted: seq<char>, delivered: seq<char>, released: nat)

  datatype Step = Press(c: char) | CheckRoom | Store | Publish | Look | Copy | Release

  const START := State(seq(TTY_BUF, i => '\0'), 0, 0, Idle, Waiting, [], [], [], [], 0)

  // A step that is not the next one of its side does nothing.
  function Next(s: State, step: Step): State {
    match step
    case Press(c) =>
      if s.producer.Idle? then s.(producer := Fetched(c, RingNext(s.head)), pressed := s.pressed + [c]) else s
    case CheckRoom =>
      if !s.producer.Fetched? then s
      else if s.producer.nh == s.tail then s.(producer := Idle, kept := s.kept + [false])
      else s.(producer := Roomy(s.producer.c, s.producer.nh))
    case Store =>
      if s.producer.Roomy? && s.head < |s.buf| then
        s.(buf := s.buf[s.head := s.producer.c], producer := Written(s.producer.c, s.producer.nh))
      else s
    case Publish =>
      if s.producer.Written? then
        s.(head := s.producer.nh, producer := Idle, kept := s.kept + [true], accepted := s.accepted + [s.producer.c])
      else s
    case Look => if s.consumer.Waiting? && s.tail != s.head then s.(consumer := Seen) else s
    case Copy =>
      if s.consumer.Seen? && s.tail < |s.buf| then s.(consumer := Copied, delivered := s.delivered + [s.buf[s.tail]])
      else s
    case Release =>
      if s.consumer.Copied? then s.(tail := RingNext(s.tail), consumer := Waiting, released := s.released + 1) else s
  }

  function Run(s: State, steps: seq<Step>): State {
    if steps == [] then s else Next(Run(s, steps[..|steps| - 1]), steps[|steps| - 1])
  }

  // The pressed keys whose flag is set, in order.
  function Kept(pressed: seq<char>, kept: seq<bool>): seq<char>
    requires |kept| <= |pressed|
  {
    if kept == [] then []
    else
      var n := |kept| - 1;
      Kept(pressed, kept[..n]) + if kept[n] then [pressed[n]] else []
  }

  // ---- The invariant ----

  function Busy(p: Producer): nat { if p.Idle? then 0 else 1 }

  predicate Counts(s: State) {
    && |s.buf| == TTY_BUF && s.released <= |s.accepted| < s.released + TTY_BUF
    && s.head == Slot(|s.accepted|) && s.tail == Slot(s.released)
    && |s.pressed| == |s.kept| + Busy(s.producer)
  }

  // An unread byte is in its slot.
  predicate InSlot(s: State, k: nat)
    requires |s.buf| == TTY_BUF
  {
    s.released <= k < |s.accepted| ==> s.buf[Slot(k)] == s.accepted[k]
  }

  predicate ProducerOk(s: State)
    requires Counts(s)
  {
    && (!s.producer.Idle? ==> s.producer.nh == RingNext(s.head) && s.producer.c == s.pressed[|s.kept|])
    && (s.producer.Roomy? || s.producer.Written? ==> |s.accepted| + 1 < s.released + TTY_BUF)
    && (s.producer.Written? ==> s.buf[s.head] == s.producer.c)
    && s.accepted == Kept(s.pressed, s.kept)
  }

  predicate ConsumerOk(s: State)
    requires Counts(s)
  {
    && (!s.consumer.Waiting? ==> s.released < |s.accepted|)
    && s.delivered == s.accepted[..if s.consumer.Copied? then s.released + 1 else s.released]
  }

  ghost predicate Inv(s: State) {
    Counts(s) && ProducerOk(s) && ConsumerOk(s) && forall k: nat :: InSlot(s, k)
  }

  // The ring is full exactly when the next head meets the tail.
  lemma FullExactly(s: State)
    requires Counts(s)
    ensures RingNext(s.head) == s.tail <==> |s.accepted| == s.released + TTY_BUF - 1
    ensures s.head == s.tail <==> |s.accepted| == s.released
  {
    var n, r := |s.accepted|, s.released;
    SlotNext(n);
    if n + 1 < r + TTY_BUF { SlotsApart(r, n + 1); } else { WrapSlot(r); }
    if r < n { SlotsApart(r, n); }
  }

  lemma WrapSlot(k: nat)
    ensures Slot(k + TTY_BUF) == Slot(k)
  {
  }

  lemma KeptMore(pressed: seq<char>, kept: seq<bool>, c: char)
    requires |kept| <= |pressed|
    ensures Kept(pressed + [c], kept) == Kept(pressed, kept)
  {
    if kept != [] { KeptMore(pressed, kept[..|kept| - 1], c); }
  }

  lemma KeptNext(pressed: seq<char>, kept: seq<bool>, b: bool)
    requires |kept| < |pressed|
    ensures Kept(pressed, kept + [b]) == Kept(pressed, kept) + if b then [pressed[|kept|]] else []
  {
    assert (kept + [b])[..|kept|] == kept;
  }

  // The producer's own steps.
  lemma ProducerStep(s: State, step: Step)
    requires Counts(s) && ProducerOk(s) && ConsumerOk(s)
    requires step.Press? || step.CheckRoom? || step.Store? || step.Publish?
    ensures var t := Next(s, step); Counts(t) && ProducerOk(t) && ConsumerOk(t)
  {
    hide Slot, RingNext, Kept;
    FullExactly(s);
    SlotNext(|s.accepted|);
    if step.Press? { KeptMore(s.pressed, s.kept, step.c); }
    if !s.producer.Idle? {
      KeptNext(s.pressed, s.kept, false);
      KeptNext(s.pressed, s.kept, true);
    }
  }

  // The reader's own steps; the next unread byte is in its slot.
  lemma ConsumerStep(s: State, step: Step)
    requires Counts(s) && ProducerOk(s) && ConsumerOk(s) && InSlot(s, s.released)
    requires step.Look? || step.Copy? || step.Release?
    ensures var t := Next(s, step); Counts(t) && ProducerOk(t) && ConsumerOk(t)
  {
    hide Slot, RingNext, Kept;
    FullExactly(s);
    SlotNext(s.released);
  }

  lemma SlotsStep(s: State, step: Step, k: nat)
    requires Counts(s) && ProducerOk(s) && InSlot(s, k)
    ensures var t := Next(s, step); |t.buf| == TTY_BUF && InSlot(t, k)
  {
    hide Slot, RingNext, Kept;
    if s.released <= k < |s.accepted| { SlotsApart(k, |s.accepted|); }
  }

  lemma StepOk(s: State, step: Step)
    requires Inv(s)
    ensures Inv(Next(s, step))
  {
    hide Next, ProducerOk, ConsumerOk, InSlot;
    if step.Look? || step.Copy? || step.Release? { ConsumerStep(s, step); } else { ProducerStep(s, step); }
    forall k: nat
      ensures InSlot(Next(s, step), k)
    {
      SlotsStep(s, step, k);
    }
  }

  lemma {:induction false} RunOk(steps: seq<Step>)
    ensures Inv(Run(START, steps))
    decreases |steps|
  {
    if steps == [] {
    } else {
      RunOk(steps[..|steps| - 1]);
      StepOk(Run(START, steps[..|steps| - 1]), steps[|steps| - 1]);
    }
  }

  // ---- What readers see ----

  // However the two sides interleave: bytes delivered are a prefix of the bytes accepted, those are the kept
  // keys in the order pressed, at most 1023 are unread, and a reader that finds nothing has received them all.
  lemma DeliveredInOrder(steps: seq<Step>)
    ensures var s := Run(START, steps);
            && s.delivered <= s.accepted
            && |s.kept| <= |s.pressed| <= |s.kept| + 1 && s.accepted == Kept(s.pressed, s.kept)
            && s.released <= |s.delivered| && |s.accepted| - s.released <= 1023
            && (s.head == s.tail ==> s.delivered == s.accepted)
  {
    RunOk(steps);
    FullExactly(Run(START, steps));
  }

  // A key is dropped by a step if and only if that step checks for room with 1023 bytes not yet released.
  lemma DroppedExactly(steps: seq<Step>, step: Step)
    ensures var s, t := Run(START, steps), Next(Run(START, steps), step);
            t.kept == s.kept + [false] <==>
            step == CheckRoom && s.producer.Fetched? && |s.accepted| - s.released == 1023
  {
    RunOk(steps);
    var s := Run(START, steps);
    FullExactly(s);
    assert s.kept + [true] != s.kept + [false] by {
      assert (s.kept + [true])[|s.kept|] != (s.kept + [false])[|s.kept|];
    }
  }

  // No step overwrites the slot of an unread byte, nor the one being copied.
  lemma UnreadKept(steps: seq<Step>, step: Step, k: nat)
    ensures var s, t := Run(START, steps), Next(Run(START, steps), step);
            s.released <= k < |s.accepted| && |s.buf| == |t.buf| == TTY_BUF ==>
              t.buf[Slot(k)] == s.buf[Slot(k)] == s.accepted[k]
                && (step == Store && s.producer.Roomy? ==> s.head != Slot(k))
  {
    RunOk(steps);
    var s := Run(START, steps);
    assert InSlot(s, k);
    if s.released <= k < |s.accepted| { SlotsApart(k, |s.accepted|); }
  }

  // ---- The ring in memory ----

  function Gap(head: nat, tail: nat): nat
    requires head < TTY_BUF && tail < TTY_BUF
  {
    if tail <= head then head - tail else head + TTY_BUF - tail
  }

  // The bytes from tail round to head.
  function Unread(buf: seq<char>, head: nat, tail: nat): (q: seq<char>)
    requires |buf| == TTY_BUF && head < TTY_BUF && tail < TTY_BUF
    ensures |q| == Gap(head, tail) < TTY_BUF
    decreases Gap(head, tail)
  {
    if tail == head then [] else [buf[tail]] + Unread(buf, head, RingNext(tail))
  }

  lemma {:induction false} UnreadSnoc(buf: seq<char>, head: nat, tail: nat, c: char)
    requires |buf| == TTY_BUF && head < TTY_BUF && tail < TTY_BUF && RingNext(head) != tail
    ensures Unread(buf[head := c], RingNext(head), tail) == Unread(buf, head, tail) + [c]
    decreases Gap(head, tail)
  {
    if tail == head {
      assert Unread(buf[head := c], RingNext(head), RingNext(head)) == [];
    } else {
      assert RingNext(head) != RingNext(tail);
      UnreadSnoc(buf, head, RingNext(tail), c);
    }
  }

  // In every reachable state the ring holds exactly the bytes accepted and not yet released.
  lemma {:induction false} UnreadIs(s: State, k: nat)
    requires Inv(s) && s.released <= k <= |s.accepted|
    ensures Unread(s.buf, s.head, Slot(k)) == s.accepted[k..]
    decreases |s.accepted| - k
  {
    if k < |s.accepted| {
      SlotNext(k);
      SlotsApart(k, |s.accepted|);
      assert InSlot(s, k);
      UnreadIs(s, k + 1);
    }
  }

  function Queue(s: State): seq<char>
    requires Counts(s)
  {
    Unread(s.buf, s.head, s.tail)
  }

  // The steps of one key, run without a break, do what the handler as a whole does.
  lemma PutcSteps(s: State, c: char)
    requires Inv(s) && s.producer.Idle?
    ensures var t := Next(Next(Next(Next(s, Press(c)), CheckRoom), Store), Publish);
            && Inv(t) && t.producer.Idle?
            && Queue(t) == if |Queue(s)| == 1023 then Queue(s) else Queue(s) + [c]
  {
    hide Unread, Inv;
    var s1 := Next(s, Press(c));
    var s2 := Next(s1, CheckRoom);
    var s3 := Next(s2, Store);
    var t := Next(s3, Publish);
    StepOk(s, Press(c));
    StepOk(s1, CheckRoom);
    StepOk(s2, Store);
    StepOk(s3, Publish);
    InvCounts(s);
    InvCounts(t);
    FullExactly(s);
    UnreadIs(s, s.released);
    UnreadIs(t, t.released);
  }

  lemma InvCounts(s: State)
    requires Inv(s)
    ensures Counts(s)
  {
  }

  class Tty {
    const inbuf: array<char>
    var inHead: nat
    var inTail: nat

    ghost predicate Valid()
      reads this
    {
      inbuf.Length == TTY_BUF && inHead < TTY_BUF && inTail < TTY_BUF
    }

    ghost function Bytes(): seq<char>
      requires Valid()
      reads this, inbuf
    {
      Unread(inbuf[..], inHead, inTail)
    }

    constructor ()
      ensures Valid() && Bytes() == [] && fresh(inbuf)
    {
      inbuf := new char[TTY_BUF](_ => '\0');
      inHead, inTail := 0, 0;
    }

    // tty_kbd_putc
    method KbdPutc(c: char)
      requires Valid()
      modifies this`inHead, inbuf
      ensures Valid()
      ensures Bytes() == if |old(Bytes())| == 1023 then old(Bytes()) else old(Bytes()) + [c]
    {
      var nh := RingNext(inHead);
      if nh == inTail { return; }
      UnreadSnoc(inbuf[..], inHead, inTail, c);
      inbuf[inHead] := c;
      inHead := nh;
    }

    // tty_read: the oldest bytes, at most count and without waiting.
    method Read(buf: array<char>, count: nat) returns (r: nat)
      requires Valid() && count <= buf.Length && buf != inbuf
      modifies this`inTail, buf
      ensures Valid() && r == (if count < |old(Bytes())| then count else |old(Bytes())|)
      ensures buf[..r] == old(Bytes())[..r] && Bytes() == old(Bytes())[r..]
      ensures buf[r..] == old(buf[r..])
    {
      r := 0;
      ghost var all := Bytes();
      while r < count && inTail != inHead
        invariant Valid() && 0 <= r <= count && r <= |all|
        invariant buf[..r] == all[..r] && Bytes() == all[r..] && buf[r..] == old(buf[..])[r..]
        decreases count - r
      {
        assert Bytes()[0] == all[r];
        ghost var done := buf[..r];
        buf[r] := inbuf[inTail];
        assert buf[..r + 1] == done + [all[r]];
        inTail := RingNext(inTail);
        r := r + 1;
      }
    }
  }
}
