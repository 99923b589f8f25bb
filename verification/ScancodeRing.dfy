/**
 The scancode queue (kernel/src/arch/x86_64/idt.rs): one producer in the keyboard interrupt and one consumer, as
 interleaved loads and stores of the shared variables.
 */
module ScancodeRing {
  import opened Prelude

  /** How far a `push` has come, with its local variables. */
  datatype Producer =
    | Quiet
    | HeadLoaded(value: Byte, head: Byte)    // next load: tail
    | RoomSeen(value: Byte, head: Byte)      // next store: the slot
    | SlotWritten(value: Byte, head: Byte)   // next store: head

  /** How far a `pop` has come. */
  datatype Consumer =
    | Resting
    | TailLoaded(tail: Byte)                 // next load: head
    | DataSeen(tail: Byte)                   // next load: the slot
    | SlotRead(tail: Byte, value: Byte)      // next store: tail

  /** `wrapping_add(1)` on u8. */
  function Wrap(n: Byte): Byte {
    (n + 1) % 256
  }

  lemma WrapFollows(n: nat)
    ensures Wrap(n % 256) == (n + 1) % 256
  {
  }

  /** Fewer than 256 positions apart, two positions have different slots. */
  lemma SlotsDiffer(k: nat, n: nat)
    requires k < n < k + 256
    ensures k % 256 != n % 256
  {
  }

  ghost predicate InSlot(slots: seq<Byte>, accepted: seq<Byte>, k: nat)
    requires |slots| == 256 && k < |accepted|
  {
    slots[k % 256] == accepted[k]
  }

  /** Every accepted byte from the `from`-th on is in its slot. */
  ghost predicate Waiting(slots: seq<Byte>, accepted: seq<Byte>, from: nat)
    requires |slots| == 256
  {
    forall k :: from <= k < |accepted| ==> InSlot(slots, accepted, k)
  }

  /** The producer's slot is none of the unread ones, and filling it makes the byte ready to be accepted. */
  lemma WriteKeepsWaiting(slots: seq<Byte>, accepted: seq<Byte>, from: nat, value: Byte)
    requires |slots| == 256 && Waiting(slots, accepted, from) && from <= |accepted| < from + 255
    ensures Waiting(slots[|accepted| % 256 := value], accepted, from)
  {
    var slots' := slots[|accepted| % 256 := value];
    forall k | from <= k < |accepted| ensures InSlot(slots', accepted, k) {
      assert InSlot(slots, accepted, k);
      SlotsDiffer(k, |accepted|);
    }
  }

  lemma AcceptKeepsWaiting(slots: seq<Byte>, accepted: seq<Byte>, from: nat, value: Byte)
    requires |slots| == 256 && Waiting(slots, accepted, from) && slots[|accepted| % 256] == value
    ensures Waiting(slots, accepted + [value], from)
  {
    var accepted' := accepted + [value];
    forall k | from <= k < |accepted'| ensures InSlot(slots, accepted', k) {
      assert k < |accepted| ==> InSlot(slots, accepted, k);
    }
  }

  /** What both sides have done so far. */
  datatype Snapshot = Snapshot(accepted: seq<Byte>, popped: seq<Byte>, producer: Producer, consumer: Consumer)

  predicate Full(s: Snapshot) {
    |s.accepted| == |s.popped| + 255
  }

  /** A step of the producer brings its push on by one: it gives up when the ring is full, else it goes through. */
  ghost predicate ProducerMoves(s: Snapshot, value: Byte, s': Snapshot) {
    && s'.popped == s.popped && s'.consumer == s.consumer
    && match s.producer
       case Quiet => s'.producer.HeadLoaded? && s'.producer.value == value && s'.accepted == s.accepted
       case HeadLoaded(v, _) =>
         && s'.accepted == s.accepted
         && if Full(s) then s'.producer.Quiet? else s'.producer.RoomSeen? && s'.producer.value == v
       case RoomSeen(v, _) => s'.producer.SlotWritten? && s'.producer.value == v && s'.accepted == s.accepted
       case SlotWritten(v, _) => s'.producer.Quiet? && s'.accepted == s.accepted + [v]
  }

  /** A step of the consumer likewise: it gives up when nothing is waiting, and else takes the oldest byte. */
  ghost predicate ConsumerMoves(s: Snapshot, s': Snapshot) {
    && s'.accepted == s.accepted && s'.producer == s.producer
    && match s.consumer
       case Resting => s'.consumer.TailLoaded? && s'.popped == s.popped
       case TailLoaded(_) =>
         && s'.popped == s.popped
         && if s.accepted == s.popped then s'.consumer.Resting? else s'.consumer.DataSeen?
       case DataSeen(_) => s'.consumer.SlotRead? && s'.popped == s.popped
       case SlotRead(_, _) =>
         && s'.consumer.Resting?
         && |s.popped| < |s.accepted| && s'.popped == s.popped + [s.accepted[|s.popped|]]
  }

  class ScancodeQueue {
    const buffer: array<Byte>
    var head: Byte
    var tail: Byte
    var producer: Producer
    var consumer: Consumer
    /** The bytes whose push has stored its new head. */
    ghost var accepted: seq<Byte>
    /** The bytes whose pop has stored its new tail. */
    ghost var popped: seq<Byte>

    constructor ()
      ensures Valid() && fresh(buffer) && accepted == [] && popped == [] && producer.Quiet? && consumer.Resting?
    {
      buffer := new Byte[256](i => 0);
      head, tail, producer, consumer := 0, 0, Quiet, Resting;
      accepted, popped := [], [];
    }

    /**
     The popped bytes are the first of the accepted ones, at most 255 are waiting, and each waiting byte is still in its
     slot. What either side has seen stays true whatever the other does meanwhile.
     */
    ghost predicate Valid()
      reads this, buffer
    {
      && buffer.Length == 256
      && popped <= accepted && |accepted| <= |popped| + 255
      && head == |accepted| % 256 && tail == |popped| % 256
      && Waiting(buffer[..], accepted, |popped|)
      && ProducerKnows() && ConsumerKnows()
    }

    ghost predicate ProducerKnows()
      requires buffer.Length == 256
      reads this, buffer
    {
      match producer
      case Quiet => true
      case HeadLoaded(_, h) => h == head
      case RoomSeen(_, h) => h == head && |accepted| < |popped| + 255
      case SlotWritten(v, h) => h == head && |accepted| < |popped| + 255 && buffer[h] == v
    }

    ghost predicate ConsumerKnows()
      reads this, buffer
    {
      match consumer
      case Resting => true
      case TailLoaded(t) => t == tail
      case DataSeen(t) => t == tail && |popped| < |accepted|
      case SlotRead(t, v) => t == tail && |popped| < |accepted| && v == accepted[|popped|]
    }

    ghost function Now(): Snapshot
      reads this
    {
      Snapshot(accepted, popped, producer, consumer)
    }

    /** One load or store of `push`. A byte is dropped only while 255 bytes are waiting. */
    method ProducerStep(value: Byte)
      requires Valid()
      modifies this`head, this`producer, this`accepted, buffer
      ensures Valid()
      ensures accepted == if old(producer).SlotWritten? then old(accepted) + [old(producer).value] else old(accepted)
      ensures ProducerMoves(old(Now()), value, Now())
    {
      hide Waiting, Wrap;
      match producer {
        case Quiet =>
          producer := HeadLoaded(value, head);
        case HeadLoaded(v, h) =>
          var next := Wrap(h);
          WrapFollows(|accepted|);
          if next == tail {
            FullWhenNextIsTail(|accepted|, |popped|);
            producer := Quiet;
          } else {
            RoomWhenNextIsNotTail(|accepted|, |popped|);
            producer := RoomSeen(v, h);
          }
        case RoomSeen(v, h) =>
          WriteKeepsWaiting(buffer[..], accepted, |popped|, v);
          buffer[h] := v;
          assert buffer[..] == old(buffer[..])[h := v];
          producer := SlotWritten(v, h);
        case SlotWritten(v, h) =>
          WrapFollows(|accepted|);
          AcceptKeepsWaiting(buffer[..], accepted, |popped|, v);
          head, producer, accepted := Wrap(h), Quiet, accepted + [v];
      }
    }

    /** One load or store of `pop`. It gives up only while nothing is waiting, and yields the oldest waiting byte. */
    method ConsumerStep() returns (r: Option<Byte>)
      requires Valid()
      modifies this`tail, this`consumer, this`popped
      ensures Valid()
      ensures r == if old(consumer).SlotRead? then Some(accepted[|old(popped)|]) else None
      ensures popped == if r.Some? then old(popped) + [r.value] else old(popped)
      ensures ConsumerMoves(old(Now()), Now())
    {
      hide Wrap;
      r := None;
      match consumer {
        case Resting =>
          consumer := TailLoaded(tail);
        case TailLoaded(t) =>
          if t == head {
            EmptyWhenEqual(|accepted|, |popped|);
            consumer := Resting;
          } else {
            consumer := DataSeen(t);
          }
        case DataSeen(t) =>
          assert InSlot(buffer[..], accepted, |popped|);
          consumer := SlotRead(t, buffer[t]);
        case SlotRead(t, v) =>
          WrapFollows(|popped|);
          tail, consumer, popped := Wrap(t), Resting, popped + [v];
          r := Some(v);
      }
    }
  }

  lemma FullWhenNextIsTail(accepted: nat, popped: nat)
    requires popped <= accepted <= popped + 255 && (accepted + 1) % 256 == popped % 256
    ensures accepted == popped + 255
  {
  }

  lemma RoomWhenNextIsNotTail(accepted: nat, popped: nat)
    requires popped <= accepted <= popped + 255 && (accepted + 1) % 256 != popped % 256
    ensures accepted < popped + 255
  {
  }

  lemma EmptyWhenEqual(accepted: nat, popped: nat)
    requires popped <= accepted <= popped + 255 && accepted % 256 == popped % 256
    ensures accepted == popped
  {
  }

  datatype Turn = Produce(value: Byte) | Consume

  ghost predicate Moves(s: Snapshot, turn: Turn, s': Snapshot) {
    match turn
    case Produce(value) => ProducerMoves(s, value, s')
    case Consume => ConsumerMoves(s, s')
  }

  /** The snapshots between the turns of a schedule. */
  ghost predicate IsTrace(trace: seq<Snapshot>, schedule: seq<Turn>) {
    && |trace| == |schedule| + 1
    && forall k :: 0 <= k < |schedule| ==> Moves(trace[k], schedule[k], trace[k + 1])
  }

  /**
   Any interleaving of the two: every byte handed out is the next accepted byte, in order, and what has been
   accepted but not handed out never exceeds 255. Every turn brings its push or its pop on by one step.
   */
  method Interleave(queue: ScancodeQueue, schedule: seq<Turn>) returns (out: seq<Byte>, ghost trace: seq<Snapshot>)
    requires queue.Valid()
    modifies queue, queue.buffer
    ensures queue.Valid()
    ensures old(queue.accepted) <= queue.accepted && queue.popped == old(queue.popped) + out
    ensures queue.accepted[..|queue.popped|] == old(queue.popped) + out
    ensures |queue.accepted| - |queue.popped| <= 255
    ensures IsTrace(trace, schedule) && trace[0] == old(queue.Now()) && trace[|schedule|] == queue.Now()
  {
    hide Moves, ProducerMoves, ConsumerMoves;
    out, trace := [], [queue.Now()];
    for i := 0 to |schedule|
      invariant queue.Valid()
      invariant old(queue.accepted) <= queue.accepted && queue.popped == old(queue.popped) + out
      invariant IsTrace(trace, schedule[..i]) && trace[0] == old(queue.Now()) && trace[i] == queue.Now()
    {
      match schedule[i] {
        case Produce(value) =>
          queue.ProducerStep(value);
        case Consume =>
          var r := queue.ConsumerStep();
          if r.Some? {
            out := out + [r.value];
          }
      }
      LongerTrace(trace, schedule, i, queue.Now());
      trace := trace + [queue.Now()];
    }
    assert schedule[..|schedule|] == schedule;
  }

  lemma LongerTrace(trace: seq<Snapshot>, schedule: seq<Turn>, i: nat, s: Snapshot)
    requires i < |schedule| && IsTrace(trace, schedule[..i])
    requires match schedule[i]
             case Produce(value) => ProducerMoves(trace[i], value, s)
             case Consume => ConsumerMoves(trace[i], s)
    ensures IsTrace(trace + [s], schedule[..i + 1])
  {
    hide ProducerMoves, ConsumerMoves;
    forall k | 0 <= k < i ensures Moves(trace[k], schedule[k], trace[k + 1]) {
      assert schedule[..i][k] == schedule[k];
    }
  }

  // A whole push, and a whole pop, whatever the other side does in between.

  /** The turns strictly between two of one side are all the other side's. */
  predicate OnlyConsumes(schedule: seq<Turn>, from: nat, to: nat) {
    to <= |schedule| && forall k :: from < k < to ==> schedule[k].Consume?
  }

  predicate OnlyProduces(schedule: seq<Turn>, from: nat, to: nat) {
    to <= |schedule| && forall k :: from < k < to ==> schedule[k].Produce?
  }

  lemma {:induction false} ProducerWaits(trace: seq<Snapshot>, schedule: seq<Turn>, from: nat, to: nat)
    requires IsTrace(trace, schedule) && from < to && OnlyConsumes(schedule, from, to)
    ensures trace[to].producer == trace[from + 1].producer && trace[to].accepted == trace[from + 1].accepted
  {
    if from + 1 < to {
      ProducerWaits(trace, schedule, from, to - 1);
      assert Moves(trace[to - 1], schedule[to - 1], trace[to]);
    }
  }

  lemma {:induction false} ConsumerWaits(trace: seq<Snapshot>, schedule: seq<Turn>, from: nat, to: nat)
    requires IsTrace(trace, schedule) && from < to && OnlyProduces(schedule, from, to)
    ensures trace[to].consumer == trace[from + 1].consumer && trace[to].popped == trace[from + 1].popped
    ensures trace[from + 1].accepted <= trace[to].accepted
  {
    if from + 1 < to {
      ConsumerWaits(trace, schedule, from, to - 1);
      assert Moves(trace[to - 1], schedule[to - 1], trace[to]);
    }
  }

  /**
   A push takes two turns of the producer and drops its byte when 255 bytes are waiting at the second, where it loads
   tail; in any other case it takes four turns, and its byte is accepted at the last.
   */
  lemma PushGoesThrough(trace: seq<Snapshot>, schedule: seq<Turn>, t0: nat, t1: nat, t2: nat, t3: nat)
    requires IsTrace(trace, schedule) && t0 < t1 < t2 < t3 < |schedule| && trace[t0].producer.Quiet?
    requires schedule[t0].Produce? && schedule[t1].Produce? && schedule[t2].Produce? && schedule[t3].Produce?
    requires OnlyConsumes(schedule, t0, t1) && OnlyConsumes(schedule, t1, t2) && OnlyConsumes(schedule, t2, t3)
    ensures if Full(trace[t1]) then trace[t1 + 1].producer.Quiet? && trace[t1 + 1].accepted == trace[t0].accepted
            else
              && !trace[t1 + 1].producer.Quiet? && !trace[t2 + 1].producer.Quiet? && trace[t3 + 1].producer.Quiet?
              && trace[t3].accepted == trace[t0].accepted
              && trace[t3 + 1].accepted == trace[t0].accepted + [schedule[t0].value]
  {
    ProducerWaits(trace, schedule, t0, t1);
    ProducerWaits(trace, schedule, t1, t2);
    ProducerWaits(trace, schedule, t2, t3);
    assert Moves(trace[t0], schedule[t0], trace[t0 + 1]) && Moves(trace[t1], schedule[t1], trace[t1 + 1]);
    assert Moves(trace[t2], schedule[t2], trace[t2 + 1]) && Moves(trace[t3], schedule[t3], trace[t3 + 1]);
  }

  /**
   A pop takes two turns of the consumer and yields nothing when nothing is waiting at the second, where it loads head;
   in any other case it takes four turns and yields at the last the byte that was the oldest when it began, if one was
   waiting then.
   */
  lemma PopGoesThrough(trace: seq<Snapshot>, schedule: seq<Turn>, t0: nat, t1: nat, t2: nat, t3: nat)
    requires IsTrace(trace, schedule) && t0 < t1 < t2 < t3 < |schedule| && trace[t0].consumer.Resting?
    requires schedule[t0].Consume? && schedule[t1].Consume? && schedule[t2].Consume? && schedule[t3].Consume?
    requires OnlyProduces(schedule, t0, t1) && OnlyProduces(schedule, t1, t2) && OnlyProduces(schedule, t2, t3)
    requires trace[t0].popped <= trace[t0].accepted
    ensures if trace[t1].accepted == trace[t1].popped then
              trace[t1 + 1].consumer.Resting? && trace[t1 + 1].popped == trace[t0].popped == trace[t0].accepted
            else
              && !trace[t1 + 1].consumer.Resting? && !trace[t2 + 1].consumer.Resting? && trace[t3 + 1].consumer.Resting?
              && trace[t3].popped == trace[t0].popped && |trace[t0].popped| < |trace[t1].accepted|
              && trace[t3 + 1].popped == trace[t0].popped + [trace[t1].accepted[|trace[t0].popped|]]
    ensures trace[t0].popped < trace[t0].accepted ==>
              trace[t3 + 1].popped == trace[t0].popped + [trace[t0].accepted[|trace[t0].popped|]]
  {
    assert Moves(trace[t0], schedule[t0], trace[t0 + 1]) && Moves(trace[t1], schedule[t1], trace[t1 + 1]);
    assert Moves(trace[t2], schedule[t2], trace[t2 + 1]) && Moves(trace[t3], schedule[t3], trace[t3 + 1]);
    ConsumerWaits(trace, schedule, t0, t1);
    ConsumerWaits(trace, schedule, t1, t2);
    ConsumerWaits(trace, schedule, t2, t3);
  }
}
