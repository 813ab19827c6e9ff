/** The keyboard ring of sys/kernel/drivers/keyboard.c, with the interrupt handler pushing between any
  * two steps of the one reader. */
module KeyboardRing {
  import opened Prelude

  const KBD_BUFFER_SIZE: nat := 256

  datatype Kbd = Kbd(buffer: seq<byte>, head: nat, tail: nat)

  predicate Sane(k: Kbd) {
    |k.buffer| == KBD_BUFFER_SIZE && k.head < KBD_BUFFER_SIZE && k.tail < KBD_BUFFER_SIZE
  }

  /** How many characters lie between tail and head. */
  function Count(k: Kbd): nat
    requires Sane(k)
  {
    if k.head >= k.tail then k.head - k.tail else k.head + KBD_BUFFER_SIZE - k.tail
  }

  function Place(k: Kbd, i: nat): (p: nat)
    ensures p < KBD_BUFFER_SIZE
  {
    (k.tail + i) % KBD_BUFFER_SIZE
  }

  /** The characters waiting, oldest first. */
  function Waiting(k: Kbd): (q: seq<byte>)
    requires Sane(k)
    ensures |q| == Count(k)
  {
    seq(Count(k), i requires 0 <= i < Count(k) => k.buffer[Place(k, i)])
  }

  /** There is room unless head would run into tail. */
  predicate Accepts(k: Kbd)
    requires Sane(k)
  {
    (k.head + 1) % KBD_BUFFER_SIZE != k.tail
  }

  function Push(k: Kbd, c: byte): (k': Kbd)
    requires Sane(k)
    ensures Sane(k')
  {
    if Accepts(k) then k.(buffer := k.buffer[k.head := c], head := (k.head + 1) % KBD_BUFFER_SIZE) else k
  }

  function Advance(k: Kbd): (k': Kbd)
    requires Sane(k)
    ensures Sane(k')
  {
    k.(tail := (k.tail + 1) % KBD_BUFFER_SIZE)
  }

  lemma PushAppends(k: Kbd, c: byte)
    requires Sane(k)
    ensures Accepts(k) <==> |Waiting(k)| < 255
    ensures Waiting(Push(k, c)) == if Accepts(k) then Waiting(k) + [c] else Waiting(k)
  {
    if Accepts(k) {
      var q, r := Waiting(k) + [c], Waiting(Push(k, c));
      forall i | 0 <= i < |q| ensures r[i] == q[i] {
        assert Place(Push(k, c), i) == Place(k, i);
      }
    }
  }

  lemma AdvanceDrops(k: Kbd)
    requires Sane(k) && k.head != k.tail
    ensures Waiting(k) == [k.buffer[k.tail]] + Waiting(Advance(k))
  {
    var q, r := Waiting(k), Waiting(Advance(k));
    forall i | 0 <= i < |r| ensures r[i] == q[i + 1] {
      assert Place(Advance(k), i) == Place(k, i + 1);
    }
  }

  // ----- The reader, step by step

  /** Where keyboard_getc stands: before the test, after it found a character, after it read it. */
  datatype Phase = Testing | Found | Holding(c: byte)

  /** `accepted` are the characters the interrupt handler could store, `returned` those getc returned. */
  datatype Sys = Sys(kbd: Kbd, phase: Phase, accepted: seq<byte>, returned: seq<byte>)

  /** One interrupt, or one step of the reader. */
  datatype Event = Interrupt(c: byte) | Reader

  function Step(s: Sys, e: Event): (s': Sys)
    requires Sane(s.kbd)
    ensures Sane(s'.kbd)
  {
    match e
    case Interrupt(c) =>
      s.(kbd := Push(s.kbd, c), accepted := if Accepts(s.kbd) then s.accepted + [c] else s.accepted)
    case Reader =>
      match s.phase
      case Testing => if s.kbd.head != s.kbd.tail then s.(phase := Found) else s
      case Found => s.(phase := Holding(s.kbd.buffer[s.kbd.tail]))
      case Holding(c) => s.(kbd := Advance(s.kbd), phase := Testing, returned := s.returned + [c])
  }

  function Run(s: Sys, es: seq<Event>): (s': Sys)
    requires Sane(s.kbd)
    ensures Sane(s'.kbd)
    decreases |es|
  {
    if es == [] then s else Run(Step(s, es[0]), es[1..])
  }

  function Boot(): Sys {
    Sys(Kbd(seq(KBD_BUFFER_SIZE, _ => 0), 0, 0), Testing, [], [])
  }

  /** Nothing is lost, reordered or invented; a reader past its test still has its character. */
  predicate Inv(s: Sys) {
    && Sane(s.kbd)
    && s.accepted == s.returned + Waiting(s.kbd)
    && (s.phase != Testing ==> s.kbd.head != s.kbd.tail)
    && (s.phase.Holding? ==> s.phase.c == s.kbd.buffer[s.kbd.tail])
  }

  lemma StepInv(s: Sys, e: Event)
    requires Inv(s)
    ensures Inv(Step(s, e))
  {
    match e {
      case Interrupt(c) => PushAppends(s.kbd, c);
      case Reader => if s.phase != Testing { AdvanceDrops(s.kbd); }
    }
  }

  /** Under any interleaving the characters returned are the accepted ones in order, and those still
    * waiting are at most 255. */
  lemma {:induction false} NothingLost(s: Sys, es: seq<Event>)
    requires Inv(s)
    ensures var t := Run(s, es);
      Inv(t) && t.accepted == t.returned + Waiting(t.kbd) && |Waiting(t.kbd)| <= 255
    decreases |es|
  {
    if es != [] {
      StepInv(s, es[0]);
      NothingLost(Step(s, es[0]), es[1..]);
    }
  }

  lemma BootInv()
    ensures Inv(Boot())
  {
  }

  /** From boot on, nothing accepted is lost: what getc returned comes first, then what waits. */
  lemma NothingLostFromBoot(es: seq<Event>)
    ensures var t := Run(Boot(), es); t.accepted == t.returned + Waiting(t.kbd) && |Waiting(t.kbd)| <= 255
  {
    BootInv();
    NothingLost(Boot(), es);
  }

  predicate OnlyInterrupts(es: seq<Event>) {
    forall i :: 0 <= i < |es| ==> es[i].Interrupt?
  }

  /** Once the reader has found a character, no number of interrupts overwrites it before it is taken. */
  lemma {:induction false} FoundIsSafe(s: Sys, es: seq<Event>)
    requires Inv(s) && s.phase != Testing && OnlyInterrupts(es)
    ensures var t := Run(s, es);
      t.kbd.tail == s.kbd.tail && t.kbd.buffer[t.kbd.tail] == s.kbd.buffer[s.kbd.tail] && t.phase == s.phase
    decreases |es|
  {
    if es != [] {
      StepInv(s, es[0]);
      FoundIsSafe(Step(s, es[0]), es[1..]);
    }
  }

  lemma {:induction false} InterruptsAdd(s: Sys, es: seq<Event>)
    requires Inv(s) && OnlyInterrupts(es)
    ensures var t := Run(s, es);
      && Inv(t) && t.returned == s.returned && t.phase == s.phase
      && |Waiting(t.kbd)| >= |Waiting(s.kbd)| && Waiting(t.kbd)[..|Waiting(s.kbd)|] == Waiting(s.kbd)
    decreases |es|
  {
    if es == [] {
      assert Waiting(s.kbd)[..|Waiting(s.kbd)|] == Waiting(s.kbd);
    } else {
      var s', n := Step(s, es[0]), |Waiting(s.kbd)|;
      StepInv(s, es[0]);
      PushAppends(s.kbd, es[0].c);
      InterruptsAdd(s', es[1..]);
      var w := Waiting(Run(s, es).kbd);
      assert w[..n] == w[..|Waiting(s'.kbd)|][..n];
    }
  }

  /** keyboard_getc returns: from its test on a ring that is not empty, three steps of the reader with any
    * interrupts in between deliver the character that has waited longest, and that only. */
  lemma GetcReturnsOldest(s: Sys, e1: seq<Event>, e2: seq<Event>)
    requires Inv(s) && s.phase == Testing && Waiting(s.kbd) != [] && OnlyInterrupts(e1) && OnlyInterrupts(e2)
    ensures var t := Step(Run(Step(Run(Step(s, Reader), e1), Reader), e2), Reader);
      t.phase == Testing && t.returned == s.returned + [Waiting(s.kbd)[0]]
  {
    var s1 := Step(s, Reader);
    StepInv(s, Reader);
    InterruptsAdd(s1, e1);
    var s2 := Run(s1, e1);
    AdvanceDrops(s2.kbd);
    assert Waiting(s2.kbd)[..|Waiting(s1.kbd)|][0] == Waiting(s1.kbd)[0];
    var s3 := Step(s2, Reader);
    StepInv(s2, Reader);
    InterruptsAdd(s3, e2);
  }

  /** While the ring is empty the reader goes on testing. */
  lemma GetcWaits(s: Sys)
    requires Inv(s) && s.phase == Testing && Waiting(s.kbd) == []
    ensures Step(s, Reader) == s
  {
  }

  // ----- The code

  class Keyboard {
    const buffer: array<byte>
    var head: nat
    var tail: nat

    ghost predicate Valid()
      reads this, buffer
    {
      Sane(View())
    }

    ghost function View(): Kbd
      reads this, buffer
    {
      Kbd(buffer[..], head, tail)
    }

    constructor ()
      ensures Valid() && View() == Boot().kbd && fresh(buffer)
    {
      buffer := new byte[KBD_BUFFER_SIZE](_ => 0);
      head, tail := 0, 0;
      new;
      assert buffer[..] == seq(KBD_BUFFER_SIZE, _ => 0);
    }

    /** kbd_push, called from the interrupt handler. */
    method KbdPush(c: byte)
      requires Valid()
      modifies this, buffer
      ensures Valid() && View() == Push(old(View()), c)
    {
      var next := (head + 1) % KBD_BUFFER_SIZE;
      if next != tail {
        buffer[head] := c;
        head := next;
      }
    }

    /** The three steps of one round of keyboard_getc; interrupts may come between them. */
    method Test() returns (found: bool)
      requires Valid()
      ensures found <==> Waiting(View()) != []
    {
      found := head != tail;
    }

    method Fetch() returns (c: byte)
      requires Valid() && Waiting(View()) != []
      ensures c == Waiting(View())[0]
    {
      c := buffer[tail];
    }

    method Release()
      requires Valid() && Waiting(View()) != []
      modifies this`tail
      ensures Valid() && View() == Advance(old(View())) && Waiting(View()) == old(Waiting(View()))[1..]
    {
      AdvanceDrops(View());
      tail := (tail + 1) % KBD_BUFFER_SIZE;
    }
  }
}
