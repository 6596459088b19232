/** The keyboard ring buffer of pelikanOS/src/keyboard.c: the interrupt handler puts bytes in, one
    consumer takes them out, and interrupts may arrive between the consumer's emptiness test and
    its critical section. */
module Keyboard {
  import opened Wrappers

  const RINGBUF_SIZE: nat := 256

  /** RB */
  datatype Ring = Ring(data: seq<byte>, head: nat, tail: nat, len: nat)

  ghost predicate Sound(r: Ring) {
    |r.data| == RINGBUF_SIZE && r.tail < RINGBUF_SIZE && r.len <= RINGBUF_SIZE &&
    r.head == (r.tail + r.len) % RINGBUF_SIZE
  }

  /** The index `k` places behind the tail. */
  function Wrap(r: Ring, k: nat): nat { (r.tail + k) % RINGBUF_SIZE }

  /** The stored bytes, oldest first. */
  ghost function Stored(r: Ring): seq<byte>
    requires Sound(r)
  {
    seq(r.len, k requires k >= 0 => r.data[Wrap(r, k)])
  }

  /** ringbuf_push: a full buffer drops the byte. */
  function Push(r: Ring, b: byte): Ring
    requires r.head < |r.data|
  {
    if r.len == RINGBUF_SIZE then r
    else Ring(r.data[r.head := b], (r.head + 1) % RINGBUF_SIZE, r.tail, r.len + 1)
  }

  /** The critical section of ringbuf_pop: it does not test again, and the unsigned length would
      wrap around. */
  function Take(r: Ring): (byte, Ring)
    requires r.tail < |r.data|
  {
    (r.data[r.tail], Ring(r.data, r.head, (r.tail + 1) % RINGBUF_SIZE, (r.len + 0xFFFF_FFFF) % 0x1_0000_0000))
  }

  lemma PushStores(r: Ring, b: byte)
    requires Sound(r)
    ensures Sound(Push(r, b))
    ensures Stored(Push(r, b)) == if r.len == RINGBUF_SIZE then Stored(r) else Stored(r) + [b]
  {
    if r.len < RINGBUF_SIZE {
      var q := Push(r, b);
      forall k | 0 <= k < r.len ensures q.data[Wrap(r, k)] == r.data[Wrap(r, k)] {
        assert Wrap(r, k) != r.head;
      }
    }
  }

  lemma HeadAndRest(a: seq<byte>, b: seq<byte>)
    requires |a| == |b| + 1 && forall k :: 0 <= k < |b| ==> a[k + 1] == b[k]
    ensures a == [a[0]] + b
  {
  }

  lemma WrapShift(t: nat, k: nat)
    ensures ((t + 1) % RINGBUF_SIZE + k) % RINGBUF_SIZE == (t + (k + 1)) % RINGBUF_SIZE
  {
  }

  /** Taking a byte moves every other one a place nearer. */
  lemma TakeShifts(r: Ring)
    requires Sound(r) && r.len > 0
    ensures var q := Take(r).1;
            Sound(q) && q.len == r.len - 1 && forall k :: 0 <= k < q.len ==> Stored(r)[k + 1] == Stored(q)[k]
  {
    var q := Take(r).1;
    assert q.len == r.len - 1;
    WrapShift(r.tail, q.len);
    forall k | 0 <= k < q.len ensures Stored(r)[k + 1] == Stored(q)[k] {
      WrapShift(r.tail, k);
      assert Wrap(q, k) == Wrap(r, k + 1);
    }
  }

  lemma TakeRemovesOldest(r: Ring)
    requires Sound(r) && r.len > 0
    ensures Sound(Take(r).1)
    ensures Stored(r) == [Take(r).0] + Stored(Take(r).1)
  {
    var q := Take(r).1;
    TakeShifts(r);
    assert |Stored(r)| == r.len && |Stored(q)| == q.len && Stored(r)[0] == Take(r).0;
    hide *;
    HeadAndRest(Stored(r), Stored(q));
  }

  // ----- scancodes -----

  /** scancode_to_ascii, eight scancodes a row; from 59 on they are 0. */
  function AsciiRow(row: nat): (r: seq<byte>)
    ensures |r| == 8
  {
    if row == 0 then [0, 0, 49, 50, 51, 52, 53, 54]
    else if row == 1 then [55, 56, 57, 48, 45, 61, 8, 0]
    else if row == 2 then [113, 119, 101, 114, 116, 121, 117, 105]
    else if row == 3 then [111, 112, 91, 93, 10, 0, 97, 115]
    else if row == 4 then [100, 102, 103, 104, 106, 107, 108, 59]
    else if row == 5 then [39, 96, 0, 92, 122, 120, 99, 118]
    else if row == 6 then [98, 110, 109, 44, 46, 47, 0, 0]
    else if row == 7 then [0, 32, 0, 0, 0, 0, 0, 0]
    else [0, 0, 0, 0, 0, 0, 0, 0]
  }

  /** The byte a scancode stands for; 0 for releases and unmapped keys. */
  function Key(scancode: byte): byte {
    if scancode >= 0x80 then 0 else AsciiRow(scancode / 8)[scancode % 8]
  }

  lemma UpperRows(c: byte)
    ensures 0x02 <= c < 0x0E ==> Key(c) == "1234567890-="[c - 0x02] as int
    ensures 0x10 <= c < 0x1C ==> Key(c) == "qwertyuiop[]"[c - 0x10] as int
  {
  }

  lemma LowerRows(c: byte)
    ensures 0x1E <= c < 0x2A ==> Key(c) == "asdfghjkl;'`"[c - 0x1E] as int
    ensures 0x2B <= c < 0x36 ==> Key(c) == "\\zxcvbnm,./"[c - 0x2B] as int
  {
  }

  lemma OtherKeys(c: byte)
    ensures c == 0x0E ==> Key(c) == 8
    ensures c == 0x1C ==> Key(c) == '\n' as int
    ensures c == 0x39 ==> Key(c) == ' ' as int
    ensures c < 0x02 || c in {0x0F, 0x1D, 0x2A} || 0x36 <= c < 0x39 || c > 0x39 ==> Key(c) == 0
  {
  }

  /** What the keys type: four rows of characters, backspace, enter and space.  Every other scancode,
      and every release of a key, types nothing. */
  lemma KeyLayout(c: byte)
    ensures 0x02 <= c < 0x0E ==> Key(c) == "1234567890-="[c - 0x02] as int
    ensures 0x10 <= c < 0x1C ==> Key(c) == "qwertyuiop[]"[c - 0x10] as int
    ensures 0x1E <= c < 0x2A ==> Key(c) == "asdfghjkl;'`"[c - 0x1E] as int
    ensures 0x2B <= c < 0x36 ==> Key(c) == "\\zxcvbnm,./"[c - 0x2B] as int
    ensures c == 0x0E ==> Key(c) == 8
    ensures c == 0x1C ==> Key(c) == '\n' as int
    ensures c == 0x39 ==> Key(c) == ' ' as int
    ensures c < 0x02 || c in {0x0F, 0x1D, 0x2A} || 0x36 <= c < 0x39 || c > 0x39 ==> Key(c) == 0
  {
    hide *;
    UpperRows(c);
    LowerRows(c);
    OtherKeys(c);
  }

  // ----- producer and consumer interleaved -----

  /** `tested` holds while the consumer stands between its test and its critical section. */
  datatype System = System(ring: Ring, tested: bool, accepted: seq<byte>, popped: seq<byte>)

  datatype Event = Interrupt(scancode: byte) | Test | Critical

  predicate Enabled(s: System, e: Event) {
    match e
    case Interrupt(_) => true
    case Test => !s.tested
    case Critical => s.tested
  }

  predicate Shape(r: Ring) {
    |r.data| == RINGBUF_SIZE && r.head < RINGBUF_SIZE && r.tail < RINGBUF_SIZE
  }

  /** keyboard_handler, and the two halves of kbd_getchar.  A failed test ends the call. */
  function Step(s: System, e: Event): (r: System)
    requires Shape(s.ring) && Enabled(s, e)
    ensures Shape(r.ring)
  {
    match e
    case Interrupt(c) =>
      if Key(c) == 0 then s
      else s.(ring := Push(s.ring, Key(c)),
              accepted := if s.ring.len == RINGBUF_SIZE then s.accepted else s.accepted + [Key(c)])
    case Test => s.(tested := s.ring.len > 0)
    case Critical =>
      var (b, r) := Take(s.ring);
      s.(ring := r, tested := false, popped := s.popped + [b])
  }

  /** Bytes popped, then bytes stored, are the accepted bytes in order; and a test that found
      something is still right in the critical section. */
  ghost predicate Fifo(s: System) {
    Sound(s.ring) && s.popped + Stored(s.ring) == s.accepted && (s.tested ==> s.ring.len > 0)
  }

  lemma StepFifo(s: System, e: Event)
    requires Fifo(s) && Enabled(s, e)
    ensures Fifo(Step(s, e))
  {
    match e
    case Interrupt(c) =>
      PushStores(s.ring, Key(c));
      assert s.popped + (Stored(s.ring) + [Key(c)]) == (s.popped + Stored(s.ring)) + [Key(c)];
    case Test =>
    case Critical =>
      TakeRemovesOldest(s.ring);
      var b := Take(s.ring).0;
      assert s.popped + ([b] + Stored(Take(s.ring).1)) == (s.popped + [b]) + Stored(Take(s.ring).1);
  }

  predicate Legal(s: System, es: seq<Event>)
    requires Shape(s.ring)
    decreases |es|
  {
    es == [] || (Enabled(s, es[0]) && Legal(Step(s, es[0]), es[1..]))
  }

  function After(s: System, es: seq<Event>): System
    requires Shape(s.ring) && Legal(s, es)
    decreases |es|
  {
    if es == [] then s else After(Step(s, es[0]), es[1..])
  }

  /** keyboard_init */
  ghost predicate Initial(s: System) {
    |s.ring.data| == RINGBUF_SIZE && s.ring.head == 0 && s.ring.tail == 0 && s.ring.len == 0 &&
    !s.tested && s.accepted == [] && s.popped == []
  }

  lemma {:induction false} RunKeepsFifo(s: System, es: seq<Event>)
    requires Fifo(s) && Legal(s, es)
    ensures Fifo(After(s, es))
    decreases |es|
  {
    if es != [] {
      StepFifo(s, es[0]);
      RunKeepsFifo(Step(s, es[0]), es[1..]);
    }
  }

  /** Under every interleaving nothing is lost, duplicated or reordered, the length stays within
      the buffer, and head, tail and length agree. */
  lemma RunFifo(s: System, es: seq<Event>)
    requires Initial(s) && Legal(s, es)
    ensures var r := After(s, es);
            && r.ring.len <= 256 && r.ring.head == (r.ring.tail + r.ring.len) % 256
            && r.ring.tail < 256 && |r.ring.data| == 256
            && r.popped + Stored(r.ring) == r.accepted
  {
    RunKeepsFifo(s, es);
  }

  /** The critical section is right exactly when there is something to take; with one consumer its
      own earlier test ensures that, whatever interrupts came in between. */
  lemma CriticalExact(s: System)
    requires Sound(s.ring) && s.popped + Stored(s.ring) == s.accepted && s.tested
    ensures Fifo(Step(s, Critical)) <==> s.ring.len > 0
  {
    if s.ring.len > 0 {
      StepFifo(s, Critical);
    }
  }

  // ----- one call of the consumer -----

  /** What follows a test that found something: the interrupts that arrive, then the critical section. */
  function Arriving(scancodes: seq<byte>): seq<Event> {
    if scancodes == [] then [Critical] else [Interrupt(scancodes[0])] + Arriving(scancodes[1..])
  }

  /** A buffer seen alone, about to be read. */
  ghost function Standing(r: Ring): System
    requires Sound(r)
  {
    System(r, false, Stored(r), [])
  }

  /** The bytes the scancodes stand for. */
  function Keys(scancodes: seq<byte>): seq<byte> {
    if scancodes == [] then []
    else (if Key(scancodes[0]) == 0 then [] else [Key(scancodes[0])]) + Keys(scancodes[1..])
  }

  /** As many of the bytes as there is room for. */
  function Room(keys: seq<byte>, room: nat): seq<byte> {
    if |keys| <= room then keys else keys[..room]
  }

  lemma OneArrives(s: System, scancodes: seq<byte>)
    requires Fifo(s) && s.tested && scancodes != []
    ensures var r := Step(s, Interrupt(scancodes[0]));
            && Fifo(r) && r.tested && r.popped == s.popped
            && r.ring == (if Key(scancodes[0]) == 0 then s.ring else Push(s.ring, Key(scancodes[0])))
            && (Legal(s, Arriving(scancodes)) <==> Legal(r, Arriving(scancodes[1..])))
            && (Legal(s, Arriving(scancodes)) ==>
                  After(s, Arriving(scancodes)) == After(r, Arriving(scancodes[1..])))
  {
    StepFifo(s, Interrupt(scancodes[0]));
    assert Arriving(scancodes)[1..] == Arriving(scancodes[1..]);
    hide Fifo, Push;
  }

  lemma LastStep(s: System)
    requires Fifo(s) && s.tested
    ensures Legal(s, Arriving([])) && After(s, Arriving([])) == Step(s, Critical)
    ensures s.ring.len > 0 && Sound(Step(s, Critical).ring)
    ensures Step(s, Critical) == System(Take(s.ring).1, false, s.accepted, s.popped + [Take(s.ring).0])
  {
    StepFifo(s, Critical);
    assert Arriving([]) == [Critical] && [Critical][1..] == [];
  }

  lemma KeysHead(scancodes: seq<byte>)
    requires scancodes != []
    ensures var key := Key(scancodes[0]);
            Keys(scancodes) == (if key == 0 then [] else [key]) + Keys(scancodes[1..])
  {
  }

  lemma NoRoomNeeded(room: nat)
    ensures Room([], room) == []
  {
  }

  /** Storing one byte at a time stores as many as there is room for. */
  lemma RoomStep(q: seq<byte>, key: byte, keys: seq<byte>)
    requires 0 < |q| <= RINGBUF_SIZE
    ensures var q1 := if key == 0 || |q| == RINGBUF_SIZE then q else q + [key];
            && q1[0] == q[0]
            && q1[1..] + Room(keys, RINGBUF_SIZE - |q1|)
               == q[1..] + Room((if key == 0 then [] else [key]) + keys, RINGBUF_SIZE - |q|)
  {
    var room := RINGBUF_SIZE - |q|;
    if key != 0 && room > 0 && |keys| >= room {
      assert ([key] + keys)[..room] == [key] + keys[..room - 1];
    }
  }

  lemma {:induction false} ArrivingStores(s: System, scancodes: seq<byte>)
    requires Fifo(s) && s.tested
    ensures Legal(s, Arriving(scancodes))
    ensures var r, q := After(s, Arriving(scancodes)), Stored(s.ring);
            && Sound(r.ring) && !r.tested && r.popped == s.popped + [q[0]]
            && Stored(r.ring) == q[1..] + Room(Keys(scancodes), RINGBUF_SIZE - |q|)
    decreases |scancodes|
  {
    var q := Stored(s.ring);
    assert Shape(s.ring) && |q| == s.ring.len <= RINGBUF_SIZE;
    hide Sound, Stored, Push, Take, Step, Legal, After, Arriving, Key, Room;
    if scancodes == [] {
      LastStep(s);
      TakeRemovesOldest(s.ring);
      NoRoomNeeded(RINGBUF_SIZE - |q|);
    } else {
      var key := Key(scancodes[0]);
      var s1 := Step(s, Interrupt(scancodes[0]));
      OneArrives(s, scancodes);
      if key != 0 { PushStores(s.ring, key); }
      var q1 := if key == 0 || |q| == RINGBUF_SIZE then q else q + [key];
      assert Stored(s1.ring) == q1;
      KeysHead(scancodes);
      hide Fifo, Keys;
      ArrivingStores(s1, scancodes[1..]);
      RoomStep(q, key, Keys(scancodes[1..]));
    }
  }

  /** The whole call, past a test that found something. */
  lemma StandingTested(r: Ring, scancodes: seq<byte>) returns (s1: System)
    requires Sound(r) && r.len > 0
    ensures Fifo(s1) && s1.tested && s1.ring == r && s1.popped == [] && Legal(s1, Arriving(scancodes))
    ensures var s, es, q := Standing(r), [Test] + Arriving(scancodes), Stored(r);
            && Legal(s, es) && After(s, es) == After(s1, Arriving(scancodes))
            && Sound(After(s, es).ring) && After(s, es).popped == [q[0]]
            && |q| <= 256 && Stored(After(s, es).ring) == q[1..] + Room(Keys(scancodes), 256 - |q|)
  {
    var s := Standing(r);
    assert s.popped + Stored(r) == Stored(r);
    s1 := Step(s, Test);
    ArrivingStores(s1, scancodes);
    assert ([Test] + Arriving(scancodes))[1..] == Arriving(scancodes);
    assert [] + [Stored(r)[0]] == [Stored(r)[0]];
  }

  // ----- the buffer updated in place -----

  class KeyboardBuffer {
    const data: array<byte>
    var head: nat
    var tail: nat
    var len: nat

    ghost function Abs(): Ring
      reads this, data
    {
      Ring(data[..], head, tail, len)
    }

    constructor ()
      ensures fresh(data) && Sound(Abs()) && Stored(Abs()) == []
    {
      data := new byte[RINGBUF_SIZE];
      head, tail, len := 0, 0, 0;
    }

    /** ringbuf_push */
    method PushByte(b: byte)
      requires Sound(Abs())
      modifies this, data
      ensures Abs() == Push(old(Abs()), b) && Sound(Abs())
    {
      PushStores(Abs(), b);
      hide Stored;
      if len == RINGBUF_SIZE {
        return;
      }
      data[head] := b;
      head := (head + 1) % RINGBUF_SIZE;
      len := len + 1;
    }

    /** keyboard_handler */
    method Handle(scancode: byte)
      requires Sound(Abs())
      modifies this, data
      ensures Sound(Abs()) && Abs() == if Key(scancode) == 0 then old(Abs()) else Push(old(Abs()), Key(scancode))
    {
      if scancode >= 0x80 {
        return;
      }
      var key := Key(scancode);
      if key == 0 {
        return;
      }
      PushByte(key);
    }

    /** The critical section of ringbuf_pop. */
    method TakeByte() returns (out: byte)
      requires Sound(Abs()) && len > 0
      modifies this
      ensures (out, Abs()) == Take(old(Abs()))
    {
      out := data[tail];
      tail := (tail + 1) % RINGBUF_SIZE;
      len := len - 1;
    }

    /** kbd_getchar, with the interrupts that arrive after its emptiness test.  It answers by that
        test alone; then it takes exactly the steps of the system above, which leave what was
        stored without the oldest byte, followed by the new bytes there was room for. */
    method GetChar(interrupts: seq<byte>) returns (ok: bool, out: byte)
      requires Sound(Abs())
      modifies this, data
      ensures Sound(Abs()) && ok == (|old(Stored(Abs()))| > 0)
      ensures !ok ==> Abs() == old(Abs())
      ensures ok ==>
        var s, es, q := Standing(old(Abs())), [Test] + Arriving(interrupts), old(Stored(Abs()));
        && Legal(s, es) && After(s, es).ring == Abs() && After(s, es).popped == [out]
        && out == q[0] && |q| <= 256 && Stored(Abs()) == q[1..] + Room(Keys(interrupts), 256 - |q|)
    {
      if len == 0 {
        return false, 0;
      }
      ghost var s1 := StandingTested(Abs(), interrupts);
      ghost var now := s1;
      hide Sound, Stored, Push, Take, Step, Key, Legal, After, Arriving;
      var i := 0;
      while i < |interrupts|
        invariant 0 <= i <= |interrupts|
        invariant Fifo(now) && now.tested && now.ring == Abs() && now.popped == []
        invariant Legal(now, Arriving(interrupts[i..]))
        invariant After(now, Arriving(interrupts[i..])) == After(s1, Arriving(interrupts))
      {
        OneArrives(now, interrupts[i..]);
        now := Step(now, Interrupt(interrupts[i]));
        Handle(interrupts[i]);
        i := i + 1;
      }
      LastStep(now);
      ok := true;
      out := TakeByte();
    }
  }
}
