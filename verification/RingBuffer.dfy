/** kernel/pic.c: the keyboard buffer, written by the interrupt handler and read by `kgetc`. */
module RingBuffer {

  const BUFFER_LEN := 500
  const NUL: char := '\0'

  /** The buffer and its three counters. */
  datatype Ring = Ring(buffer: seq<char>, readhead: nat, writehead: nat, avail: nat)

  function Empty(): Ring {
    Ring(seq(BUFFER_LEN, _ => NUL), 0, 0, 0)
  }

  /** The slot for position i, counting round and round. */
  function At(buffer: seq<char>, i: nat): char
    requires |buffer| == BUFFER_LEN
  {
    buffer[i % BUFFER_LEN]
  }

  ghost predicate InBounds(r: Ring) {
    |r.buffer| == BUFFER_LEN && r.readhead < BUFFER_LEN && r.writehead < BUFFER_LEN
  }

  /** The handler takes the buffer to be full when the heads meet while something is available. */
  predicate Rejects(r: Ring) { r.readhead == r.writehead && r.avail != 0 }

  /** `write_char`; `avail` is a 16-bit counter. */
  function Written(r: Ring, c: char): Ring
    requires InBounds(r)
  {
    if Rejects(r) then r
    else Ring(r.buffer[r.writehead := c], r.readhead, (r.writehead + 1) % BUFFER_LEN, (r.avail + 1) % 0x1_0000)
  }

  /** The three updates of `kgetc`. */
  function Cleared(r: Ring): Ring
    requires InBounds(r)
  {
    r.(buffer := r.buffer[r.readhead := NUL])
  }

  function Advanced(r: Ring): Ring {
    r.(readhead := (r.readhead + 1) % BUFFER_LEN)
  }

  function Retired(r: Ring): Ring {
    r.(avail := (r.avail + 0xffff) % 0x1_0000)
  }

  // ---- run without interruption: a queue ----

  /** The unread characters. */
  function Contents(r: Ring): (s: seq<char>)
    requires |r.buffer| == BUFFER_LEN
    ensures |s| == r.avail
  {
    seq(r.avail, k requires 0 <= k < r.avail => At(r.buffer, r.readhead + k))
  }

  /** Between calls: the heads are `avail` apart, and every slot outside the unread ones is zero. */
  ghost predicate Quiet(r: Ring) {
    && InBounds(r) && r.avail <= BUFFER_LEN && r.writehead == (r.readhead + r.avail) % BUFFER_LEN
    && forall i :: r.readhead + r.avail <= i < r.readhead + BUFFER_LEN ==> At(r.buffer, i) == NUL
  }

  lemma Residues(i: nat, j: nat)
    requires i < j < i + BUFFER_LEN
    ensures i % BUFFER_LEN != j % BUFFER_LEN
  {
  }

  lemma NextSlot(i: nat)
    ensures (i % BUFFER_LEN + 1) % BUFFER_LEN == (i + 1) % BUFFER_LEN
  {
  }

  lemma Wrap(i: nat, k: nat)
    ensures (i % BUFFER_LEN + k) % BUFFER_LEN == (i + k) % BUFFER_LEN
  {
  }

  /** A store at position p changes no other position within a lap of it. */
  lemma StoreAt(buffer: seq<char>, p: nat, c: char, i: nat)
    requires |buffer| == BUFFER_LEN && p - BUFFER_LEN < i < p + BUFFER_LEN
    ensures At(buffer[p % BUFFER_LEN := c], i) == if i == p then c else At(buffer, i)
  {
    if i < p { Residues(i, p); } else if p < i { Residues(p, i); }
  }

  /** A write appends, unless 500 characters are waiting: then the new one is dropped. */
  lemma WriteAppends(r: Ring, c: char)
    requires Quiet(r)
    ensures Quiet(Written(r, c))
    ensures Rejects(r) <==> |Contents(r)| == 500
    ensures Contents(Written(r, c)) == if |Contents(r)| == 500 then Contents(r) else Contents(r) + [c]
  {
    hide At;
    if 0 < r.avail < BUFFER_LEN {
      Residues(r.readhead, r.readhead + r.avail);
    }
    if !Rejects(r) {
      var w, p := Written(r, c), r.readhead + r.avail;
      NextSlot(p);
      forall i | r.readhead <= i < r.readhead + BUFFER_LEN
        ensures At(w.buffer, i) == if i == p then c else At(r.buffer, i)
      {
        StoreAt(r.buffer, p, c, i);
      }
      assert Contents(w) == Contents(r) + [c];
    }
  }

  /** A read takes the oldest character. */
  lemma ReadTakes(r: Ring)
    requires Quiet(r) && r.avail > 0
    ensures var after := Retired(Advanced(Cleared(r)));
      Quiet(after) && r.buffer[r.readhead] == Contents(r)[0] && Contents(after) == Contents(r)[1..]
  {
    hide At;
    var after := Retired(Advanced(Cleared(r)));
    FirstSlot(r.buffer, r.readhead);
    NextSlot(r.readhead);
    Wrap(r.readhead + 1, after.avail);
    forall i | after.readhead <= i < after.readhead + BUFFER_LEN
      ensures At(after.buffer, i) ==
        if i == after.readhead + BUFFER_LEN - 1 then NUL else At(r.buffer, r.readhead + 1 + (i - after.readhead))
    {
      AfterRead(r, i - after.readhead);
    }
    assert Contents(after) == Contents(r)[1..];
  }

  /** The slots after a read, counted from the new `readhead`. */
  lemma AfterRead(r: Ring, k: nat)
    requires Quiet(r) && r.avail > 0 && k < BUFFER_LEN
    ensures var after := Retired(Advanced(Cleared(r)));
      At(after.buffer, after.readhead + k) == if k == BUFFER_LEN - 1 then NUL else At(r.buffer, r.readhead + 1 + k)
  {
    hide At;
    var cleared := Cleared(r).buffer;
    Lap(cleared, r.readhead + 1, k);
    if k == BUFFER_LEN - 1 {
      Lap(cleared, r.readhead, 0);
      StoreAt(r.buffer, r.readhead, NUL, r.readhead);
    } else {
      StoreAt(r.buffer, r.readhead, NUL, r.readhead + 1 + k);
    }
  }

  lemma FirstSlot(buffer: seq<char>, p: nat)
    requires |buffer| == BUFFER_LEN && p < BUFFER_LEN
    ensures At(buffer, p) == buffer[p]
  {
  }

  lemma Slot(buffer: seq<char>, i: nat)
    requires |buffer| == BUFFER_LEN
    ensures At(buffer, i) == buffer[i % BUFFER_LEN]
  {
  }

  /** Starting a lap earlier makes no difference. */
  lemma Lap(buffer: seq<char>, start: nat, k: nat)
    requires |buffer| == BUFFER_LEN
    ensures At(buffer, start % BUFFER_LEN + k) == At(buffer, start + k)
    ensures At(buffer, start + BUFFER_LEN) == At(buffer, start)
  {
    Wrap(start, k);
  }

  // ---- the code ----

  class Keyboard {
    const buffer: array<char>
    var readhead: nat
    var writehead: nat
    var avail: nat

    ghost function State(): Ring
      reads this, buffer
    {
      Ring(buffer[..], readhead, writehead, avail)
    }

    constructor ()
      ensures fresh(buffer) && Quiet(State()) && Contents(State()) == []
    {
      buffer := new char[BUFFER_LEN](_ => NUL);
      readhead, writehead, avail := 0, 0, 0;
    }

    /** Called from the interrupt handler. */
    method WriteChar(in': char)
      requires InBounds(State())
      modifies this, buffer
      ensures State() == Written(old(State()), in')
      ensures old(Quiet(State())) ==>
        && Quiet(State())
        && Contents(State()) ==
          (if |old(Contents(State()))| == 500 then old(Contents(State())) else old(Contents(State())) + [in'])
    {
      ghost var before := State();
      if Quiet(before) {
        WriteAppends(before, in');
      }
      if readhead == writehead && avail != 0 {
        return;
      }
      buffer[writehead] := in';
      writehead := writehead + 1;
      avail := (avail + 1) % 0x1_0000;
      writehead := writehead % BUFFER_LEN;
    }

    /** Run without interruption, when a character is there (otherwise the code waits for one). */
    method Kgetc() returns (c: char)
      requires Quiet(State()) && avail > 0
      modifies this, buffer
      ensures State() == Retired(Advanced(Cleared(old(State()))))
      ensures Quiet(State()) && [c] + Contents(State()) == old(Contents(State()))
    {
      ReadTakes(State());
      c := buffer[readhead];
      buffer[readhead] := NUL;
      readhead := readhead + 1;
      readhead := readhead % BUFFER_LEN;
      avail := avail - 1;
    }
  }

  // ---- interrupted at any point: a protocol ----

  /** Where `kgetc` stands. */
  datatype Pc =
    | Waiting                // before or in the loop that waits for a character
    | Ready                  // has seen that one is available
    | Holding(c: char)       // has read it
    | Zeroed(c: char)        // has zeroed its slot
    | Moved(c: char)         // has advanced `readhead`, but not yet decremented `avail`

  /** The machine, with the history of characters accepted and delivered. */
  datatype System = System(ring: Ring, pc: Pc, accepted: seq<char>, delivered: seq<char>)

  function Start(): System {
    System(Empty(), Waiting, [], [])
  }

  /** The interrupt handler runs to completion. */
  function Interrupt(s: System, c: char): System
    requires InBounds(s.ring)
  {
    if Rejects(s.ring) then s
    else s.(ring := Written(s.ring, c), accepted := s.accepted + [c])
  }

  /** `kgetc` takes one step; when it returns, its caller calls it again. */
  function Step(s: System): System
    requires InBounds(s.ring)
  {
    match s.pc
    case Waiting => if s.ring.avail == 0 then s else s.(pc := Ready)
    case Ready => s.(pc := Holding(s.ring.buffer[s.ring.readhead]))
    case Holding(c) => s.(ring := Cleared(s.ring), pc := Zeroed(c))
    case Zeroed(c) => s.(ring := Advanced(s.ring), pc := Moved(c))
    case Moved(c) => s.(ring := Retired(s.ring), pc := Waiting, delivered := s.delivered + [c])
  }

  ghost predicate Next(s: System, s': System) {
    InBounds(s.ring) && (s' == Step(s) || exists c :: s' == Interrupt(s, c))
  }

  ghost predicate Run(states: seq<System>) {
    |states| > 0 && states[0] == Start() && forall i :: 0 <= i < |states| - 1 ==> Next(states[i], states[i + 1])
  }

  /** Characters whose slot the consumer has let go of. */
  function Released(s: System): nat {
    |s.delivered| + (if s.pc.Zeroed? || s.pc.Moved? then 1 else 0)
  }

  /** Characters accepted and not yet behind `readhead`. */
  function Pending(s: System): int {
    |s.accepted| - |s.delivered| - (if s.pc.Moved? then 1 else 0)
  }

  ghost predicate Inv(s: System) {
    && InBounds(s.ring)
    && s.delivered <= s.accepted
    && 0 <= Pending(s) <= BUFFER_LEN
    && s.ring.avail == |s.accepted| - |s.delivered|
    && s.ring.writehead == |s.accepted| % BUFFER_LEN
    && s.ring.readhead == (|s.delivered| + (if s.pc.Moved? then 1 else 0)) % BUFFER_LEN
    && (!s.pc.Waiting? ==> |s.delivered| < |s.accepted|)
    && (s.pc.Holding? || s.pc.Zeroed? || s.pc.Moved? ==> s.pc.c == s.accepted[|s.delivered|])
    && (forall i :: Released(s) <= i < |s.accepted| ==> At(s.ring.buffer, i) == s.accepted[i])
    && (forall i :: |s.accepted| <= i < Released(s) + BUFFER_LEN ==> At(s.ring.buffer, i) == NUL)
  }

  /** When the handler drops a character: 500 are pending, or the consumer is between its last
      two updates and nothing is pending. */
  lemma Drops(s: System)
    requires Inv(s)
    ensures Rejects(s.ring) <==> Pending(s) == 500 || (s.pc.Moved? && Pending(s) == 0)
  {
    var read := |s.delivered| + (if s.pc.Moved? then 1 else 0);
    if 0 < Pending(s) < BUFFER_LEN {
      Residues(read, |s.accepted|);
    }
  }

  lemma InterruptKeeps(s: System, c: char)
    requires Inv(s)
    ensures Inv(Interrupt(s, c))
  {
    hide At;
    Drops(s);
    if !Rejects(s.ring) {
      var s' := Interrupt(s, c);
      var n := |s.accepted|;
      NextSlot(n);
      PendingRoom(s);
      forall i | Released(s) <= i < Released(s) + BUFFER_LEN
        ensures At(s'.ring.buffer, i) == if i == n then c else At(s.ring.buffer, i)
      {
        StoreAt(s.ring.buffer, n, c, i);
      }
    }
  }

  lemma PendingRoom(s: System)
    requires Inv(s) && !Rejects(s.ring)
    ensures |s.accepted| < Released(s) + BUFFER_LEN
  {
    Drops(s);
  }

  lemma ClearKeeps(s: System)
    requires Inv(s) && s.pc.Holding?
    ensures Inv(Step(s))
  {
    hide At;
    var s', d := Step(s), |s.delivered|;
    forall i | d <= i < d + BUFFER_LEN
      ensures At(s'.ring.buffer, i) == if i == d then NUL else At(s.ring.buffer, i)
    {
      StoreAt(s.ring.buffer, d, NUL, i);
    }
    Lap(s'.ring.buffer, d, 0);
  }

  lemma StepKeeps(s: System)
    requires Inv(s)
    ensures Inv(Step(s))
  {
    hide At;
    match s.pc
    case Waiting =>
    case Ready => Slot(s.ring.buffer, |s.delivered|);
    case Holding(c) => ClearKeeps(s);
    case Zeroed(c) => NextSlot(|s.delivered|);
    case Moved(c) =>
  }

  lemma {:induction false} Reachable(states: seq<System>, n: nat)
    requires Run(states) && n < |states|
    ensures Inv(states[n])
  {
    if n > 0 {
      Reachable(states, n - 1);
      StepKeeps(states[n - 1]);
      assert Next(states[n - 1], states[n]);
      if states[n] != Step(states[n - 1]) {
        var c :| states[n] == Interrupt(states[n - 1], c);
        InterruptKeeps(states[n - 1], c);
      }
    }
  }

  /** In every reachable state, however the interrupts fell: what has been delivered is a prefix of what
      was accepted, and `avail` never exceeds 501, so the 16-bit counter never wraps. */
  lemma DeliveredInOrder(states: seq<System>, n: nat)
    requires Run(states) && n < |states|
    ensures var s := states[n];
      && s.delivered <= s.accepted
      && s.ring.avail <= 501
      && (s.ring.avail == 501 ==> s.pc.Moved?)
  {
    Reachable(states, n);
  }

  /** An interrupt never overwrites a character that has not been read. */
  lemma NoOverwrite(states: seq<System>, n: nat, c: char, i: nat)
    requires Run(states) && n < |states|
    requires Released(states[n]) <= i < |states[n].accepted|
    ensures InBounds(states[n].ring)
    ensures At(Interrupt(states[n], c).ring.buffer, i) == states[n].accepted[i]
  {
    Reachable(states, n);
    InterruptKeeps(states[n], c);
    assert Interrupt(states[n], c).accepted[i] == states[n].accepted[i];
  }

  /** What an interrupt does, in every reachable state: it stores the character after those already accepted, for
      `kgetc` to find, unless 500 are pending or the consumer is between its last two updates with none
      pending; then nothing changes. */
  lemma InterruptDoes(states: seq<System>, n: nat, c: char)
    requires Run(states) && n < |states|
    ensures var s := states[n];
      && InBounds(s.ring) && Interrupt(s, c).ring == Written(s.ring, c)
      && if Pending(s) == 500 || (s.pc.Moved? && Pending(s) == 0)
         then Interrupt(s, c) == s
         else
           && Interrupt(s, c).accepted == s.accepted + [c]
           && Interrupt(s, c).delivered == s.delivered && Interrupt(s, c).pc == s.pc
           && At(Interrupt(s, c).ring.buffer, |s.accepted|) == c
           && Interrupt(s, c).ring.avail == s.ring.avail + 1
  {
    var s := states[n];
    Reachable(states, n);
    Drops(s);
    if !Rejects(s.ring) {
      InterruptKeeps(s, c);
      PendingRoom(s);
      assert Interrupt(s, c).accepted[|s.accepted|] == c;
    }
  }

  /** Five steps of `kgetc`, when a character is there and no interrupt comes: the oldest one that has not been
      delivered is. */
  lemma Delivers(states: seq<System>, n: nat)
    requires Run(states) && n < |states| && states[n].pc.Waiting? && states[n].ring.avail > 0
    ensures var s := states[n];
      && InBounds(s.ring) && |s.delivered| < |s.accepted|
      && var s1 := Step(s);
      && InBounds(s1.ring) && var s2 := Step(s1);
      && InBounds(s2.ring) && var s3 := Step(s2);
      && InBounds(s3.ring) && var s4 := Step(s3);
      && InBounds(s4.ring) && var s5 := Step(s4);
      s5.pc.Waiting? && s5.delivered == s.delivered + [s.accepted[|s.delivered|]] && s5.accepted == s.accepted
  {
    hide At;
    var s := states[n];
    Reachable(states, n);
    StepKeeps(s);
    var s1 := Step(s);
    StepKeeps(s1);
    var s2 := Step(s1);
    StepKeeps(s2);
    var s3 := Step(s2);
    StepKeeps(s3);
    var s4 := Step(s3);
    StepKeeps(s4);
  }

  /** The second case of `Drops` does happen: a character is lost although no other is pending. */
  lemma DroppedWhileEmpty(a: char) returns (states: seq<System>)
    ensures Run(states) && |states| == 6
    ensures var s := states[5]; Pending(s) == 0 && s.pc.Moved? && Rejects(s.ring)
  {
    var s0 := Start();
    var s1 := Interrupt(s0, a);
    var s2 := Step(s1);
    var s3 := Step(s2);
    var s4 := Step(s3);
    var s5 := Step(s4);
    states := [s0, s1, s2, s3, s4, s5];
    assert Next(s0, s1);
  }
}
