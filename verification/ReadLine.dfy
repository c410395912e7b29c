/** kernel/idt.c: the read system call, with backspace editing. */
module ReadLine {
  import opened Words
  import opened Ascii

  /** A line as its typist sees it: a backspace takes back the last character, if there is one. */
  function Edited(input: seq<Byte>): seq<Byte> {
    if input == [] then [] else
      var line := Edited(input[..|input| - 1]);
      if input[|input| - 1] != BACKSPACE then line + [input[|input| - 1]]
      else if line == [] then []
      else line[..|line| - 1]
  }

  /** No backspace among these characters arrives when the line is empty. */
  ghost predicate NeverEmptied(input: seq<Byte>) {
    forall i :: 0 <= i < |input| && input[i] == BACKSPACE ==> Edited(input[..i]) != []
  }

  /** The code's counter after these characters: up one for each, down one for a backspace. */
  function Counter(input: seq<Byte>): int {
    if input == [] then 0
    else Counter(input[..|input| - 1]) + (if input[|input| - 1] == BACKSPACE then -1 else 1)
  }

  /** The loop's condition. The counter is compared with a `size_t`, so that a negative one ends the loop. */
  predicate GoesOn(counter: int, n: nat) { 0 <= counter < n }

  /** These characters are what one call consumes: the condition fails after them, and not before. */
  ghost predicate Consumed(input: seq<Byte>, n: nat) {
    !GoesOn(Counter(input), n) && forall i :: 0 <= i < |input| ==> GoesOn(Counter(input[..i]), n)
  }

  /** Until an empty line is backspaced, the counter is the length of the line. */
  lemma {:induction false} CounterIsLength(input: seq<Byte>)
    requires NeverEmptied(input)
    ensures Counter(input) == |Edited(input)|
  {
    if input != [] {
      var init := input[..|input| - 1];
      forall i | 0 <= i < |init| && init[i] == BACKSPACE ensures Edited(init[..i]) != [] {
        assert init[..i] == input[..i];
      }
      CounterIsLength(init);
    }
  }

  /** As long as the counter stays non-negative no empty line has been backspaced. */
  lemma {:induction false} NonNegative(input: seq<Byte>)
    requires forall i :: 0 <= i <= |input| ==> Counter(input[..i]) >= 0
    ensures NeverEmptied(input)
  {
    if input != [] {
      var n := |input| - 1;
      var init := input[..n];
      forall i | 0 <= i <= n ensures Counter(init[..i]) >= 0 {
        assert init[..i] == input[..i];
      }
      NonNegative(init);
      CounterIsLength(init);
      assert input[..|input|] == input;
      forall i | 0 <= i < |input| && input[i] == BACKSPACE ensures Edited(input[..i]) != [] {
        if i < n {
          assert init[..i] == input[..i] && init[i] == input[i];
        }
      }
    }
  }

  /** A call reads a full line exactly when no backspace arrives at an empty line; otherwise it ends
      at that backspace, with nothing. */
  lemma FullLineExactly(input: seq<Byte>, n: nat)
    requires Consumed(input, n) && n > 0
    ensures NeverEmptied(input) <==> |Edited(input)| == n
    ensures !NeverEmptied(input) ==> Edited(input) == [] && Counter(input) == -1 && input[|input| - 1] == BACKSPACE
  {
    if NeverEmptied(input) {
      CounterIsLength(input);
      CounterAtMost(input, n);
    } else {
      Emptied(input, n);
    }
  }

  lemma CounterAtMost(input: seq<Byte>, n: nat)
    requires Consumed(input, n) && n > 0
    ensures input != [] && -1 <= Counter(input) <= n
  {
    if input != [] {
      assert GoesOn(Counter(input[..|input| - 1]), n);
    }
  }

  lemma Emptied(input: seq<Byte>, n: nat)
    requires Consumed(input, n) && n > 0 && !NeverEmptied(input)
    ensures Edited(input) == [] && Counter(input) == -1 && input != [] && input[|input| - 1] == BACKSPACE
  {
    CounterAtMost(input, n);
    var m := |input| - 1;
    var init := input[..m];
    forall i | 0 <= i <= m ensures Counter(init[..i]) >= 0 {
      assert init[..i] == input[..i] && GoesOn(Counter(input[..i]), n);
    }
    NonNegative(init);
    CounterIsLength(init);
    if Counter(input) >= 0 {
      forall i | 0 <= i <= |input| ensures Counter(input[..i]) >= 0 {
        assert i < |input| ==> GoesOn(Counter(input[..i]), n);
        assert input[..|input|] == input;
      }
      NonNegative(input);
    }
  }

  /** Reads until `n` characters are in the buffer, unless asked for another descriptor. `input` is what the
      keyboard delivers, which must be enough for the call to return; `used` is how much of it was taken. */
  method SyscallRead(fd: int, buf: array<Byte>, n: nat, input: seq<Byte>, ghost used: nat) returns (r: int)
    requires fd == 0 ==> n <= buf.Length && n < 0x8000_0000
    requires fd == 0 ==> used <= |input| && Consumed(input[..used], n)
    modifies buf
    ensures fd != 0 ==> r == -1 && buf[..] == old(buf[..])
    ensures fd == 0 ==> r == n
    ensures fd == 0 && NeverEmptied(input[..used]) ==> buf[..n] == Edited(input[..used])
    ensures fd == 0 ==> buf[n..] == old(buf[n..])
  {
    hide Edited, Counter, NeverEmptied, Consumed;
    if fd != 0 {
      return -1;
    }
    var accum := 0;
    var next := 0;
    EmptyLine();
    assert input[..0] == [];
    while GoesOn(accum, n)
      invariant next <= used && accum == Counter(input[..next])
      invariant NeverEmptied(input[..next]) && accum >= 0 ==> accum <= n && buf[..accum] == Edited(input[..next])
      invariant accum <= n && buf[n..] == old(buf[n..])
      decreases used - next
    {
      StillGoing(input, used, next, n);
      var c := input[next];
      ghost var line := input[..next];
      ghost var before := buf[..];
      Extended(input, next);
      buf[accum] := c;
      accum := accum + 1;
      if c == BACKSPACE {
        accum := accum - 2;
      }
      assert before[..accum + (if c == BACKSPACE then 1 else -1)] == buf[..accum + (if c == BACKSPACE then 1 else -1)];
      next := next + 1;
    }
    StoppedHere(input, used, next, n);
    if NeverEmptied(input[..used]) {
      CounterIsLength(input[..used]);
    }
    return n;
  }

  lemma EmptyLine()
    ensures Edited([]) == [] && NeverEmptied([]) && Counter([]) == 0
  {
  }

  lemma StillGoing(input: seq<Byte>, used: nat, next: nat, n: nat)
    requires next <= used <= |input| && Consumed(input[..used], n) && GoesOn(Counter(input[..next]), n)
    ensures next < used
  {
  }

  lemma StoppedHere(input: seq<Byte>, used: nat, next: nat, n: nat)
    requires next <= used <= |input| && Consumed(input[..used], n) && !GoesOn(Counter(input[..next]), n)
    ensures next == used
  {
    assert forall i :: 0 <= i < used ==> input[..used][..i] == input[..i];
  }

  lemma Extended(input: seq<Byte>, next: nat)
    requires next < |input|
    ensures var line, more := input[..next], input[..next + 1];
      && Counter(more) == Counter(line) + (if input[next] == BACKSPACE then -1 else 1)
      && (NeverEmptied(more) ==> NeverEmptied(line))
      && Edited(more) == (if input[next] != BACKSPACE then Edited(line) + [input[next]]
                          else if Edited(line) == [] then [] else Edited(line)[..|Edited(line)| - 1])
      && (NeverEmptied(line) ==> Counter(line) == |Edited(line)|)
      && (NeverEmptied(more) && input[next] == BACKSPACE ==> Edited(line) != [])
  {
    var line, more := input[..next], input[..next + 1];
    assert more[..|more| - 1] == line;
    if NeverEmptied(more) {
      forall i | 0 <= i < |line| && line[i] == BACKSPACE ensures Edited(line[..i]) != [] {
        assert line[..i] == more[..i] && line[i] == more[i];
      }
    }
    if NeverEmptied(line) {
      CounterIsLength(line);
    }
  }

  // ---- what editing does ----

  /** Without backspaces (8) a line is what was typed. */
  lemma {:induction false} Unedited(input: seq<Byte>)
    requires 8 !in input
    ensures Edited(input) == input
  {
    if input != [] {
      Unedited(input[..|input| - 1]);
    }
  }

  /** A backspace takes back the character before it; one at an empty line does nothing. */
  lemma Undone(input: seq<Byte>, c: Byte)
    requires c != 8
    ensures Edited(input + [c]) == Edited(input) + [c]
    ensures Edited(input + [c, 8]) == Edited(input)
    ensures Edited(input) == [] ==> Edited(input + [8]) == []
  {
    assert (input + [c])[..|input|] == input;
    assert (input + [c, 8])[..|input| + 1] == input + [c];
    assert (input + [8])[..|input|] == input;
  }

  /** Any number of backspaces takes back that many characters. */
  lemma {:induction false} UndoneMany(line: seq<Byte>, n: nat)
    requires 8 !in line && n <= |line|
    ensures Edited(line + seq(n, _ => 8)) == line[..|line| - n]
  {
    var backs: seq<Byte> := seq(n, _ => 8);
    if n == 0 {
      assert line + backs == line;
      Unedited(line);
    } else {
      UndoneMany(line, n - 1);
      assert backs[..n - 1] == seq(n - 1, _ => 8);
      assert (line + backs)[..|line + backs| - 1] == line + backs[..n - 1];
    }
  }
}
