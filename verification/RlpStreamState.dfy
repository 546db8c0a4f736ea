/** Where a limited stream is: its position, what it may still read, and the lists it is in. */
module RlpStreamState {
  import opened RlpSpec

  /** How much of a list has been read, and how long it is. */
  datatype ListPos = ListPos(pos: nat, size: nat)

  datatype State = State(pos: nat, remaining: nat, stack: seq<ListPos>)

  function SumPos(stack: seq<ListPos>): nat {
    if stack == [] then 0 else SumPos(stack[..|stack| - 1]) + stack[|stack| - 1].pos
  }

  /** Each list has room for the one inside it. */
  ghost predicate Nested(stack: seq<ListPos>) {
    && (forall i :: 0 <= i < |stack| ==> stack[i].pos <= stack[i].size)
    && (forall i :: 0 <= i < |stack| - 1 ==> stack[i].pos + stack[i + 1].size <= stack[i].size)
  }

  /** The bytes still owed to the open lists. */
  ghost function Owed(stack: seq<ListPos>): int {
    if stack == [] then 0 else stack[0].size - SumPos(stack)
  }

  /** The accounts of a stream over `input`: nothing promised is more than what is there. */
  ghost predicate Sound(s: State, input: seq<Byte>) {
    s.pos + s.remaining <= |input| && Nested(s.stack) && Owed(s.stack) <= s.remaining
  }

  /** How many bytes may be read before the innermost list, or the input, is at its end. */
  function Limit(s: State): int {
    if s.stack == [] then s.remaining else s.stack[|s.stack| - 1].size - s.stack[|s.stack| - 1].pos
  }

  lemma {:induction false} TopOwed(stack: seq<ListPos>)
    requires Nested(stack) && stack != []
    ensures 0 <= stack[|stack| - 1].size - stack[|stack| - 1].pos <= Owed(stack)
    decreases |stack|
  {
    var n := |stack|;
    if n == 1 {
      assert stack[..0] == [] && SumPos(stack) == SumPos(stack[..0]) + stack[0].pos;
    } else {
      var init := stack[..n - 1];
      assert stack[n - 2].pos + stack[n - 2 + 1].size <= stack[n - 2].size;
      assert forall i :: 0 <= i < |init| ==> init[i] == stack[i];
      TopOwed(init);
    }
  }

  lemma {:induction false} LimitBound(s: State, input: seq<Byte>)
    requires Sound(s, input)
    ensures 0 <= Limit(s) <= s.remaining && s.pos + Limit(s) <= |input|
  {
    if s.stack != [] { TopOwed(s.stack); }
  }

  /** What the stream can see. */
  ghost function Avail(s: State, input: seq<Byte>): (b: seq<Byte>)
    requires Sound(s, input)
    ensures |b| == Limit(s)
  {
    LimitBound(s, input);
    input[s.pos..s.pos + Limit(s)]
  }

  function Bump(stack: seq<ListPos>, n: nat): seq<ListPos> {
    if stack == [] then [] else
      var top := stack[|stack| - 1];
      stack[|stack| - 1 := top.(pos := top.pos + n)]
  }

  /** After reading `n` bytes. */
  function Move(s: State, n: nat): State
    requires n <= s.remaining
  {
    State(s.pos + n, s.remaining - n, Bump(s.stack, n))
  }

  lemma {:induction false} SumBump(stack: seq<ListPos>, n: nat)
    requires stack != []
    ensures SumPos(Bump(stack, n)) == SumPos(stack) + n
  {
    var top := |stack| - 1;
    assert Bump(stack, n)[..top] == stack[..top];
  }

  lemma {:induction false} MoveSound(s: State, input: seq<Byte>, n: nat)
    requires Sound(s, input) && n <= Limit(s)
    ensures n <= s.remaining && Sound(Move(s, n), input) && Avail(Move(s, n), input) == Avail(s, input)[n..]
    ensures Limit(Move(s, n)) == Limit(s) - n
  {
    LimitBound(s, input);
    if s.stack != [] { SumBump(s.stack, n); }
    LimitBound(Move(s, n), input);
  }

  lemma {:induction false} MoveTwice(s: State, m: nat, n: nat)
    requires m + n <= s.remaining
    ensures Move(Move(s, m), n) == Move(s, m + n)
  {
  }

  /** Into a list of `size` bytes. */
  function Push(s: State, size: nat): State {
    s.(stack := s.stack + [ListPos(0, size)])
  }

  lemma {:induction false} PushSound(s: State, input: seq<Byte>, size: nat)
    requires Sound(s, input) && size <= Limit(s)
    ensures Sound(Push(s, size), input) && Limit(Push(s, size)) == size
      && Avail(Push(s, size), input) == Avail(s, input)[..size]
  {
    hide Nested, Owed;
    LimitBound(s, input);
    PushNested(s.stack, s.stack + [ListPos(0, size)], size);
    LimitBound(Push(s, size), input);
    assert input[s.pos..s.pos + Limit(s)][..size] == input[s.pos..s.pos + size];
  }

  lemma {:induction false} PushNested(stack: seq<ListPos>, stack': seq<ListPos>, size: nat)
    requires Nested(stack) && stack' == stack + [ListPos(0, size)]
    requires stack != [] ==> size <= stack[|stack| - 1].size - stack[|stack| - 1].pos
    ensures Nested(stack') && Owed(stack') == if stack == [] then size else Owed(stack)
  {
    var n := |stack|;
    assert stack'[..n] == stack && stack'[n] == ListPos(0, size);
    assert SumPos(stack') == SumPos(stack);
    if stack != [] { assert stack'[0] == stack[0]; }
    forall i | 0 <= i < |stack'| - 1 ensures stack'[i].pos + stack'[i + 1].size <= stack'[i].size {
      if i < n - 1 { assert stack[i].pos + stack[i + 1].size <= stack[i].size; }
    }
  }

  /** Out of a list that has been read. */
  function Pop(s: State): State
    requires s.stack != []
  {
    s.(stack := Bump(s.stack[..|s.stack| - 1], s.stack[|s.stack| - 1].size))
  }

  /** Reading all of a list is reading its bytes. */
  lemma {:induction false} PushMovePop(s: State, size: nat)
    requires size <= s.remaining
    ensures Pop(Move(Push(s, size), size)) == Move(s, size)
  {
    var t := Move(Push(s, size), size);
    assert t.stack[..|s.stack|] == s.stack;
  }

  lemma {:induction false} PopSound(s: State, input: seq<Byte>)
    requires Sound(s, input) && s.stack != [] && s.stack[|s.stack| - 1].pos == s.stack[|s.stack| - 1].size
    ensures Sound(Pop(s), input)
  {
    var n, init := |s.stack|, s.stack[..|s.stack| - 1];
    if n == 1 {
      assert init == [];
    } else {
      assert s.stack[n - 2].pos + s.stack[n - 2 + 1].size <= s.stack[n - 2].size;
      SumBump(init, s.stack[n - 1].size);
      assert forall i :: 0 <= i < n - 2 ==> Pop(s).stack[i] == s.stack[i];
      assert forall i :: 0 <= i < n - 2 ==> s.stack[i].pos + s.stack[i + 1].size <= s.stack[i].size;
    }
  }
}
