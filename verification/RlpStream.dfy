/** The stream decoder: reads kinds, strings and lists off a limited input, and builds any value from them. */
module RlpStream {
  import opened Options
  import opened RlpSpec
  import opened RlpParse
  import opened RlpStreamState
  import RlpEncode
  import opened RlpTyped

  datatype Error = EOF | EndOfLine | CanonSize | ElemTooLarge | ValueTooLarge | ExpectedString | ExpectedList
                 | NotInList | NotAtEndOfList
                 | MoreThanOneValue | CanonInt | Overflow | InvalidBool | TooLong | TooShort | TooFew

  datatype Result<T> = Ok(value: T) | Err(error: Error)

  /** A header whose value is all there. */
  function HeadIn(b: seq<Byte>): (h: Option<Head>)
    ensures h.Some? ==> ReadHead(b) == h && 0 < h.value.tag && h.value.tag + h.value.size <= |b|
  {
    var h := ReadHead(b);
    if h.Some? && h.value.tag + h.value.size <= |b| then h else None
  }

  class Stream {
    const input: seq<Byte>
    var pos: nat
    var remaining: nat
    /** `None` when the next value has not been looked at. */
    var kind: Option<Kind>
    var size: nat
    var byteval: Byte
    var kinderr: Option<Error>
    var stack: seq<ListPos>

    /** `NewStream` over a byte slice: the limit is its length. */
    constructor (input: seq<Byte>)
      ensures this.input == input && Inv() && At() == State(0, |input|, []) && kind == None
        && Avail(At(), input) == input
    {
      this.input := input;
      pos, remaining, kind, size, byteval, kinderr, stack := 0, |input|, None, 0, 0, None, [];
    }

    function At(): State
      reads this
    {
      State(pos, remaining, stack)
    }

    ghost predicate Inv()
      reads this
    {
      Sound(At(), input)
    }

    /** `willRead`: books `n` bytes to the innermost list and to the limit. */
    method WillRead(n: nat) returns (e: Option<Error>)
      requires Inv()
      modifies this`kind, this`remaining, this`stack
      ensures kind == None
      ensures e == if n <= old(Limit(At())) then None else Some(if stack == [] then ValueTooLarge else ElemTooLarge)
      ensures e == None ==> n <= old(remaining) && remaining == old(remaining) - n && stack == Bump(old(stack), n)
      ensures e != None ==> remaining == old(remaining) && stack == old(stack)
    {
      LimitBound(At(), input);
      kind := None;
      if |stack| > 0 {
        var tos := stack[|stack| - 1];
        if n > tos.size - tos.pos {
          return Some(ElemTooLarge);
        }
        stack := stack[|stack| - 1 := tos.(pos := tos.pos + n)];
      }
      if n > remaining {
        return Some(ValueTooLarge);
      }
      remaining := remaining - n;
      return None;
    }

    /** `readFull`: the next `n` bytes, if the list and the input have them. */
    method ReadFull(n: nat) returns (r: Result<seq<Byte>>)
      requires Inv()
      modifies this`kind, this`remaining, this`stack, this`pos
      ensures Inv() && kind == None && (r.Ok? <==> n <= old(Limit(At())))
      ensures r.Ok? ==> n <= old(remaining) && At() == Move(old(At()), n) && r.value == old(Avail(At(), input))[..n]
      ensures r.Err? ==> At() == old(At()) && r.error == if old(stack) == [] then ValueTooLarge else ElemTooLarge
    {
      LimitBound(At(), input);
      var e := WillRead(n);
      if e != None {
        return Err(e.value);
      }
      MoveSound(old(At()), input, n);
      r := Ok(input[pos..pos + n]);
      pos := pos + n;
    }

    /** `readByte`. */
    method ReadByte() returns (r: Result<Byte>)
      requires Inv()
      modifies this`kind, this`remaining, this`stack, this`pos
      ensures Inv() && kind == None && (r.Ok? <==> 1 <= old(Limit(At())))
      ensures r.Ok? ==> 1 <= old(remaining) && At() == Move(old(At()), 1) && r.value == old(Avail(At(), input))[0]
      ensures r.Err? ==> At() == old(At()) && r.error == if old(stack) == [] then ValueTooLarge else ElemTooLarge
    {
      var f := ReadFull(1);
      return if f.Ok? then Ok(f.value[0]) else Err(f.error);
    }

    /** `readUint`: a big endian number without leading zeros, except that a single byte is not looked at. */
    method ReadUint(size: nat) returns (r: Result<nat>)
      requires Inv() && size <= 8
      modifies this`kind, this`remaining, this`stack, this`pos
      ensures Inv() && kind == None
      ensures r.Ok? <==> size <= old(Limit(At())) && (size > 1 ==> old(Avail(At(), input))[0] != 0)
      ensures r.Ok? ==>
        size <= old(remaining) && At() == Move(old(At()), size) && r.value == Value(old(Avail(At(), input))[..size])
      ensures r.Err? ==> r.error in {ValueTooLarge, ElemTooLarge, CanonSize}
    {
      LimitBound(At(), input);
      if size == 0 {
        kind := None;
        MoveZero(At());
        return Ok(0);
      }
      var f := ReadFull(size);
      if f.Err? {
        return Err(f.error);
      }
      if size > 1 && f.value[0] == 0 {
        return Err(CanonSize);
      }
      return Ok(Value(f.value));
    }

    /** `readKind`: a header, whatever follows it. */
    method ReadKind() returns (r: Result<(Kind, nat)>)
      requires Inv()
      modifies this`kind, this`remaining, this`stack, this`pos, this`byteval
      ensures Inv() && (r.Ok? <==> ReadHead(old(Avail(At(), input))).Some?)
      ensures r.Ok? ==> var h := ReadHead(old(Avail(At(), input))).value;
        && r.value == (h.kind, h.size) && h.tag <= old(remaining) && At() == Move(old(At()), h.tag)
        && (h.kind == KByte ==> byteval == old(Avail(At(), input))[0])
      ensures r.Err? ==> r.error in {EOF, ValueTooLarge, ElemTooLarge, CanonSize}
    {
      LimitBound(At(), input);
      var b := ReadByte();
      if b.Err? {
        return Err(if |stack| == 0 then EOF else b.error);
      }
      byteval := 0;
      if b.value < 0x80 {
        byteval := b.value;
        return Ok((KByte, 0));
      } else if b.value < 0xB8 {
        return Ok((KString, b.value - 0x80));
      } else if b.value < 0xC0 {
        r := ReadLong(KString, b.value - 0xB7, old(At()));
      } else if b.value < 0xF8 {
        return Ok((KList, b.value - 0xC0));
      } else {
        r := ReadLong(KList, b.value - 0xF7, old(At()));
      }
    }

    /** The size field of a long header, its first byte having been read at `b`. */
    method ReadLong(k: Kind, slen: nat, ghost b: State) returns (r: Result<(Kind, nat)>)
      requires Inv() && 0 < slen <= 8 && Sound(b, input) && 1 <= Limit(b) <= b.remaining && At() == Move(b, 1)
      modifies this`kind, this`remaining, this`stack, this`pos
      ensures Inv() && (r.Ok? <==> LongHead(k, Avail(b, input), slen).Some?)
      ensures r.Ok? ==> var h := LongHead(k, Avail(b, input), slen).value;
        r.value == (h.kind, h.size) && h.tag <= b.remaining && At() == Move(b, h.tag)
      ensures r.Err? ==> r.error in {ValueTooLarge, ElemTooLarge, CanonSize}
    {
      MoveSound(b, input, 1);
      ghost var a := Avail(b, input);
      assert a[1..] == Avail(At(), input);
      LimitBound(At(), input);
      var n := ReadUint(slen);
      if n.Err? {
        return Err(n.error);
      }
      MoveTwice(b, 1, slen);
      assert slen == 1 ==> a[1..][..1] == [a[1..][0]];
      if n.value < 56 {
        return Err(CanonSize);
      }
      return Ok((k, n.value));
    }

    /** The header at `b` has been read and its value comes next. */
    ghost predicate Peeked(b: State)
      reads this
    {
      && Sound(b, input) && HeadIn(Avail(b, input)).Some?
      && var h := HeadIn(Avail(b, input)).value;
         && kind == Some(h.kind) && kinderr == None && size == h.size && h.tag <= b.remaining && At() == Move(b, h.tag)
         && (h.kind == KByte ==> byteval == Avail(b, input)[0])
    }

    /** The next value starts at `b`, whether its header has been read or not. */
    ghost predicate Starts(b: State)
      reads this
    {
      Sound(b, input) && ((kind == None && At() == b) || Peeked(b))
    }

    /** `Kind`: looks at the next value once, and then remembers. */
    method KindOf(ghost b: State) returns (r: Result<(Kind, nat)>)
      requires Starts(b)
      modifies this
      ensures Inv() && (r.Ok? <==> HeadIn(Avail(b, input)).Some?)
      ensures r.Ok? ==> Peeked(b) && r.value == (kind.value, size)
      ensures r == Err(EndOfLine) <==> b.stack != [] && Limit(b) == 0
      ensures r == Err(EndOfLine) ==> At() == b && kind == None
    {
      LimitBound(b, input);
      if kind == None {
        kinderr := None;
        if |stack| > 0 && stack[|stack| - 1].pos == stack[|stack| - 1].size {
          return Err(EndOfLine);
        }
        r := Look(b);
      } else {
        ghost var h := HeadIn(Avail(b, input)).value;
        MoveSound(b, input, h.tag);
        return Ok((kind.value, size));
      }
    }

    /** `Kind` when the next value has not been looked at. */
    method Look(ghost b: State) returns (r: Result<(Kind, nat)>)
      requires Inv() && At() == b && kind == None && kinderr == None && !(b.stack != [] && Limit(b) == 0)
      modifies this
      ensures Inv() && (r.Ok? <==> HeadIn(Avail(b, input)).Some?)
      ensures r.Ok? ==> Peeked(b) && r.value == (kind.value, size)
      ensures r.Err? ==> r.error != EndOfLine
    {
      var k := ReadKind();
      if k.Err? {
        kind, size, kinderr := Some(KByte), 0, Some(k.error);
        return Err(k.error);
      }
      kind, size := Some(k.value.0), k.value.1;
      MoveSound(b, input, ReadHead(Avail(b, input)).value.tag);
      if |stack| == 0 {
        if size > remaining { kinderr := Some(ValueTooLarge); }
      } else {
        if size > stack[|stack| - 1].size - stack[|stack| - 1].pos { kinderr := Some(ElemTooLarge); }
      }
      return if kinderr == None then Ok(k.value) else Err(kinderr.value);
    }

    /** `Bytes`: the next value, if it is a string. */
    method Bytes(ghost b: State) returns (r: Result<seq<Byte>>)
      requires Starts(b)
      modifies this
      ensures Inv()
      ensures r.Ok? <==> Parse(Avail(b, input)).Some? && Parse(Avail(b, input)).value.0.Str?
      ensures r.Ok? ==> var (x, n) := Parse(Avail(b, input)).value;
        r.value == x.bytes && n <= b.remaining && At() == Move(b, n) && kind == None
      ensures r == Err(EndOfLine) <==> b.stack != [] && Limit(b) == 0
      ensures r == Err(EndOfLine) ==> At() == b && kind == None
    {
      hide Parse, ParseAll, ReadHead, Avail, Sound, Header, Value;
      LimitBound(b, input);
      ghost var a := Avail(b, input);
      ParseByHead(a);
      var k := KindOf(b);
      if k.Err? {
        return Err(k.error);
      }
      ghost var h := HeadIn(a).value;
      if k.value.0 == KByte {
        kind := None;
        return Ok([byteval]);
      }
      if k.value.0 == KList {
        return Err(ExpectedString);
      }
      MoveSound(b, input, h.tag);
      var f := ReadFull(size);
      assert f.value == a[h.tag..][..h.size] == a[h.tag..h.tag + h.size];
      MoveTwice(b, h.tag, h.size);
      if |f.value| == 1 && f.value[0] < 128 {
        return Err(CanonSize);
      }
      return Ok(f.value);
    }

    /** `List`: into the next value, if it is a list. */
    method ListStart(ghost b: State) returns (r: Result<nat>)
      requires Starts(b)
      modifies this
      ensures Inv() && (r.Ok? <==> HeadIn(Avail(b, input)).Some? && HeadIn(Avail(b, input)).value.kind == KList)
      ensures r.Ok? ==> var h := HeadIn(Avail(b, input)).value;
        r.value == h.size && h.tag <= b.remaining && At() == Push(Move(b, h.tag), h.size) && kind == None
      ensures r == Err(EndOfLine) <==> b.stack != [] && Limit(b) == 0
      ensures r == Err(EndOfLine) ==> At() == b && kind == None
    {
      LimitBound(b, input);
      var k := KindOf(b);
      if k.Err? {
        return Err(k.error);
      }
      if k.value.0 != KList {
        return Err(ExpectedList);
      }
      ghost var h := HeadIn(Avail(b, input)).value;
      MoveSound(b, input, h.tag);
      PushSound(Move(b, h.tag), input, h.size);
      stack := stack + [ListPos(0, size)];
      kind := None;
      size := 0;
      return Ok(k.value.1);
    }

    /** `ListEnd`: out of a list that has been read to its end. */
    method ListEnd() returns (e: Option<Error>)
      requires Inv()
      modifies this`stack, this`kind, this`size
      ensures Inv() && (e == None <==>
        old(stack) != [] && old(stack)[|old(stack)| - 1].pos == old(stack)[|old(stack)| - 1].size)
      ensures e == None ==> At() == Pop(old(At())) && kind == None
      ensures e != None ==> At() == old(At()) && e == Some(if old(stack) == [] then NotInList else NotAtEndOfList)
    {
      if |stack| == 0 {
        return Some(NotInList);
      }
      var tos := stack[|stack| - 1];
      if tos.pos != tos.size {
        return Some(NotAtEndOfList);
      }
      PopSound(At(), input);
      stack := stack[..|stack| - 1];
      if |stack| > 0 {
        stack := stack[|stack| - 1 := stack[|stack| - 1].(pos := stack[|stack| - 1].pos + tos.size)];
      }
      kind, size := None, 0;
      return None;
    }

    /** `uint`: the next value as a number of at most `width` bytes. */
    method Uint(width: nat, ghost b: State) returns (r: Result<nat>)
      requires Starts(b) && 0 < width <= 8
      modifies this
      ensures Inv()
      ensures var p := Parse(Avail(b, input));
        r.Ok? <==> p.Some? && p.value.0.Str? && UintOf(p.value.0.bytes, width).Some?
      ensures r.Ok? ==> var (x, n) := Parse(Avail(b, input)).value;
        Some(r.value) == UintOf(x.bytes, width) && n <= b.remaining && At() == Move(b, n) && kind == None
      ensures r == Err(EndOfLine) <==> b.stack != [] && Limit(b) == 0
      ensures r == Err(EndOfLine) ==> At() == b && kind == None
      ensures r.Err? && HeadIn(Avail(b, input)).Some? && HeadIn(Avail(b, input)).value.kind == KByte ==> Peeked(b)
    {
      hide Parse, ParseAll, ReadHead, Avail, Sound, Header;
      LimitBound(b, input);
      ghost var a := Avail(b, input);
      ParseByHead(a);
      var k := KindOf(b);
      if k.Err? {
        return Err(k.error);
      }
      ghost var h := HeadIn(a).value;
      if k.value.0 == KByte {
        if byteval == 0 {
          return Err(CanonInt);
        }
        kind := None;
        assert Value([byteval]) == 256 * Value([]) + byteval;
        return Ok(byteval);
      }
      if k.value.0 == KList {
        return Err(ExpectedString);
      }
      if size > width {
        return Err(Overflow);
      }
      MoveSound(b, input, h.tag);
      ghost var content := a[h.tag..h.tag + h.size];
      assert a[h.tag..][..h.size] == content;
      assert h.size > 0 ==> a[h.tag..][0] == content[0];
      var size := k.value.1;
      var v := ReadUint(size);
      MoveTwice(b, h.tag, h.size);
      SmallValue(content);
      if v.Err? {
        return Err(if v.error == CanonSize then CanonInt else v.error);
      }
      if size > 0 && v.value < 128 {
        return Err(CanonSize);
      }
      return v;
    }

    /** `int`: the next value as a sign and a magnitude, in at most `width` bytes. */
    method Int(width: nat, ghost b: State) returns (r: Result<int>)
      requires Starts(b) && 0 < width <= 8
      modifies this
      ensures Inv()
      ensures var p := Parse(Avail(b, input));
        r.Ok? <==> p.Some? && p.value.0.Str? && IntOf(p.value.0.bytes, width).Some?
      ensures r.Ok? ==> var (x, n) := Parse(Avail(b, input)).value;
        Some(r.value) == IntOf(x.bytes, width) && n <= b.remaining && At() == Move(b, n) && kind == None
      ensures r == Err(EndOfLine) <==> b.stack != [] && Limit(b) == 0
      ensures r == Err(EndOfLine) ==> At() == b && kind == None
    {
      hide Parse, ParseAll, ReadHead, Avail, Sound, Header, Value;
      LimitBound(b, input);
      ghost var a := Avail(b, input);
      ParseByHead(a);
      var k := KindOf(b);
      if k.Err? {
        return Err(k.error);
      }
      ghost var h := HeadIn(a).value;
      if k.value.0 == KByte {
        if byteval == 0 {
          return Err(CanonInt);
        }
        kind := None;
        return Ok(byteval);
      }
      if k.value.0 == KList {
        return Err(ExpectedString);
      }
      if size > width {
        return Err(Overflow);
      }
      MoveSound(b, input, h.tag);
      ghost var content := a[h.tag..h.tag + h.size];
      assert a[h.tag..][..h.size] == content;
      var size := k.value.1;
      r := ReadInt(size);
      MoveTwice(b, h.tag, h.size);
      if r.Ok? && size > 0 && r.value == 0 {
        r := Err(CanonSize);
      }
    }

    /** `readInt`: zero for no bytes; for an unknown sign byte, zero too. */
    method ReadInt(size: nat) returns (r: Result<int>)
      requires Inv() && size <= Limit(At())
      modifies this`kind, this`remaining, this`stack, this`pos
      ensures Inv() && kind == None
      ensures var c := old(Avail(At(), input))[..size];
        && (r.Ok? <==> size != 1 && (size > 1 ==> c[1] != 0))
        && (r.Ok? ==> size <= old(remaining) && At() == Move(old(At()), size))
        && (r.Ok? && size == 0 ==> r.value == 0)
        && (r.Ok? && size > 1 ==>
           r.value == if c[0] == PLUS then Value(c[1..]) else if c[0] == MINUS then 0 - Value(c[1..]) else 0)
        && (r.Ok? && size > 1 ==> Value(c[1..]) > 0)
      ensures r.Err? ==> r.error in {CanonSize, CanonInt}
    {
      hide Parse, ParseAll, ReadHead, Sound, Header, Value;
      LimitBound(At(), input);
      ghost var b := At();
      ghost var c := Avail(b, input);
      if size == 0 {
        kind := None;
        MoveZero(b);
        return Ok(0);
      }
      if size == 1 {
        kind := None;
        return Err(CanonSize);
      }
      var sign := ReadByte();
      MoveSound(b, input, 1);
      var f := ReadFull(size - 1);
      MoveTwice(b, 1, size - 1);
      assert f.value == c[..size][1..];
      if f.value[0] == 0 {
        return Err(CanonInt);
      }
      PositiveValue(f.value);
      var abs: int := Value(f.value);
      return Ok(if sign.value == 0x01 then abs else if sign.value == 0x80 then 0 - abs else 0);
    }

    /** `Raw`: the bytes of the next value, its header made anew. They are the bytes that were read. */
    method Raw(ghost b: State) returns (r: Result<seq<Byte>>)
      requires Starts(b)
      modifies this
      ensures Inv() && (r.Ok? <==> HeadIn(Avail(b, input)).Some?)
      ensures r.Ok? ==> var h := HeadIn(Avail(b, input)).value; var n := h.tag + h.size;
        n <= b.remaining && At() == Move(b, n) && kind == None && r.value == Avail(b, input)[..n]
    {
      hide Parse, ParseAll, ReadHead, Avail, Sound, Header, Value;
      LimitBound(b, input);
      ghost var a := Avail(b, input);
      var k := KindOf(b);
      if k.Err? {
        return Err(k.error);
      }
      if k.value.0 == KByte {
        ParseByHead(a);
        kind := None;
        assert a[..1] == [byteval];
        return Ok([byteval]);
      }
      var bytes := RawHeaded(b, k.value.0, k.value.1);
      return Ok(bytes);
    }

    /** `Raw` of a value that has a header: the header anew, and the content as it is read. */
    method RawHeaded(ghost b: State, k: Kind, n: nat) returns (r: seq<Byte>)
      requires Peeked(b) && k == kind.value != KByte && n == size
      modifies this
      ensures Inv() && kind == None
      ensures var h := HeadIn(Avail(b, input)).value; var n := h.tag + h.size;
        n <= b.remaining && At() == Move(b, n) && r == Avail(b, input)[..n]
    {
      hide Parse, ParseAll, ReadHead, Avail, Sound, Header, Value;
      LimitBound(b, input);
      ghost var a := Avail(b, input);
      ghost var h := HeadIn(a).value;
      HeadCanonical(a);
      MoveSound(b, input, h.tag);
      var f := ReadFull(size);
      assert a[..h.tag] + a[h.tag..][..h.size] == a[..h.tag + h.size];
      MoveTwice(b, h.tag, h.size);
      var small, large := if k == KString then 0x80 else 0xC0, if k == KString then 0xB7 else 0xF7;
      RlpEncode.PutHeadIsHeader(small, large, n);
      return RlpEncode.PutHead(small, large, n) + f.value;
    }

    /** `decodeInterface`: the next value, whatever it is. */
    method DecodeInterface(ghost b: State) returns (r: Result<Item>)
      requires Inv() && kind == None && At() == b
      modifies this
      ensures Inv() && (r.Ok? <==> Parse(Avail(b, input)).Some?)
      ensures r.Ok? ==> var (x, n) := Parse(Avail(b, input)).value;
        r.value == x && n <= b.remaining && At() == Move(b, n) && kind == None
      ensures r == Err(EndOfLine) <==> b.stack != [] && Limit(b) == 0
      ensures r == Err(EndOfLine) ==> At() == b && kind == None
      decreases Limit(b), 1
    {
      hide Parse, ParseAll, ReadHead, Avail, Sound, Header, Value;
      LimitBound(b, input);
      ParseByHead(Avail(b, input));
      var k := KindOf(b);
      if k.Err? {
        return Err(k.error);
      }
      if k.value.0 == KList {
        r := DecodeListSlice(b);
      } else {
        var bytes := Bytes(b);
        return if bytes.Ok? then Ok(Str(bytes.value)) else Err(bytes.error);
      }
    }

    /** `decodeListSlice`. */
    method DecodeListSlice(ghost b: State) returns (r: Result<Item>)
      requires Peeked(b) && kind == Some(KList) && Limit(b) > 0
      modifies this
      ensures Inv() && (r.Ok? <==> Parse(Avail(b, input)).Some?)
      ensures r.Ok? ==> var (x, n) := Parse(Avail(b, input)).value;
        r.value == x && n <= b.remaining && At() == Move(b, n) && kind == None
      ensures r.Err? ==> r.error != EndOfLine
      decreases Limit(b), 0
    {
      hide Parse, ParseAll, ReadHead, Avail, Sound, Header, Value;
      LimitBound(b, input);
      ghost var a := Avail(b, input);
      ParseByHead(a);
      ghost var h := HeadIn(a).value;
      MoveSound(b, input, h.tag);
      ghost var c := Move(b, h.tag);
      PushSound(c, input, h.size);
      LimitBound(c, input);
      assert a[h.tag..][..h.size] == a[h.tag..h.tag + h.size];
      var size := ListStart(b);
      var items := [];
      if size.value != 0 {
        var elems := DecodeSliceElems(Push(c, h.size));
        if elems.Err? {
          return Err(elems.error);
        }
        items := elems.value;
      } else {
        MoveZero(Push(c, h.size));
        NothingParsed(a[h.tag..h.tag + h.size]);
      }
      PushMovePop(c, h.size);
      MoveTwice(b, h.tag, h.size);
      var e := ListEnd();
      return Ok(List(items));
    }

    /** `decodeSliceElems`: values until the end of the list. */
    method DecodeSliceElems(ghost c: State) returns (r: Result<seq<Item>>)
      requires Inv() && kind == None && At() == c && c.stack != []
      modifies this
      ensures Inv() && (r.Ok? <==> ParseAll(Avail(c, input)).Some?)
      ensures r.Ok? ==>
        0 <= Limit(c) <= c.remaining && r.value == ParseAll(Avail(c, input)).value && At() == Move(c, Limit(c))
          && kind == None
      ensures r.Err? ==> r.error != EndOfLine
      decreases Limit(c), 2
    {
      hide Parse, ParseAll, ReadHead, Avail, Sound, Header, Value, CutAt, Limit;
      LimitBound(c, input);
      ghost var a := Avail(c, input);
      var items := [];
      ghost var m := 0;
      MoveZero(c);
      CutStart(a);
      while true
        invariant Inv() && kind == None && 0 <= m <= Limit(c) && At() == Move(c, m) && Avail(At(), input) == a[m..]
        invariant CutAt(a, m, items)
        decreases Limit(c) - m
      {
        MoveSound(c, input, m);
        var x := DecodeInterface(At());
        if x == Err(EndOfLine) {
          CutEnd(a, m, items);
          return Ok(items);
        }
        CutNext(a, m, items);
        if x.Err? {
          return Err(x.error);
        }
        ghost var n := Parse(a[m..]).value.1;
        MoveTwice(c, m, n);
        MoveSound(c, input, m + n);
        assert a[m..][n..] == a[m + n..];
        items := items + [x.value];
        m := m + n;
      }
    }

    // -------------------------------------------------------------- typed values

    /** The next value, at `b`, was read as the value of type `t` that it stands for, if it stands for one. */
    ghost predicate ReadAs(b: State, t: Type, r: Result<Val>)
      requires Sound(b, input)
      reads this
    {
      var p := Parse(Avail(b, input));
      && (r.Ok? <==> p.Some? && FromItem(t, p.value.0).Some?)
      && (r.Ok? ==>
         Some(r.value) == FromItem(t, p.value.0) && p.value.1 <= b.remaining && At() == Move(b, p.value.1)
           && kind == None)
      && (r == Err(EndOfLine) <==> b.stack != [] && Limit(b) == 0)
      && (r == Err(EndOfLine) ==> At() == b && kind == None)
    }

    /** The decoder of a type. */
    method DecodeTyped(t: Type, ghost b: State) returns (r: Result<Val>)
      requires Starts(b) && ValidType(t)
      modifies this
      ensures Inv() && ReadAs(b, t, r)
      decreases Limit(b), t, 1
    {
      hide Parse, ParseAll, ReadHead, Avail, Sound, Header, Value, IntOf;
      LimitBound(b, input);
      match t
      case TUint(w) =>
        var n := Uint(w, b);
        r := if n.Ok? then Ok(VUint(n.value)) else Err(n.error);
      case TInt(w) =>
        var n := Int(w, b);
        r := if n.Ok? then Ok(VInt(n.value)) else Err(n.error);
      case TBool =>
        r := DecodeBool(b);
      case TBytes =>
        var bytes := Bytes(b);
        r := if bytes.Ok? then Ok(VBytes(bytes.value)) else Err(bytes.error);
      case TByteArray(len) =>
        var bytes := DecodeByteArray(len, b);
        r := if bytes.Ok? then Ok(VBytes(bytes.value)) else Err(bytes.error);
      case TBigInt =>
        r := DecodeBigInt(b);
      case TSlice(e) =>
        r := DecodeSlice(e, b);
      case TStruct(fs) =>
        r := DecodeStruct(fs, b);
      case TPointer(e) =>
        var v := DecodeTyped(e, b);
        r := if v.Ok? then Ok(VRef(v.value)) else Err(v.error);
      case TOptional(e) =>
        r := DecodeOptional(e, b);
    }

    /** `Bool`. */
    method DecodeBool(ghost b: State) returns (r: Result<Val>)
      requires Starts(b)
      modifies this
      ensures Inv() && ReadAs(b, TBool, r)
    {
      hide Parse, ParseAll, ReadHead, Avail, Sound, Header;
      var num := Uint(1, b);
      if num.Err? {
        if Parse(Avail(b, input)).Some? { NoBool(Parse(Avail(b, input)).value.0); }
        return Err(num.error);
      }
      ghost var x := Parse(Avail(b, input)).value.0;
      OneByte(x.bytes);
      if num.value == 0 {
        return Ok(VBool(false));
      } else if num.value == 1 {
        return Ok(VBool(true));
      }
      return Err(InvalidBool);
    }

    /** `decodeBigInt`. */
    method DecodeBigInt(ghost b: State) returns (r: Result<Val>)
      requires Starts(b)
      modifies this
      ensures Inv() && ReadAs(b, TBigInt, r)
    {
      hide Parse, ParseAll, ReadHead, Avail, Sound, Header, Value;
      var bytes := Bytes(b);
      if bytes.Err? {
        return Err(bytes.error);
      }
      if |bytes.value| > 0 && bytes.value[0] == 0 {
        return Err(CanonInt);
      }
      return Ok(VUint(Value(bytes.value)));
    }

    /** The next value is a single zero byte. */
    ghost predicate BareZero(b: State)
      requires Sound(b, input)
      reads this
    {
      HeadIn(Avail(b, input)).Some? && HeadIn(Avail(b, input)).value.kind == KByte && Avail(b, input)[0] == 0
    }

    /**
      `decodeByteArray`. For an array of one byte it reads a bare byte as a number and ignores the error, so that a
      zero is taken for the value and is still the next value.
     */
    method DecodeByteArray(len: nat, ghost b: State) returns (r: Result<seq<Byte>>)
      requires Starts(b)
      modifies this
      ensures Inv() && (r == Err(EndOfLine) <==> b.stack != [] && Limit(b) == 0)
        && (r == Err(EndOfLine) ==> At() == b && kind == None)
      ensures len == 1 && BareZero(b) ==> r == Ok([0]) && Peeked(b)
      ensures !(len == 1 && BareZero(b)) ==>
        var p := Parse(Avail(b, input)); r.Ok? <==> p.Some? && p.value.0.Str? && |p.value.0.bytes| == len
      ensures !(len == 1 && BareZero(b)) && r.Ok? ==>
        var (x, n) := Parse(Avail(b, input)).value;
          r.value == x.bytes && n <= b.remaining && At() == Move(b, n) && kind == None
    {
      hide Parse, ParseAll, ReadHead, Avail, Sound, Header, Value;
      LimitBound(b, input);
      ghost var a := Avail(b, input);
      ParseByHead(a);
      var k := KindOf(b);
      if k.Err? {
        return Err(k.error);
      }
      ghost var h := HeadIn(a).value;
      MoveSound(b, input, h.tag);
      if k.value.0 == KByte {
        if len == 0 {
          return Err(TooLong);
        }
        if len > 1 {
          return Err(TooShort);
        }
        r := DecodeOneByte(b);
        return;
      }
      if k.value.0 == KList {
        return Err(ExpectedString);
      }
      if len < size {
        return Err(TooLong);
      }
      if len > size {
        return Err(TooShort);
      }
      var f := ReadFull(len);
      assert f.value == a[h.tag..][..h.size] == a[h.tag..h.tag + h.size];
      MoveTwice(b, h.tag, h.size);
      if |f.value| == 1 && f.value[0] < 128 {
        return Err(CanonSize);
      }
      return Ok(f.value);
    }

    /** A bare byte into an array of one. */
    method DecodeOneByte(ghost b: State) returns (r: Result<seq<Byte>>)
      requires Peeked(b) && kind == Some(KByte) && Limit(b) > 0
      modifies this
      ensures Inv() && r.Ok? && r.value == [Avail(b, input)[0]]
      ensures if Avail(b, input)[0] == 0 then Peeked(b) else 1 <= b.remaining && At() == Move(b, 1) && kind == None
    {
      hide ParseAll, ReadHead, Avail, Sound, Header;
      ghost var a := Avail(b, input);
      ParseByHead(a);
      OneByte([a[0]]);
      var bv := Uint(8, b);
      return Ok([if bv.Ok? then bv.value else 0]);
    }

    /** `makeOptionalPtrDecoder`: an empty value is nil, and is passed over. */
    method DecodeOptional(e: Type, ghost b: State) returns (r: Result<Val>)
      requires Starts(b) && ValidType(e)
      modifies this
      ensures Inv() && ReadAs(b, TOptional(e), r)
      decreases Limit(b), TOptional(e), 0
    {
      hide Parse, ParseAll, ReadHead, Avail, Sound, Header, Value, FromItem, HeadIn;
      LimitBound(b, input);
      ghost var a := Avail(b, input);
      NoHead(a);
      var k := KindOf(b);
      if k.Err? {
        kind := None;
        r := Err(k.error);
      } else if k.value.1 == 0 && k.value.0 != KByte {
        EmptyIsNil(e, a);
        MoveSound(b, input, HeadIn(a).value.tag);
        kind := None;
        r := Ok(VNil);
      } else {
        NotEmpty(e, a);
        var v := DecodeTyped(e, b);
        r := if v.Ok? then Ok(VRef(v.value)) else Err(v.error);
      }
    }

    /** `decodeListSlice` of a type. */
    method DecodeSlice(e: Type, ghost b: State) returns (r: Result<Val>)
      requires Starts(b) && ValidType(e)
      modifies this
      ensures Inv() && ReadAs(b, TSlice(e), r)
      decreases Limit(b), TSlice(e), 0
    {
      hide Parse, ParseAll, ReadHead, Avail, Sound, Header, Value, FromItem, AllRead, Reads;
      LimitBound(b, input);
      ghost var a := Avail(b, input);
      ParseByHead(a);
      var size := ListStart(b);
      if size.Err? {
        NoList(TSlice(e));
        r := Err(size.error);
      } else {
        r := DecodeRest(e, size.value, b);
      }
    }

    /** The rest of it, inside the list. */
    method DecodeRest(e: Type, size: nat, ghost b: State) returns (r: Result<Val>)
      requires Sound(b, input) && HeadIn(Avail(b, input)).Some? && kind == None && ValidType(e)
      requires var h := HeadIn(Avail(b, input)).value;
        h.kind == KList && size == h.size && h.tag <= b.remaining && At() == Push(Move(b, h.tag), h.size)
      modifies this
      ensures Inv() && ReadAs(b, TSlice(e), r)
      decreases Limit(b), e, 4
    {
      hide Parse, ParseAll, ReadHead, Avail, Sound, Header, Value, FromItem, AllRead, Reads;
      LimitBound(b, input);
      ParseByHead(Avail(b, input));
      ghost var c, content := InList(b);
      var vs := DecodeIfAny(e, size, c);
      if vs.Err? {
        if ParseAll(content).Some? { SliceUnread(e, ParseAll(content).value); }
        r := Err(vs.error);
      } else {
        var end := ListEnd();
        SliceRead(e, ParseAll(content).value, vs.value);
        r := Ok(VSeq(vs.value));
      }
    }

    /** The elements of a list that has any. */
    method DecodeIfAny(e: Type, size: nat, ghost c: State) returns (r: Result<seq<Val>>)
      requires Inv() && kind == None && At() == c && c.stack != [] && ValidType(e) && size == Limit(c)
      modifies this
      ensures Inv() && (r.Ok? <==> ParseAll(Avail(c, input)).Some? && AllRead(e, ParseAll(Avail(c, input)).value))
      ensures r.Ok? ==>
        Reads(e, ParseAll(Avail(c, input)).value, r.value) && size <= c.remaining && At() == Move(c, size)
          && kind == None
      ensures r.Err? ==> r.error != EndOfLine
      decreases Limit(c), e, 3
    {
      hide Parse, ParseAll, ReadHead, Avail, Sound, Header, Value, FromItem;
      if size == 0 {
        MoveZero(c);
        NothingParsed(Avail(c, input));
        return Ok([]);
      }
      r := DecodeElems(e, c);
    }

    /** Where reading goes on in a list, and back to after it. */
    lemma {:induction false} InList(b: State) returns (c: State, content: seq<Byte>)
      requires Sound(b, input) && HeadIn(Avail(b, input)).Some? && HeadIn(Avail(b, input)).value.kind == KList
      requires HeadIn(Avail(b, input)).value.tag <= b.remaining
      ensures var h := HeadIn(Avail(b, input)).value;
        && c == Push(Move(b, h.tag), h.size) && Sound(c, input) && c.stack != []
        && content == Avail(b, input)[h.tag..h.tag + h.size]
        && Avail(c, input) == content && 0 <= Limit(c) == h.size < Limit(b) && h.tag + h.size <= b.remaining
        && h.size <= c.remaining
        && Pop(Move(c, h.size)) == Move(b, h.tag + h.size) && Move(c, h.size).stack != []
        && Move(c, h.size).stack[|c.stack| - 1].pos == Move(c, h.size).stack[|c.stack| - 1].size
    {
      hide Avail, Sound, ReadHead;
      LimitBound(b, input);
      var a := Avail(b, input);
      var h := HeadIn(a).value;
      MoveSound(b, input, h.tag);
      var d := Move(b, h.tag);
      PushSound(d, input, h.size);
      LimitBound(d, input);
      content := a[h.tag..h.tag + h.size];
      assert a[h.tag..][..h.size] == content;
      c := Push(d, h.size);
      PushMovePop(d, h.size);
      MoveTwice(b, h.tag, h.size);
    }

    /** `decodeSliceElems` of a type: values until the end of the list. */
    method DecodeElems(e: Type, ghost c: State) returns (r: Result<seq<Val>>)
      requires Inv() && kind == None && At() == c && c.stack != [] && ValidType(e)
      modifies this
      ensures Inv() && (r.Ok? <==> ParseAll(Avail(c, input)).Some? && AllRead(e, ParseAll(Avail(c, input)).value))
      ensures r.Ok? ==>
        Reads(e, ParseAll(Avail(c, input)).value, r.value) && 0 <= Limit(c) <= c.remaining
          && At() == Move(c, Limit(c)) && kind == None
      ensures r.Err? ==> r.error != EndOfLine
      decreases Limit(c), e, 2
    {
      hide Parse, ParseAll, ReadHead, Avail, Sound, Header, Value, CutAt, FromItem, Reads, AllRead, Limit;
      NoneRead(e);
      LimitBound(c, input);
      ghost var a := Avail(c, input);
      var vs := [];
      ghost var m, done: seq<Item> := 0, [];
      MoveZero(c);
      CutStart(a);
      while true
        invariant Inv() && kind == None && 0 <= m <= Limit(c) && At() == Move(c, m) && Avail(At(), input) == a[m..]
        invariant CutAt(a, m, done) && Reads(e, done, vs)
        decreases Limit(c) - m
      {
        MoveSound(c, input, m);
        var x := DecodeTyped(e, At());
        if x == Err(EndOfLine) {
          CutEnd(a, m, done);
          AllOfThem(e, done, vs);
          return Ok(vs);
        }
        CutNext(a, m, done);
        if x.Err? {
          ReadFails(e, a, m, done);
          return Err(x.error);
        }
        ghost var p := Parse(a[m..]).value;
        MoveTwice(c, m, p.1);
        MoveSound(c, input, m + p.1);
        assert a[m..][p.1..] == a[m + p.1..];
        ReadsNext(e, done, vs, p.0, x.value);
        vs := vs + [x.value];
        m, done := m + p.1, done + [p.0];
      }
    }

    /** `makeStructDecoder`: each field in its turn, and nothing after the last. */
    method DecodeStruct(fs: seq<Type>, ghost b: State) returns (r: Result<Val>)
      requires Starts(b) && ValidType(TStruct(fs))
      modifies this
      ensures Inv() && ReadAs(b, TStruct(fs), r)
      decreases Limit(b), TStruct(fs), 0
    {
      hide Parse, ParseAll, ReadHead, Avail, Sound, Header, Value, FromItem;
      LimitBound(b, input);
      ParseByHead(Avail(b, input));
      var size := ListStart(b);
      if size.Err? {
        NoList(TStruct(fs));
        r := Err(size.error);
      } else {
        r := DecodeFieldsTo(fs, b);
      }
    }

    /** The rest of it, inside the list. */
    method DecodeFieldsTo(fs: seq<Type>, ghost b: State) returns (r: Result<Val>)
      requires Sound(b, input) && HeadIn(Avail(b, input)).Some? && kind == None && ValidType(TStruct(fs))
      requires var h := HeadIn(Avail(b, input)).value;
        h.kind == KList && h.tag <= b.remaining && At() == Push(Move(b, h.tag), h.size)
      modifies this
      ensures Inv() && ReadAs(b, TStruct(fs), r)
      decreases Limit(b), fs, 4
    {
      hide Parse, ParseAll, ReadHead, Avail, Sound, Header, Value, FromItem, CutAt, FieldsAre, FieldsRead, Move, Pop,
           Push, Bump;
      LimitBound(b, input);
      ParseByHead(Avail(b, input));
      ghost var c, content := InList(b);
      var vs;
      ghost var m, done;
      vs, m, done := DecodeFields(fs, c);
      if vs.Err? {
        if ParseAll(content).Some? { StructUnread(fs, ParseAll(content).value); }
        r := Err(vs.error);
      } else {
        HowFar(Move(b, HeadIn(Avail(b, input)).value.tag), |content|, m);
        var end := ListEnd();
        CutDone(content, m, done);
        if end != None {
          if ParseAll(content).Some? { StructUnread(fs, ParseAll(content).value); }
          r := Err(end.value);
        } else {
          StructRead(fs, done, vs.value);
          r := Ok(VSeq(vs.value));
        }
      }
    }

    /** The fields of a structure. */
    method DecodeFields(fs: seq<Type>, ghost c: State)
      returns (r: Result<seq<Val>>, ghost m: nat, ghost done: seq<Item>)
      requires Inv() && kind == None && At() == c && c.stack != [] && ValidType(TStruct(fs))
        && 0 <= Limit(c) <= c.remaining
      modifies this
      ensures Inv() && (r.Err? ==> ParseAll(Avail(c, input)).None? || !FieldsRead(fs, ParseAll(Avail(c, input)).value))
      ensures r.Ok? ==> |done| == |fs| && FieldsAre(fs, done, r.value) && CutAt(Avail(c, input), m, done)
      ensures r.Ok? ==> m <= Limit(c) && At() == Move(c, m) && kind == None
      ensures r.Err? ==> r.error != EndOfLine
      decreases Limit(c), TStruct(fs), 2
    {
      hide Parse, ParseAll, ReadHead, Avail, Sound, Header, Value;
      LimitBound(c, input);
      ghost var a := Avail(c, input);
      var vs := [];
      m, done := 0, [];
      MoveZero(c);
      CutStart(a);
      for i := 0 to |fs|
        invariant Inv() && kind == None && 0 <= m <= Limit(c) && At() == Move(c, m) && Avail(At(), input) == a[m..]
        invariant CutAt(a, m, done) && |done| == i && FieldsAre(fs, done, vs)
      {
        MoveSound(c, input, m);
        var x := DecodeTyped(fs[i], At());
        if x == Err(EndOfLine) {
          CutEnd(a, m, done);
          return Err(TooFew), m, done;
        }
        CutNext(a, m, done);
        if x.Err? {
          FieldFails(fs, a, m, done);
          return Err(x.error), m, done;
        }
        ghost var p := Parse(a[m..]).value;
        MoveTwice(c, m, p.1);
        MoveSound(c, input, m + p.1);
        assert a[m..][p.1..] == a[m + p.1..];
        vs := vs + [x.value];
        m, done := m + p.1, done + [p.0];
      }
      r := Ok(vs);
    }
  }

  /** `DecodeBytes` into an interface: accepts exactly the canonical encodings, and each for its own value. */
  method DecodeBytes(b: seq<Byte>) returns (r: Result<Item>)
    ensures forall x :: r == Ok(x) <==> Fits(x) && Encode(x) == b
  {
    var s := new Stream(b);
    r := s.DecodeInterface(s.At());
    if r.Ok? && s.remaining > 0 {
      r := Err(MoreThanOneValue);
    }
    var n: nat := |b|;
    forall x: Item ensures Parse(b) == Some((x, n)) <==> Fits(x) && Encode(x) == b { CanonicalBijection(b, x); }
  }

  /** `DecodeBytes` into a type: gives exactly the value that the bytes stand for, if they stand for one. */
  method DecodeTypedBytes(t: Type, b: seq<Byte>) returns (r: Result<Val>)
    requires ValidType(t)
    ensures forall v :: r == Ok(v) <==> Meaning(t, b) == Some(v)
  {
    var s := new Stream(b);
    r := s.DecodeTyped(t, s.At());
    if r.Ok? && s.remaining > 0 {
      r := Err(MoreThanOneValue);
    }
  }

  /** A typed value through the encoder and the decoder: it comes out again if and only if it is restorable. */
  method ThereAndBack(t: Type, v: Val) returns (r: Option<Result<Val>>)
    requires ValidType(t) && HasType(t, v) && Fits(ToItem(t, v)) && |Encode(ToItem(t, v))| < Pow256(8)
    ensures r == None <==> !Writable(t, v)
    ensures r == Some(Ok(v)) <==> Restorable(t, v)
  {
    if Restorable(t, v) { RestorableWritable(t, v); }
    TypedRoundTrip(t, v);
    var out := RlpEncode.EncodeTyped(t, v);
    if out == None {
      return None;
    }
    var back := DecodeTypedBytes(t, out.value[..]);
    return Some(back);
  }

  /**
    Wherever an array of one byte is read from a bare zero, the zero is read again as whatever comes next, and is
    no number.
   */
  method ZeroReadTwice(s: Stream, ghost b: State) returns (bytes: Result<seq<Byte>>, number: Result<nat>)
    requires s.Starts(b) && s.BareZero(b)
    modifies s
    ensures bytes == Ok([0]) && number.Err?
  {
    hide Parse, ParseAll, ReadHead, Avail, Sound, Header, Value;
    ParseByHead(Avail(b, s.input));
    bytes := s.DecodeByteArray(1, b);
    number := s.Uint(8, b);
  }

  // ---------------------------------------------------------------- lists of typed values

  ghost predicate AllRead(e: Type, xs: seq<Item>) {
    forall i :: 0 <= i < |xs| ==> FromItem(e, xs[i]).Some?
  }

  /** The items stand for these values. */
  ghost predicate Reads(e: Type, xs: seq<Item>, vs: seq<Val>) {
    |vs| == |xs| && forall i :: 0 <= i < |xs| ==> FromItem(e, xs[i]) == Some(vs[i])
  }

  ghost predicate FieldsRead(fs: seq<Type>, xs: seq<Item>) {
    |xs| == |fs| && forall i :: 0 <= i < |fs| ==> FromItem(fs[i], xs[i]).Some?
  }

  ghost predicate FieldsAre(fs: seq<Type>, xs: seq<Item>, vs: seq<Val>) {
    |vs| == |xs| <= |fs| && forall i :: 0 <= i < |xs| ==> FromItem(fs[i], xs[i]) == Some(vs[i])
  }

  /** Up to `m` there are the items `done`, and all of `a` consists of items if and only if the rest does. */
  ghost predicate CutAt(a: seq<Byte>, m: nat, done: seq<Item>) {
    && m <= |a| && (ParseAll(a).Some? <==> ParseAll(a[m..]).Some?)
    && (ParseAll(a).Some? ==> ParseAll(a).value == done + ParseAll(a[m..]).value)
  }

  lemma {:induction false} CutStart(a: seq<Byte>)
    ensures CutAt(a, 0, [])
  {
    assert a[0..] == a;
  }

  lemma {:induction false} CutNext(a: seq<Byte>, m: nat, done: seq<Item>)
    requires CutAt(a, m, done) && m < |a|
    ensures Parse(a[m..]) == None ==> ParseAll(a) == None
    ensures Parse(a[m..]).Some? ==> var (x, n) := Parse(a[m..]).value; CutAt(a, m + n, done + [x])
  {
    if Parse(a[m..]).Some? {
      assert a[m..][Parse(a[m..]).value.1..] == a[m + Parse(a[m..]).value.1..];
    }
  }

  lemma {:induction false} CutEnd(a: seq<Byte>, m: nat, done: seq<Item>)
    requires CutAt(a, m, done) && m == |a|
    ensures ParseAll(a) == Some(done)
  {
    assert a[m..] == [] && done + [] == done;
  }

  /** With something left there are more items, or none at all. */
  lemma {:induction false} CutDone(a: seq<Byte>, m: nat, done: seq<Item>)
    requires CutAt(a, m, done)
    ensures m == |a| ==> ParseAll(a) == Some(done)
    ensures m < |a| ==> ParseAll(a) == None || |ParseAll(a).value| > |done|
  {
    if m < |a| { CutNext(a, m, done); } else { CutEnd(a, m, done); }
  }

  lemma {:induction false} StructRead(fs: seq<Type>, xs: seq<Item>, vs: seq<Val>)
    requires FieldsAre(fs, xs, vs) && |xs| == |fs|
    ensures FromItem(TStruct(fs), List(xs)) == Some(VSeq(vs))
  {
    assert FromItem(TStruct(fs), List(xs)).value.vs == vs;
  }

  lemma {:induction false} StructUnread(fs: seq<Type>, xs: seq<Item>)
    requires !FieldsRead(fs, xs) || |xs| != |fs|
    ensures FromItem(TStruct(fs), List(xs)) == None
  {
  }

  lemma {:induction false} NoneRead(e: Type)
    ensures Reads(e, [], [])
  {
  }

  lemma {:induction false} AllOfThem(e: Type, xs: seq<Item>, vs: seq<Val>)
    requires Reads(e, xs, vs)
    ensures AllRead(e, xs)
  {
  }

  lemma {:induction false} ReadsNext(e: Type, xs: seq<Item>, vs: seq<Val>, x: Item, v: Val)
    requires Reads(e, xs, vs) && FromItem(e, x) == Some(v)
    ensures Reads(e, xs + [x], vs + [v])
  {
  }

  lemma {:induction false} ReadFails(e: Type, a: seq<Byte>, m: nat, done: seq<Item>)
    requires CutAt(a, m, done) && m < |a| && (Parse(a[m..]).Some? ==> FromItem(e, Parse(a[m..]).value.0) == None)
    ensures ParseAll(a) == None || !AllRead(e, ParseAll(a).value)
  {
    CutNext(a, m, done);
    if ParseAll(a).Some? { assert ParseAll(a).value[|done|] == Parse(a[m..]).value.0; }
  }

  lemma {:induction false} FieldFails(fs: seq<Type>, a: seq<Byte>, m: nat, done: seq<Item>)
    requires CutAt(a, m, done) && m < |a| && |done| < |fs|
      && (Parse(a[m..]).Some? ==> FromItem(fs[|done|], Parse(a[m..]).value.0) == None)
    ensures ParseAll(a) == None || !FieldsRead(fs, ParseAll(a).value)
  {
    CutNext(a, m, done);
    if ParseAll(a).Some? { assert ParseAll(a).value[|done|] == Parse(a[m..]).value.0; }
  }

  lemma {:induction false} SliceRead(e: Type, xs: seq<Item>, vs: seq<Val>)
    requires Reads(e, xs, vs)
    ensures FromItem(TSlice(e), List(xs)) == Some(VSeq(vs))
  {
    assert FromItem(TSlice(e), List(xs)).value.vs == vs;
  }

  lemma {:induction false} SliceUnread(e: Type, xs: seq<Item>)
    requires !AllRead(e, xs)
    ensures FromItem(TSlice(e), List(xs)) == None
  {
  }

  /** A string is no list. */
  lemma {:induction false} NoList(t: Type)
    requires t.TSlice? || t.TStruct?
    ensures forall bytes :: FromItem(t, Str(bytes)) == None
  {
  }

  lemma {:induction false} NoHead(a: seq<Byte>)
    ensures HeadIn(a) == None ==> Parse(a) == None
  {
    ParseByHead(a);
  }

  /** An empty value is read as nil. */
  lemma {:induction false} EmptyIsNil(e: Type, a: seq<Byte>)
    requires HeadIn(a).Some? && HeadIn(a).value.size == 0 && HeadIn(a).value.kind != KByte
    ensures Parse(a).Some? && Parse(a).value.1 == HeadIn(a).value.tag
      && FromItem(TOptional(e), Parse(a).value.0) == Some(VNil)
  {
    hide Parse, ReadHead;
    ParseByHead(a);
    var h := HeadIn(a).value;
    NothingParsed(a[h.tag..h.tag + h.size]);
  }

  /** Any other value is read as what it is. */
  lemma {:induction false} NotEmpty(e: Type, a: seq<Byte>)
    requires HeadIn(a).Some? && (HeadIn(a).value.size != 0 || HeadIn(a).value.kind == KByte)
    ensures Parse(a).Some? ==> var x := Parse(a).value.0;
      FromItem(TOptional(e), x) == if FromItem(e, x).Some? then Some(VRef(FromItem(e, x).value)) else None
  {
    hide Parse, ReadHead;
    ParseByHead(a);
    var h := HeadIn(a).value;
    SomeParsed(a[h.tag..h.tag + h.size]);
  }

  lemma {:induction false} SomeParsed(b: seq<Byte>)
    ensures ParseAll(b) == Some([]) ==> b == []
  {
  }

  /** A number of one byte. */
  lemma {:induction false} OneByte(b: seq<Byte>)
    ensures b == [] ==> Value(b) == 0
    ensures |b| == 1 ==> Value(b) == b[0]
    ensures |b| == 1 && b[0] == 1 ==> b == [1]
  {
    if |b| == 1 { assert b[..0] == [] && Value(b) == 256 * Value(b[..0]) + b[0]; }
  }

  lemma {:induction false} NoBool(x: Item)
    requires !(x.Str? && UintOf(x.bytes, 1).Some?)
    ensures FromItem(TBool, x) == None
  {
  }

  /** A list of `size` bytes of which `m` were read is at its end if and only if these are all. */
  lemma {:induction false} HowFar(d: State, size: nat, m: nat)
    requires m <= Push(d, size).remaining
    ensures var s := Move(Push(d, size), m).stack; s != [] && (s[|s| - 1].pos == s[|s| - 1].size <==> m == size)
  {
  }

  /** Parsing by cases of the header. */
  lemma {:induction false} ParseByHead(a: seq<Byte>)
    ensures HeadIn(a) == None ==> Parse(a) == None
    ensures HeadIn(a).Some? ==>
      var h := HeadIn(a).value;
      var content := a[h.tag..h.tag + h.size];
      match h.kind
      case KByte => a[0] < 0x80 && h.tag == 1 && h.size == 0 && Parse(a) == Some((Str([a[0]]), 1))
      case KString => Parse(a) == if h.size == 1 && content[0] < 128 then None else Some((Str(content), h.tag + h.size))
      case KList => Parse(a) == if ParseAll(content).None? then None
        else Some((List(ParseAll(content).value), h.tag + h.size))
  {
    hide ParseAll;
  }

  /** Only a single byte, or a number with leading zeros, is below 128. */
  lemma {:induction false} SmallValue(b: seq<Byte>)
    ensures |b| == 1 ==> Value(b) == b[0]
    ensures |b| > 1 && b[0] != 0 ==> Value(b) >= 128
  {
    if |b| == 1 {
      assert b[..0] == [] && Value(b) == 256 * Value(b[..0]) + b[0];
    } else if |b| > 1 && b[0] != 0 {
      PositiveValue(b[..|b| - 1]);
    }
  }

  lemma {:induction false} PositiveValue(b: seq<Byte>)
    requires b != [] && b[0] != 0
    ensures Value(b) > 0
  {
    if |b| == 1 {
    } else {
      PositiveValue(b[..|b| - 1]);
    }
  }

  lemma {:induction false} NothingParsed(b: seq<Byte>)
    requires |b| == 0
    ensures ParseAll(b) == Some([])
  {
  }

  lemma {:induction false} MoveZero(s: State)
    ensures Move(s, 0) == s
  {
    assert Bump(s.stack, 0) == s.stack;
  }
}
