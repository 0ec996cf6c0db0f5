/** The seven terminals of drivers/tty and their ring buffers. */
module Tty {
  import opened Basics
  import opened TtyModel

  const MAX_TTYS := 7

  class Tty {
    const id: nat
    const buffer: array<Byte>
    const conf: Config
    var head: nat
    var tail: nat
    var count: nat

    ghost predicate Valid()
      reads this
    {
      && buffer.Length == SIZE && Sane(conf)
      && tail < SIZE && count <= SIZE && head == (tail + count) % SIZE
    }

    /** The waiting text, oldest character first. */
    ghost function Text(): seq<Byte>
      requires Valid()
      reads this, buffer
    {
      Ring(buffer[..], tail, count)
    }

    constructor (id: nat)
      ensures Valid() && Text() == [] && this.id == id && conf == DEFAULTS && fresh(buffer)
    {
      this.id := id;
      buffer := new Byte[SIZE](_ => 0);
      conf := DEFAULTS;
      head, tail, count := 0, 0, 0;
    }

    method Erase()
      requires Valid()
      modifies this`head, this`count
      ensures Valid() && count == if old(count) > 0 then old(count) - 1 else 0
      ensures Text() == if old(count) > 0 then old(Text())[..old(count) - 1] else old(Text())
    {
      if count > 0 {
        Unpush(buffer[..], tail, count);
        BeforeEnd(tail, count);
        head := Before(head);
        count := count - 1;
      }
    }

    method Insert(c: Byte)
      requires Valid()
      modifies this`head, this`count, buffer
      ensures Valid()
      ensures Text() == if |old(Text())| < SIZE then old(Text()) + [Stored(c)] else old(Text())
    {
      if count < SIZE {
        Push(buffer[..], tail, count, Stored(c));
        buffer[head] := if c == CR then NL else c;
        assert buffer[..] == old(buffer[..])[(tail + count) % SIZE := Stored(c)];
        head := (head + 1) % SIZE;
        count := count + 1;
      }
    }

    /** tty_input on this terminal. Killing a line feeds it erase characters. */
    method Input(c: Byte)
      requires Valid()
      modifies this`head, this`count, buffer
      ensures Valid() && Text() == Typed(conf, old(Text()), c)
      decreases if c == conf.erase then 0 else 1
    {
      hide Ring;
      if conf.isig && c == conf.intr {
        return;
      }
      if conf.canon {
        if c == conf.erase || c == DEL {
          Erase();
          return;
        }
        if c == conf.kill {
          while count > 0 && buffer[Before(head)] != NL
            invariant Valid() && KeepLines(Text()) == KeepLines(old(Text()))
            decreases count
          {
            assert Text() != [] && Text()[|Text()| - 1] != NL by { LastStored(); }
            ghost var before := count;
            Input(conf.erase);
            assert count == |Text()| == before - 1;
          }
          assert KeepLines(Text()) == Text() by { if count > 0 { LastStored(); } }
          return;
        }
      }
      Insert(c);
    }

    lemma LastStored()
      requires Valid() && count > 0
      ensures |Text()| == count && buffer[Before(head)] == Text()[count - 1]
    {
      BeforeEnd(tail, count);
    }

    method Take() returns (c: Byte)
      requires Valid() && count > 0
      modifies this`tail, this`count
      ensures Valid() && count == old(count) - 1
      ensures old(Text()) == [c] + Text()
    {
      FirstStored();
      c := buffer[tail];
      Pop(buffer[..], tail, count);
      tail := (tail + 1) % SIZE;
      count := count - 1;
    }

    /** Takes the next character into place `i` of a buffer. */
    method TakeInto(userBuf: array<Byte>, i: nat, ghost text: seq<Byte>, ghost was: seq<Byte>) returns (c: Byte)
      requires Valid() && count > 0 && userBuf != buffer && i < |text| && i < userBuf.Length
      requires Moved(text, was, i, Text(), userBuf[..])
      modifies this`tail, this`count, userBuf
      ensures Valid() && c == text[i] && count == old(count) - 1
      ensures Moved(text, was, i + 1, Text(), userBuf[..])
    {
      hide Valid, Text, Ring;
      c := Take();
      TakeNext(text, i, c, Text(), was);
      userBuf[i] := c;
    }

    /** tty_read on this terminal, into a buffer that has room for what is taken. */
    method Read(userBuf: array<Byte>, n: int) returns (i: nat)
      requires Valid() && userBuf != buffer
      requires ReadLength(conf.canon, Text(), Unsigned(n)) <= userBuf.Length
      modifies this`tail, this`count, userBuf
      ensures Valid() && i == ReadLength(conf.canon, old(Text()), Unsigned(n))
      ensures userBuf[..] == old(Text())[..i] + old(userBuf[..])[i..]
      ensures Text() == old(Text())[i..]
    {
      hide Valid, Text, Ring, ReadLength, Unsigned, Moved;
      i := 0;
      var limit := Unsigned(n);
      ghost var text, was := Text(), userBuf[..];
      ghost var left := ReadLength(conf.canon, text, limit);
      ReadNext(conf.canon, text, 0, limit);
      NoneMoved(text, was);
      while i < limit && count > 0
        invariant Valid() && i <= limit && i <= |text| && Moved(text, was, i, Text(), userBuf[..])
        invariant ReadLength(conf.canon, text, limit) == i + left
        invariant left == ReadLength(conf.canon, text[i..], limit - i)
        decreases count
      {
        ReadNext(conf.canon, text, i, limit);
        Counted();
        MovedLength(text, was, i, Text(), userBuf[..]);
        var c := TakeInto(userBuf, i, text, was);
        i := i + 1;
        left := left - 1;
        if conf.canon && c == NL {
          break;
        }
      }
      Counted();
      MovedLength(text, was, i, Text(), userBuf[..]);
      ReadNext(conf.canon, text, i, limit);
      MovedIs(text, was, i, Text(), userBuf[..]);
    }

    lemma Counted()
      requires Valid()
      ensures |Text()| == count
    {
    }

    lemma FirstStored()
      requires Valid() && count > 0
      ensures |Text()| == count && Text()[0] == buffer[tail]
    {
    }
  }

  class Console {
    const ttys: seq<Tty>
    var active: nat

    ghost predicate Valid()
      reads this, ttys
    {
      && |ttys| == MAX_TTYS && active < MAX_TTYS
      && (forall i :: 0 <= i < MAX_TTYS ==> ttys[i].Valid() && ttys[i].id == i + 1)
      && (forall i, j :: 0 <= i < j < MAX_TTYS ==> ttys[i] != ttys[j] && ttys[i].buffer != ttys[j].buffer)
    }

    ghost function Text(i: nat): seq<Byte>
      requires i < |ttys| && ttys[i].Valid()
      reads ttys[i], ttys[i].buffer
    {
      ttys[i].Text()
    }

    /** tty_init: seven empty terminals with the default settings. */
    constructor ()
      ensures Valid() && active == 0 && |ttys| == 7
      ensures forall i :: 0 <= i < MAX_TTYS ==> Text(i) == [] && ttys[i].conf == DEFAULTS
    {
      var ts: seq<Tty> := [];
      while |ts| < MAX_TTYS
        invariant |ts| <= MAX_TTYS
        invariant forall i :: 0 <= i < |ts| ==> fresh(ts[i]) && fresh(ts[i].buffer)
        invariant forall i :: 0 <= i < |ts| ==>
          ts[i].Valid() && ts[i].id == i + 1 && ts[i].Text() == [] && ts[i].conf == DEFAULTS
        invariant forall i, j :: 0 <= i < j < |ts| ==> ts[i] != ts[j] && ts[i].buffer != ts[j].buffer
      {
        var t := new Tty(|ts| + 1);
        ts := ts + [t];
      }
      ttys := ts;
      active := 0;
    }

    /** tty_input: only the active terminal changes. */
    method Input(c: Byte)
      requires Valid()
      modifies ttys[active], ttys[active].buffer
      ensures Valid() && Text(active) == Typed(ttys[active].conf, old(Text(active)), c)
      ensures forall i :: 0 <= i < MAX_TTYS && i != active ==> Text(i) == old(Text(i))
    {
      ttys[active].Input(c);
    }

    /** tty_read: only the active terminal changes. */
    method Read(userBuf: array<Byte>, n: int) returns (i: nat)
      requires Valid() && forall k :: 0 <= k < MAX_TTYS ==> ttys[k].buffer != userBuf
      requires ReadLength(ttys[active].conf.canon, Text(active), Unsigned(n)) <= userBuf.Length
      modifies ttys[active], userBuf
      ensures Valid() && i == ReadLength(ttys[active].conf.canon, old(Text(active)), Unsigned(n))
      ensures userBuf[..] == old(Text(active))[..i] + old(userBuf[..])[i..]
      ensures Text(active) == old(Text(active))[i..]
      ensures forall k :: 0 <= k < MAX_TTYS && k != active ==> Text(k) == old(Text(k))
    {
      i := ttys[active].Read(userBuf, n);
    }

    /** tty_switch, as far as the input buffers go: a number that names no terminal, or the
        current one, changes nothing. */
    method Switch(id: int)
      requires Valid()
      modifies this`active
      ensures Valid() && active == if 1 <= id <= 7 then id - 1 else old(active)
      ensures forall i :: 0 <= i < MAX_TTYS ==> Text(i) == old(Text(i))
    {
      if id < 1 || id > MAX_TTYS || id == ttys[active].id {
        return;
      }
      active := id - 1;
    }
  }
}
