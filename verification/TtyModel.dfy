/** The line discipline of drivers/tty as operations on the text waiting in a terminal, and
    the ring of 2048 characters that stores this text. */
module TtyModel {
  import opened Basics

  const SIZE := 2048

  const NL: Byte := 10
  const CR: Byte := 13
  const DEL: Byte := 127

  datatype Config = Config(canon: bool, isig: bool, intr: Byte, erase: Byte, kill: Byte)

  /** What tty_init sets. */
  const DEFAULTS := Config(true, true, 3, 8, 21)

  /** Killing a line feeds the erase character back; it must get through as one. */
  predicate Sane(conf: Config) {
    conf.erase < 128 && !(conf.isig && conf.erase == conf.intr)
  }

  // ---------------------------------------------------------------- the discipline

  /** The text up to and including its last newline. */
  function KeepLines(text: seq<Byte>): (r: seq<Byte>)
    ensures r <= text && (r == [] || r[|r| - 1] == NL)
    ensures NL !in text[|r|..]
  {
    if text == [] || text[|text| - 1] == NL then text
    else
      var r := KeepLines(text[..|text| - 1]);
      assert text[|r|..] == text[..|text| - 1][|r|..] + [text[|text| - 1]];
      r
  }

  function Stored(c: Byte): Byte {
    if c == CR then NL else c
  }

  /** An ordinary character is one that tty_input stores. */
  predicate Ordinary(conf: Config, c: Byte) {
    !(conf.isig && c == conf.intr) && !(conf.canon && (c == conf.erase || c == DEL || c == conf.kill))
  }

  /** The waiting text after tty_input. */
  function Typed(conf: Config, text: seq<Byte>, c: Byte): (r: seq<Byte>)
    ensures |r| <= |text| || |r| == |text| + 1 <= SIZE
  {
    if conf.isig && c == conf.intr then text
    else if conf.canon && (c == conf.erase || c == DEL) then
      if text == [] then [] else text[..|text| - 1]
    else if conf.canon && c == conf.kill then KeepLines(text)
    else if |text| < SIZE then text + [Stored(c)]
    else text
  }

  /** How many characters tty_read takes: as many as allowed and present, but in canonical
      mode never past the first newline. */
  function ReadLength(canon: bool, text: seq<Byte>, limit: nat): (r: nat)
    ensures r <= limit && r <= |text|
    ensures canon ==> forall k :: 0 <= k < r - 1 ==> text[k] != NL
    ensures r == limit || r == |text| || (canon && r > 0 && text[r - 1] == NL)
  {
    if limit == 0 || text == [] then 0
    else if canon && text[0] == NL then 1
    else
      var m := ReadLength(canon, text[1..], limit - 1);
      assert forall k :: 0 < k < |text| ==> text[k] == text[1..][k - 1];
      1 + m
  }

  /** What reading one more character does to the count. */
  lemma ReadNext(canon: bool, text: seq<Byte>, i: nat, limit: nat)
    requires i <= limit && i <= |text|
    ensures i == 0 ==> text[i..] == text
    ensures i == limit || i == |text| ==> ReadLength(canon, text[i..], limit - i) == 0
    ensures i < limit && i < |text| && canon && text[i] == NL ==> ReadLength(canon, text[i..], limit - i) == 1
    ensures i < limit && i < |text| && !(canon && text[i] == NL) ==>
      ReadLength(canon, text[i..], limit - i) == 1 + ReadLength(canon, text[i + 1..], limit - (i + 1))
  {
    if i < |text| {
      assert text[i..][1..] == text[i + 1..];
    }
  }

  /** `i` characters of the text were moved into a buffer that held `was`. */
  ghost predicate Moved(text: seq<Byte>, was: seq<Byte>, i: nat, rest: seq<Byte>, buffer: seq<Byte>) {
    i <= |text| && i <= |was| && rest == text[i..] && buffer == text[..i] + was[i..]
  }

  lemma NoneMoved(text: seq<Byte>, was: seq<Byte>)
    ensures Moved(text, was, 0, text, was)
  {
  }

  lemma MovedIs(text: seq<Byte>, was: seq<Byte>, i: nat, rest: seq<Byte>, buffer: seq<Byte>)
    requires Moved(text, was, i, rest, buffer)
    ensures i <= |text| && i <= |was| && rest == text[i..] && buffer == text[..i] + was[i..]
  {
  }

  lemma MovedLength(text: seq<Byte>, was: seq<Byte>, i: nat, rest: seq<Byte>, buffer: seq<Byte>)
    requires Moved(text, was, i, rest, buffer)
    ensures i <= |text| && |rest| == |text| - i && |buffer| == |was|
  {
  }

  lemma TakeNext(text: seq<Byte>, i: nat, c: Byte, rest: seq<Byte>, was: seq<Byte>)
    requires i < |text| && i < |was| && text[i..] == [c] + rest
    ensures c == text[i] && rest == text[i + 1..]
    ensures (text[..i] + was[i..])[i := c] == text[..i + 1] + was[i + 1..]
  {
    assert text[i..][0] == text[i] && text[i..][1..] == text[i + 1..];
  }

  /** The signed count of tty_read is compared as unsigned. */
  function Unsigned(n: int): (r: nat)
    ensures 0 <= n < TWO32 ==> r == n
    ensures -TWO32 / 2 <= n < 0 ==> r > SIZE
  {
    n % TWO32
  }

  // ---------------------------------------------------------------- the ring

  function Ring(buffer: seq<Byte>, tail: nat, count: nat): (r: seq<Byte>)
    requires |buffer| == SIZE
    ensures |r| == count
  {
    seq(count, i requires 0 <= i < count => buffer[(tail + i) % SIZE])
  }

  /** `(head - 1) % 2048` on 32-bit unsigned integers. */
  function Before(head: nat): (r: nat)
    requires head < SIZE
    ensures r < SIZE
  {
    (head - 1) % TWO32 % SIZE
  }

  /** The wrapped decrement is right because 2048 divides 2^32. */
  lemma BeforeIsPrevious(head: nat)
    requires head < SIZE
    ensures (Before(head) + 1) % SIZE == head
  {
  }

  lemma BeforeEnd(tail: nat, count: nat)
    requires count > 0
    ensures Before((tail + count) % SIZE) == (tail + count - 1) % SIZE
  {
  }

  lemma Apart(tail: nat, i: nat, j: nat)
    requires i < j < SIZE
    ensures (tail + i) % SIZE != (tail + j) % SIZE
  {
  }

  lemma Push(buffer: seq<Byte>, tail: nat, count: nat, c: Byte)
    requires |buffer| == SIZE && count < SIZE
    ensures Ring(buffer[(tail + count) % SIZE := c], tail, count + 1) == Ring(buffer, tail, count) + [c]
  {
    var after := Ring(buffer[(tail + count) % SIZE := c], tail, count + 1);
    forall i | 0 <= i < count
      ensures after[i] == Ring(buffer, tail, count)[i]
    {
      Apart(tail, i, count);
    }
  }

  lemma Shift(tail: nat, i: nat)
    ensures ((tail + 1) % SIZE + i) % SIZE == (tail + (i + 1)) % SIZE
  {
  }

  lemma Pop(buffer: seq<Byte>, tail: nat, count: nat)
    requires |buffer| == SIZE && count > 0
    ensures Ring(buffer, (tail + 1) % SIZE, count - 1) == Ring(buffer, tail, count)[1..]
  {
    var after := Ring(buffer, (tail + 1) % SIZE, count - 1);
    forall i | 0 <= i < count - 1
      ensures after[i] == Ring(buffer, tail, count)[i + 1]
    {
      Shift(tail, i);
    }
  }

  lemma Unpush(buffer: seq<Byte>, tail: nat, count: nat)
    requires |buffer| == SIZE && count > 0
    ensures Ring(buffer, tail, count - 1) == Ring(buffer, tail, count)[..count - 1]
  {
  }

  // ---------------------------------------------------------------- runs

  datatype Event = Type(c: Byte) | Read(n: int)

  /** A terminal with everything its readers got so far. */
  datatype Terminal = Terminal(read: seq<Byte>, text: seq<Byte>)

  function Step(conf: Config, t: Terminal, e: Event): Terminal {
    match e
    case Type(c) => t.(text := Typed(conf, t.text, c))
    case Read(n) =>
      var m := ReadLength(conf.canon, t.text, Unsigned(n));
      Terminal(t.read + t.text[..m], t.text[m..])
  }

  function Run(conf: Config, t: Terminal, es: seq<Event>): Terminal
    decreases |es|
  {
    if es == [] then t else Run(conf, Step(conf, t, es[0]), es[1..])
  }

  /** What an event adds to the stream: a typed character finds room or is dropped. */
  function Accepted(t: Terminal, e: Event): seq<Byte> {
    if e.Type? && |t.text| < SIZE then [Stored(e.c)] else []
  }

  function Keys(conf: Config, t: Terminal, es: seq<Event>): seq<Byte>
    decreases |es|
  {
    if es == [] then [] else Accepted(t, es[0]) + Keys(conf, Step(conf, t, es[0]), es[1..])
  }

  lemma StepKeepsOrder(conf: Config, t: Terminal, e: Event)
    requires e.Type? ==> Ordinary(conf, e.c)
    ensures Step(conf, t, e).read + Step(conf, t, e).text == t.read + t.text + Accepted(t, e)
  {
    if e.Read? {
      var m := ReadLength(conf.canon, t.text, Unsigned(e.n));
      assert t.read + t.text[..m] + t.text[m..] == t.read + t.text;
    }
  }

  /** Whatever the interleaving of typing and reading, ordinary characters reach the reader
      in order: what was read and what waits is exactly what was typed and found room. */
  lemma {:induction false} FirstInFirstOut(conf: Config, t: Terminal, es: seq<Event>)
    requires forall k :: 0 <= k < |es| && es[k].Type? ==> Ordinary(conf, es[k].c)
    ensures Run(conf, t, es).read + Run(conf, t, es).text == t.read + t.text + Keys(conf, t, es)
    decreases |es|
  {
    hide Ordinary, Step, Accepted;
    if es != [] {
      var s := Step(conf, t, es[0]);
      StepKeepsOrder(conf, t, es[0]);
      FirstInFirstOut(conf, s, es[1..]);
      var rest := Keys(conf, s, es[1..]);
      assert t.read + t.text + Accepted(t, es[0]) + rest == t.read + t.text + (Accepted(t, es[0]) + rest);
    }
  }

  /** The text never outgrows the ring. */
  lemma {:induction false} StaysBounded(conf: Config, t: Terminal, es: seq<Event>)
    requires |t.text| <= SIZE
    ensures |Run(conf, t, es).text| <= SIZE
    decreases |es|
  {
    if es != [] {
      StaysBounded(conf, Step(conf, t, es[0]), es[1..]);
    }
  }

  /** Characters already read are never taken back. */
  lemma {:induction false} ReadIsFinal(conf: Config, t: Terminal, es: seq<Event>)
    ensures t.read <= Run(conf, t, es).read
    decreases |es|
  {
    if es != [] {
      ReadIsFinal(conf, Step(conf, t, es[0]), es[1..]);
    }
  }

  /** Typing a line, erasing as much as was typed, leaves no trace. */
  lemma {:induction false} EraseUndoes(conf: Config, text: seq<Byte>, cs: seq<Byte>)
    requires conf.canon && Sane(conf) && |text| + |cs| <= SIZE
    requires forall k :: 0 <= k < |cs| ==> Ordinary(conf, cs[k])
    ensures TypeAll(conf, TypeAll(conf, text, cs), seq(|cs|, _ => conf.erase)) == text
    decreases |cs|
  {
    if cs != [] {
      var erases := seq(|cs|, _ => conf.erase);
      var last := |cs| - 1;
      TypeSplit(conf, text, cs[..last], [cs[last]]);
      assert cs == cs[..last] + [cs[last]];
      var before := TypeAll(conf, text, cs[..last]);
      TypedLength(conf, text, cs[..last]);
      assert TypeAll(conf, before, [cs[last]]) == before + [Stored(cs[last])];
      assert erases[1..] == seq(last, _ => conf.erase);
      assert Typed(conf, before + [Stored(cs[last])], conf.erase) == before;
      EraseUndoes(conf, text, cs[..last]);
    }
  }

  function TypeAll(conf: Config, text: seq<Byte>, cs: seq<Byte>): seq<Byte>
    decreases |cs|
  {
    if cs == [] then text else TypeAll(conf, Typed(conf, text, cs[0]), cs[1..])
  }

  lemma {:induction false} TypeSplit(conf: Config, text: seq<Byte>, a: seq<Byte>, b: seq<Byte>)
    ensures TypeAll(conf, text, a + b) == TypeAll(conf, TypeAll(conf, text, a), b)
    decreases |a|
  {
    if a == [] {
      assert a + b == b;
    } else {
      assert (a + b)[1..] == a[1..] + b;
      TypeSplit(conf, Typed(conf, text, a[0]), a[1..], b);
    }
  }

  lemma {:induction false} TypedLength(conf: Config, text: seq<Byte>, cs: seq<Byte>)
    ensures |TypeAll(conf, text, cs)| <= |text| + |cs|
    decreases |cs|
  {
    if cs != [] {
      TypedLength(conf, Typed(conf, text, cs[0]), cs[1..]);
    }
  }
}
