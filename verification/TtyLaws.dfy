/** What each key does to the text waiting in a terminal, character by character. */
module TtyLaws {
  import opened Basics
  import opened TtyModel

  lemma KeepsLines(a: seq<Byte>, b: seq<Byte>)
    requires 10 !in b
    ensures KeepLines(a + [10] + b) == a + [10] && KeepLines(b) == []
  {
    var text := a + [10] + b;
    var r := KeepLines(text);
    assert text[|a|] == 10;
    assert KeepLines(b) <= b;
  }

  /** The kill key drops exactly the text after the last newline. */
  lemma KillDropsLine(conf: Config, a: seq<Byte>, b: seq<Byte>)
    requires conf.canon && conf.kill != conf.erase && conf.kill != 127 && !(conf.isig && conf.kill == conf.intr)
    requires 10 !in b
    ensures Typed(conf, a + [10] + b, conf.kill) == a + [10]
    ensures Typed(conf, b, conf.kill) == []
  {
    KeepsLines(a, b);
    hide KeepLines;
  }

  /** The erase key and DEL drop the last character, if there is one. */
  lemma EraseDropsOne(conf: Config, text: seq<Byte>, x: Byte, c: Byte)
    requires conf.canon && (c == conf.erase || c == 127) && !(conf.isig && c == conf.intr)
    ensures Typed(conf, text + [x], c) == text && Typed(conf, [], c) == []
  {
  }

  lemma InterruptKeepsText(conf: Config, text: seq<Byte>)
    requires conf.isig
    ensures Typed(conf, text, conf.intr) == text
  {
  }

  /** Any other key appends itself while there is room for 2048 characters, a carriage return
      as a newline, and is dropped when there is none. */
  lemma OthersAppend(conf: Config, text: seq<Byte>, c: Byte)
    requires !(conf.isig && c == conf.intr) && !(conf.canon && (c == conf.erase || c == 127 || c == conf.kill))
    ensures |text| < 2048 && c == 13 ==> Typed(conf, text, c) == text + [10]
    ensures |text| < 2048 && c != 13 ==> Typed(conf, text, c) == text + [c]
    ensures |text| >= 2048 ==> Typed(conf, text, c) == text
  {
  }

  /** With the settings of tty_init: Ctrl+U, backspace, DEL, Ctrl+C and return. */
  lemma DefaultKeys(a: seq<Byte>, b: seq<Byte>, x: Byte)
    requires 10 !in b
    ensures Typed(DEFAULTS, a + [10] + b, 21) == a + [10] && Typed(DEFAULTS, b, 21) == []
    ensures Typed(DEFAULTS, a + [x], 8) == a && Typed(DEFAULTS, a + [x], 127) == a
    ensures Typed(DEFAULTS, a, 3) == a
    ensures |a| < 2048 ==> Typed(DEFAULTS, a, 13) == a + [10]
  {
    KillDropsLine(DEFAULTS, a, b);
    EraseDropsOne(DEFAULTS, a, x, 8);
    EraseDropsOne(DEFAULTS, a, x, 127);
  }
}
