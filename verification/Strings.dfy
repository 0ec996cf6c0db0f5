/** NUL-terminated text in a character buffer, and strtok of usr/lib/string.c, which keeps
    its position between calls and cuts its input by writing NULs into it. */
module Strings {
  import opened Basics
  import opened PathModel

  const NUL := '\0'

  /** The C string that starts at the front of a buffer. */
  function CString(s: seq<char>): (r: string)
    ensures |r| <= |s|
  {
    if s == [] || s[0] == NUL then [] else [s[0]] + CString(s[1..])
  }

  lemma {:induction false} CStringShape(s: seq<char>)
    ensures var r := CString(s);
            r == s[..|r|] && NUL !in r && (|r| < |s| ==> s[|r|] == NUL)
  {
    if s != [] && s[0] != NUL {
      CStringShape(s[1..]);
    }
  }

  lemma {:induction false} CStringOf(text: string, rest: seq<char>)
    requires NUL !in text && (rest == [] || rest[0] == NUL)
    ensures CString(text + rest) == text
  {
    if text == [] {
      assert text + rest == rest;
    } else {
      CStringOf(text[1..], rest);
      assert (text + rest)[1..] == text[1..] + rest;
    }
  }

  /** A pointer moved `j` characters into a C string. */
  lemma {:induction false} CStringSuffix(s: seq<char>, j: nat)
    requires j <= |CString(s)|
    ensures CString(s[j..]) == CString(s)[j..]
  {
    if j > 0 {
      CStringSuffix(s[1..], j - 1);
      assert s[1..][j - 1..] == s[j..];
    }
  }

  /** strtok(str, "/") with its static `last` pointer into `buf`. */
  class Tokenizer {
    const buf: array<char>
    var last: Option<nat>

    ghost predicate Valid()
      reads this, buf
    {
      match last
      case Some(p) => p < buf.Length && p + |CString(buf[p..])| < buf.Length
      case None => true
    }

    /** The text not yet split. */
    ghost function Remaining(): string
      reads this, buf
    {
      match last
      case Some(p) => if p <= buf.Length then CString(buf[p..]) else []
      case None => []
    }

    /** strtok's first call points `last` at the buffer. */
    constructor (buf: array<char>)
      requires |CString(buf[..])| < buf.Length
      ensures this.buf == buf && Valid() && Remaining() == CString(buf[..])
    {
      this.buf := buf;
      last := Some(0);
      new;
      assert buf[0..] == buf[..];
    }

    /** Moves past leading slashes. */
    method SkipDelimiters(start: nat) returns (p: nat)
      requires start < buf.Length && start + |CString(buf[start..])| < buf.Length
      ensures start <= p < buf.Length && p + |CString(buf[p..])| < buf.Length
      ensures CString(buf[p..]) == SkipSlashes(CString(buf[start..]))
      ensures buf[p] != '/'
    {
      p := start;
      while buf[p] != NUL && buf[p] == '/'
        invariant start <= p < buf.Length && p + |CString(buf[p..])| < buf.Length
        invariant SkipSlashes(CString(buf[p..])) == SkipSlashes(CString(buf[start..]))
        decreases buf.Length - p
      {
        Advance(buf[..], p);
        p := p + 1;
      }
    }

    /** Moves to the end of the piece: the next slash, or the end of the text. */
    method TokenEnd(start: nat) returns (q: nat)
      requires start < buf.Length && start + |CString(buf[start..])| < buf.Length
      ensures q == start + TokenLength(CString(buf[start..]))
      ensures q < buf.Length && (buf[q] == NUL <==> q == start + |CString(buf[start..])|)
    {
      q := start;
      while buf[q] != NUL && buf[q] != '/'
        invariant start <= q < buf.Length && q + |CString(buf[q..])| < buf.Length
        invariant q - start + TokenLength(CString(buf[q..])) == TokenLength(CString(buf[start..]))
        invariant q + |CString(buf[q..])| == start + |CString(buf[start..])|
        decreases buf.Length - q
      {
        Advance(buf[..], q);
        q := q + 1;
      }
    }

    method Next() returns (token: Option<string>)
      requires Valid()
      modifies this, buf
      ensures Valid()
      ensures match token
              case None => Tokens(old(Remaining())) == []
              case Some(s) => Tokens(old(Remaining())) == [s] + Tokens(Remaining())
      ensures |Remaining()| <= |old(Remaining())| && (token.Some? ==> |Remaining()| < |old(Remaining())|)
    {
      hide CString, Tokens, TokenLength, SkipSlashes;
      NothingLeft();
      if last.None? {
        return None;
      }
      ghost var text := Remaining();
      var p := SkipDelimiters(last.value);
      last := Some(p);
      assert buf[..][p..] == buf[p..];
      if buf[p] == NUL {
        NoToken(buf[..], p, text);
        return None;
      }
      token := Split(p, text);
    }

    /** Cuts off the token at `p` and moves `last` past it. */
    method Split(p: nat, ghost text: string) returns (token: Option<string>)
      requires p < buf.Length && p + |CString(buf[p..])| < buf.Length && buf[p] != NUL
      requires CString(buf[p..]) == SkipSlashes(text)
      modifies this, buf
      ensures Valid() && token.Some?
      ensures Tokens(text) == [token.value] + Tokens(Remaining()) && |Remaining()| < |text|
    {
      hide CString, Tokens, TokenLength, SkipSlashes;
      ghost var s := buf[..];
      assert s[p..] == buf[p..];
      var q := TokenEnd(p);
      FirstToken(s, p, text, CString(s[p..]), q - p);
      assert s[p..q] == buf[p..q];
      token := Some(buf[p..q]);
      if buf[q] != NUL {
        buf[q] := NUL;
        last := Some(q + 1);
        assert buf[q + 1..] == s[q + 1..];
      } else {
        last := None;
        NothingLeft();
        NotEmpty(s, p);
      }
    }
  }

  lemma NothingLeft()
    ensures Tokens([]) == []
  {
  }

  lemma NoToken(s: seq<char>, p: nat, text: string)
    requires p < |s| && s[p] == NUL && CString(s[p..]) == SkipSlashes(text)
    ensures Tokens(text) == []
  {
  }

  lemma FirstToken(s: seq<char>, p: nat, text: string, r: string, k: nat)
    requires p < |s| && s[p] != NUL && CString(s[p..]) == SkipSlashes(text)
    requires r == CString(s[p..]) && k == TokenLength(r)
    ensures p + k <= |s| && |r| <= |text|
    ensures k < |r| ==> p + k + 1 <= |s| && |CString(s[p + k + 1..])| == |r| - k - 1
    ensures k < |r| ==> p + k + 1 <= |s| && Tokens(text) == [s[p..p + k]] + Tokens(CString(s[p + k + 1..]))
    ensures k >= |r| ==> Tokens(text) == [s[p..p + k]]
  {
    hide CString, SkipSlashes, TokenLength, Tokens;
    NotEmpty(s, p);
    Cut(s, p, k);
    AfterSlash(r, k);
    TokensUnfold(text);
  }

  lemma TokensUnfold(text: string)
    ensures var r := SkipSlashes(text);
            var k := TokenLength(r);
            Tokens(text) == if r == [] then [] else [r[..k]] + Tokens(r[k..])
  {
  }

  lemma NotEmpty(s: seq<char>, p: nat)
    requires p < |s| && s[p] != NUL
    ensures CString(s[p..]) != []
  {
  }

  /** The token at the front of the text and what follows it. */
  lemma Cut(s: seq<char>, p: nat, k: nat)
    requires p < |s| && k == TokenLength(CString(s[p..]))
    ensures var r := CString(s[p..]);
      && p + k <= |s| && r[..k] == s[p..p + k]
      && (k < |r| ==> p + k + 1 <= |s| && CString(s[p + k + 1..]) == r[k + 1..])
  {
    var r := CString(s[p..]);
    CStringShape(s[p..]);
    assert s[p..][..k] == s[p..p + k];
    if k < |r| {
      CStringSuffix(s[p..], k + 1);
      assert s[p..][k + 1..] == s[p + k + 1..];
    }
  }

  /** Splitting goes on after the slash that ended a token. */
  lemma AfterSlash(r: string, k: nat)
    requires k == TokenLength(r)
    ensures Tokens(r[k..]) == if k < |r| then Tokens(r[k + 1..]) else []
  {
    TokenShape(r);
    if k < |r| {
      assert r[k..][1..] == r[k + 1..];
      assert SkipSlashes(r[k..]) == SkipSlashes(r[k + 1..]);
    }
  }

  /** One step of a pointer over a C string. */
  lemma Advance(s: seq<char>, p: nat)
    requires p < |s| && s[p] != NUL
    ensures CString(s[p..]) == [s[p]] + CString(s[p + 1..])
  {
    assert s[p..][1..] == s[p + 1..];
  }
}
