// Byte strings cut into newline-terminated commands: the vocabulary in which
// the driver's behaviour is specified.
module Bytes {

  newtype byte = x: int | 0 <= x < 256

  const NEWLINE: byte := 10

  datatype Option<+T> = None | Some(value: T)

  function Min(a: int, b: int): int {
    if a < b then a else b
  }

  lemma AppendAssociates<T>(a: seq<T>, b: seq<T>, c: seq<T>)
    ensures a + b + c == a + (b + c)
  {
  }

  /** All commands joined end to end. */
  function Flat(cmds: seq<seq<byte>>): seq<byte> {
    if cmds == [] then [] else cmds[0] + Flat(cmds[1..])
  }

  ghost predicate NoNewline(s: seq<byte>) {
    forall i :: 0 <= i < |s| ==> s[i] != NEWLINE
  }

  /** A command ends in a newline and has no other. */
  ghost predicate IsCommand(c: seq<byte>) {
    c != [] && c[|c| - 1] == NEWLINE && NoNewline(c[..|c| - 1])
  }

  ghost predicate AllCommands(cmds: seq<seq<byte>>) {
    forall i :: 0 <= i < |cmds| ==> IsCommand(cmds[i])
  }

  /** The finished commands of a byte stream. */
  function Lines(s: seq<byte>): seq<seq<byte>> {
    if s == [] then []
    else
      var init, last := s[..|s| - 1], s[|s| - 1];
      if last == NEWLINE then Lines(init) + [Tail(init) + [last]] else Lines(init)
  }

  /** The bytes of a stream after its last newline. */
  function Tail(s: seq<byte>): seq<byte> {
    if s == [] then []
    else
      var init, last := s[..|s| - 1], s[|s| - 1];
      if last == NEWLINE then [] else Tail(init) + [last]
  }

  lemma {:induction false} FlatAppend(a: seq<seq<byte>>, b: seq<seq<byte>>)
    ensures Flat(a + b) == Flat(a) + Flat(b)
  {
    if a == [] {
      assert a + b == b;
    } else {
      assert (a + b)[1..] == a[1..] + b;
      FlatAppend(a[1..], b);
    }
  }

  lemma FlatSnoc(a: seq<seq<byte>>, c: seq<byte>)
    ensures Flat(a + [c]) == Flat(a) + c
  {
    FlatAppend(a, [c]);
    assert Flat([c]) == c + Flat([]);
  }

  lemma FlatTakeOneMore(cmds: seq<seq<byte>>, k: nat)
    requires k < |cmds|
    ensures Flat(cmds[..k + 1]) == Flat(cmds[..k]) + cmds[k]
  {
    FlatSnoc(cmds[..k], cmds[k]);
    assert cmds[..k + 1] == cmds[..k] + [cmds[k]];
  }

  /** One more byte: the cut of `init` extended by `last`. */
  lemma CutOneMore(init: seq<byte>, last: byte, lines: seq<seq<byte>>, rest: seq<byte>)
    requires Flat(lines) + rest == init && AllCommands(lines) && NoNewline(rest)
    ensures Flat(lines) + (rest + [last]) == init + [last]
    ensures last == NEWLINE ==> Flat(lines + [rest + [last]]) == init + [last] && AllCommands(lines + [rest + [last]])
    ensures last != NEWLINE ==> NoNewline(rest + [last])
  {
    var c := rest + [last];
    assert c[..|c| - 1] == rest;
    FlatSnoc(lines, c);
    assert Flat(lines) + c == Flat(lines) + rest + [last];
  }

  /** Cutting loses no byte, yields only commands, and leaves no newline behind. */
  lemma {:induction false} CutIsSound(s: seq<byte>)
    ensures Flat(Lines(s)) + Tail(s) == s
    ensures AllCommands(Lines(s))
    ensures NoNewline(Tail(s))
  {
    if s != [] {
      var init, last := s[..|s| - 1], s[|s| - 1];
      CutIsSound(init);
      CutOneMore(init, last, Lines(init), Tail(init));
      assert s == init + [last];
      if last == NEWLINE {
        assert Lines(s) == Lines(init) + [Tail(init) + [last]] && Tail(s) == [];
      } else {
        assert Lines(s) == Lines(init) && Tail(s) == Tail(init) + [last];
      }
    }
  }

  /** A command that starts a string holds the string's first newline. */
  lemma CommandEndsFirstLine(c: seq<byte>, x: seq<byte>)
    requires IsCommand(c)
    ensures (c + x)[|c| - 1] == NEWLINE
    ensures forall i :: 0 <= i < |c| - 1 ==> (c + x)[i] != NEWLINE
  {
    forall i | 0 <= i < |c| - 1 ensures (c + x)[i] != NEWLINE {
      assert c[..|c| - 1][i] != NEWLINE;
    }
  }

  /** Two strings that start with a command start with the same one if they are equal. */
  lemma FirstCommandUnique(c: seq<byte>, x: seq<byte>, d: seq<byte>, y: seq<byte>)
    requires IsCommand(c) && IsCommand(d)
    requires c + x == d + y
    ensures c == d && x == y
  {
    CommandEndsFirstLine(c, x);
    CommandEndsFirstLine(d, y);
    assert |c| == |d|;
    assert c == (c + x)[..|c|] && d == (d + y)[..|d|];
    assert x == (c + x)[|c|..] && y == (d + y)[|d|..];
  }

  /** There is only one way to cut a stream into commands and a newline-free remainder. */
  lemma {:induction false} CutIsUnique(a: seq<seq<byte>>, ta: seq<byte>, b: seq<seq<byte>>, tb: seq<byte>)
    requires AllCommands(a) && NoNewline(ta)
    requires AllCommands(b) && NoNewline(tb)
    requires Flat(a) + ta == Flat(b) + tb
    ensures a == b && ta == tb
  {
    if a != [] {
      assert Flat(a) + ta == a[0] + (Flat(a[1..]) + ta);
      CommandEndsFirstLine(a[0], Flat(a[1..]) + ta);
    } else {
      assert Flat(a) + ta == ta;
    }
    if b != [] {
      assert Flat(b) + tb == b[0] + (Flat(b[1..]) + tb);
      CommandEndsFirstLine(b[0], Flat(b[1..]) + tb);
    } else {
      assert Flat(b) + tb == tb;
    }
    if a != [] && b != [] {
      FirstCommandUnique(a[0], Flat(a[1..]) + ta, b[0], Flat(b[1..]) + tb);
      CutIsUnique(a[1..], ta, b[1..], tb);
      assert a == [a[0]] + a[1..] && b == [b[0]] + b[1..];
    }
  }

  /** `Lines` and `Tail` are the cut: nothing else meets their description. */
  lemma CutCharacterised(s: seq<byte>, cmds: seq<seq<byte>>, rest: seq<byte>)
    ensures cmds == Lines(s) && rest == Tail(s)
       <==> AllCommands(cmds) && NoNewline(rest) && Flat(cmds) + rest == s
  {
    CutIsSound(s);
    if AllCommands(cmds) && NoNewline(rest) && Flat(cmds) + rest == s {
      CutIsUnique(cmds, rest, Lines(s), Tail(s));
    }
  }

  /** Two cuts in a row are one cut. */
  lemma CutsConcatenate(a: seq<seq<byte>>, ta: seq<byte>, t: seq<byte>, b: seq<seq<byte>>, tb: seq<byte>)
    requires AllCommands(a) && AllCommands(b) && NoNewline(tb)
    requires Flat(b) + tb == ta + t
    ensures AllCommands(a + b) && Flat(a + b) + tb == Flat(a) + ta + t
  {
    FlatAppend(a, b);
    assert Flat(a) + Flat(b) + tb == Flat(a) + (Flat(b) + tb);
  }

  /** Cutting can resume from the remainder: earlier chunk boundaries leave no trace. */
  lemma {:induction false} CutResumes(s: seq<byte>, t: seq<byte>)
    ensures Lines(s + t) == Lines(s) + Lines(Tail(s) + t)
    ensures Tail(s + t) == Tail(Tail(s) + t)
  {
    CutIsSound(s);
    var a, ta := Lines(s), Tail(s);
    CutIsSound(ta + t);
    var b, tb := Lines(ta + t), Tail(ta + t);
    CutsConcatenate(a, ta, t, b, tb);
    CutCharacterised(s + t, a + b, tb);
  }

  /** A newline-free string is all remainder. */
  lemma CutOfFragment(s: seq<byte>)
    requires NoNewline(s)
    ensures Lines(s) == [] && Tail(s) == s
  {
    CutCharacterised(s, [], s);
  }

  /** A command is cut into itself. */
  lemma CutOfCommand(c: seq<byte>)
    requires IsCommand(c)
    ensures Lines(c) == [c] && Tail(c) == []
  {
    FlatSnoc([], c);
    assert [] + [c] == [c];
    CutCharacterised(c, [c], []);
  }
}
