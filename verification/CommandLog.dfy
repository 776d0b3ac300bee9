// What the character device stores, as a function of the bytes written to it.
module CommandLog {
  import opened Bytes

  /** The most recent `n` elements. */
  function LastN<T>(s: seq<T>, n: nat): (r: seq<T>) {
    if |s| <= n then s else s[|s| - n..]
  }

  /** The device as readers and writers can tell it apart. */
  datatype DevState = DevState(cmds: seq<seq<byte>>, cache: seq<byte>)

  const EMPTY_DEVICE := DevState([], [])

  /** A fragment is what one critical section of a write handles. */
  ghost predicate IsFragment(f: seq<byte>) {
    IsCommand(f) || (f != [] && NoNewline(f))
  }

  /** Effect of one critical section: finish a command, or extend the cache. */
  function Commit(n: nat, s: DevState, f: seq<byte>): DevState {
    if f != [] && f[|f| - 1] == NEWLINE then DevState(LastN(s.cmds + [s.cache + f], n), [])
    else DevState(s.cmds, s.cache + f)
  }

  function CommitAll(n: nat, s: DevState, frags: seq<seq<byte>>): DevState {
    if frags == [] then s
    else Commit(n, CommitAll(n, s, frags[..|frags| - 1]), frags[|frags| - 1])
  }

  /** The fragments a write of `data` is cut into, in order. */
  function Fragments(data: seq<byte>): seq<seq<byte>> {
    Lines(data) + if Tail(data) == [] then [] else [Tail(data)]
  }

  /** The state a device of capacity `n` must be in after the byte stream `stream`. */
  function Observed(n: nat, stream: seq<byte>): DevState {
    DevState(LastN(Lines(stream), n), Tail(stream))
  }

  /** The commands of the stream that the ring no longer holds. */
  function Evicted(n: nat, stream: seq<byte>): seq<seq<byte>> {
    var all := Lines(stream);
    if |all| <= n then [] else all[..|all| - n]
  }

  lemma LastNAppend<T>(a: seq<T>, b: seq<T>, n: nat)
    ensures LastN(LastN(a, n) + b, n) == LastN(a + b, n)
  {
    if |a| > n {
      assert a + b == a[..|a| - n] + (LastN(a, n) + b);
    }
  }

  lemma LastNSnoc<T>(s: seq<T>, x: T, n: nat)
    requires |s| <= n && n > 0
    ensures LastN(s + [x], n) == s[if |s| == n then 1 else 0..] + [x]
  {
  }

  lemma FragmentsCover(data: seq<byte>)
    ensures Flat(Fragments(data)) == data
    ensures forall i :: 0 <= i < |Fragments(data)| ==> IsFragment(Fragments(data)[i])
    ensures forall i :: 0 <= i < |Fragments(data)| - 1 ==> IsCommand(Fragments(data)[i])
  {
    CutIsSound(data);
    if Tail(data) != [] {
      FlatSnoc(Lines(data), Tail(data));
    } else {
      assert Fragments(data) == Lines(data);
    }
  }

  /** How one fragment changes the cut of the stream. */
  lemma CutOfExtension(stream: seq<byte>, f: seq<byte>)
    requires IsFragment(f)
    ensures IsCommand(f) ==> Lines(stream + f) == Lines(stream) + [Tail(stream) + f] && Tail(stream + f) == []
    ensures !IsCommand(f) ==> Lines(stream + f) == Lines(stream) && Tail(stream + f) == Tail(stream) + f
  {
    var c := Tail(stream) + f;
    CutIsSound(stream);
    CutResumes(stream, f);
    if IsCommand(f) {
      assert c[..|c| - 1] == Tail(stream) + f[..|f| - 1];
      CutOfCommand(c);
    } else {
      CutOfFragment(c);
      assert Lines(stream) + [] == Lines(stream);
    }
  }

  /** `s` consists of finished commands only, namely `pieces`. */
  ghost predicate IsCutInto(s: seq<byte>, pieces: seq<seq<byte>>) {
    AllCommands(pieces) && Flat(pieces) == s
  }

  lemma CutGrows(s: seq<byte>, line: seq<byte>, pieces: seq<seq<byte>>)
    requires IsCutInto(s, pieces) && IsCommand(line)
    ensures IsCutInto(s + line, pieces + [line])
  {
    FlatSnoc(pieces, line);
  }

  lemma FragmentsEnd(s: seq<byte>, rest: seq<byte>, pieces: seq<seq<byte>>)
    requires IsCutInto(s, pieces) && NoNewline(rest)
    ensures Fragments(s + rest) == if rest == [] then pieces else pieces + [rest]
  {
    CutCharacterised(s + rest, pieces, rest);
    assert pieces + [] == pieces;
  }

  /** One critical section keeps the device in step with the stream. */
  lemma {:induction false} CommitExtendsStream(n: nat, stream: seq<byte>, f: seq<byte>)
    requires IsFragment(f)
    ensures Commit(n, Observed(n, stream), f) == Observed(n, stream + f)
    ensures |Lines(stream + f)| == |Lines(stream)| + if IsCommand(f) then 1 else 0
  {
    CutOfExtension(stream, f);
    if IsCommand(f) {
      LastNAppend(Lines(stream), [Tail(stream) + f], n);
    }
  }

  lemma StreamGrows(stream: seq<byte>, init: seq<seq<byte>>, last: seq<byte>)
    ensures stream + Flat(init + [last]) == stream + Flat(init) + last
  {
    FlatSnoc(init, last);
  }

  lemma {:induction false} CommitAllExtendsStream(n: nat, stream: seq<byte>, frags: seq<seq<byte>>)
    requires forall i :: 0 <= i < |frags| ==> IsFragment(frags[i])
    ensures CommitAll(n, Observed(n, stream), frags) == Observed(n, stream + Flat(frags))
  {
    if frags == [] {
      assert stream + Flat(frags) == stream;
    } else {
      var init, last := frags[..|frags| - 1], frags[|frags| - 1];
      assert frags == init + [last];
      CommitAllExtendsStream(n, stream, init);
      CommitExtendsStream(n, stream + Flat(init), last);
      StreamGrows(stream, init, last);
    }
  }

  /** A run of writes, each cut into fragments that are committed one by one. */
  function RunWrites(n: nat, chunks: seq<seq<byte>>): DevState {
    if chunks == [] then EMPTY_DEVICE
    else
      var data := chunks[|chunks| - 1];
      CommitAll(n, RunWrites(n, chunks[..|chunks| - 1]), Fragments(data))
  }

  /** After any run of writes the device depends only on the concatenated stream. */
  lemma {:induction false} RunDependsOnStreamOnly(n: nat, chunks: seq<seq<byte>>)
    ensures RunWrites(n, chunks) == Observed(n, Flat(chunks))
  {
    if chunks != [] {
      var init, data := chunks[..|chunks| - 1], chunks[|chunks| - 1];
      RunDependsOnStreamOnly(n, init);
      FragmentsCover(data);
      CommitAllExtendsStream(n, Flat(init), Fragments(data));
      FlatSnoc(init, data);
      assert init + [data] == chunks;
    }
  }

  /** Evicted, retained and cached bytes, in this order, are the bytes written. */
  lemma {:induction false} StreamIsConserved(n: nat, stream: seq<byte>)
    ensures Flat(Evicted(n, stream)) + Flat(Observed(n, stream).cmds) + Observed(n, stream).cache == stream
    ensures |Observed(n, stream).cmds| == Min(|Lines(stream)|, n)
    ensures AllCommands(Observed(n, stream).cmds) && NoNewline(Observed(n, stream).cache)
  {
    CutIsSound(stream);
    var gone, kept := Evicted(n, stream), LastN(Lines(stream), n);
    assert Lines(stream) == gone + kept;
    FlatAppend(gone, kept);
  }

  lemma LastNIsShorter(cmds: seq<seq<byte>>, n: nat)
    ensures |Flat(LastN(cmds, n))| <= |Flat(cmds)|
  {
    if |cmds| > n {
      FlatAppend(cmds[..|cmds| - n], LastN(cmds, n));
      assert cmds == cmds[..|cmds| - n] + LastN(cmds, n);
    }
  }

  /** Writing `data` makes the ring hold at most the bytes stored, cached and written. */
  lemma StoredBytesBounded(n: nat, stream: seq<byte>, data: seq<byte>)
    ensures var s := Observed(n, stream);
            |Flat(Observed(n, stream + data).cmds)| <= |Flat(s.cmds)| + |s.cache| + |data|
  {
    var s := Observed(n, stream);
    var more := Lines(s.cache + data);
    CutResumes(stream, data);
    LastNAppend(Lines(stream), more, n);
    LastNIsShorter(s.cmds + more, n);
    FlatAppend(s.cmds, more);
    CutIsSound(s.cache + data);
  }
}
