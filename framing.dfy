/** The line framer of friend_server.c, as functions on the bytes a client
    has sent: where the first network newline (CR LF) ends, the lines a
    buffer holds and the bytes left over once they are taken out. */
module Framing {
  import opened Common

  /** A network newline starts at index `k` of `s`. */
  predicate CrlfAt(s: seq<char>, k: int)
  {
    0 <= k && k + 1 < |s| && s[k] == '\r' && s[k + 1] == '\n'
  }

  predicate NoCrlf(s: seq<char>)
  {
    forall k :: 0 <= k < |s| ==> !CrlfAt(s, k)
  }

  /** Where the first line of `s` ends: two past the CR of the first CR LF,
      or -1 if `s` holds none (find_network_newline over all of `s`). */
  function LineEnd(s: seq<char>): (r: int)
    ensures r == -1 <==> NoCrlf(s)
    ensures r != -1 ==> 2 <= r <= |s| && CrlfAt(s, r - 2)
    ensures r != -1 ==> forall k :: 0 <= k < r - 2 ==> !CrlfAt(s, k)
  {
    ScanFrom(s, 0)
  }

  function ScanFrom(s: seq<char>, i: nat): (r: int)
    requires forall k :: 0 <= k < i ==> !CrlfAt(s, k)
    ensures r == -1 <==> NoCrlf(s)
    ensures r != -1 ==> 2 <= r <= |s| && CrlfAt(s, r - 2)
    ensures r != -1 ==> forall k :: 0 <= k < r - 2 ==> !CrlfAt(s, k)
    decreases |s| - i
  {
    if i + 1 >= |s| then -1
    else if s[i] == '\r' && s[i + 1] == '\n' then assert CrlfAt(s, i); i + 2
    else ScanFrom(s, i + 1)
  }

  /** The complete lines of `s`, in order, without their CR LF. */
  function Lines(s: seq<char>): seq<seq<char>>
    decreases |s|
  {
    var w := LineEnd(s);
    if w == -1 then [] else [s[..w - 2]] + Lines(s[w..])
  }

  /** The bytes of `s` after its last CR LF. */
  function Rest(s: seq<char>): seq<char>
    decreases |s|
  {
    var w := LineEnd(s);
    if w == -1 then s else Rest(s[w..])
  }

  /** The bytes of `s` left once its first `k` lines are taken out. */
  function Drop(s: seq<char>, k: nat): seq<char>
    decreases k
  {
    if k == 0 then s
    else
      var w := LineEnd(s);
      if w == -1 then s else Drop(s[w..], k - 1)
  }

  /** The lines put back on the wire, each followed by CR LF. */
  function Unframe(lines: seq<seq<char>>): seq<char>
  {
    if lines == [] then [] else lines[0] + "\r\n" + Unframe(lines[1..])
  }

  /** Framing neither loses nor duplicates a byte: the lines, each with its
      CR LF put back, followed by the leftover bytes, are the input again. */
  lemma {:induction false} FramingLossless(s: seq<char>)
    ensures Unframe(Lines(s)) + Rest(s) == s
    decreases |s|
  {
    var w := LineEnd(s);
    if w != -1 {
      var line, tail := s[..w - 2], s[w..];
      FramingLossless(tail);
      assert Lines(s) == [line] + Lines(tail);
      UnframeCons(line, Lines(tail));
      CutAtLineEnd(s, w);
      Assoc(line + "\r\n", Unframe(Lines(tail)), Rest(tail));
    }
  }

  /** A buffer is its first line, the CR LF and what follows. */
  lemma CutAtLineEnd(s: seq<char>, w: int)
    requires 2 <= w <= |s| && CrlfAt(s, w - 2)
    ensures s == s[..w - 2] + "\r\n" + s[w..]
  {
    assert s[w - 2..w] == "\r\n";
    assert s == s[..w - 2] + s[w - 2..w] + s[w..];
  }

  /** What is left after the lines holds no network newline. */
  lemma {:induction false} RestHasNoCrlf(s: seq<char>)
    ensures NoCrlf(Rest(s))
    decreases |s|
  {
    var w := LineEnd(s);
    if w != -1 {
      RestHasNoCrlf(s[w..]);
    }
  }

  lemma UnframeCons(line: seq<char>, lines: seq<seq<char>>)
    ensures Unframe([line] + lines) == line + "\r\n" + Unframe(lines)
  {
    assert ([line] + lines)[1..] == lines;
  }

  /** No line handed on contains a network newline. */
  lemma {:induction false} LinesHaveNoCrlf(s: seq<char>)
    ensures forall i :: 0 <= i < |Lines(s)| ==> NoCrlf(Lines(s)[i])
    decreases |s|
  {
    var w := LineEnd(s);
    if w != -1 {
      LinesHaveNoCrlf(s[w..]);
      var line := s[..w - 2];
      forall k ensures !CrlfAt(line, k) {
        if CrlfAt(line, k) {
          assert CrlfAt(s, k);
        }
      }
      assert Lines(s) == [line] + Lines(s[w..]);
    }
  }

  /** Appending bytes does not move the end of a line already complete. */
  lemma LineEndOfPrefix(s: seq<char>, t: seq<char>)
    requires LineEnd(s) != -1
    ensures LineEnd(s + t) == LineEnd(s)
  {
    var w := LineEnd(s);
    assert CrlfAt(s + t, w - 2);
    forall k | 0 <= k < w - 2 ensures !CrlfAt(s + t, k) {
      assert !CrlfAt(s, k);
    }
  }

  /** Framing `s + t` is framing `s`, then framing its leftover followed by
      `t`: how the buffer is split across reads does not change the lines. */
  lemma {:induction false} FramingSplit(s: seq<char>, t: seq<char>)
    ensures Lines(s + t) == Lines(s) + Lines(Rest(s) + t)
    ensures Rest(s + t) == Rest(Rest(s) + t)
    decreases |s|
  {
    var w := LineEnd(s);
    if w != -1 {
      LineEndOfPrefix(s, t);
      assert (s + t)[..w - 2] == s[..w - 2];
      assert (s + t)[w..] == s[w..] + t;
      FramingSplit(s[w..], t);
    }
  }

  /** The bytes received, concatenated. */
  function Concat(chunks: seq<seq<char>>): seq<char>
  {
    if chunks == [] then [] else chunks[0] + Concat(chunks[1..])
  }

  /** The lines extracted when the chunks arrive one read at a time into a
      buffer already holding `pending`. */
  function FeedLines(pending: seq<char>, chunks: seq<seq<char>>): seq<seq<char>>
    decreases |chunks|
  {
    if chunks == [] then []
    else Lines(pending + chunks[0]) + FeedLines(Rest(pending + chunks[0]), chunks[1..])
  }

  /** What is left in that buffer after the last chunk. */
  function FeedRest(pending: seq<char>, chunks: seq<seq<char>>): seq<char>
    decreases |chunks|
  {
    if chunks == [] then pending
    else FeedRest(Rest(pending + chunks[0]), chunks[1..])
  }

  /** Reading the bytes in any number of pieces yields the same lines and the
      same leftover as reading them all at once. */
  lemma {:induction false} FeedAnySplit(pending: seq<char>, chunks: seq<seq<char>>)
    requires NoCrlf(pending)
    ensures FeedLines(pending, chunks) == Lines(pending + Concat(chunks))
    ensures FeedRest(pending, chunks) == Rest(pending + Concat(chunks))
    decreases |chunks|
  {
    if chunks != [] {
      var c, more := chunks[0], chunks[1..];
      RestHasNoCrlf(pending + c);
      FeedAnySplit(Rest(pending + c), more);
      FramingSplit(pending + c, Concat(more));
      assert Concat(chunks) == c + Concat(more);
      Assoc(pending, c, Concat(more));
    } else {
      assert pending + Concat(chunks) == pending;
      NoCrlfNoLines(pending);
    }
  }

  lemma NoCrlfNoLines(s: seq<char>)
    requires NoCrlf(s)
    ensures Lines(s) == [] && Rest(s) == s
  {
  }

  /** Bytes holding exactly one network newline, at their end, yield exactly
      the one line before it, however they are split across reads, and leave
      nothing behind. */
  lemma OneLineAnySplit(x: seq<char>, chunks: seq<seq<char>>)
    requires NoCrlf(x)
    requires Concat(chunks) == x + "\r\n"
    ensures FeedLines([], chunks) == [x]
    ensures FeedRest([], chunks) == []
  {
    assert NoCrlf([]);
    FeedAnySplit([], chunks);
    var s := x + "\r\n";
    assert [] + Concat(chunks) == s;
    assert CrlfAt(s, |x|);
    forall k | 0 <= k < |x| ensures !CrlfAt(s, k) {
      if k + 1 < |x| { assert !CrlfAt(x, k); }
    }
    assert LineEnd(s) == |x| + 2;
    assert s[..|x|] == x;
    assert s[|x| + 2..] == [];
  }

  /** Taking out one more line: the step the read loop repeats. */
  lemma {:induction false} DropStep(s: seq<char>, k: nat)
    requires LineEnd(Drop(s, k)) != -1
    ensures Drop(s, k + 1) == Drop(s, k)[LineEnd(Drop(s, k))..]
    ensures |Lines(s)| > k
    ensures Lines(s)[k] == Drop(s, k)[..LineEnd(Drop(s, k)) - 2]
    decreases k
  {
    if k > 0 {
      var w := LineEnd(s);
      DropStep(s[w..], k - 1);
    }
  }

  /** Once the leftover after `k` lines holds no newline, those `k` lines were
      all the lines and the leftover is the rest. */
  lemma {:induction false} DropAll(s: seq<char>, k: nat)
    requires k <= |Lines(s)|
    requires LineEnd(Drop(s, k)) == -1
    ensures |Lines(s)| == k
    ensures Rest(s) == Drop(s, k)
    decreases k
  {
    if k > 0 {
      var w := LineEnd(s);
      DropAll(s[w..], k - 1);
    }
  }
}
