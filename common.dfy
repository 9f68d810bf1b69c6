/** Values shared by the two halves of the server: an optional value (for the
    C code's NULL pointers) and the string operations the C library performs
    for it (strlen on a NUL-terminated buffer, strtok on " ", strcat). */
module Common {

  datatype Option<+T> = None | Some(value: T)

  /** Regrouping a concatenation, for texts built piece by piece. */
  lemma Assoc(a: string, b: string, c: string)
    ensures a + b + c == a + (b + c)
  {
  }

  /** The value of a C string held in `s`: the characters before the first NUL
      (all of `s` if it holds none). */
  function CStr(s: seq<char>): (r: seq<char>)
    ensures r <= s
    ensures '\0' !in r
    ensures |r| < |s| ==> s[|r|] == '\0'
  {
    if s == [] || s[0] == '\0' then [] else [s[0]] + CStr(s[1..])
  }

  /** A NUL at index `n` ends the C string at or before `n`. */
  lemma {:induction false} CStrCut(s: seq<char>, n: nat)
    requires n < |s| && s[n] == '\0'
    ensures CStr(s) == CStr(s[..n])
  {
    if s != [] && s[0] != '\0' {
      assert n > 0;
      CStrCut(s[1..], n - 1);
      assert s[1..][..n - 1] == s[..n][1..];
    }
  }

  /** The longest prefix of `s` without a space: the token strtok returns when
      `s` starts with a non-space. */
  function Word(s: string): (w: string)
    ensures w <= s
    ensures ' ' !in w
    ensures |w| == |s| || s[|w|] == ' '
  {
    if s == [] || s[0] == ' ' then [] else [s[0]] + Word(s[1..])
  }

  /** A run of non-spaces ended by a space or by the end of `t` is its word. */
  lemma WordIs(t: string, n: nat)
    requires n <= |t| && ' ' !in t[..n]
    requires n == |t| || t[n] == ' '
    ensures Word(t) == t[..n]
  {
    assert forall k :: 0 <= k < n ==> t[k] == t[..n][k] && t[k] != ' ';
  }

  /** The tokens strtok(_, " ") yields: maximal runs of non-space characters,
      in order; runs of spaces produce no empty tokens. */
  function Tokens(s: string): (ts: seq<string>)
    ensures forall k :: 0 <= k < |ts| ==> ts[k] != [] && ' ' !in ts[k]
    decreases |s|
  {
    if s == [] then []
    else if s[0] == ' ' then Tokens(s[1..])
    else
      var w := Word(s);
      [w] + Tokens(s[|w|..])
  }

  /** The tokens from offset `i`, where a run of non-spaces `s[i..j]`
      starts: that run, then the tokens after it (the space ending it, if
      any, yields nothing). */
  lemma TokensAt(s: string, i: nat, j: nat)
    requires i < j <= |s| && s[i] != ' ' && ' ' !in s[i..j]
    requires j == |s| || s[j] == ' '
    ensures Tokens(s[i..]) == [s[i..j]] + Tokens(s[j..])
    ensures j < |s| ==> Tokens(s[j..]) == Tokens(s[j + 1..])
  {
    WordIs(s[i..], j - i);
    assert s[i..][..j - i] == s[i..j] && s[i..][j - i..] == s[j..];
    if j < |s| {
      assert s[j..][1..] == s[j + 1..];
    }
  }

  /** The words joined with single spaces, as strcpy of the first and strcat
      of " " and each further word build it. */
  function Join(ws: seq<string>): string
  {
    if ws == [] then []
    else if |ws| == 1 then ws[0]
    else ws[0] + " " + Join(ws[1..])
  }

  /** strcat of " " and one more word onto a joined string. */
  lemma {:induction false} JoinSnoc(ws: seq<string>, w: string)
    requires ws != []
    ensures Join(ws + [w]) == Join(ws) + " " + w
  {
    if |ws| == 1 {
      assert (ws + [w])[1..] == [w];
    } else {
      JoinSnoc(ws[1..], w);
      assert (ws + [w])[1..] == ws[1..] + [w];
      assert ws[0] + " " + (Join(ws[1..]) + " " + w) == ws[0] + " " + Join(ws[1..]) + " " + w;
    }
  }

  /** A word that strtok could have produced. */
  predicate IsToken(w: string)
  {
    w != [] && ' ' !in w
  }

  lemma {:induction false} WordOfPrefix(w: string, t: string)
    requires ' ' !in w
    requires t == [] || t[0] == ' '
    ensures Word(w + t) == w
  {
    if w != [] {
      assert (w + t)[0] == w[0];
      assert (w + t)[1..] == w[1..] + t;
      WordOfPrefix(w[1..], t);
    } else {
      assert w + t == t;
    }
  }

  lemma {:induction false} TokensOfJoinedTail(w: string, rest: seq<string>)
    requires IsToken(w)
    requires rest != [] ==> Tokens(Join(rest)) == rest
    ensures Tokens(Join([w] + rest)) == [w] + rest
  {
    var ws := [w] + rest;
    assert ws[1..] == rest;
    if rest == [] {
      WordOfPrefix(w, []);
      assert w + [] == w;
      assert w[|w|..] == [];
    } else {
      var s := w + " " + Join(rest);
      assert Join(ws) == s;
      WordOfPrefix(w, " " + Join(rest));
      assert s == w + (" " + Join(rest));
      assert s[0] == w[0];
      assert s[|w|..] == " " + Join(rest);
      assert (" " + Join(rest))[1..] == Join(rest);
    }
  }

  /** Re-tokenising the joined words gives the words back: joining the tokens
      of a post's contents loses nothing. */
  lemma {:induction false} TokensJoin(ws: seq<string>)
    requires forall k :: 0 <= k < |ws| ==> IsToken(ws[k])
    ensures Tokens(Join(ws)) == ws
  {
    if ws != [] {
      if |ws| > 1 {
        TokensJoin(ws[1..]);
      }
      assert ws == [ws[0]] + ws[1..];
      TokensOfJoinedTail(ws[0], ws[1..]);
    }
  }
}
