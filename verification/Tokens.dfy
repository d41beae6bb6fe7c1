/** Repeated calls of Strtok_r with one set of delimiters: the answers are the maximal delimiter-free substrings. */
module Tokens {
  import opened CStrings

  datatype Token = Token(start: nat, end: nat)

  /** A maximal delimiter-free substring of s[lo..n]: it cannot be extended to either side. */
  ghost predicate Maximal(s: seq<char>, lo: nat, n: nat, d: set<char>, t: Token) {
    && lo <= t.start < t.end <= n < |s|
    && (forall i :: t.start <= i < t.end ==> s[i] !in d)
    && (t.start == lo || s[t.start - 1] in d)
    && (t.end == n || s[t.end] in d)
  }

  /** The tokens that successive calls find from p on, as long as nothing above the saved position changes. */
  ghost function TokensFrom(s: seq<char>, p: nat, d: set<char>): (ts: seq<Token>)
    requires Terminated(s) && p < |s| && NUL !in d
    decreases |s| - p, 1
  {
    var q := SkipIn(s, p, d);
    if s[q] == NUL then []
    else
      var e := SkipOut(s, q, d);
      [Token(q, e)] + TokensAfter(s, e, d)
  }

  /** The tokens behind one that ends at e. */
  ghost function TokensAfter(s: seq<char>, e: nat, d: set<char>): seq<Token>
    requires Terminated(s) && e < |s| && NUL !in d
    decreases |s| - e, 0
  {
    if s[e] == NUL then [] else TokensFrom(s, e + 1, d)
  }

  lemma UnfoldTokens(s: seq<char>, p: nat, d: set<char>)
    requires Terminated(s) && p < |s| && NUL !in d
    ensures var q := SkipIn(s, p, d); var e := SkipOut(s, q, d);
      TokensFrom(s, p, d) == if s[q] == NUL then [] else [Token(q, e)] + if s[e] == NUL then [] else TokensFrom(s, e + 1, d)
  {
    var q := SkipIn(s, p, d);
    var e := SkipOut(s, q, d);
    FirstOfTokens(s, p, d);
    UnfoldAfter(s, e, d);
    hide *;
  }

  lemma FirstOfTokens(s: seq<char>, p: nat, d: set<char>)
    requires Terminated(s) && p < |s| && NUL !in d
    ensures var q := SkipIn(s, p, d); var e := SkipOut(s, q, d);
      TokensFrom(s, p, d) == if s[q] == NUL then [] else [Token(q, e)] + TokensAfter(s, e, d)
  {
    hide SkipIn, SkipOut, EndOf, TokensAfter;
  }

  lemma UnfoldAfter(s: seq<char>, e: nat, d: set<char>)
    requires Terminated(s) && e < |s| && NUL !in d
    ensures s[e] == NUL ==> TokensAfter(s, e, d) == []
    ensures s[e] != NUL ==> e + 1 < |s| && TokensAfter(s, e, d) == TokensFrom(s, e + 1, d)
  {
    hide TokensFrom;
  }

  lemma SameEnd(s: seq<char>, p: nat, q: nat)
    requires Terminated(s) && p <= q < |s| && forall i :: p <= i < q ==> s[i] != NUL
    ensures EndOf(s, p) == EndOf(s, q)
  {
  }

  /** The tokens found are the maximal ones, all of them. */
  lemma {:induction false} TokensAreTheMaximalOnes(s: seq<char>, p: nat, d: set<char>, t: Token)
    requires Terminated(s) && p < |s| && NUL !in d
    ensures t in TokensFrom(s, p, d) <==> Maximal(s, p, EndOf(s, p), d, t)
    decreases |s| - p
  {
    hide SkipIn, SkipOut, EndOf, TokensFrom, Maximal;
    UnfoldTokens(s, p, d);
    var n, q := EndOf(s, p), SkipIn(s, p, d);
    SameEnd(s, p, q);
    if s[q] != NUL {
      var e := SkipOut(s, q, d);
      FirstToken(s, p, n, d, q, e, t);
      if s[e] != NUL {
        TokensAreTheMaximalOnes(s, e + 1, d, t);
        SameEnd(s, p, e + 1);
        LaterToken(s, p, n, d, q, e, t);
      } else {
        SameEnd(s, q, e);
      }
    } else {
      NoToken(s, p, n, d, t);
    }
  }

  /** The same by the characters of the delimiter string: the tokens of the string at p are its substrings without any
      of them that have one, or an end of the string, on either side. */
  lemma TokensByDelimiters(s: seq<char>, p: nat, delim: seq<char>, t: Token)
    requires Terminated(s) && Terminated(delim) && p < |s|
    ensures t in TokensFrom(s, p, Characters(delim)) <==>
      && p <= t.start < t.end <= EndOf(s, p)
      && (forall i, j :: t.start <= i < t.end && 0 <= j < EndOf(delim, 0) ==> delim[j] != s[i])
      && (t.start == p || exists j :: 0 <= j < EndOf(delim, 0) && delim[j] == s[t.start - 1])
      && (t.end == EndOf(s, p) || exists j :: 0 <= j < EndOf(delim, 0) && delim[j] == s[t.end])
  {
    TokensAreTheMaximalOnes(s, p, Characters(delim), t);
    MaximalByDelimiters(s, p, EndOf(s, p), delim, t);
    hide TokensFrom, Characters, EndOf, Maximal;
  }

  ghost predicate Occurs(delim: seq<char>, c: char)
    requires Terminated(delim)
  {
    exists j :: 0 <= j < EndOf(delim, 0) && delim[j] == c
  }

  ghost predicate NoneOccurs(s: seq<char>, delim: seq<char>, lo: nat, hi: nat)
    requires Terminated(delim) && hi <= |s|
  {
    forall i, j :: lo <= i < hi && 0 <= j < EndOf(delim, 0) ==> delim[j] != s[i]
  }

  lemma MaximalByDelimiters(s: seq<char>, p: nat, n: nat, delim: seq<char>, t: Token)
    requires Terminated(delim) && p <= n < |s|
    ensures Maximal(s, p, n, Characters(delim), t) <==>
      && p <= t.start < t.end <= n && NoneOccurs(s, delim, t.start, t.end)
      && (t.start == p || Occurs(delim, s[t.start - 1])) && (t.end == n || Occurs(delim, s[t.end]))
  {
    hide Characters, EndOf, Occurs, NoneOccurs;
    if p <= t.start < t.end <= n {
      if t.start > p { OccursIff(delim, s[t.start - 1]); }
      OccursIff(delim, s[t.end]);
      NoneOccursIff(s, delim, t.start, t.end);
    }
  }

  lemma OccursIff(delim: seq<char>, c: char)
    requires Terminated(delim)
    ensures c in Characters(delim) <==> Occurs(delim, c)
  {
    CharactersOccur(delim, c);
    hide Characters, EndOf;
  }

  lemma NoneOccursIff(s: seq<char>, delim: seq<char>, lo: nat, hi: nat)
    requires Terminated(delim) && hi <= |s|
    ensures (forall i :: lo <= i < hi ==> s[i] !in Characters(delim)) <==> NoneOccurs(s, delim, lo, hi)
  {
    hide Characters, EndOf;
    forall i | lo <= i < hi ensures s[i] in Characters(delim) <==> Occurs(delim, s[i]) {
      OccursIff(delim, s[i]);
    }
  }

  lemma NoToken(s: seq<char>, p: nat, n: nat, d: set<char>, t: Token)
    requires n < |s| && forall i :: p <= i < n ==> s[i] in d
    ensures !Maximal(s, p, n, d, t)
  {
    assert p <= t.start < n ==> s[t.start] in d;
  }

  /** Each token begins after the previous one's terminator. */
  lemma {:induction false} TokensAreInOrder(s: seq<char>, p: nat, d: set<char>, i: nat, j: nat)
    requires Terminated(s) && p < |s| && NUL !in d && i <= j < |TokensFrom(s, p, d)|
    ensures p <= TokensFrom(s, p, d)[i].start
    ensures i < j ==> TokensFrom(s, p, d)[i].end < TokensFrom(s, p, d)[j].start
    decreases |s| - p
  {
    hide SkipIn, SkipOut, EndOf, TokensFrom;
    UnfoldTokens(s, p, d);
    var e := SkipOut(s, SkipIn(s, p, d), d);
    if j > 0 {
      TokensAreInOrder(s, e + 1, d, if i > 0 then i - 1 else 0, j - 1);
      if i == 0 { TokensAreInOrder(s, e + 1, d, j - 1, j - 1); }
    }
  }

  /** No maximal substring begins before the first token's end, except that token. */
  lemma FirstToken(s: seq<char>, p: nat, n: nat, d: set<char>, q: nat, e: nat, t: Token)
    requires p <= q < e <= n < |s|
    requires (forall i :: p <= i < q ==> s[i] in d) && (forall i :: q <= i < e ==> s[i] !in d)
    requires e == n || s[e] in d
    ensures t.start < e ==> (Maximal(s, p, n, d, t) <==> t == Token(q, e))
    ensures e == n && Maximal(s, p, n, d, t) ==> t.start < e
  {
    assert p <= t.start < q ==> s[t.start] in d;
    assert q < t.start < e ==> s[t.start - 1] !in d;
    assert q < t.end < e ==> s[t.end] !in d;
    assert q > p ==> s[q - 1] in d;
  }

  lemma LaterToken(s: seq<char>, p: nat, n: nat, d: set<char>, q: nat, e: nat, t: Token)
    requires p <= q < e < n < |s| && s[e] in d
    ensures t.start >= e ==> (Maximal(s, p, n, d, t) <==> Maximal(s, e + 1, n, d, t))
    ensures Maximal(s, e + 1, n, d, t) ==> t.start > e
  {
  }

  /** The calls with a null pointer that follow a first one: their answers, the buffer and the saved position. */
  ghost function Calls(s: seq<char>, p: nat, d: set<char>, count: nat): (seq<int>, seq<char>)
    requires Terminated(s) && p < |s| && NUL !in d
    decreases count
  {
    if count == 0 then ([], s)
    else
      var c := AfterStrtok(s, p, d);
      var (answers, buffer) := Calls(c.buffer, c.saved, d, count - 1);
      ([c.answer] + answers, buffer)
  }

  ghost function Ends(ts: seq<Token>): set<nat> {
    set t | t in ts :: t.end
  }

  /** u is s with a terminator after each token. Where a token ends the string there already is one. */
  ghost predicate Cut(s: seq<char>, u: seq<char>, ends: set<nat>) {
    |u| == |s| && forall i: nat :: i < |s| ==> u[i] == if i in ends then NUL else s[i]
  }

  /** The buffers are the same from p on. */
  ghost predicate Agree(s: seq<char>, u: seq<char>, p: nat) {
    |s| == |u| && forall i :: p <= i < |s| ==> u[i] == s[i]
  }

  lemma AgreeLater(s: seq<char>, u: seq<char>, p: nat, q: nat)
    requires Agree(s, u, p) && p <= q < |s|
    ensures |u| == |s| && u[q] == s[q] && Agree(s, u, q) && Agree(s, u, q + 1)
  {
  }

  lemma {:induction false} TokensLookAhead(s: seq<char>, u: seq<char>, p: nat, d: set<char>)
    requires Terminated(s) && Terminated(u) && p < |s| && NUL !in d && Agree(s, u, p)
    ensures p < |u| && TokensFrom(u, p, d) == TokensFrom(s, p, d)
    decreases |s| - p
  {
    hide SkipIn, SkipOut, EndOf, TokensFrom, Agree;
    AgreeLater(s, u, p, p);
    UnfoldTokens(s, p, d);
    UnfoldTokens(u, p, d);
    SkipsLookAhead(s, u, p, d);
    var q := SkipIn(s, p, d);
    AgreeLater(s, u, p, q);
    if s[q] != NUL {
      SkipsLookAhead(s, u, q, d);
      var e := SkipOut(s, q, d);
      AgreeLater(s, u, q, e);
      if s[e] != NUL { TokensLookAhead(s, u, e + 1, d); }
    }
  }

  lemma {:induction false} SkipsLookAhead(s: seq<char>, u: seq<char>, p: nat, d: set<char>)
    requires Terminated(s) && Terminated(u) && p < |s| && NUL !in d && Agree(s, u, p)
    ensures p < |u| && SkipIn(u, p, d) == SkipIn(s, p, d) && SkipOut(u, p, d) == SkipOut(s, p, d)
    decreases |s| - p
  {
    if p + 1 < |s| { SkipsLookAhead(s, u, p + 1, d); }
  }

  lemma TokensAfterCall(s: seq<char>, p: nat, d: set<char>)
    requires Terminated(s) && p < |s| && NUL !in d
    ensures var c, ts := AfterStrtok(s, p, d), TokensFrom(s, p, d);
      var rest := TokensFrom(c.buffer, c.saved, d);
      if ts == [] then c.answer == -1 && rest == []
      else c.answer == ts[0].start && rest == ts[1..] && Ends(ts) == {ts[0].end} + Ends(rest)
           && Cut(s, c.buffer, {ts[0].end})
    ensures TokensFrom(s, p, d) == [] ==> AfterStrtok(s, p, d).buffer == s
  {
    hide SkipIn, SkipOut, EndOf, Ends, TokensFrom;
    UnfoldTokens(s, p, d);
    var q := SkipIn(s, p, d);
    if s[q] == NUL {
      UnfoldTokens(s, q, d);
      NothingToSkip(s, q, d);
    } else {
      var e := SkipOut(s, q, d);
      EndsOfTokens(TokensFrom(s, p, d));
      if s[e] == NUL {
        UnfoldTokens(s, e, d);
        NothingToSkip(s, e, d);
      } else {
        TokensLookAhead(s, s[e := NUL], e + 1, d);
      }
    }
  }

  lemma EndsOfTokens(ts: seq<Token>)
    requires ts != []
    ensures Ends(ts) == {ts[0].end} + Ends(ts[1..])
  {
    assert ts == [ts[0]] + ts[1..];
  }

  lemma NoCalls(s: seq<char>, p: nat, d: set<char>)
    requires Terminated(s) && p < |s| && NUL !in d
    ensures Calls(s, p, d, 0) == ([], s)
  {
  }

  lemma NothingCut(s: seq<char>)
    ensures Cut(s, s, Ends([]))
  {
  }

  lemma UnfoldCalls(s: seq<char>, p: nat, d: set<char>, count: nat)
    requires Terminated(s) && p < |s| && NUL !in d && count > 0
    ensures var c := AfterStrtok(s, p, d); var rest := Calls(c.buffer, c.saved, d, count - 1);
      Calls(s, p, d, count) == ([c.answer] + rest.0, rest.1)
  {
    hide AfterStrtok;
  }

  /** The answers are the starts of the tokens in order, and null from then on. */
  ghost predicate AnswersAre(answers: seq<int>, ts: seq<Token>) {
    forall i: nat :: i < |answers| ==> answers[i] == if i < |ts| then ts[i].start else -1
  }

  lemma NoAnswers(ts: seq<Token>)
    ensures AnswersAre([], ts)
  {
  }

  lemma AnswersCompose(a: int, answers: seq<int>, ts: seq<Token>, rest: seq<Token>)
    requires AnswersAre(answers, rest)
    requires if ts == [] then a == -1 && rest == [] else a == ts[0].start && rest == ts[1..]
    ensures AnswersAre([a] + answers, ts)
  {
  }

  /** Calling on and on answers all tokens, in order, and then null. */
  lemma {:induction false} CallsAnswerAllTokens(s: seq<char>, p: nat, d: set<char>, count: nat)
    requires Terminated(s) && p < |s| && NUL !in d
    ensures |Calls(s, p, d, count).0| == count && AnswersAre(Calls(s, p, d, count).0, TokensFrom(s, p, d))
    decreases count
  {
    hide AfterStrtok, TokensFrom, Ends, Cut, Calls, SkipIn, SkipOut, EndOf, AnswersAre;
    NoCalls(s, p, d);
    NoAnswers(TokensFrom(s, p, d));
    if count > 0 {
      var c := AfterStrtok(s, p, d);
      TokensAfterCall(s, p, d);
      UnfoldCalls(s, p, d, count);
      CallsAnswerAllTokens(c.buffer, c.saved, d, count - 1);
      AnswersCompose(c.answer, Calls(c.buffer, c.saved, d, count - 1).0, TokensFrom(s, p, d),
                     TokensFrom(c.buffer, c.saved, d));
    }
  }

  lemma CutCompose(s: seq<char>, t: seq<char>, u: seq<char>, ends: set<nat>, more: set<nat>)
    requires Cut(s, t, ends) && Cut(t, u, more)
    ensures Cut(s, u, ends + more)
  {
  }

  /** Once all tokens have been answered the buffer has a terminator after each of them and is otherwise unchanged. */
  lemma {:induction false} CallsCutAfterTokens(s: seq<char>, p: nat, d: set<char>, count: nat)
    requires Terminated(s) && p < |s| && NUL !in d && count >= |TokensFrom(s, p, d)|
    ensures Cut(s, Calls(s, p, d, count).1, Ends(TokensFrom(s, p, d)))
    decreases count
  {
    hide AfterStrtok, TokensFrom, Ends, Cut, Calls, SkipIn, SkipOut, EndOf;
    NoCalls(s, p, d);
    NothingCut(s);
    if count > 0 {
      var c := AfterStrtok(s, p, d);
      TokensAfterCall(s, p, d);
      UnfoldCalls(s, p, d, count);
      CallsCutAfterTokens(c.buffer, c.saved, d, count - 1);
      if TokensFrom(s, p, d) != [] {
        CutCompose(s, c.buffer, Calls(c.buffer, c.saved, d, count - 1).1, {TokensFrom(s, p, d)[0].end},
                   Ends(TokensFrom(c.buffer, c.saved, d)));
      }
    }
  }

  /** Every token can be read back from the final buffer as a C string at the answer for it. */
  lemma TokensAreReadBack(s: seq<char>, p: nat, d: set<char>, count: nat, t: Token)
    requires Terminated(s) && p < |s| && NUL !in d && count >= |TokensFrom(s, p, d)| && t in TokensFrom(s, p, d)
    ensures t.start < t.end < |s|
    ensures var u := Calls(s, p, d, count).1;
      |u| == |s| && u[t.end] == NUL && u[t.start..t.end] == s[t.start..t.end]
      && forall i :: t.start <= i < t.end ==> u[i] != NUL
  {
    hide TokensFrom, Calls, SkipIn, SkipOut, EndOf;
    CallsCutAfterTokens(s, p, d, count);
    TokensAreTheMaximalOnes(s, p, d, t);
    assert t.end in Ends(TokensFrom(s, p, d));
    forall i | t.start <= i < t.end ensures i !in Ends(TokensFrom(s, p, d)) {
      if i in Ends(TokensFrom(s, p, d)) {
        var other :| other in TokensFrom(s, p, d) && other.end == i;
        TokensAreTheMaximalOnes(s, p, d, other);
      }
    }
  }
}
