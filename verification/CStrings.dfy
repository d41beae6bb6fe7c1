/** Tokenising a C string in place: Strchr, Strspn, Strcspn and Strtok_r. A pointer into a buffer is an index, and a
    null pointer is -1. */
module CStrings {
  const NUL: char := '\0'

  /** A buffer whose last cell is a terminator, so that every index in it begins a C string. */
  ghost predicate Terminated(s: seq<char>) {
    s != [] && s[|s| - 1] == NUL
  }

  /** The index of the terminator of the string at p. */
  ghost function EndOf(s: seq<char>, p: nat): (n: nat)
    requires Terminated(s) && p < |s|
    ensures p <= n < |s| && s[n] == NUL && forall i :: p <= i < n ==> s[i] != NUL
    decreases |s| - p
  {
    if s[p] == NUL then p else EndOf(s, p + 1)
  }

  /** The string at p, without its terminator. */
  ghost function StringAt(s: seq<char>, p: nat): seq<char>
    requires Terminated(s) && p < |s|
  {
    s[p..EndOf(s, p)]
  }

  /** The first index from p on whose character is not in d. */
  ghost function SkipIn(s: seq<char>, p: nat, d: set<char>): (q: nat)
    requires Terminated(s) && p < |s| && NUL !in d
    ensures p <= q <= EndOf(s, p) && s[q] !in d && forall i :: p <= i < q ==> s[i] in d
    decreases |s| - p
  {
    if s[p] in d then SkipIn(s, p + 1, d) else p
  }

  /** The first index from p on whose character is in d or ends the string. */
  ghost function SkipOut(s: seq<char>, p: nat, d: set<char>): (q: nat)
    requires Terminated(s) && p < |s| && NUL !in d
    ensures p <= q <= EndOf(s, p) && (s[q] in d || s[q] == NUL) && forall i :: p <= i < q ==> s[i] !in d && s[i] != NUL
    decreases |s| - p
  {
    if s[p] in d || s[p] == NUL then p else SkipOut(s, p + 1, d)
  }

  ghost function Characters(s: seq<char>): (d: set<char>)
    requires Terminated(s)
    ensures NUL !in d
  {
    set c | c in StringAt(s, 0)
  }

  /** The delimiters are the characters before the terminator, all of them. */
  lemma CharactersOccur(s: seq<char>, c: char)
    requires Terminated(s)
    ensures c in Characters(s) <==> exists j :: 0 <= j < EndOf(s, 0) && s[j] == c
  {
    if c in Characters(s) {
      var j :| 0 <= j < |StringAt(s, 0)| && StringAt(s, 0)[j] == c;
      assert s[j] == c;
    }
    if j :| 0 <= j < EndOf(s, 0) && s[j] == c { assert StringAt(s, 0)[j] == c; }
  }

  method Strchr(str: array<char>, from: nat, ch: char) returns (r: int)
    requires Terminated(str[..]) && from < str.Length
    ensures r >= 0 ==> from <= r <= EndOf(str[..], from) && str[r] == ch && forall i :: from <= i < r ==> str[i] != ch
    ensures r < 0 ==> r == -1 && forall i :: from <= i <= EndOf(str[..], from) ==> str[i] != ch
  {
    var p := from;
    ghost var n := EndOf(str[..], from);
    while true
      invariant from <= p <= n
      invariant forall i :: from <= i < p ==> str[i] != ch
      decreases n - p
    {
      if str[p] == ch { return p; }
      if str[p] == NUL {
        assert p == n;
        return -1;
      }
      p := p + 1;
    }
  }

  /** Membership in the delimiter string, as the loops of Strspn and Strcspn test it. */
  method IsDelimiter(delim: array<char>, ch: char) returns (b: bool)
    requires Terminated(delim[..]) && ch != NUL
    ensures b <==> ch in Characters(delim[..])
  {
    var r := Strchr(delim, 0, ch);
    if r >= 0 { assert StringAt(delim[..], 0)[r] == ch; }
    return r >= 0;
  }

  /** What SkipIn and SkipOut pass over, and where they stop, by the characters of the delimiter string. */
  lemma SkipInIsExact(s: seq<char>, p: nat, delim: seq<char>)
    requires Terminated(s) && Terminated(delim) && p < |s|
    ensures var q := SkipIn(s, p, Characters(delim));
      && p <= q < |s| && (forall i :: p <= i < q ==> exists j :: 0 <= j < EndOf(delim, 0) && delim[j] == s[i])
      && (s[q] == NUL || forall j :: 0 <= j < EndOf(delim, 0) ==> delim[j] != s[q])
  {
    var q := SkipIn(s, p, Characters(delim));
    hide SkipIn, Characters, EndOf;
    forall i | p <= i < q ensures exists j :: 0 <= j < EndOf(delim, 0) && delim[j] == s[i] { CharactersOccur(delim, s[i]); }
    CharactersOccur(delim, s[q]);
  }

  lemma SkipOutIsExact(s: seq<char>, p: nat, delim: seq<char>)
    requires Terminated(s) && Terminated(delim) && p < |s|
    ensures var q := SkipOut(s, p, Characters(delim));
      && p <= q < |s| && (forall i, j :: p <= i < q && 0 <= j < EndOf(delim, 0) ==> delim[j] != s[i])
      && (s[q] == NUL || exists j :: 0 <= j < EndOf(delim, 0) && delim[j] == s[q])
  {
    var q := SkipOut(s, p, Characters(delim));
    hide SkipOut, Characters, EndOf;
    forall i, j | p <= i < q && 0 <= j < EndOf(delim, 0) ensures delim[j] != s[i] { CharactersOccur(delim, s[i]); }
    CharactersOccur(delim, s[q]);
  }

  lemma SkipInStep(s: seq<char>, p: nat, d: set<char>)
    requires Terminated(s) && p < |s| && NUL !in d
    ensures s[p] in d ==> p + 1 < |s| && SkipIn(s, p, d) == SkipIn(s, p + 1, d)
    ensures s[p] !in d ==> SkipIn(s, p, d) == p
  {
  }

  lemma SkipOutStep(s: seq<char>, p: nat, d: set<char>)
    requires Terminated(s) && p < |s| && NUL !in d
    ensures s[p] !in d && s[p] != NUL ==> p + 1 < |s| && SkipOut(s, p, d) == SkipOut(s, p + 1, d)
    ensures s[p] in d || s[p] == NUL ==> SkipOut(s, p, d) == p
  {
  }

  method Strspn(str: array<char>, from: int, delim: array?<char>) returns (len: nat)
    requires Terminated(str[..]) && -1 <= from < str.Length && (delim != null ==> Terminated(delim[..]))
    ensures from < 0 || delim == null ==> len == 0
    ensures from >= 0 && delim != null ==> from + len == SkipIn(str[..], from, Characters(delim[..]))
    ensures from >= 0 && delim != null ==>
      && from + len < str.Length
      && (forall i :: from <= i < from + len ==> exists j :: 0 <= j < EndOf(delim[..], 0) && delim[j] == str[i])
      && (str[from + len] == NUL || forall j :: 0 <= j < EndOf(delim[..], 0) ==> delim[j] != str[from + len])
  {
    len := 0;
    if from < 0 || delim == null { return; }
    ghost var s, d := str[..], Characters(delim[..]);
    hide SkipIn, Characters, EndOf;
    while true
      invariant from + len < str.Length && SkipIn(s, from + len, d) == SkipIn(s, from, d)
      decreases str.Length - len
    {
      SkipInStep(s, from + len, d);
      if str[from + len] == NUL { break; }
      var found := IsDelimiter(delim, str[from + len]);
      if !found { break; }
      len := len + 1;
    }
    SkipInIsExact(s, from, delim[..]);
  }

  method Strcspn(str: array<char>, from: int, delim: array?<char>) returns (len: nat)
    requires Terminated(str[..]) && -1 <= from < str.Length && (delim != null ==> Terminated(delim[..]))
    ensures from < 0 || delim == null ==> len == 0
    ensures from >= 0 && delim != null ==> from + len == SkipOut(str[..], from, Characters(delim[..]))
    ensures from >= 0 && delim != null ==>
      && from + len < str.Length
      && (forall i, j :: from <= i < from + len && 0 <= j < EndOf(delim[..], 0) ==> delim[j] != str[i])
      && (str[from + len] == NUL || exists j :: 0 <= j < EndOf(delim[..], 0) && delim[j] == str[from + len])
  {
    len := 0;
    if from < 0 || delim == null { return; }
    ghost var s, d := str[..], Characters(delim[..]);
    hide SkipOut, Characters, EndOf;
    while str[from + len] != NUL
      invariant from + len < str.Length && SkipOut(s, from + len, d) == SkipOut(s, from, d)
      decreases str.Length - len
    {
      SkipOutStep(s, from + len, d);
      var found := IsDelimiter(delim, str[from + len]);
      if found { break; }
      len := len + 1;
    }
    SkipOutStep(s, from + len, d);
    SkipOutIsExact(s, from, delim[..]);
  }

  /** One call: the answer, the buffer and the saved position. */
  datatype Call = Call(answer: int, buffer: seq<char>, saved: nat)

  ghost function AfterStrtok(s: seq<char>, p: nat, d: set<char>): (c: Call)
    requires Terminated(s) && p < |s| && NUL !in d
    ensures Terminated(c.buffer) && |c.buffer| == |s| && p <= c.saved < |s|
  {
    var q := SkipIn(s, p, d);
    if s[q] == NUL then Call(-1, s, q)
    else
      var e := SkipOut(s, q, d);
      if s[e] == NUL then Call(q, s, e) else Call(q, s[e := NUL], e + 1)
  }

  /** One call by the characters of the delimiter string: without a token only delimiters are passed, up to the
      terminator. A token begins after the delimiters passed and ends at the next one, which is cut, or at the
      terminator; nothing else changes. */
  lemma StrtokIsExact(s: seq<char>, p: nat, delim: seq<char>)
    requires Terminated(s) && Terminated(delim) && p < |s|
    ensures var c, n := AfterStrtok(s, p, Characters(delim)), EndOf(delim, 0);
      if c.answer < 0 then
        && c.answer == -1 && c.buffer == s && s[c.saved] == NUL
        && forall i :: p <= i < c.saved ==> exists j :: 0 <= j < n && delim[j] == s[i]
      else
        var q, e := c.answer, if s[c.saved] == NUL && c.buffer == s then c.saved else c.saved - 1;
        && p <= q < e < |s|
        && (forall i :: p <= i < q ==> exists j :: 0 <= j < n && delim[j] == s[i])
        && (forall i, j :: q <= i < e && 0 <= j < n ==> s[i] != NUL && delim[j] != s[i])
        && if s[e] == NUL then c.saved == e && c.buffer == s
           else c.saved == e + 1 && c.buffer == s[e := NUL] && exists j :: 0 <= j < n && delim[j] == s[e]
  {
    var d := Characters(delim);
    var q := SkipIn(s, p, d);
    var e := SkipOut(s, q, d);
    SkipInIsExact(s, p, delim);
    StrtokCases(s, p, d, q, e);
    if s[q] != NUL {
      SkipOutIsExact(s, q, delim);
      TokenIsNotEmpty(s, q, d, e);
    }
    hide *;
  }

  lemma StrtokCases(s: seq<char>, p: nat, d: set<char>, q: nat, e: nat)
    requires Terminated(s) && p < |s| && NUL !in d && q == SkipIn(s, p, d) && e == SkipOut(s, q, d)
    ensures var c := AfterStrtok(s, p, d);
      if s[q] == NUL then c == Call(-1, s, q)
      else if s[e] == NUL then c == Call(q, s, e)
      else c == Call(q, s[e := NUL], e + 1) && c.buffer != s
  {
    hide SkipIn, SkipOut, EndOf;
    if s[e] != NUL { assert s[e := NUL][e] == NUL; }
  }

  lemma TokenIsNotEmpty(s: seq<char>, q: nat, d: set<char>, e: nat)
    requires Terminated(s) && q < |s| && NUL !in d && e == SkipOut(s, q, d) && s[q] !in d && s[q] != NUL
    ensures q < e && forall i :: q <= i < e ==> s[i] != NUL
  {
  }

  lemma NothingToSkip(s: seq<char>, p: nat, d: set<char>)
    requires Terminated(s) && p < |s| && NUL !in d && s[p] == NUL
    ensures SkipIn(s, p, d) == p
  {
  }

  /** Without a delimiter string the token is empty, and the first character of the rest is cut. */
  method Strtok_r(buffer: array<char>, str: int, delim: array?<char>, saveptr: nat) returns (answer: int, saved: nat)
    requires Terminated(buffer[..]) && buffer != delim && (delim != null ==> Terminated(delim[..]))
    requires -1 <= str < buffer.Length && saveptr < buffer.Length
    modifies buffer
    ensures delim != null ==>
      Call(answer, buffer[..], saved) == AfterStrtok(old(buffer[..]), if str < 0 then saveptr else str, Characters(delim[..]))
    ensures delim == null ==> var s, p := old(buffer[..]), if str < 0 then saveptr else str;
      if s[p] == NUL then answer == -1 && buffer[..] == s && saved == p
      else answer == p && buffer[..] == s[p := NUL] && saved == p + 1
  {
    hide SkipIn, SkipOut, Characters, EndOf, Terminated;
    ghost var s, d := buffer[..], if delim == null then {} else Characters(delim[..]);
    var p: nat := if str < 0 then saveptr else str;
    if buffer[p] == NUL {
      NothingToSkip(s, p, d);
      return -1, p;
    }
    var skipped := Strspn(buffer, p, delim);
    var q := p + skipped;
    if buffer[q] == NUL { return -1, q; }
    var length := Strcspn(buffer, q, delim);
    var end := q + length;
    if buffer[end] == NUL { return q, end; }
    buffer[end] := NUL;
    assert buffer[..] == s[end := NUL] && (delim != null ==> delim[..] == old(delim[..]));
    return q, end + 1;
  }
}
