/**
 * Strings as Ruby's `String#split` (called with no pattern) sees them: runs of
 * ASCII whitespace separate fields, and leading and trailing whitespace is dropped.
 */
module Text {
  import Sequences

  /** The separators of `split` without a pattern: space, and tab through carriage return
      (tab, line feed, vertical tab, form feed, carriage return). NUL is not one. */
  predicate IsWhitespace(c: char) {
    c == ' ' || '\t' <= c <= '\r'
  }

  predicate NoWhitespace(s: string) {
    forall i :: 0 <= i < |s| ==> !IsWhitespace(s[i])
  }

  predicate AllWhitespace(s: string) {
    forall i :: 0 <= i < |s| ==> IsWhitespace(s[i])
  }

  /** What `split` can return as a field: non-empty, with no whitespace in it. */
  predicate IsWord(t: string) {
    t != [] && NoWhitespace(t)
  }

  /** Length of the run of whitespace that starts `s`. */
  function SpaceRun(s: string): (n: nat)
    ensures n <= |s| && AllWhitespace(s[..n])
    ensures n < |s| ==> !IsWhitespace(s[n])
  {
    if s == [] || !IsWhitespace(s[0]) then 0 else 1 + SpaceRun(s[1..])
  }

  /** Length of the run of non-whitespace that starts `s`. */
  function WordRun(s: string): (n: nat)
    ensures n <= |s| && NoWhitespace(s[..n])
    ensures n < |s| ==> IsWhitespace(s[n])
  {
    if s == [] || IsWhitespace(s[0]) then 0 else 1 + WordRun(s[1..])
  }

  /** `line.split`: the maximal runs of non-whitespace of `s`, in order. */
  function Tokens(s: string): seq<string>
    decreases |s|
  {
    var i := SpaceRun(s);
    if i == |s| then []
    else
      var rest := s[i..];
      var n := WordRun(rest);
      assert n != 0 by { assert !IsWhitespace(rest[0]); }
      [rest[..n]] + Tokens(rest[n..])
  }

  /** `s` with every whitespace character removed. */
  function Squeeze(s: string): string {
    if s == [] then []
    else if IsWhitespace(s[0]) then Squeeze(s[1..])
    else [s[0]] + Squeeze(s[1..])
  }

  /** ASCII case folding, as a case-insensitive Ruby regexp applies it to ASCII text. */
  function LowerChar(c: char): char {
    if 'A' <= c <= 'Z' then (c as int + 32) as char else c
  }

  function Lower(s: string): (r: string)
    ensures |r| == |s| && forall i :: 0 <= i < |s| ==> r[i] == LowerChar(s[i])
  {
    seq(|s|, i requires 0 <= i < |s| => LowerChar(s[i]))
  }

  /** The last `|suffix|` characters of `s`, folded to lower case, are `suffix`. */
  predicate EndsWithIgnoringCase(s: string, suffix: string) {
    |suffix| <= |s| && Lower(s[|s| - |suffix|..]) == suffix
  }

  /** The concatenation of a sequence of strings. */
  function Concat(ts: seq<string>): string {
    if ts == [] then [] else ts[0] + Concat(ts[1..])
  }

  /** The strings of `ts` separated by single spaces: one line of a list file. */
  function JoinWords(ts: seq<string>): string {
    if ts == [] then []
    else if |ts| == 1 then ts[0]
    else ts[0] + (" " + JoinWords(ts[1..]))
  }

  /** A line yields no tokens exactly when it is blank or holds only whitespace. */
  lemma {:induction false} TokensEmptyIffBlank(s: string)
    ensures Tokens(s) == [] <==> AllWhitespace(s)
  {
    assert s[..|s|] == s;
  }

  lemma {:induction false} SqueezeAppend(a: string, b: string)
    ensures Squeeze(a + b) == Squeeze(a) + Squeeze(b)
  {
    if a != [] {
      assert (a + b)[1..] == a[1..] + b;
      SqueezeAppend(a[1..], b);
    } else {
      assert a + b == b;
    }
  }

  lemma {:induction false} SqueezeBlank(s: string)
    requires AllWhitespace(s)
    ensures Squeeze(s) == []
  {
    if s != [] { SqueezeBlank(s[1..]); }
  }

  lemma {:induction false} SqueezeWord(s: string)
    requires NoWhitespace(s)
    ensures Squeeze(s) == s
  {
    if s != [] { SqueezeWord(s[1..]); }
  }

  /** One step of `Tokens`: the leading whitespace, the first token and what follows it. */
  lemma {:induction false} TokensStep(s: string) returns (w: string, t: string, u: string)
    requires !AllWhitespace(s)
    ensures s == w + t + u && AllWhitespace(w) && IsWord(t)
    ensures Tokens(s) == [t] + Tokens(u)
  {
    var i := SpaceRun(s);
    assert s[..|s|] == s;
    var rest := s[i..];
    var n := WordRun(rest);
    w, t, u := s[..i], rest[..n], rest[n..];
    assert rest == t + u;
    assert s == w + rest;
    Sequences.Assoc(w, t, u);
  }

  /** Every token is non-empty and holds no whitespace. */
  lemma {:induction false} TokensAreWords(s: string)
    ensures forall k :: 0 <= k < |Tokens(s)| ==> IsWord(Tokens(s)[k])
    decreases |s|
  {
    if !AllWhitespace(s) {
      var w, t, u := TokensStep(s);
      TokensAreWords(u);
      WordsCons(t, Tokens(u));
    }
  }

  lemma WordsCons(t: string, ts: seq<string>)
    requires IsWord(t) && forall k :: 0 <= k < |ts| ==> IsWord(ts[k])
    ensures forall k :: 0 <= k < |[t] + ts| ==> IsWord(([t] + ts)[k])
  {
    assert forall k :: 1 <= k < |[t] + ts| ==> ([t] + ts)[k] == ts[k - 1];
  }

  /** Splitting loses nothing but whitespace: the tokens, put back together, are the
      line's non-whitespace characters in their order. */
  lemma {:induction false} TokensKeepText(s: string)
    ensures Concat(Tokens(s)) == Squeeze(s)
    decreases |s|
  {
    assert s[..|s|] == s;
    if SpaceRun(s) == |s| {
      SqueezeBlank(s);
    } else {
      var w, t, u := TokensStep(s);
      calc {
        Squeeze(s);
        { SqueezeAppend(w + t, u); }
        Squeeze(w + t) + Squeeze(u);
        { SqueezeAppend(w, t); SqueezeBlank(w); SqueezeWord(t); }
        t + Squeeze(u);
        { TokensKeepText(u); }
        t + Concat(Tokens(u));
        { assert ([t] + Tokens(u))[1..] == Tokens(u); }
        Concat([t] + Tokens(u));
      }
    }
  }

  lemma {:induction false} SpaceRunAppend(w: string, u: string)
    requires AllWhitespace(w)
    ensures SpaceRun(w + u) == |w| + SpaceRun(u)
  {
    if w != [] {
      assert (w + u)[1..] == w[1..] + u;
      SpaceRunAppend(w[1..], u);
    } else {
      assert w + u == u;
    }
  }

  /** Leading whitespace does not change the tokens. */
  lemma {:induction false} TokensSkipSpace(w: string, u: string)
    requires AllWhitespace(w)
    ensures Tokens(w + u) == Tokens(u)
  {
    SpaceRunAppend(w, u);
    var i := SpaceRun(u);
    assert (w + u)[|w| + i..] == u[i..];
  }

  /** A word followed by whitespace or by nothing is read as one whole token. */
  lemma {:induction false} WordRunOfWord(t: string, u: string)
    requires NoWhitespace(t)
    requires u == [] || IsWhitespace(u[0])
    ensures WordRun(t + u) == |t|
  {
    var n := WordRun(t + u);
    assert forall k :: 0 <= k < |t| ==> (t + u)[k] == t[k];
    assert |t| < |t + u| ==> (t + u)[|t|] == u[0];
  }

  /** A word followed by whitespace or by nothing is the first token. */
  lemma {:induction false} TokensOfWord(t: string, u: string)
    requires t != [] && NoWhitespace(t)
    requires u == [] || IsWhitespace(u[0])
    ensures Tokens(t + u) == [t] + Tokens(u)
  {
    var s := t + u;
    assert SpaceRun(s) == 0 by { assert s[0] == t[0]; }
    assert s[0..] == s;
    WordRunOfWord(t, u);
    assert s[..|t|] == t;
    assert s[|t|..] == u;
  }

  /** Splitting a line built by joining well-formed tokens with single spaces gives the
      tokens back. */
  lemma {:induction false} TokensJoinWords(ts: seq<string>)
    requires forall k :: 0 <= k < |ts| ==> IsWord(ts[k])
    ensures Tokens(JoinWords(ts)) == ts
  {
    if |ts| == 1 {
      TokensOfWord(ts[0], []);
      assert ts[0] + [] == ts[0];
    } else if |ts| > 1 {
      var tail := " " + JoinWords(ts[1..]);
      assert Tokens(JoinWords(ts)) == [ts[0]] + Tokens(tail) by {
        TokensOfWord(ts[0], tail);
      }
      assert Tokens(tail) == ts[1..] by {
        TokensSkipSpace(" ", JoinWords(ts[1..]));
        TokensJoinWords(ts[1..]);
      }
      assert ts == [ts[0]] + ts[1..];
    }
  }

  /** Two words separated by one space split into those two words. */
  lemma TokensOfTwo(v: string, w: string)
    requires IsWord(v) && IsWord(w)
    ensures Tokens(v + " " + w) == [v, w]
  {
    assert v + " " + w == v + (" " + w);
    assert Tokens(v + (" " + w)) == [v] + Tokens(" " + w) by {
      TokensOfWord(v, " " + w);
    }
    assert Tokens(" " + w) == Tokens(w) by {
      TokensSkipSpace(" ", w);
    }
    assert Tokens(w) == [w] by {
      TokensOfWord(w, []);
      assert w + [] == w;
    }
    assert [v] + [w] == [v, w];
  }
}
