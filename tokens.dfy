/**
  Whitespace tokenising as done by Python's `str.split()` called without a
  separator: runs of whitespace separate tokens, leading and trailing
  whitespace produce no token, and no token is ever empty.
 */
module Tokens {

  /** The characters Python's `str.isspace` accepts, which `str.split()` splits on. */
  predicate IsSpace(c: char) {
    ('\t' <= c <= '\r') || ('\U{1C}' <= c <= '\U{1F}') || c == ' ' ||
    c == '\U{85}' || c == '\U{A0}' || c == '\U{1680}' ||
    ('\U{2000}' <= c <= '\U{200A}') || c == '\U{2028}' || c == '\U{2029}' ||
    c == '\U{202F}' || c == '\U{205F}' || c == '\U{3000}'
  }

  /** A token: a non-empty run of non-whitespace characters. */
  predicate IsToken(t: string) {
    |t| > 0 && forall i :: 0 <= i < |t| ==> !IsSpace(t[i])
  }

  predicate AllSpace(s: string) {
    forall i :: 0 <= i < |s| ==> IsSpace(s[i])
  }

  /** Length of the longest whitespace-free prefix of `s`. */
  function WordLen(s: string): (n: nat)
    ensures n <= |s|
    ensures forall i :: 0 <= i < n ==> !IsSpace(s[i])
    ensures n < |s| ==> IsSpace(s[n])
  {
    if s == [] || IsSpace(s[0]) then 0 else 1 + WordLen(s[1..])
  }

  /** `s.split()`: the whitespace-separated tokens of `s`, in order. */
  function Split(s: string): (r: seq<string>)
    ensures forall t :: t in r ==> IsToken(t)
    decreases |s|
  {
    if s == [] then []
    else if IsSpace(s[0]) then Split(s[1..])
    else
      var n := WordLen(s);
      [s[..n]] + Split(s[n..])
  }

  /** The non-whitespace characters of `s`, in order. */
  function NonSpace(s: string): string {
    if s == [] then []
    else (if IsSpace(s[0]) then [] else [s[0]]) + NonSpace(s[1..])
  }

  function Concat(ts: seq<string>): string {
    if ts == [] then [] else ts[0] + Concat(ts[1..])
  }

  /**
    The tokens joined by single spaces (Python's `' '.join(ts)`): the
    canonical layout of a line. `Spaced` and `SplitSpaced` cover every other
    whitespace layout; this one is kept for `Buckets.Render`.
   */
  function Join(ts: seq<string>): string {
    if ts == [] then []
    else if |ts| == 1 then ts[0]
    else ts[0] + " " + Join(ts[1..])
  }

  lemma {:induction false} NonSpaceOfWord(s: string, n: nat)
    requires n <= |s|
    requires forall i :: 0 <= i < n ==> !IsSpace(s[i])
    ensures NonSpace(s) == s[..n] + NonSpace(s[n..])
    decreases n
  {
    if n > 0 {
      NonSpaceOfWord(s[1..], n - 1);
      assert s[1..][..n - 1] == s[1..n];
      assert s[1..][n - 1..] == s[n..];
      assert s[..n] == [s[0]] + s[1..n];
    }
  }

  /** Splitting loses exactly the whitespace: the tokens, concatenated, are the line's other characters. */
  lemma {:induction false} SplitKeepsText(s: string)
    ensures Concat(Split(s)) == NonSpace(s)
    decreases |s|
  {
    if s == [] {
    } else if IsSpace(s[0]) {
      SplitKeepsText(s[1..]);
    } else {
      var n := WordLen(s);
      SplitKeepsText(s[n..]);
      NonSpaceOfWord(s, n);
      assert Split(s) == [s[..n]] + Split(s[n..]);
      assert ([s[..n]] + Split(s[n..]))[1..] == Split(s[n..]);
    }
  }

  /** A line has no tokens exactly when it is made only of whitespace (an empty line included). */
  lemma {:induction false} SplitEmptyIff(s: string)
    ensures Split(s) == [] <==> AllSpace(s)
    decreases |s|
  {
    if s != [] {
      SplitEmptyIff(s[1..]);
      if IsSpace(s[0]) {
        if AllSpace(s[1..]) {
          forall i | 0 <= i < |s| ensures IsSpace(s[i]) {
            if i > 0 { assert s[i] == s[1..][i - 1]; }
          }
        }
        if AllSpace(s) {
          forall i | 0 <= i < |s[1..]| ensures IsSpace(s[1..][i]) {
            assert s[1..][i] == s[i + 1];
          }
        }
      }
    }
  }

  lemma {:induction false} WordLenOfToken(t: string, rest: string)
    requires IsToken(t)
    requires rest == [] || IsSpace(rest[0])
    ensures WordLen(t + rest) == |t|
    decreases |t|
  {
    if |t| > 1 {
      forall i | 0 <= i < |t[1..]| ensures !IsSpace(t[1..][i]) {
        assert t[1..][i] == t[i + 1];
      }
      WordLenOfToken(t[1..], rest);
      assert (t + rest)[1..] == t[1..] + rest;
    } else {
      assert (t + rest)[1..] == rest;
    }
  }

  lemma SplitAfterToken(t: string, rest: string)
    requires IsToken(t)
    requires rest == [] || IsSpace(rest[0])
    ensures Split(t + rest) == [t] + Split(rest)
  {
    WordLenOfToken(t, rest);
    var s := t + rest;
    assert s[..|t|] == t;
    assert s[|t|..] == rest;
  }

  /** Splitting undoes joining: tokens joined by spaces split back into the same tokens. */
  lemma {:induction false} SplitJoin(ts: seq<string>)
    requires forall t :: t in ts ==> IsToken(t)
    ensures Split(Join(ts)) == ts
    decreases |ts|
  {
    if |ts| == 1 {
      SplitAfterToken(ts[0], []);
      assert ts[0] + [] == ts[0];
    } else if |ts| > 1 {
      var rest := Join(ts[1..]);
      SplitJoin(ts[1..]);
      assert " " + rest == [' '] + rest;
      SplitAfterToken(ts[0], " " + rest);
      assert ts[0] + " " + rest == ts[0] + (" " + rest);
      assert (" " + rest)[1..] == rest;
      assert ts == [ts[0]] + ts[1..];
    }
  }

  /**
    Tokens interleaved with whitespace runs: `ws[0] + ts[0] + ws[1] + ... + ts[n-1] + ws[n]`.
   */
  function Spaced(ws: seq<string>, ts: seq<string>): string
    requires |ws| == |ts| + 1
    decreases |ts|
  {
    if ts == [] then ws[0] else ws[0] + ts[0] + Spaced(ws[1..], ts[1..])
  }

  lemma {:induction false} SplitSkipsSpace(w: string, rest: string)
    requires AllSpace(w)
    ensures Split(w + rest) == Split(rest)
    decreases |w|
  {
    if w != [] {
      assert (w + rest)[1..] == w[1..] + rest;
      SplitSkipsSpace(w[1..], rest);
    } else {
      assert w + rest == rest;
    }
  }

  lemma SpacedStart(ws: seq<string>, ts: seq<string>)
    requires |ws| == |ts| + 1
    ensures ws[0] != [] ==> Spaced(ws, ts) != [] && Spaced(ws, ts)[0] == ws[0][0]
    ensures ws[0] == [] && ts == [] ==> Spaced(ws, ts) == []
  {
  }

  /**
    Splitting undoes any whitespace layout: tokens separated by non-empty
    whitespace runs, with whitespace of any length (none included) before the
    first and after the last, split back into the same tokens.
   */
  lemma {:induction false} SplitSpaced(ws: seq<string>, ts: seq<string>)
    requires |ws| == |ts| + 1
    requires forall i :: 0 <= i < |ws| ==> AllSpace(ws[i])
    requires forall i :: 0 < i < |ws| - 1 ==> ws[i] != []
    requires forall t :: t in ts ==> IsToken(t)
    ensures Split(Spaced(ws, ts)) == ts
    decreases |ts|
  {
    if ts == [] {
      SplitEmptyIff(ws[0]);
    } else {
      var rest := Spaced(ws[1..], ts[1..]);
      assert ws[0] + ts[0] + rest == ws[0] + (ts[0] + rest);
      SplitSkipsSpace(ws[0], ts[0] + rest);
      SpacedStart(ws[1..], ts[1..]);
      assert AllSpace(ws[1]);
      SplitAfterToken(ts[0], rest);
      forall i | 0 < i < |ws[1..]| - 1 ensures ws[1..][i] != [] {
        assert ws[1..][i] == ws[i + 1];
      }
      SplitSpaced(ws[1..], ts[1..]);
      assert ts == [ts[0]] + ts[1..];
    }
  }
}
