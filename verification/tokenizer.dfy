/** The shell's tokenizer: a line is split into its maximal runs of
    non-whitespace characters. The specification (Tokens) is the sequence
    of runs read off at their start positions; Tokenify computes it the way
    the shell does, with a backward pass that records each run's length at
    its start position in an array and a forward pass that copies the runs out. */
module Tokenizer {

  /** isspace in the C locale: space, tab, newline, vertical tab, form feed, carriage return. */
  predicate IsSpace(c: char) {
    c == ' ' || '\t' <= c <= '\r'
  }

  predicate NoSpace(t: string) {
    forall k :: 0 <= k < |t| ==> !IsSpace(t[k])
  }

  predicate AllSpace(t: string) {
    forall k :: 0 <= k < |t| ==> IsSpace(t[k])
  }

  /** Length of the C string held in s: everything before the first NUL. */
  function CLength(s: string): (n: nat)
    ensures n <= |s|
    ensures forall k :: 0 <= k < n ==> s[k] != '\0'
    ensures n < |s| ==> s[n] == '\0'
  {
    if s == [] || s[0] == '\0' then 0 else 1 + CLength(s[1..])
  }

  /** Position k is where a token begins: a non-whitespace character at the
      start of the string or right after whitespace. */
  predicate IsStart(s: string, k: int) {
    0 <= k < |s| && !IsSpace(s[k]) && (k == 0 || IsSpace(s[k - 1]))
  }

  /** Length of the run of non-whitespace characters beginning at k. */
  function RunLen(s: string, k: nat): (n: nat)
    requires k <= |s|
    ensures k + n <= |s|
    ensures forall m :: k <= m < k + n ==> !IsSpace(s[m])
    ensures k + n == |s| || IsSpace(s[k + n])
    decreases |s| - k
  {
    if k == |s| || IsSpace(s[k]) then 0 else 1 + RunLen(s, k + 1)
  }

  /** Number of token starts at positions k and beyond. */
  function CountStarts(s: string, k: nat): nat
    requires k <= |s|
    decreases |s| - k
  {
    if k == |s| then 0 else (if IsStart(s, k) then 1 else 0) + CountStarts(s, k + 1)
  }

  /** The tokens of s that begin at position k or later, left to right. */
  function TokensFrom(s: string, k: nat): seq<string>
    requires k <= |s|
    decreases |s| - k
  {
    if k == |s| then []
    else if IsStart(s, k) then [s[k..k + RunLen(s, k)]] + TokensFrom(s, k + 1)
    else TokensFrom(s, k + 1)
  }

  /** The maximal runs of non-whitespace characters of s, in order. */
  function Tokens(s: string): seq<string> {
    TokensFrom(s, 0)
  }

  /** The non-whitespace characters of s, in order. */
  function NonSpace(s: string): (r: string)
    ensures |r| <= |s|
  {
    if s == [] then []
    else if IsSpace(s[0]) then NonSpace(s[1..])
    else [s[0]] + NonSpace(s[1..])
  }

  function Concat(ts: seq<string>): string {
    if ts == [] then [] else ts[0] + Concat(ts[1..])
  }

  /** What the backward pass records at position k: the token's length at a
      token start, 0 elsewhere. */
  function Mark(s: string, k: nat): nat
    requires k < |s|
  {
    if IsStart(s, k) then RunLen(s, k) else 0
  }

  /** flag holds the marks of every position of s from position lo on. */
  ghost predicate Marked(flag: array<int>, s: string, lo: nat)
    reads flag
  {
    |s| < flag.Length && forall k :: lo <= k < |s| ==> flag[k] == Mark(s, k)
  }

  /** The backward pass of the tokenizer over the first len characters of s:
      flag receives the mark of every position, count the number of tokens. */
  method MarkTokens(s: string, len: nat) returns (flag: array<int>, count: nat)
    requires len <= |s|
    ensures fresh(flag)
    ensures Marked(flag, s[..len], 0)
    ensures count == CountStarts(s[..len], 0)
  {
    ghost var c := s[..len];
    flag := new int[len + 1];
    count := 0;
    var counter := 0;
    var i: int := len - 1;
    while i >= 0
      invariant -1 <= i < len
      invariant counter == if IsStart(c, i + 1) then 0 else RunLen(c, i + 1)
      invariant Marked(flag, c, i + 1)
      invariant count == CountStarts(c, i + 1)
    {
      if !IsSpace(s[i]) {
        counter := counter + 1;
      }
      BackwardStep(c, i);
      if counter > 0 && (i == 0 || IsSpace(s[i - 1])) {
        flag[i] := counter;
        counter := 0;
        count := count + 1;
      } else {
        flag[i] := 0;
      }
      assert flag[i] == Mark(c, i);
      i := i - 1;
    }
  }

  /** The tokenizer of the shell: the backward pass marks every token start
      with the token's length; the forward pass skips to each start in turn
      and copies the token out. */
  method Tokenify(s: string) returns (tokens: seq<string>)
    ensures tokens == Tokens(s[..CLength(s)])
    ensures |tokens| == CountStarts(s[..CLength(s)], 0)
  {
    var len := CLength(s);
    var flag, tokenCount := MarkTokens(s, len);
    tokens := CopyTokens(s[..len], flag, tokenCount);
    CountStartsCountsTokens(s[..len], 0);
  }

  /** The forward pass over the string c: with every token start marked by
      its length, it copies out exactly the tokens. */
  method CopyTokens(c: string, flag: array<int>, count: nat) returns (tokens: seq<string>)
    requires Marked(flag, c, 0)
    requires count == CountStarts(c, 0)
    ensures tokens == Tokens(c)
  {
    var len := |c|;
    tokens := [];
    var j := 0;
    var t := 0;
    while t < count
      invariant 0 <= t <= count
      invariant 0 <= j <= len
      invariant CountStarts(c, j) == count - t
      invariant TokensFrom(c, 0) == tokens + TokensFrom(c, j)
    {
      j := NextStart(c, flag, j);
      var token := c[j..j + flag[j]];
      CopyStep(c, j, tokens, tokens + [token]);
      tokens := tokens + [token];
      j := j + 1;
      t := t + 1;
    }
    CopyDone(c, j, tokens);
  }

  /** With no token start left ahead, everything has been copied. */
  lemma CopyDone(c: string, j: nat, copied: seq<string>)
    requires j <= |c| && CountStarts(c, j) == 0
    requires TokensFrom(c, 0) == copied + TokensFrom(c, j)
    ensures copied == Tokens(c)
  {
    CountStartsCountsTokens(c, j);
    assert copied + [] == copied;
  }

  /** The skip to the next marked position: with a token still ahead of j,
      it stops at the next token start, passing no token. */
  method NextStart(c: string, flag: array<int>, j: nat) returns (k: nat)
    requires Marked(flag, c, 0)
    requires j <= |c| && CountStarts(c, j) > 0
    ensures j <= k < |c| && IsStart(c, k) && flag[k] == RunLen(c, k)
    ensures TokensFrom(c, k) == TokensFrom(c, j)
    ensures CountStarts(c, k) == CountStarts(c, j)
  {
    k := j;
    while flag[k] < 1
      invariant j <= k < |c|
      invariant TokensFrom(c, k) == TokensFrom(c, j)
      invariant CountStarts(c, k) == CountStarts(c, j)
      decreases |c| - k
    {
      assert flag[k] == Mark(c, k);
      SkipStep(c, k);
      k := k + 1;
    }
    assert flag[k] == Mark(c, k);
  }

  /** Passing a position where no token starts keeps the tokens ahead. */
  lemma SkipStep(c: string, j: nat)
    requires j < |c| && Mark(c, j) < 1
    ensures TokensFrom(c, j) == TokensFrom(c, j + 1)
    ensures CountStarts(c, j) == CountStarts(c, j + 1)
  {
  }

  /** Copying the token that starts at j moves it from the tokens ahead to
      the tokens copied. */
  lemma CopyStep(c: string, j: nat, copied: seq<string>, next: seq<string>)
    requires j < |c| && IsStart(c, j)
    requires TokensFrom(c, 0) == copied + TokensFrom(c, j)
    requires next == copied + [c[j..j + RunLen(c, j)]]
    ensures TokensFrom(c, 0) == next + TokensFrom(c, j + 1)
    ensures CountStarts(c, j) == 1 + CountStarts(c, j + 1)
  {
    TokensFromUnfold(c, j);
    assert copied + ([c[j..j + RunLen(c, j)]] + TokensFrom(c, j + 1))
        == (copied + [c[j..j + RunLen(c, j)]]) + TokensFrom(c, j + 1);
  }

  /** One step of the backward pass: adding s[i] to the run counted so far
      gives the length of the run beginning at i. */
  lemma BackwardStep(s: string, i: nat)
    requires i < |s|
    ensures (if IsStart(s, i + 1) then 0 else RunLen(s, i + 1)) + (if IsSpace(s[i]) then 0 else 1)
            == RunLen(s, i)
  {
  }

  lemma {:induction false} CountStartsCountsTokens(s: string, k: nat)
    requires k <= |s|
    ensures |TokensFrom(s, k)| == CountStarts(s, k)
    decreases |s| - k
  {
    if k < |s| {
      CountStartsCountsTokens(s, k + 1);
    }
  }

  /** Every token is non-empty and free of whitespace. */
  lemma {:induction false} TokensWellFormed(s: string, k: nat)
    requires k <= |s|
    ensures forall t :: t in TokensFrom(s, k) ==> t != [] && NoSpace(t)
    decreases |s| - k
  {
    if k < |s| {
      TokensWellFormed(s, k + 1);
    }
  }

  /** Every character of a token is a character of the line. */
  lemma {:induction false} TokensFromLine(s: string, k: nat)
    requires k <= |s|
    ensures forall t, c :: t in TokensFrom(s, k) && c in t ==> c in s
    decreases |s| - k
  {
    if k < |s| {
      TokensFromLine(s, k + 1);
      if IsStart(s, k) {
        var n := RunLen(s, k);
        assert forall c :: c in s[k..k + n] ==> c in s by {
          forall c | c in s[k..k + n]
            ensures c in s
          {
            var m :| 0 <= m < n && s[k..k + n][m] == c;
            assert s[k + m] == c;
          }
        }
      }
    }
  }

  /** A string without whitespace has no token start after its first character. */
  lemma {:induction false} NoStartsNoTokens(s: string, k: nat)
    requires k <= |s|
    requires forall m :: k <= m < |s| ==> !IsStart(s, m)
    ensures TokensFrom(s, k) == []
    decreases |s| - k
  {
    if k < |s| {
      NoStartsNoTokens(s, k + 1);
    }
  }

  /** An empty or all-whitespace line has no tokens. */
  lemma BlankHasNoTokens(s: string)
    requires AllSpace(s)
    ensures Tokens(s) == []
  {
    NoStartsNoTokens(s, 0);
  }

  /** A non-empty string without whitespace is a single token. */
  lemma WordIsOneToken(w: string)
    requires w != [] && NoSpace(w)
    ensures Tokens(w) == [w]
  {
    RunLenOfWord(w, 0);
    assert w[0..|w|] == w;
    NoStartsNoTokens(w, 1);
  }

  lemma {:induction false} RunLenOfWord(w: string, k: nat)
    requires k <= |w| && NoSpace(w)
    ensures RunLen(w, k) == |w| - k
    decreases |w| - k
  {
    if k < |w| {
      RunLenOfWord(w, k + 1);
    }
  }

  /** A run in a + t that begins inside a stops at the end of a when t is
      empty or starts with whitespace. */
  lemma {:induction false} RunLenPrefix(a: string, t: string, k: nat)
    requires k <= |a|
    requires t == [] || IsSpace(t[0])
    ensures RunLen(a + t, k) == RunLen(a, k)
    decreases |a| - k
  {
    if k < |a| {
      RunLenPrefix(a, t, k + 1);
    }
  }

  lemma StartPrefix(a: string, t: string, k: nat)
    requires k < |a|
    ensures IsStart(a + t, k) == IsStart(a, k)
  {
    assert (a + t)[k] == a[k];
    if k > 0 {
      assert (a + t)[k - 1] == a[k - 1];
    }
  }

  lemma SlicePrefix(a: string, t: string, k: nat, n: nat)
    requires k + n <= |a|
    ensures (a + t)[k..k + n] == a[k..k + n]
  {
  }

  /** Tokens of a + t that begin inside a are those of a alone, when t is
      empty or starts with whitespace. */
  lemma {:induction false} TokensFromPrefix(a: string, t: string, k: nat)
    requires k <= |a|
    requires t == [] || IsSpace(t[0])
    ensures TokensFrom(a + t, k) == TokensFrom(a, k) + TokensFrom(a + t, |a|)
    decreases |a| - k
  {
    if k < |a| {
      TokensFromPrefix(a, t, k + 1);
      TokensFromPrefixStep(a, t, k);
    }
  }

  lemma TokensFromPrefixStep(a: string, t: string, k: nat)
    requires k < |a|
    requires t == [] || IsSpace(t[0])
    requires TokensFrom(a + t, k + 1) == TokensFrom(a, k + 1) + TokensFrom(a + t, |a|)
    ensures TokensFrom(a + t, k) == TokensFrom(a, k) + TokensFrom(a + t, |a|)
  {
    StartPrefix(a, t, k);
    if IsStart(a, k) {
      RunLenPrefix(a, t, k);
      SlicePrefix(a, t, k, RunLen(a, k));
    }
    SameStepBefore(a + t, k, a, TokensFrom(a + t, |a|));
  }

  /** SameStep, with the tokens of s from k + 1 on followed by rest. */
  lemma SameStepBefore(s: string, k: nat, a: string, rest: seq<string>)
    requires k < |s| && k < |a|
    requires IsStart(s, k) == IsStart(a, k)
    requires IsStart(a, k) ==> s[k..k + RunLen(s, k)] == a[k..k + RunLen(a, k)]
    requires TokensFrom(s, k + 1) == TokensFrom(a, k + 1) + rest
    ensures TokensFrom(s, k) == TokensFrom(a, k) + rest
  {
    TokensFromUnfold(s, k);
    TokensFromUnfold(a, k);
    if IsStart(a, k) {
      assert [a[k..k + RunLen(a, k)]] + (TokensFrom(a, k + 1) + rest)
          == [a[k..k + RunLen(a, k)]] + TokensFrom(a, k + 1) + rest;
    }
  }

  lemma {:induction false} RunLenShift(p: string, b: string, m: nat)
    requires m <= |b|
    ensures RunLen(p + b, |p| + m) == RunLen(b, m)
    decreases |b| - m
  {
    if m < |b| {
      RunLenShift(p, b, m + 1);
    }
  }

  lemma StartShift(p: string, b: string, m: nat)
    requires m < |b|
    requires p == [] || IsSpace(p[|p| - 1])
    ensures IsStart(p + b, |p| + m) == IsStart(b, m)
  {
    var s := p + b;
    assert s[|p| + m] == b[m];
    if m > 0 {
      assert s[|p| + m - 1] == b[m - 1];
    } else if p != [] {
      assert s[|p| - 1] == p[|p| - 1];
    }
  }

  lemma SliceShift(p: string, b: string, m: nat, n: nat)
    requires m + n <= |b|
    ensures (p + b)[|p| + m..|p| + m + n] == b[m..m + n]
  {
  }

  /** After whitespace (or at the very start) the tokens of p + b are those of b. */
  lemma {:induction false} TokensFromShift(p: string, b: string, m: nat)
    requires m <= |b|
    requires p == [] || IsSpace(p[|p| - 1])
    ensures TokensFrom(p + b, |p| + m) == TokensFrom(b, m)
    decreases |b| - m
  {
    if m < |b| {
      TokensFromShift(p, b, m + 1);
      TokensFromShiftStep(p, b, m);
    }
  }

  lemma TokensFromShiftStep(p: string, b: string, m: nat)
    requires m < |b|
    requires p == [] || IsSpace(p[|p| - 1])
    requires TokensFrom(p + b, |p| + m + 1) == TokensFrom(b, m + 1)
    ensures TokensFrom(p + b, |p| + m) == TokensFrom(b, m)
  {
    StartShift(p, b, m);
    if IsStart(b, m) {
      RunLenShift(p, b, m);
      SliceShift(p, b, m, RunLen(b, m));
    }
    SameStep(p + b, |p| + m, b, m);
  }

  /** Two positions that agree on whether a token starts there, on that
      token, and on the tokens after them agree on the tokens from there on. */
  lemma SameStep(s: string, k: nat, b: string, m: nat)
    requires k < |s| && m < |b|
    requires IsStart(s, k) == IsStart(b, m)
    requires IsStart(b, m) ==> s[k..k + RunLen(s, k)] == b[m..m + RunLen(b, m)]
    requires TokensFrom(s, k + 1) == TokensFrom(b, m + 1)
    ensures TokensFrom(s, k) == TokensFrom(b, m)
  {
    TokensFromUnfold(s, k);
    TokensFromUnfold(b, m);
  }

  /** One step of TokensFrom, stated for any string. */
  lemma TokensFromUnfold(s: string, k: nat)
    requires k < |s|
    ensures TokensFrom(s, k) == (if IsStart(s, k) then [s[k..k + RunLen(s, k)]] else []) + TokensFrom(s, k + 1)
  {
    if !IsStart(s, k) {
      assert [] + TokensFrom(s, k + 1) == TokensFrom(s, k + 1);
    }
  }

  /** Whitespace separates: the tokens on either side of a whitespace
      character are tokenized independently. */
  lemma TokensSplitAtSpace(a: string, c: char, b: string)
    requires IsSpace(c)
    ensures Tokens(a + [c] + b) == Tokens(a) + Tokens(b)
  {
    var s := a + [c] + b;
    assert s == a + ([c] + b);
    TokensFromPrefix(a, [c] + b, 0);
    assert !IsStart(s, |a|);
    assert s == (a + [c]) + b;
    TokensFromShift(a + [c], b, 0);
  }

  lemma {:induction false} ConcatAppend(xs: seq<string>, ys: seq<string>)
    ensures Concat(xs + ys) == Concat(xs) + Concat(ys)
  {
    if xs != [] {
      assert (xs + ys)[1..] == xs[1..] + ys;
      ConcatAppend(xs[1..], ys);
      calc {
        Concat(xs + ys);
        (xs + ys)[0] + Concat((xs + ys)[1..]);
        xs[0] + (Concat(xs[1..]) + Concat(ys));
      }
    } else {
      assert xs + ys == ys;
    }
  }

  lemma {:induction false} NonSpaceAppend(x: string, y: string)
    ensures NonSpace(x + y) == NonSpace(x) + NonSpace(y)
  {
    if x != [] {
      assert (x + y)[1..] == x[1..] + y;
      NonSpaceAppend(x[1..], y);
    } else {
      assert x + y == y;
    }
  }

  lemma {:induction false} NonSpaceOfWord(w: string)
    requires NoSpace(w)
    ensures NonSpace(w) == w
  {
    if w != [] {
      NonSpaceOfWord(w[1..]);
    }
  }

  /** Concatenating the tokens gives back the line's non-whitespace
      characters in order: the tokenizer drops whitespace and nothing else. */
  lemma {:induction false} ConcatTokens(s: string)
    ensures Concat(Tokens(s)) == NonSpace(s)
    decreases |s|
  {
    if NoSpace(s) {
      NonSpaceOfWord(s);
      if s == [] {
        BlankHasNoTokens(s);
      } else {
        WordIsOneToken(s);
      }
    } else {
      var k :| 0 <= k < |s| && IsSpace(s[k]);
      var a, b := s[..k], s[k + 1..];
      assert s == a + [s[k]] + b;
      TokensSplitAtSpace(a, s[k], b);
      ConcatTokens(a);
      ConcatTokens(b);
      ConcatAppend(Tokens(a), Tokens(b));
      assert s == a + ([s[k]] + b);
      NonSpaceAppend(a, [s[k]] + b);
      assert ([s[k]] + b)[1..] == b;
      assert NonSpace([s[k]] + b) == NonSpace(b);
    }
  }
}
