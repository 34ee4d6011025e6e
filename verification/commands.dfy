/** Splitting an input line into commands. The line is scanned left to
    right; '#', newline and the string terminator end the scan (what follows
    is a comment or nothing), ';' ends one command and starts the next. Each
    segment between delimiters is tokenized, and those with at least one
    token are appended to the command queue in order. */
module Splitter {
  import opened Tokenizer
  import opened Queue

  /** Characters at which scanning stops. */
  predicate IsStop(c: char) {
    c == '#' || c == '\n' || c == '\0'
  }

  /** Index of the first stop character of s, or |s| when there is none
      (the end of the sequence plays the part of the terminator). */
  function Stop(s: string): (n: nat)
    ensures n <= |s|
    ensures forall k :: 0 <= k < n ==> !IsStop(s[k])
    ensures n < |s| ==> IsStop(s[n])
  {
    StopFrom(s, 0)
  }

  function StopFrom(s: string, i: nat): (n: nat)
    requires i <= |s|
    ensures i <= n <= |s|
    ensures forall k :: i <= k < n ==> !IsStop(s[k])
    ensures n < |s| ==> IsStop(s[n])
    decreases |s| - i
  {
    if i == |s| || IsStop(s[i]) then i else StopFrom(s, i + 1)
  }

  /** Segments read so far: those already closed by a ';' and the one
      still open. */
  datatype Scan = Scan(closed: seq<string>, open: string)

  /** The segments of s[..n] between ';' characters, left to right. */
  function ScanUpTo(s: string, n: nat): Scan
    requires n <= |s|
  {
    if n == 0 then Scan([], [])
    else
      var st := ScanUpTo(s, n - 1);
      if s[n - 1] == ';' then Scan(st.closed + [st.open], [])
      else Scan(st.closed, st.open + [s[n - 1]])
  }

  /** The segments of t between its ';' characters: k semicolons give
      k + 1 segments, some possibly empty. */
  function Split(t: string): (segs: seq<string>)
    ensures |segs| >= 1
  {
    var st := ScanUpTo(t, |t|);
    st.closed + [st.open]
  }

  /** Segments rejoined with ';' between them. */
  function Join(segs: seq<string>): string
    requires |segs| >= 1
  {
    if |segs| == 1 then segs[0] else Join(segs[..|segs| - 1]) + [';'] + segs[|segs| - 1]
  }

  /** The tokens of each segment, in order. */
  function TokenLists(segs: seq<string>): (lists: seq<seq<string>>)
    ensures |lists| == |segs|
  {
    if segs == [] then []
    else TokenLists(segs[..|segs| - 1]) + [Tokens(segs[|segs| - 1])]
  }

  /** The lists that are not empty, in order. */
  function NonEmpty(lists: seq<seq<string>>): (r: seq<seq<string>>)
    ensures |r| <= |lists|
  {
    if lists == [] then []
    else
      var last := lists[|lists| - 1];
      NonEmpty(lists[..|lists| - 1]) + if last == [] then [] else [last]
  }

  /** The commands of an input line: the tokens of each ';'-separated
      segment before the first stop character, leaving out segments that
      have no token. */
  function Commands(s: string): seq<seq<string>> {
    NonEmpty(TokenLists(Split(s[..Stop(s)])))
  }

  /** The queue entry a segment gives: its tokens, or nothing if it has none. */
  function Entry(segment: string): seq<seq<string>> {
    if Tokens(segment) == [] then [] else [Tokens(segment)]
  }

  /** Where the segment that is open after reading s[..n] begins: just after
      the last ';' of s[..n], or 0. */
  function SegmentStart(s: string, n: nat): (k: nat)
    requires n <= |s|
    ensures k <= n
  {
    if n == 0 then 0 else if s[n - 1] == ';' then n else SegmentStart(s, n - 1)
  }

  /** The entries of the segments that a ';' in s[..n] has closed. */
  function ClosedEntries(s: string, n: nat): seq<seq<string>>
    requires n <= |s|
  {
    if n == 0 then []
    else if s[n - 1] == ';' then ClosedEntries(s, n - 1) + Entry(s[SegmentStart(s, n - 1)..n - 1])
    else ClosedEntries(s, n - 1)
  }

  /** commandify: scans s left to right, cutting a segment at every ';' and
      at the first stop character, and appends each segment's tokens to q
      unless it has none. */
  method Commandify(s: string, q: CommandQueue)
    requires q.Valid()
    modifies q
    ensures q.Valid()
    ensures q.entries == old(q.entries) + Commands(s)
  {
    var i: int := -1;
    var j: nat := 0;
    while true
      invariant -1 <= i < j <= Stop(s)
      invariant i + 1 == SegmentStart(s, j)
      invariant q.Valid()
      invariant q.entries == old(q.entries) + ClosedEntries(s, j)
      decreases |s| - j
    {
      var c := if j < |s| then s[j] else '\0';
      ScanStep(s, i, j);
      if c == ';' || IsStop(c) {
        var tokens := [];
        if j - i > 1 {
          tokens := Tokenify(s[i + 1..j]);
          q.Append(tokens);
        }
        SegmentTokens(s, i, j, tokens);
        AppendAssoc(old(q.entries), ClosedEntries(s, j), Entry(s[i + 1..j]));
        i := j;
      }
      if IsStop(c) {
        break;
      }
      j := j + 1;
    }
  }

  /** What reading the character at j (the terminator at the end of s) does
      to the loop's bookkeeping. */
  lemma ScanStep(s: string, i: int, j: nat)
    requires -1 <= i < j <= Stop(s)
    requires i + 1 == SegmentStart(s, j)
    ensures j == |s| ==> j == Stop(s)
    ensures j < |s| && IsStop(s[j]) ==> j == Stop(s)
    ensures j == Stop(s) ==> Commands(s) == ClosedEntries(s, j) + Entry(s[i + 1..j])
    ensures j < Stop(s) && s[j] == ';' ==>
      SegmentStart(s, j + 1) == j + 1 && ClosedEntries(s, j + 1) == ClosedEntries(s, j) + Entry(s[i + 1..j])
    ensures j < Stop(s) && s[j] != ';' ==>
      SegmentStart(s, j + 1) == i + 1 && ClosedEntries(s, j + 1) == ClosedEntries(s, j)
  {
    if j == Stop(s) {
      CommandsByScan(s);
    }
  }

  /** A segment holds no terminator, so the tokenizer sees all of it; an
      empty segment, which is not tokenized, has no tokens either. */
  lemma SegmentTokens(s: string, i: int, j: nat, tokens: seq<string>)
    requires -1 <= i < j <= Stop(s)
    requires j - i > 1 ==> tokens == Tokens(s[i + 1..j][..CLength(s[i + 1..j])])
    requires j - i <= 1 ==> tokens == []
    ensures tokens == Tokens(s[i + 1..j])
  {
    var segment := s[i + 1..j];
    assert forall k :: 0 <= k < |segment| ==> segment[k] == s[i + 1 + k];
    assert CLength(segment) == |segment|;
    assert segment[..|segment|] == segment;
    if j - i <= 1 {
      BlankHasNoTokens(segment);
    }
  }

  lemma AppendAssoc<T>(a: seq<T>, b: seq<T>, c: seq<T>)
    ensures a + b + c == a + (b + c)
  {
  }

  lemma TokenListsSnoc(segs: seq<string>, seg: string)
    ensures TokenLists(segs + [seg]) == TokenLists(segs) + [Tokens(seg)]
  {
    assert (segs + [seg])[..|segs|] == segs;
  }

  lemma NonEmptySnoc(lists: seq<seq<string>>, l: seq<string>)
    ensures NonEmpty(lists + [l]) == NonEmpty(lists) + if l == [] then [] else [l]
  {
    assert (lists + [l])[..|lists|] == lists;
  }

  /** The segment left open after scanning s[..n] starts at SegmentStart. */
  lemma {:induction false} ScanOpenSegment(s: string, n: nat)
    requires n <= |s|
    ensures ScanUpTo(s, n).open == s[SegmentStart(s, n)..n]
  {
    if n > 0 && s[n - 1] != ';' {
      ScanOpenSegment(s, n - 1);
      var k := SegmentStart(s, n - 1);
      assert s[k..n] == s[k..n - 1] + [s[n - 1]];
    }
  }

  /** The scan and the loop's bookkeeping agree: the segments a ';' has
      closed give ClosedEntries. */
  lemma {:induction false} ScanMatchesEntries(s: string, n: nat)
    requires n <= |s|
    ensures NonEmpty(TokenLists(ScanUpTo(s, n).closed)) == ClosedEntries(s, n)
  {
    if n > 0 {
      ScanMatchesEntries(s, n - 1);
      ClosedEntriesStep(s, n);
    }
  }

  /** Reading one more character keeps the scan and ClosedEntries in step. */
  lemma ClosedEntriesStep(s: string, n: nat)
    requires 0 < n <= |s|
    requires NonEmpty(TokenLists(ScanUpTo(s, n - 1).closed)) == ClosedEntries(s, n - 1)
    ensures NonEmpty(TokenLists(ScanUpTo(s, n).closed)) == ClosedEntries(s, n)
  {
    if s[n - 1] == ';' {
      ClosedBySemicolon(s, n);
    } else {
      assert ScanUpTo(s, n).closed == ScanUpTo(s, n - 1).closed;
    }
  }

  /** A ';' closes the open segment, adding its entry. */
  lemma ClosedBySemicolon(s: string, n: nat)
    requires 0 < n <= |s| && s[n - 1] == ';'
    requires NonEmpty(TokenLists(ScanUpTo(s, n - 1).closed)) == ClosedEntries(s, n - 1)
    ensures NonEmpty(TokenLists(ScanUpTo(s, n).closed)) == ClosedEntries(s, n)
  {
    ScanCloses(s, n);
    EntryOfOpen(s, n);
  }

  /** On a ';' the scan closes its open segment. */
  lemma ScanCloses(s: string, n: nat)
    requires 0 < n <= |s| && s[n - 1] == ';'
    ensures NonEmpty(TokenLists(ScanUpTo(s, n).closed))
         == NonEmpty(TokenLists(ScanUpTo(s, n - 1).closed)) + Entry(ScanUpTo(s, n - 1).open)
  {
    var st := ScanUpTo(s, n - 1);
    assert ScanUpTo(s, n).closed == st.closed + [st.open];
    TokenListsSnoc(st.closed, st.open);
    NonEmptySnoc(TokenLists(st.closed), Tokens(st.open));
  }

  /** On a ';' the entries gain the open segment's entry. */
  lemma EntryOfOpen(s: string, n: nat)
    requires 0 < n <= |s| && s[n - 1] == ';'
    ensures ClosedEntries(s, n) == ClosedEntries(s, n - 1) + Entry(ScanUpTo(s, n - 1).open)
  {
    ScanOpenSegment(s, n - 1);
  }

  lemma CommandsByScan(s: string)
    ensures Commands(s) == ClosedEntries(s, Stop(s)) + Entry(s[SegmentStart(s, Stop(s))..Stop(s)])
  {
    var n := Stop(s);
    ScanPrefix(s, n);
    ScanMatchesEntries(s, n);
    ScanOpenSegment(s, n);
    var st := ScanUpTo(s, n);
    TokenListsSnoc(st.closed, st.open);
    NonEmptySnoc(TokenLists(st.closed), Tokens(st.open));
  }

  /** Scanning a prefix of s reads the same characters as scanning s. */
  lemma ScanPrefix(s: string, n: nat)
    requires n <= |s|
    ensures ScanUpTo(s[..n], n) == ScanUpTo(s, n)
  {
    ScanAgrees(s[..n], s, n);
  }

  lemma {:induction false} ScanAgrees(t: string, u: string, n: nat)
    requires n <= |t| && n <= |u|
    requires forall k :: 0 <= k < n ==> t[k] == u[k]
    ensures ScanUpTo(t, n) == ScanUpTo(u, n)
  {
    if n > 0 {
      ScanAgrees(t, u, n - 1);
    }
  }
}
