/** What the line splitter promises: ';' separates commands and nothing
    else, everything from the first '#', newline or terminator on is
    ignored, the commands keep their order, and every command is a
    non-empty list of non-empty words holding no whitespace, no ';' and no
    stop character. */
module CommandLaws {
  import opened Tokenizer
  import opened Splitter

  /** No segment contains a ';'. */
  predicate NoSemicolons(segs: seq<string>) {
    forall k :: 0 <= k < |segs| ==> ';' !in segs[k]
  }

  // ----- splitting and joining -----

  lemma JoinSnoc(segs: seq<string>, seg: string)
    requires |segs| >= 1
    ensures Join(segs + [seg]) == Join(segs) + [';'] + seg
  {
    assert (segs + [seg])[..|segs|] == segs;
  }

  /** Appending a character to the last segment appends it to the join. */
  lemma JoinExtendLast(closed: seq<string>, open: string, c: char)
    ensures Join(closed + [open + [c]]) == Join(closed + [open]) + [c]
  {
    if closed != [] {
      JoinSnoc(closed, open + [c]);
      JoinSnoc(closed, open);
      AppendAssoc(Join(closed) + [';'], open, [c]);
    }
  }

  /** The segments read so far rejoin to the characters read so far. */
  lemma {:induction false} ScanJoin(t: string, n: nat)
    requires n <= |t|
    ensures Join(ScanUpTo(t, n).closed + [ScanUpTo(t, n).open]) == t[..n]
  {
    if n > 0 {
      ScanJoin(t, n - 1);
      ScanJoinStep(t, n);
    }
  }

  lemma ScanJoinStep(t: string, n: nat)
    requires 0 < n <= |t|
    requires Join(ScanUpTo(t, n - 1).closed + [ScanUpTo(t, n - 1).open]) == t[..n - 1]
    ensures Join(ScanUpTo(t, n).closed + [ScanUpTo(t, n).open]) == t[..n]
  {
    var st := ScanUpTo(t, n - 1);
    assert t[..n] == t[..n - 1] + [t[n - 1]];
    if t[n - 1] == ';' {
      assert ScanUpTo(t, n) == Scan(st.closed + [st.open], []);
      JoinSnoc(st.closed + [st.open], []);
    } else {
      assert ScanUpTo(t, n) == Scan(st.closed, st.open + [t[n - 1]]);
      JoinExtendLast(st.closed, st.open, t[n - 1]);
    }
  }

  /** No segment read so far holds a ';'. */
  lemma {:induction false} ScanNoSemicolons(t: string, n: nat)
    requires n <= |t|
    ensures NoSemicolons(ScanUpTo(t, n).closed + [ScanUpTo(t, n).open])
  {
    if n > 0 {
      ScanNoSemicolons(t, n - 1);
      var st := ScanUpTo(t, n - 1);
      if t[n - 1] == ';' {
        assert ScanUpTo(t, n).closed + [ScanUpTo(t, n).open] == st.closed + [st.open] + [[]];
      } else {
        var before := st.closed + [st.open];
        var after := ScanUpTo(t, n).closed + [ScanUpTo(t, n).open];
        assert ScanUpTo(t, n) == Scan(st.closed, st.open + [t[n - 1]]);
        assert ';' !in before[|before| - 1];
        forall k | 0 <= k < |after|
          ensures ';' !in after[k]
        {
          if k < |st.closed| {
            assert after[k] == before[k];
          }
        }
      }
    }
  }

  /** Split and Join are inverse: the segments rejoin to the line, and none
      holds a ';'. */
  lemma SplitJoin(t: string)
    ensures Join(Split(t)) == t
    ensures NoSemicolons(Split(t))
  {
    ScanJoin(t, |t|);
    ScanNoSemicolons(t, |t|);
    assert t[..|t|] == t;
  }

  /** Characters that are not ';' only lengthen the open segment. */
  lemma {:induction false} ScanWithoutSemicolon(u: string, n: nat, m: nat)
    requires n <= m <= |u|
    requires forall k :: n <= k < m ==> u[k] != ';'
    ensures ScanUpTo(u, m) == Scan(ScanUpTo(u, n).closed, ScanUpTo(u, n).open + u[n..m])
  {
    if m > n {
      ScanWithoutSemicolon(u, n, m - 1);
      assert u[n..m] == u[n..m - 1] + [u[m - 1]];
      AppendAssoc(ScanUpTo(u, n).open, u[n..m - 1], [u[m - 1]]);
    } else {
      assert u[n..m] == [];
    }
  }

  /** A ';' closes the segments before it; what follows, free of ';', is
      the last segment. */
  lemma SplitAfterSemicolon(j: string, last: string)
    requires ';' !in last
    ensures Split(j + [';'] + last) == Split(j) + [last]
  {
    var t := j + [';'] + last;
    assert forall k :: 0 <= k < |j| ==> t[k] == j[k];
    ScanAgrees(t, j, |j|);
    var st := ScanUpTo(j, |j|);
    assert t[|j|] == ';';
    assert ScanUpTo(t, |j| + 1) == Scan(st.closed + [st.open], []);
    assert forall k :: |j| + 1 <= k < |t| ==> t[k] == last[k - |j| - 1];
    ScanWithoutSemicolon(t, |j| + 1, |t|);
    assert t[|j| + 1..|t|] == last;
    assert [] + last == last;
  }

  /** Segments without ';' are recovered by splitting their join. */
  lemma {:induction false} JoinSplit(segs: seq<string>)
    requires |segs| >= 1 && NoSemicolons(segs)
    ensures Split(Join(segs)) == segs
  {
    var last := segs[|segs| - 1];
    if |segs| == 1 {
      ScanWithoutSemicolon(last, 0, |last|);
      assert last[0..|last|] == last;
      assert ScanUpTo(last, |last|) == Scan([], last);
    } else {
      var init := segs[..|segs| - 1];
      assert NoSemicolons(init);
      JoinSplit(init);
      SplitAfterSemicolon(Join(init), last);
      assert init + [last] == segs;
    }
  }

  /** The join of two lists of segments is their joins with a ';' between. */
  lemma {:induction false} JoinAppend(xs: seq<string>, ys: seq<string>)
    requires |xs| >= 1 && |ys| >= 1
    ensures Join(xs + ys) == Join(xs) + [';'] + Join(ys)
    decreases |ys|
  {
    var last := ys[|ys| - 1];
    if |ys| == 1 {
      JoinSnoc(xs, last);
    } else {
      var init := ys[..|ys| - 1];
      assert xs + ys == (xs + init) + [last];
      assert ys == init + [last];
      JoinAppend(xs, init);
      JoinSnoc(xs + init, last);
      JoinSnoc(init, last);
    }
  }

  lemma {:induction false} TokenListsAppend(xs: seq<string>, ys: seq<string>)
    ensures TokenLists(xs + ys) == TokenLists(xs) + TokenLists(ys)
    decreases |ys|
  {
    if ys == [] {
      assert xs + ys == xs;
    } else {
      var init, last := ys[..|ys| - 1], ys[|ys| - 1];
      assert xs + ys == (xs + init) + [last];
      assert ys == init + [last];
      TokenListsAppend(xs, init);
      TokenListsSnoc(xs + init, last);
      TokenListsSnoc(init, last);
    }
  }

  lemma {:induction false} NonEmptyAppend(xs: seq<seq<string>>, ys: seq<seq<string>>)
    ensures NonEmpty(xs + ys) == NonEmpty(xs) + NonEmpty(ys)
    decreases |ys|
  {
    if ys == [] {
      assert xs + ys == xs;
    } else {
      var init, last := ys[..|ys| - 1], ys[|ys| - 1];
      assert xs + ys == (xs + init) + [last];
      assert ys == init + [last];
      NonEmptyAppend(xs, init);
      NonEmptySnoc(xs + init, last);
      NonEmptySnoc(init, last);
    }
  }

  // ----- where scanning stops -----

  /** The first stop character is determined by the characters up to it. */
  lemma StopAt(s: string, n: nat)
    requires n <= |s|
    requires forall k :: 0 <= k < n ==> !IsStop(s[k])
    requires n < |s| ==> IsStop(s[n])
    ensures Stop(s) == n
  {
  }

  /** Everything from the first '#', newline or terminator on is ignored:
      whatever follows it does not change the commands. */
  lemma CommentIgnored(s: string, t: string)
    requires Stop(s) < |s|
    ensures Commands(s + t) == Commands(s)
  {
    var n := Stop(s);
    assert forall k :: 0 <= k <= n ==> (s + t)[k] == s[k];
    StopAt(s + t, n);
    assert (s + t)[..n] == s[..n];
  }

  /** Cutting a line anywhere at or after its first stop character keeps its
      commands: they are fixed by the characters before the stop. */
  lemma PrefixPastStop(s: string, m: nat)
    requires Stop(s) <= m <= |s|
    ensures Commands(s[..m]) == Commands(s)
  {
    var n := Stop(s);
    assert forall k :: 0 <= k < n ==> s[..m][k] == s[k];
    assert n < m ==> s[..m][n] == s[n];
    StopAt(s[..m], n);
    assert s[..m][..n] == s[..n];
  }

  /** A ';' separates two independent command lists, which keep their order:
      the commands of a ';' b are those of a followed by those of b. */
  lemma CommandsAppend(a: string, b: string)
    requires Stop(a) == |a|
    ensures Commands(a + [';'] + b) == Commands(a) + Commands(b)
  {
    var s := a + [';'] + b;
    var b' := b[..Stop(b)];
    var n := |a| + 1 + Stop(b);
    assert forall k :: 0 <= k < |a| ==> s[k] == a[k];
    assert forall k :: |a| < k <= |s| - 1 ==> s[k] == b[k - |a| - 1];
    StopAt(s, n);
    assert s[..n] == a + [';'] + b';
    assert a[..Stop(a)] == a;
    var xs, ys := Split(a), Split(b');
    SplitJoin(a);
    SplitJoin(b');
    JoinAppend(xs, ys);
    assert NoSemicolons(xs + ys);
    JoinSplit(xs + ys);
    TokenListsAppend(xs, ys);
    NonEmptyAppend(TokenLists(xs), TokenLists(ys));
  }

  /** A line with no ';' and no stop character is a single command: its
      tokens, or nothing when it is blank. */
  lemma SingleCommand(s: string)
    requires Stop(s) == |s| && ';' !in s
    ensures Commands(s) == if Tokens(s) == [] then [] else [Tokens(s)]
  {
    assert s[..|s|] == s;
    ScanWithoutSemicolon(s, 0, |s|);
    assert s[0..|s|] == s;
    assert ScanUpTo(s, |s|) == Scan([], s);
    assert TokenLists([s]) == [Tokens(s)];
    assert NonEmpty([Tokens(s)]) == NonEmpty([]) + if Tokens(s) == [] then [] else [Tokens(s)];
  }

  // ----- shape of the commands -----

  /** A command word: non-empty, without whitespace, ';' or stop character. */
  predicate IsWord(w: string) {
    w != [] && NoSpace(w) && ';' !in w && forall c :: c in w ==> !IsStop(c)
  }

  lemma {:induction false} JoinHolds(segs: seq<string>)
    requires |segs| >= 1
    ensures forall k, c :: 0 <= k < |segs| && c in segs[k] ==> c in Join(segs)
  {
    if |segs| > 1 {
      var init := segs[..|segs| - 1];
      JoinHolds(init);
      assert forall k :: 0 <= k < |init| ==> init[k] == segs[k];
    }
  }

  lemma {:induction false} TokenListsMembers(segs: seq<string>)
    ensures forall k :: 0 <= k < |segs| ==> TokenLists(segs)[k] == Tokens(segs[k])
  {
    if segs != [] {
      TokenListsMembers(segs[..|segs| - 1]);
    }
  }

  lemma {:induction false} NonEmptyMembers(lists: seq<seq<string>>)
    ensures forall l :: l in NonEmpty(lists) ==> l != [] && l in lists
  {
    if lists != [] {
      NonEmptyMembers(lists[..|lists| - 1]);
    }
  }

  /** Every command is a non-empty list of words. */
  lemma CommandsWellFormed(s: string)
    ensures forall cmd :: cmd in Commands(s) ==> cmd != [] && forall w :: w in cmd ==> IsWord(w)
  {
    var t := s[..Stop(s)];
    var segs := Split(t);
    SplitJoin(t);
    JoinHolds(segs);
    TokenListsMembers(segs);
    NonEmptyMembers(TokenLists(segs));
    forall cmd | cmd in Commands(s)
      ensures cmd != [] && forall w :: w in cmd ==> IsWord(w)
    {
      var k :| 0 <= k < |segs| && TokenLists(segs)[k] == cmd;
      TokensWellFormed(segs[k], 0);
      TokensFromLine(segs[k], 0);
      forall w, c | w in cmd && c in w
        ensures c != ';' && !IsStop(c)
      {
        assert c in segs[k];
        assert c in t;
      }
    }
  }

  lemma {:induction false} NonEmptyOfEmpties(lists: seq<seq<string>>)
    requires forall k :: 0 <= k < |lists| ==> lists[k] == []
    ensures NonEmpty(lists) == []
  {
    if lists != [] {
      NonEmptyOfEmpties(lists[..|lists| - 1]);
    }
  }

  /** A line of nothing but whitespace and ';' (";;" for one) queues no
      command: every segment of it is blank. */
  lemma NothingButBlanks(s: string)
    requires forall k :: 0 <= k < |s| ==> IsSpace(s[k]) || s[k] == ';'
    ensures Commands(s) == []
  {
    var t := s[..Stop(s)];
    assert forall c :: c in t ==> IsSpace(c) || c == ';';
    BlanksSplit(t);
  }

  /** Splitting a line of whitespace and ';' gives only blank segments. */
  lemma BlanksSplit(t: string)
    requires forall c :: c in t ==> IsSpace(c) || c == ';'
    ensures NonEmpty(TokenLists(Split(t))) == []
  {
    var segs := Split(t);
    SplitJoin(t);
    JoinHolds(segs);
    TokenListsMembers(segs);
    forall k | 0 <= k < |segs|
      ensures TokenLists(segs)[k] == []
    {
      BlankSegment(t, segs[k]);
    }
    NonEmptyOfEmpties(TokenLists(segs));
  }

  /** A segment of such a line without ';' is all whitespace. */
  lemma BlankSegment(t: string, seg: string)
    requires forall c :: c in t ==> IsSpace(c) || c == ';'
    requires ';' !in seg && forall c :: c in seg ==> c in t
    ensures Tokens(seg) == []
  {
    forall m | 0 <= m < |seg|
      ensures IsSpace(seg[m])
    {
      assert seg[m] in seg;
    }
    BlankHasNoTokens(seg);
  }
}
