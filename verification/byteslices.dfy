/** Searching, splitting, joining and replacing byte slices (src/bytes/bytes.go), for non-empty
    separators. */
module ByteSlices {
  import opened Bits
  import opened Wrappers

  // ---- Greedy matches ----

  predicate MatchAt(s: seq<byte>, sep: seq<byte>, i: nat) {
    i + |sep| <= |s| && s[i..i + |sep|] == sep
  }

  /** The first match from i on, or |s| if there is none. */
  function Find(s: seq<byte>, sep: seq<byte>, i: nat): (r: nat)
    requires sep != [] && i <= |s|
    ensures i <= r <= |s| && (r < |s| ==> MatchAt(s, sep, r))
    ensures forall j :: i <= j < r ==> !MatchAt(s, sep, j)
    decreases |s| - i
  {
    if i + |sep| > |s| then |s| else if MatchAt(s, sep, i) then i else Find(s, sep, i + 1)
  }

  /** The part of s after its first match. */
  function Rest(s: seq<byte>, sep: seq<byte>): (rest: seq<byte>)
    requires sep != [] && Find(s, sep, 0) < |s|
    ensures |rest| < |s|
  {
    s[Find(s, sep, 0) + |sep|..]
  }

  /** The number of matches, taken greedily from the left without overlap. */
  function Matches(s: seq<byte>, sep: seq<byte>): nat
    requires sep != []
    decreases |s|
  {
    if Find(s, sep, 0) == |s| then 0 else 1 + Matches(Rest(s, sep), sep)
  }

  /** At most n pieces, each but the last followed by save bytes of the separator. */
  function Pieces(s: seq<byte>, sep: seq<byte>, save: nat, n: nat): (ps: seq<seq<byte>>)
    requires sep != [] && save <= |sep| && n > 0
    ensures 1 <= |ps| <= n
    decreases n
  {
    var i := Find(s, sep, 0);
    if n == 1 || i == |s| then [s] else [s[..i + save]] + Pieces(Rest(s, sep), sep, save, n - 1)
  }

  function JoinOf(ps: seq<seq<byte>>, sep: seq<byte>): seq<byte> {
    if ps == [] then [] else if |ps| == 1 then ps[0] else ps[0] + sep + JoinOf(ps[1..], sep)
  }

  /** s with its first m matches of what replaced by by. */
  function Replaced(s: seq<byte>, what: seq<byte>, repl: seq<byte>, m: nat): seq<byte>
    requires what != []
    decreases m
  {
    if m == 0 || Find(s, what, 0) == |s| then s
    else s[..Find(s, what, 0)] + repl + Replaced(Rest(s, what), what, repl, m - 1)
  }

  // ---- How they agree ----

  /** Splitting and joining are inverse, however many pieces are asked for. */
  lemma {:induction false} JoinUndoesSplit(s: seq<byte>, sep: seq<byte>, n: nat)
    requires sep != [] && n > 0
    ensures JoinOf(Pieces(s, sep, 0, n), sep) == s
    decreases n
  {
    var i := Find(s, sep, 0);
    if n > 1 && i < |s| {
      JoinUndoesSplit(Rest(s, sep), sep, n - 1);
      assert s == s[..i] + sep + Rest(s, sep);
      var rest := Pieces(Rest(s, sep), sep, 0, n - 1);
      assert ([s[..i]] + rest)[1..] == rest;
    }
  }

  /** Pieces that keep the separator are the text cut up. */
  lemma {:induction false} SplitAfterIsPartition(s: seq<byte>, sep: seq<byte>, n: nat)
    requires sep != [] && n > 0
    ensures JoinOf(Pieces(s, sep, |sep|, n), []) == s
    decreases n
  {
    var i := Find(s, sep, 0);
    if n > 1 && i < |s| {
      SplitAfterIsPartition(Rest(s, sep), sep, n - 1);
      assert s == s[..i + |sep|] + [] + Rest(s, sep);
      var rest := Pieces(Rest(s, sep), sep, |sep|, n - 1);
      assert ([s[..i + |sep|]] + rest)[1..] == rest;
    }
  }

  lemma MatchInFront(s: seq<byte>, i: nat, sep: seq<byte>, j: nat)
    requires i <= |s| && sep != []
    ensures MatchAt(s[..i], sep, j) ==> j < i && MatchAt(s, sep, j)
  {
    if j + |sep| <= i { assert s[..i][j..j + |sep|] == s[j..j + |sep|]; }
  }

  /** With room for all matches, there is one piece more than matches, and no piece contains the
      separator. */
  lemma {:induction false} AllPieces(s: seq<byte>, sep: seq<byte>, n: nat)
    requires sep != [] && n > Matches(s, sep)
    ensures |Pieces(s, sep, 0, n)| == Matches(s, sep) + 1
    ensures forall p, j :: p in Pieces(s, sep, 0, n) ==> !MatchAt(p, sep, j)
    decreases n
  {
    var i := Find(s, sep, 0);
    if i < |s| {
      AllPieces(Rest(s, sep), sep, n - 1);
      var piece := s[..i];
      forall j: nat ensures !MatchAt(piece, sep, j) {
        MatchInFront(s, i, sep, j);
      }
    } else {
      forall j: nat ensures !MatchAt(s, sep, j) {
      }
    }
  }

  /** No match of the separator starts inside the piece, not even one that ends in the separator behind it. */
  ghost predicate Clear(piece: seq<byte>, sep: seq<byte>) {
    forall j :: 0 <= j < |piece| ==> !MatchAt(piece + sep, sep, j)
  }

  /** Cut at the leftmost separator each time, until n pieces are made or none is left. */
  ghost predicate Greedy(ps: seq<seq<byte>>, sep: seq<byte>, n: nat) {
    && 1 <= |ps| <= n
    && (forall i :: 0 <= i < |ps| - 1 ==> Clear(ps[i], sep))
    && (|ps| == n || Absent(ps[|ps| - 1], sep))
  }

  ghost predicate Absent(piece: seq<byte>, sep: seq<byte>) { forall j: nat :: !MatchAt(piece, sep, j) }

  lemma PiecesNext(s: seq<byte>, sep: seq<byte>, save: nat, n: nat)
    requires sep != [] && save <= |sep| && n > 0
    ensures var i, ps := Find(s, sep, 0), Pieces(s, sep, save, n);
            && i <= |s| && (i < |s| ==> MatchAt(s, sep, i))
            && (forall j :: 0 <= j < i ==> !MatchAt(s, sep, j)) && (i == |s| ==> Absent(s, sep))
            && (n == 1 || i == |s| ==> ps == [s])
            && (n > 1 && i < |s| ==> ps == [s[..i + save]] + Pieces(Rest(s, sep), sep, save, n - 1))
  {
  }

  /** The pieces of a split are the one greedy cutting of the text. */
  lemma SplitExactly(s: seq<byte>, sep: seq<byte>, n: nat, ps: seq<seq<byte>>)
    requires sep != [] && n > 0
    ensures ps == Pieces(s, sep, 0, n) <==> JoinOf(ps, sep) == s && Greedy(ps, sep, n)
  {
    hide Pieces, JoinOf, Greedy;
    JoinUndoesSplit(s, sep, n);
    PiecesGreedy(s, sep, n);
    if Greedy(ps, sep, n) { SplitUndoesJoin(ps, sep, n); }
  }

  lemma {:induction false} PiecesGreedy(s: seq<byte>, sep: seq<byte>, n: nat)
    requires sep != [] && n > 0
    ensures Greedy(Pieces(s, sep, 0, n), sep, n)
    decreases n
  {
    hide Find, Pieces, Rest, Absent;
    var i := Find(s, sep, 0);
    PiecesNext(s, sep, 0, n);
    if n > 1 && i < |s| {
      PiecesGreedy(Rest(s, sep), sep, n - 1);
      assert s[..i] + sep == s[..i + |sep|];
      forall j | 0 <= j < i ensures !MatchAt(s[..i] + sep, sep, j) {
        MatchInFront(s, i + |sep|, sep, j);
      }
    }
  }

  lemma {:induction false} SplitUndoesJoin(ps: seq<seq<byte>>, sep: seq<byte>, n: nat)
    requires sep != [] && Greedy(ps, sep, n)
    ensures Pieces(JoinOf(ps, sep), sep, 0, n) == ps
    decreases n
  {
    hide Find, Pieces, Rest, Clear, Absent;
    PiecesNext(JoinOf(ps, sep), sep, 0, n);
    if |ps| == 1 {
      assert ps == [ps[0]];
      if n > 1 { NeverFound(ps[0], sep); }
    } else {
      GreedyNext(ps, sep, n);
      SplitUndoesJoin(ps[1..], sep, n - 1);
      FirstCut(ps[0], sep, JoinOf(ps[1..], sep));
      assert ps == [ps[0]] + ps[1..];
    }
  }

  lemma NeverFound(s: seq<byte>, sep: seq<byte>)
    requires sep != [] && Absent(s, sep)
    ensures Find(s, sep, 0) == |s|
  {
    FindNone(s, sep, 0);
  }

  lemma GreedyNext(ps: seq<seq<byte>>, sep: seq<byte>, n: nat)
    requires |ps| > 1 && Greedy(ps, sep, n)
    ensures Clear(ps[0], sep) && Greedy(ps[1..], sep, n - 1)
  {
    hide Clear, Absent;
    assert forall i :: 0 <= i < |ps| - 1 ==> ps[1..][i] == ps[i + 1];
  }

  lemma FirstCut(piece: seq<byte>, sep: seq<byte>, rest: seq<byte>)
    requires sep != [] && Clear(piece, sep)
    ensures var s := piece + sep + rest;
            Find(s, sep, 0) == |piece| < |s| && s[..|piece|] == piece && Rest(s, sep) == rest
  {
    hide Find;
    var s := piece + sep + rest;
    assert s[..|piece| + |sep|] == piece + sep;
    forall k: nat | k < |piece| ensures !MatchAt(s, sep, k) {
      assert !MatchAt(piece + sep, sep, k);
      MatchBefore(s, |piece| + |sep|, sep, k);
    }
    FindSkips(s, sep, 0, |piece|);
    assert s[|piece|..|piece| + |sep|] == sep;
    FoundHere(s, sep, |piece|);
  }

  lemma MatchBefore(s: seq<byte>, i: nat, sep: seq<byte>, k: nat)
    requires k + |sep| <= i <= |s|
    ensures MatchAt(s, sep, k) <==> MatchAt(s[..i], sep, k)
  {
    assert s[..i][k..k + |sep|] == s[k..k + |sep|];
  }

  /** Keeping some of the separator adds that much to each piece but the last. */
  lemma {:induction false} SaveAdds(s: seq<byte>, sep: seq<byte>, save: nat, n: nat)
    requires sep != [] && save <= |sep| && n > 0
    ensures var ps, cut := Pieces(s, sep, save, n), Pieces(s, sep, 0, n);
            && |ps| == |cut| && ps[|ps| - 1] == cut[|ps| - 1]
            && forall i :: 0 <= i < |ps| - 1 ==> ps[i] == cut[i] + sep[..save]
    decreases n
  {
    hide Find, Pieces, Rest, Absent;
    var i := Find(s, sep, 0);
    PiecesNext(s, sep, save, n);
    PiecesNext(s, sep, 0, n);
    if n > 1 && i < |s| {
      SaveAdds(Rest(s, sep), sep, save, n - 1);
      assert s[i..i + save] == s[i..i + |sep|][..save];
      assert s[..i + save] == s[..i] + sep[..save];
      hide MatchAt;
      var ps, cut := Pieces(Rest(s, sep), sep, save, n - 1), Pieces(Rest(s, sep), sep, 0, n - 1);
      assert forall k :: 0 < k <= |ps| ==> ([s[..i + save]] + ps)[k] == ps[k - 1] && ([s[..i]] + cut)[k] == cut[k - 1];
    }
  }

  /** The separator stands between pieces, not before the first or behind the last. */
  lemma {:induction false} JoinParts(a: seq<seq<byte>>, b: seq<seq<byte>>, sep: seq<byte>, x: seq<byte>)
    ensures JoinOf([], sep) == [] && JoinOf([x], sep) == x
    ensures a != [] && b != [] ==> JoinOf(a + b, sep) == JoinOf(a, sep) + sep + JoinOf(b, sep)
    decreases |a|
  {
    if a != [] && b != [] {
      assert (a + b)[0] == a[0] && (a + b)[1..] == a[1..] + b;
      if |a| > 1 {
        JoinParts(a[1..], b, sep, x);
      } else {
        assert a[1..] + b == b;
      }
    }
  }

  /** Replacing is joining what splitting gives, with the replacement between. */
  lemma {:induction false} ReplaceIsJoinOfSplit(s: seq<byte>, what: seq<byte>, repl: seq<byte>, m: nat)
    requires what != []
    ensures Replaced(s, what, repl, m) == JoinOf(Pieces(s, what, 0, m + 1), repl)
    decreases m
  {
    if m > 0 && Find(s, what, 0) < |s| {
      hide Find, Rest;
      ReplaceIsJoinOfSplit(Rest(s, what), what, repl, m - 1);
      var rest := Pieces(Rest(s, what), what, 0, m);
      assert ([s[..Find(s, what, 0)]] + rest)[1..] == rest;
    }
  }

  lemma {:induction false} ReplaceNoMore(s: seq<byte>, what: seq<byte>, repl: seq<byte>, m: nat)
    requires what != [] && m >= Matches(s, what)
    ensures Replaced(s, what, repl, m) == Replaced(s, what, repl, Matches(s, what))
    decreases m
  {
    if Find(s, what, 0) < |s| {
      hide Find, Rest;
      ReplaceNoMore(Rest(s, what), what, repl, m - 1);
    }
  }

  lemma MatchesNext(s: seq<byte>, what: seq<byte>)
    requires what != [] && Matches(s, what) > 0
    ensures Find(s, what, 0) < |s| && Matches(s, what) == 1 + Matches(Rest(s, what), what)
    ensures |Rest(s, what)| == |s| - Find(s, what, 0) - |what|
  {
  }

  /** m times d, as a sum. */
  function Sum(m: nat, d: int): int { if m == 0 then 0 else Sum(m - 1, d) + d }

  lemma {:induction false} SumIsProduct(m: nat, d: int)
    ensures Sum(m, d) == m * d
  {
    if m > 0 {
      SumIsProduct(m - 1, d);
      assert m * d == (m - 1) * d + d;
    }
  }

  lemma {:induction false} ReplacedGrows(s: seq<byte>, what: seq<byte>, repl: seq<byte>, m: nat)
    requires what != [] && m <= Matches(s, what)
    ensures |Replaced(s, what, repl, m)| == |s| + Sum(m, |repl| - |what|)
    decreases m
  {
    if m > 0 {
      hide Find, Matches, Rest;
      MatchesNext(s, what);
      ReplacedGrows(Rest(s, what), what, repl, m - 1);
    }
  }

  /** The size computed beforehand is exact. */
  lemma ReplacedSize(s: seq<byte>, what: seq<byte>, repl: seq<byte>, m: nat)
    requires what != [] && m <= Matches(s, what)
    ensures |Replaced(s, what, repl, m)| == |s| + m * (|repl| - |what|)
  {
    ReplacedGrows(s, what, repl, m);
    SumIsProduct(m, |repl| - |what|);
  }

  // ---- The scanners ----

  lemma {:induction false} FindSuffix(s: seq<byte>, sep: seq<byte>, from: nat, i: nat)
    requires sep != [] && from <= i <= |s|
    ensures Find(s, sep, i) == from + Find(s[from..], sep, i - from)
    decreases |s| - i
  {
    if i + |sep| <= |s| {
      assert s[from..][i - from..i - from + |sep|] == s[i..i + |sep|];
      if !MatchAt(s, sep, i) { FindSuffix(s, sep, from, i + 1); }
    }
  }

  /** Skipping positions that do not match. */
  lemma {:induction false} FindSkips(s: seq<byte>, sep: seq<byte>, i: nat, j: nat)
    requires sep != [] && i <= j <= |s| && forall k :: i <= k < j ==> !MatchAt(s, sep, k)
    ensures Find(s, sep, i) == Find(s, sep, j)
    decreases j - i
  {
    if i < j { FindSkips(s, sep, i + 1, j); }
  }

  lemma FindNone(s: seq<byte>, sep: seq<byte>, i: nat)
    requires sep != [] && i <= |s| && forall k :: i <= k && k + |sep| <= |s| ==> !MatchAt(s, sep, k)
    ensures Find(s, sep, i) == |s|
  {
  }

  lemma FirstByte(s: seq<byte>, sep: seq<byte>, i: nat)
    requires sep != [] && MatchAt(s, sep, i)
    ensures s[i] == sep[0]
  {
    assert s[i..i + |sep|][0] == s[i];
  }

  /** Comparing the first byte, and the rest if there is one, decides a match. */
  lemma IsMatch(s: seq<byte>, sep: seq<byte>, i: nat)
    requires sep != [] && i + |sep| <= |s|
    ensures MatchAt(s, sep, i) <==> s[i] == sep[0] && (|sep| == 1 || s[i..i + |sep|] == sep)
  {
    assert s[i] == s[i..i + |sep|][0];
    if |sep| == 1 { assert s[i..i + 1] == [s[i]] && sep == [sep[0]]; }
  }

  /** IndexByte by its portable form. */
  method IndexByte(s: seq<byte>, c: byte) returns (i: int)
    ensures i < 0 ==> i == -1 && c !in s
    ensures i >= 0 ==> i < |s| && s[i] == c && c !in s[..i]
  {
    i := 0;
    while i < |s|
      invariant 0 <= i <= |s| && c !in s[..i]
    {
      if s[i] == c {
        return;
      }
      i := i + 1;
    }
    assert s[..|s|] == s;
    i := -1;
  }

  /** Jump to the first position from i on that starts with sep's first byte; -1 if there is none
      early enough for a match. */
  method NextCandidate(s: seq<byte>, sep: seq<byte>, i: nat) returns (j: int)
    requires sep != [] && i + |sep| <= |s|
    ensures j == -1 ==> Find(s, sep, i) == |s|
    ensures j != -1 ==> i <= j && j + |sep| <= |s| && s[j] == sep[0] && Find(s, sep, i) == Find(s, sep, j)
  {
    j := i;
    if s[i] != sep[0] {
      var o := IndexByte(s[i..|s| - |sep| + 1], sep[0]);
      forall k | i <= k < (if o < 0 then |s| - |sep| + 1 else i + o) ensures s[k] != sep[0] {
        var front := s[i..|s| - |sep| + 1][..if o < 0 then |s| - |sep| + 1 - i else o];
        assert front[k - i] == s[k] && s[k] in front;
      }
      forall k: nat | MatchAt(s, sep, k) ensures s[k] == sep[0] { FirstByte(s, sep, k); }
      if o < 0 {
        FindNone(s, sep, i);
        return -1;
      }
      FindSkips(s, sep, i, i + o);
      j := i + o;
    }
  }

  method Count(s: seq<byte>, sep: seq<byte>) returns (count: nat)
    requires sep != []
    ensures count == Matches(s, sep)
  {
    hide Find, Matches, Rest;
    var n := |sep|;
    count := 0;
    if n > |s| {
      NoMatch(s, sep);
      return;
    }
    ghost var from := 0;
    var i := 0;
    assert s[0..] == s;
    while i < |s| - n + 1
      invariant 0 <= from <= i <= |s| && count + Matches(s[from..], sep) == Matches(s, sep)
      invariant Find(s, sep, from) == Find(s, sep, i)
      decreases |s| - i
    {
      var j := NextCandidate(s, sep, i);
      if j < 0 {
        i := |s|;
        break;
      }
      i := j;
      CountHere(s, sep, from, i);
      if n == 1 || s[i..i + n] == sep {
        IsMatch(s, sep, i);
        count := count + 1;
        i := i + n;
        from := i;
        continue;
      }
      FindSkips(s, sep, i, i + 1);
      i := i + 1;
    }
    FindEnd(s, sep, from, i);
    NoMatch(s[from..], sep);
  }

  lemma NoMatch(s: seq<byte>, sep: seq<byte>)
    requires sep != [] && (|s| < |sep| || Find(s, sep, 0) == |s|)
    ensures Matches(s, sep) == 0 && Find(s, sep, 0) == |s|
  {
  }

  lemma FindEnd(s: seq<byte>, sep: seq<byte>, from: nat, i: nat)
    requires sep != [] && from <= i <= |s| && i > |s| - |sep| && Find(s, sep, from) == Find(s, sep, i)
    ensures Find(s[from..], sep, 0) == |s[from..]|
  {
    FindSuffix(s, sep, from, from);
  }

  /** A match at i, the first from from on, is the next to be counted. */
  lemma CountHere(s: seq<byte>, sep: seq<byte>, from: nat, i: nat)
    requires sep != [] && from <= i <= |s| && Find(s, sep, from) == Find(s, sep, i)
    ensures MatchAt(s, sep, i) ==>
      && Find(s[from..], sep, 0) == i - from && i - from < |s[from..]|
      && Rest(s[from..], sep) == s[i + |sep|..] && Matches(s[from..], sep) == 1 + Matches(s[i + |sep|..], sep)
  {
    FindSuffix(s, sep, from, from);
    if MatchAt(s, sep, i) {
      assert Find(s, sep, i) == i;
      assert s[from..][i - from + |sep|..] == s[i + |sep|..];
    }
  }

  method Index(s: seq<byte>, sep: seq<byte>) returns (i: int)
    requires sep != []
    ensures i == -1 <==> Find(s, sep, 0) == |s|
    ensures i != -1 ==> i == Find(s, sep, 0)
  {
    hide Find;
    var n := |sep|;
    if n > |s| {
      NoMatch(s, sep);
      return -1;
    }
    if n == 1 {
      i := IndexByte(s, sep[0]);
      forall k | 0 <= k < (if i < 0 then |s| else i) ensures s[k] != sep[0] {
        assert s[k] in s && (i >= 0 ==> s[k] == s[..i][k] && s[k] in s[..i]);
      }
      SingleByte(s, sep, i);
      return;
    }
    i := 0;
    while i < |s| - n + 1
      invariant 0 <= i <= |s| && Find(s, sep, 0) == Find(s, sep, i)
      decreases |s| - i
    {
      var j := NextCandidate(s, sep, i);
      if j < 0 {
        return -1;
      }
      i := j;
      if s[i..i + n] == sep {
        FoundHere(s, sep, i);
        return;
      }
      FindSkips(s, sep, i, i + 1);
      i := i + 1;
    }
    FindEnd(s, sep, 0, i);
    assert s[0..] == s;
    i := -1;
  }

  lemma SingleByte(s: seq<byte>, sep: seq<byte>, i: int)
    requires |sep| == 1 && -1 <= i < |s| && (i >= 0 ==> s[i] == sep[0])
    requires forall k :: 0 <= k < (if i < 0 then |s| else i) ==> s[k] != sep[0]
    ensures Find(s, sep, 0) == if i < 0 then |s| else i
  {
    assert forall k :: 0 <= k < |s| ==> s[k..k + 1] == [s[k]];
    FindSkips(s, sep, 0, if i < 0 then |s| else i);
    if i >= 0 { assert MatchAt(s, sep, i); }
  }

  lemma FoundHere(s: seq<byte>, sep: seq<byte>, i: nat)
    requires sep != [] && MatchAt(s, sep, i)
    ensures Find(s, sep, i) == i < |s|
  {
  }

  // ---- Splitting and joining ----

  /** A match at i, the first from start on, ends the next piece. */
  lemma PieceHere(s: seq<byte>, sep: seq<byte>, save: nat, n: nat, start: nat, i: nat)
    requires sep != [] && save <= |sep| && n > 1 && start <= i <= |s|
    requires Find(s, sep, start) == Find(s, sep, i) && MatchAt(s, sep, i)
    ensures Pieces(s[start..], sep, save, n) == [s[start..i + save]] + Pieces(s[i + |sep|..], sep, save, n - 1)
  {
    hide Find, Pieces, Matches;
    CountHere(s, sep, start, i);
    PiecesNext(s[start..], sep, save, n);
    hide MatchAt, Absent;
    assert s[start..][..i - start + save] == s[start..i + save];
    assert s[start..][i - start + |sep|..] == s[i + |sep|..];
  }

  lemma NextPiece(all: seq<seq<byte>>, done: seq<seq<byte>>, s: seq<byte>, sep: seq<byte>, save: nat, n: nat,
                  start: nat, i: nat)
    requires sep != [] && save <= |sep| && n > 1 && start <= i <= |s|
    requires Find(s, sep, start) == Find(s, sep, i) && MatchAt(s, sep, i)
    requires done + Pieces(s[start..], sep, save, n) == all
    ensures done + [s[start..i + save]] + Pieces(s[i + |sep|..], sep, save, n - 1) == all
  {
    hide Find, Pieces;
    PieceHere(s, sep, save, n, start, i);
  }

  lemma LastPiece(s: seq<byte>, sep: seq<byte>, save: nat, n: nat)
    requires sep != [] && save <= |sep| && n > 0 && (n == 1 || Find(s, sep, 0) == |s|)
    ensures Pieces(s, sep, save, n) == [s]
  {
  }

  /** genSplit: at most n pieces, all of them if n is negative. */
  method GenSplit(s: seq<byte>, sep: seq<byte>, sepSave: nat, n0: int) returns (ps: seq<seq<byte>>)
    requires sep != [] && sepSave <= |sep|
    ensures n0 == 0 ==> ps == []
    ensures n0 > 0 ==> ps == Pieces(s, sep, sepSave, n0)
    ensures n0 < 0 ==> ps == Pieces(s, sep, sepSave, Matches(s, sep) + 1)
  {
    hide *;
    if n0 == 0 {
      return [];
    }
    var n := n0;
    if n < 0 {
      var count := Count(s, sep);
      n := count + 1;
    }
    var start, na, i := 0, 0, 0;
    var a := new seq<byte>[n](_ => []);
    ghost var all := Pieces(s, sep, sepSave, n);
    assert s[0..] == s && a[..0] == [];
    while i + |sep| <= |s| && na + 1 < n
      invariant 0 <= start <= i <= |s| && 0 <= na < n
      invariant Find(s, sep, start) == Find(s, sep, i)
      invariant a[..na] + Pieces(s[start..], sep, sepSave, n - na) == all
      decreases |s| - i
    {
      if s[i] == sep[0] && (|sep| == 1 || s[i..i + |sep|] == sep) {
        IsMatch(s, sep, i);
        NextPiece(all, a[..na], s, sep, sepSave, n - na, start, i);
        na := Put(a, na, s[start..i + sepSave]);
        start := i + |sep|;
        i := i + |sep|;
      } else {
        IsMatch(s, sep, i);
        FindSkips(s, sep, i, i + 1);
        i := i + 1;
      }
    }
    if na + 1 < n { FindEnd(s, sep, start, i); }
    LastPiece(s[start..], sep, sepSave, n - na);
    na := Put(a, na, s[start..]);
    ps := a[..na];
  }

  /** Set the next slot of the result. */
  method Put(a: array<seq<byte>>, na: nat, piece: seq<byte>) returns (na1: nat)
    requires na < a.Length
    modifies a
    ensures na1 == na + 1 && a[..na1] == old(a[..na]) + [piece]
  {
    a[na] := piece;
    na1 := na + 1;
  }

  function TotalLength(ps: seq<seq<byte>>): nat {
    if ps == [] then 0 else TotalLength(ps[..|ps| - 1]) + |ps[|ps| - 1]|
  }

  lemma {:induction false} JoinNext(ps: seq<seq<byte>>, p: seq<byte>, sep: seq<byte>)
    requires ps != []
    ensures JoinOf(ps + [p], sep) == JoinOf(ps, sep) + sep + p
  {
    if |ps| > 1 {
      JoinNext(ps[1..], p, sep);
      assert (ps + [p])[1..] == ps[1..] + [p];
    } else {
      assert (ps + [p])[1..] == [p];
    }
  }

  lemma {:induction false} JoinSize(ps: seq<seq<byte>>, sep: seq<byte>)
    requires ps != []
    ensures |JoinOf(ps, sep)| == |sep| * (|ps| - 1) + TotalLength(ps)
  {
    var init, last := ps[..|ps| - 1], ps[|ps| - 1];
    assert ps == init + [last];
    if init == [] {
      assert TotalLength(init) == 0;
    } else {
      hide JoinOf;
      JoinSize(init, sep);
      JoinNext(init, last, sep);
      assert |sep| * (|init| - 1) + |sep| == |sep| * |init|;
    }
  }

  /** copy(b[at:], x), where x fits. */
  method CopyAt(b: array<byte>, at: nat, x: seq<byte>) returns (at1: nat)
    requires at + |x| <= b.Length
    modifies b
    ensures at1 == at + |x| && b[..at1] == old(b[..at]) + x
  {
    forall i | 0 <= i < |x| {
      b[at + i] := x[i];
    }
    at1 := at + |x|;
    assert b[..at1] == old(b[..at]) + x;
  }

  /** Join: the buffer made beforehand is filled exactly. */
  method Join(ps: seq<seq<byte>>, sep: seq<byte>) returns (r: seq<byte>)
    ensures r == JoinOf(ps, sep)
  {
    hide JoinOf, TotalLength;
    if |ps| == 0 {
      JoinFew(ps, sep);
      return [];
    }
    JoinFew(ps, sep);
    if |ps| == 1 {
      return ps[0];
    }
    var n := JoinedSize(ps, sep);
    JoinSize(ps, sep);
    var b := new byte[n](_ => 0);
    JoinFew(ps[..1], sep);
    JoinPrefix(ps, sep, 1);
    var bp := CopyAt(b, 0, ps[0]);
    var i := 1;
    assert b[..0] == [];
    while i < |ps|
      invariant 1 <= i <= |ps| && 0 <= bp <= b.Length && b[..bp] == JoinOf(ps[..i], sep)
    {
      JoinNext(ps[..i], ps[i], sep);
      assert ps[..i + 1] == ps[..i] + [ps[i]];
      JoinPrefix(ps, sep, i + 1);
      bp := CopyAt(b, bp, sep);
      bp := CopyAt(b, bp, ps[i]);
      i := i + 1;
    }
    assert ps[..i] == ps && bp == n && b[..] == b[..bp];
    r := b[..];
  }

  /** The size of the joined slices, added up. */
  method JoinedSize(ps: seq<seq<byte>>, sep: seq<byte>) returns (n: nat)
    requires ps != []
    ensures n == |sep| * (|ps| - 1) + TotalLength(ps)
  {
    n := |sep| * (|ps| - 1);
    ghost var n0 := n;
    var i := 0;
    while i < |ps|
      invariant i <= |ps| && n == n0 + TotalLength(ps[..i])
    {
      assert ps[..i + 1][..i] == ps[..i];
      n := n + |ps[i]|;
      i := i + 1;
    }
    assert ps[..i] == ps;
  }

  lemma JoinFew(ps: seq<seq<byte>>, sep: seq<byte>)
    ensures |ps| == 0 ==> JoinOf(ps, sep) == []
    ensures |ps| == 1 ==> JoinOf(ps, sep) == ps[0]
  {
  }

  lemma {:induction false} JoinPrefix(ps: seq<seq<byte>>, sep: seq<byte>, k: nat)
    requires 1 <= k <= |ps|
    ensures |JoinOf(ps[..k], sep)| <= |JoinOf(ps, sep)|
    decreases |ps| - k
  {
    if k < |ps| {
      JoinPrefix(ps, sep, k + 1);
      JoinNext(ps[..k], ps[k], sep);
      assert ps[..k + 1] == ps[..k] + [ps[k]];
    } else {
      assert ps[..k] == ps;
    }
  }

  // ---- Replacing ----

  lemma ReplaceHere(s: seq<byte>, what: seq<byte>, repl: seq<byte>, m: nat, j: nat)
    requires what != [] && 0 < m <= Matches(s, what) && j == Find(s, what, 0)
    ensures j < |s| && j + |what| <= |s| && m - 1 <= Matches(s[j + |what|..], what)
    ensures Replaced(s, what, repl, m) == s[..j] + repl + Replaced(s[j + |what|..], what, repl, m - 1)
  {
    hide Find, Matches;
    MatchesNext(s, what);
  }

  /** The loop of Replace: the buffer made beforehand is filled exactly. */
  method ReplaceFirst(s: seq<byte>, what: seq<byte>, repl: seq<byte>, n: nat) returns (r: seq<byte>)
    requires what != [] && n <= Matches(s, what)
    ensures r == Replaced(s, what, repl, n)
  {
    hide *;
    ReplacedSize(s, what, repl, n);
    var t := new byte[|s| + n * (|repl| - |what|)](_ => 0);
    var w, start, i := 0, 0, 0;
    ghost var all := Replaced(s, what, repl, n);
    assert s[0..] == s && t[..0] == [];
    while i < n
      invariant 0 <= i <= n && 0 <= start <= |s| && 0 <= w <= t.Length == |all| && n - i <= Matches(s[start..], what)
      invariant t[..w] + Replaced(s[start..], what, repl, n - i) == all
    {
      var found := Index(s[start..], what);
      ReplaceNext(all, t[..w], s[start..], what, repl, n - i);
      var j := start + found;
      assert s[start..][..found] == s[start..j] && s[start..][found + |what|..] == s[j + |what|..];
      w := CopyAt(t, w, s[start..j]);
      w := CopyAt(t, w, repl);
      start := j + |what|;
      i := i + 1;
    }
    NoReplacement(s[start..], what, repl, 0);
    w := CopyAt(t, w, s[start..]);
    assert w == t.Length && t[..w] == t[..];
    r := t[..w];
  }

  /** One more match copied and replaced: what is written and what is to come still make up the result. */
  lemma ReplaceNext(all: seq<byte>, before: seq<byte>, s: seq<byte>, what: seq<byte>, repl: seq<byte>, m: nat)
    requires what != [] && 0 < m <= Matches(s, what) && before + Replaced(s, what, repl, m) == all
    ensures var j := Find(s, what, 0);
            && j < |s| && j + |what| <= |s| && m - 1 <= Matches(s[j + |what|..], what)
            && |before| + j + |repl| <= |all|
            && before + s[..j] + repl + Replaced(s[j + |what|..], what, repl, m - 1) == all
  {
    hide Find, Matches, Replaced;
    ReplaceHere(s, what, repl, m, Find(s, what, 0));
  }

  /** Replace: the first n matches, all of them if n is negative. */
  method Replace(s: seq<byte>, what: seq<byte>, repl: seq<byte>, n0: int) returns (r: seq<byte>)
    requires what != []
    ensures n0 >= 0 ==> r == JoinOf(Pieces(s, what, 0, n0 + 1), repl)
    ensures n0 < 0 ==> r == JoinOf(Pieces(s, what, 0, Matches(s, what) + 1), repl)
  {
    hide *;
    var m := 0;
    if n0 != 0 {
      m := Count(s, what);
    }
    ghost var wanted := if n0 < 0 then Matches(s, what) else n0;
    ReplaceIsJoinOfSplit(s, what, repl, wanted);
    NoReplacement(s, what, repl, wanted);
    if m == 0 {
      return s;
    }
    var n := n0;
    if n < 0 || m < n {
      n := m;
    }
    if m <= wanted { ReplaceNoMore(s, what, repl, wanted); }
    r := ReplaceFirst(s, what, repl, n);
  }

  lemma NoReplacement(s: seq<byte>, what: seq<byte>, repl: seq<byte>, m: nat)
    requires what != []
    ensures m == 0 || Matches(s, what) == 0 ==> Replaced(s, what, repl, m) == s
  {
  }

  // ---- Repeating ----

  function RepeatOf(b: seq<byte>, count: nat): seq<byte> {
    if count == 0 then [] else RepeatOf(b, count - 1) + b
  }

  lemma {:induction false} RepeatSize(b: seq<byte>, count: nat)
    ensures |RepeatOf(b, count)| == |b| * count
  {
    if count > 0 {
      RepeatSize(b, count - 1);
      assert |b| * count == |b| * (count - 1) + |b|;
    }
  }

  lemma {:induction false} RepeatAdds(b: seq<byte>, m: nat, k: nat)
    ensures RepeatOf(b, m + k) == RepeatOf(b, m) + RepeatOf(b, k)
  {
    if k > 0 {
      RepeatAdds(b, m, k - 1);
    } else {
      assert RepeatOf(b, m) + [] == RepeatOf(b, m);
    }
  }

  /** Repeat: the buffer for count copies is filled by doubling. */
  method Repeat(b: seq<byte>, count: nat) returns (r: seq<byte>)
    ensures r == RepeatOf(b, count)
  {
    RepeatSize(b, count);
    var nb := new byte[|b| * count](_ => 0);
    r := FillByDoubling(nb, b, count);
  }

  /** The loop of Repeat: copy the filled part behind itself until the buffer is full. */
  method FillByDoubling(nb: array<byte>, b: seq<byte>, ghost count: nat) returns (r: seq<byte>)
    requires nb.Length == |RepeatOf(b, count)|
    modifies nb
    ensures r == RepeatOf(b, count)
  {
    hide RepeatOf;
    RepeatOnce(b);
    ghost var m := 1;
    var bp := |b|;
    var first := Min(|b|, nb.Length);
    var _ := CopyAt(nb, 0, b[..first]);
    assert nb[..0] == [];
    while bp < nb.Length
      invariant m > 0 && bp == |RepeatOf(b, m)|
      invariant nb[..Min(bp, nb.Length)] == RepeatOf(b, m)[..Min(bp, nb.Length)]
      decreases nb.Length - bp
    {
      RepeatNotEmpty(b, count, m);
      var k := Min(bp, nb.Length - bp);
      Doubled(b, m, k);
      ghost var filled := nb[..bp];
      assert filled == RepeatOf(b, m) && nb[..k] == filled[..k];
      var end := CopyAt(nb, bp, nb[..k]);
      assert nb[..end] == filled + filled[..k] && end == Min(bp * 2, nb.Length);
      bp := bp * 2;
      m := m + m;
    }
    RepeatEnough(b, count, m);
    assert nb[..] == nb[..Min(bp, nb.Length)];
    r := nb[..];
  }

  /** A front part of a repetition behind that repetition is a front part of the doubled one. */
  lemma Doubled(b: seq<byte>, m: nat, k: nat)
    requires k <= |RepeatOf(b, m)|
    ensures var r, r2 := RepeatOf(b, m), RepeatOf(b, m + m);
            |r2| == 2 * |r| && r[..|r|] == r && r + r[..k] == r2[..|r| + k]
  {
    hide RepeatOf;
    RepeatAdds(b, m, m);
  }

  /** There is progress: nothing to repeat means nothing to fill. */
  lemma RepeatNotEmpty(b: seq<byte>, count: nat, m: nat)
    requires |RepeatOf(b, count)| > 0 && m > 0
    ensures |RepeatOf(b, m)| > 0
  {
    RepeatAdds(b, m - 1, 1);
    RepeatOnce(b);
    if b == [] { RepeatNothing(count); }
  }

  lemma {:induction false} RepeatNothing(count: nat)
    ensures RepeatOf([], count) == []
  {
    if count > 0 { RepeatNothing(count - 1); }
  }

  lemma RepeatOnce(b: seq<byte>)
    ensures RepeatOf(b, 1) == b && |RepeatOf(b, 0)| == 0
  {
    assert RepeatOf(b, 1) == RepeatOf(b, 0) + b;
  }

  /** A repetition at least as long has the wanted one as its front. */
  lemma RepeatEnough(b: seq<byte>, count: nat, m: nat)
    requires |RepeatOf(b, m)| >= |RepeatOf(b, count)|
    ensures RepeatOf(b, m)[..|RepeatOf(b, count)|] == RepeatOf(b, count)
  {
    hide RepeatOf;
    if count <= m {
      RepeatAdds(b, count, m - count);
    } else {
      RepeatAdds(b, m, count - m);
      assert RepeatOf(b, count - m) == [];
      assert RepeatOf(b, m)[..|RepeatOf(b, m)|] == RepeatOf(b, m);
    }
  }
}
