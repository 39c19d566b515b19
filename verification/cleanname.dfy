/** Lexical path cleaning in place (src/lib9/cleanname.c). */
module CleanName {
  import opened Bits

  const NUL: byte := 0
  const SLASH: byte := 47
  const DOT: byte := 46
  const DOTDOT: seq<byte> := [46, 46]

  // ---- The meaning: a stack of path elements ----

  /** The elements between slashes, empty ones included. */
  function Elements(s: seq<byte>): (es: seq<seq<byte>>)
    ensures es != []
  {
    if s == [] then [[]]
    else
      var rest := Elements(s[1..]);
      if s[0] == SLASH then [[]] + rest else [[s[0]] + rest[0]] + rest[1..]
  }

  /** One element: null and "." are dropped, ".." pops, or stays at the front of an unrooted path. */
  function Push(rooted: bool, stack: seq<seq<byte>>, e: seq<byte>): seq<seq<byte>> {
    if e == [] || e == [DOT] then stack
    else if e == DOTDOT then
      if stack != [] && stack[|stack| - 1] != DOTDOT then stack[..|stack| - 1]
      else if rooted then stack
      else stack + [DOTDOT]
    else stack + [e]
  }

  function Normalize(rooted: bool, stack: seq<seq<byte>>, es: seq<seq<byte>>): seq<seq<byte>>
    decreases |es|
  {
    if es == [] then stack else Normalize(rooted, Push(rooted, stack, es[0]), es[1..])
  }

  function Join(stack: seq<seq<byte>>): seq<byte> {
    if stack == [] then []
    else if |stack| == 1 then stack[0]
    else Join(stack[..|stack| - 1]) + [SLASH] + stack[|stack| - 1]
  }

  function Render(rooted: bool, stack: seq<seq<byte>>): seq<byte> {
    (if rooted then [SLASH] else []) + Join(stack)
  }

  predicate Rooted(s: seq<byte>) { s != [] && s[0] == SLASH }

  function Stack(s: seq<byte>): seq<seq<byte>> { Normalize(Rooted(s), [], Elements(s)) }

  /** The clean form of a path: its normalised elements joined again, or "." if nothing is left. */
  function Clean(s: seq<byte>): seq<byte> {
    var r := Render(Rooted(s), Stack(s));
    if r == [] then [DOT] else r
  }

  /** An element that stays where it is: not empty, without slash, not "." or "..". */
  ghost predicate Real(e: seq<byte>) { e != [] && SLASH !in e && NUL !in e && e != [DOT] && e != DOTDOT }

  /** m times ".." and then real elements; nothing pops in a rooted path's front. */
  ghost predicate Canonical(rooted: bool, stack: seq<seq<byte>>, m: nat) {
    && m <= |stack| && (rooted ==> m == 0)
    && (forall i :: 0 <= i < m ==> stack[i] == DOTDOT)
    && (forall i :: m <= i < |stack| ==> Real(stack[i]))
  }

  // ---- The front of a path ----

  /** e is the element at the front of s. */
  ghost predicate AtFront(e: seq<byte>, s: seq<byte>) {
    SLASH !in e && e <= s && (|e| == |s| || s[|e|] == SLASH)
  }

  lemma {:induction false} ElementsFront(e: seq<byte>, s: seq<byte>)
    requires AtFront(e, s)
    ensures Elements(s)[0] == e
    ensures |e| < |s| ==> Elements(s)[1..] == Elements(s[|e| + 1..])
    ensures |e| == |s| ==> Elements(s) == [e]
  {
    if e == [] {
      if s != [] { assert s[|e| + 1..] == s[1..]; }
    } else {
      assert e[0] == s[0] && s[0] in e;
      assert AtFront(e[1..], s[1..]) by {
        assert e <= s && forall i :: 0 <= i < |e| - 1 ==> e[1..][i] == s[1..][i];
      }
      ElementsFront(e[1..], s[1..]);
      if |e| < |s| { assert s[1..][|e[1..]| + 1..] == s[|e| + 1..]; }
    }
  }

  /** Reading one element pushes it; the separator after it counts as a null element. */
  lemma NormalizeFront(rooted: bool, stack: seq<seq<byte>>, e: seq<byte>, s: seq<byte>)
    requires AtFront(e, s)
    ensures Normalize(rooted, stack, Elements(s)) == Normalize(rooted, Push(rooted, stack, e), Elements(s[|e|..]))
  {
    ElementsFront(e, s);
    var rest := s[|e|..];
    ElementsFront([], rest);
    var pushed := Push(rooted, stack, e);
    if |e| < |s| {
      assert rest[1..] == s[|e| + 1..];
      assert Normalize(rooted, pushed, Elements(rest)) == Normalize(rooted, pushed, Elements(rest)[1..]);
    } else {
      assert Elements(rest) == [[]];
      assert Normalize(rooted, pushed, [[]]) == Normalize(rooted, pushed, [[]][1..]) == pushed;
      assert Normalize(rooted, stack, [e]) == Normalize(rooted, pushed, [e][1..]) == pushed;
    }
  }

  lemma NormalizeSlash(rooted: bool, stack: seq<seq<byte>>, s: seq<byte>)
    requires s != [] && s[0] == SLASH
    ensures Normalize(rooted, stack, Elements(s)) == Normalize(rooted, stack, Elements(s[1..]))
  {
    assert Elements(s)[1..] == Elements(s[1..]);
  }

  // ---- The bytes of a canonical stack ----

  lemma RenderPush(rooted: bool, stack: seq<seq<byte>>, e: seq<byte>)
    ensures Render(rooted, stack + [e]) == Render(rooted, stack) + (if stack == [] then [] else [SLASH]) + e
  {
    assert (stack + [e])[..|stack|] == stack;
  }

  lemma {:induction false} RenderEmpty(rooted: bool, stack: seq<seq<byte>>, m: nat)
    requires Canonical(rooted, stack, m)
    ensures stack == [] <==> |Render(rooted, stack)| == if rooted then 1 else 0
  {
    if stack != [] {
      assert stack == stack[..|stack| - 1] + [stack[|stack| - 1]];
      RenderPush(rooted, stack[..|stack| - 1], stack[|stack| - 1]);
    }
  }

  /** A real element on top is exactly what lies beyond the dotdot mark. */
  lemma {:induction false} RenderBeyond(rooted: bool, stack: seq<seq<byte>>, m: nat)
    requires Canonical(rooted, stack, m)
    ensures |Render(rooted, stack)| >= |Render(rooted, stack[..m])|
    ensures |Render(rooted, stack)| > |Render(rooted, stack[..m])| <==> m < |stack|
    decreases |stack|
  {
    if m < |stack| {
      var init := stack[..|stack| - 1];
      assert stack == init + [stack[|stack| - 1]] && init[..m] == stack[..m];
      RenderPush(rooted, init, stack[|stack| - 1]);
      RenderBeyond(rooted, init, m);
    } else {
      assert stack[..m] == stack;
    }
  }

  lemma {:induction false} RenderClean(rooted: bool, stack: seq<seq<byte>>, m: nat)
    requires Canonical(rooted, stack, m)
    ensures NUL !in Render(rooted, stack)
  {
    if stack != [] {
      var init := stack[..|stack| - 1];
      assert stack == init + [stack[|stack| - 1]];
      RenderPush(rooted, init, stack[|stack| - 1]);
      RenderClean(rooted, init, if m < |stack| then m else |stack| - 1);
    }
  }

  // ---- C strings ----

  /** The string in a buffer: what comes before its first NUL. */
  function Str(a: seq<byte>): (s: seq<byte>)
    requires NUL in a
    ensures NUL !in s && |s| < |a| && a[|s|] == NUL && s == a[..|s|]
  {
    if a[0] == NUL then []
    else
      assert NUL in a[1..];
      [a[0]] + Str(a[1..])
  }

  lemma {:induction false} StrIs(a: seq<byte>, s: seq<byte>)
    requires |s| < |a| && s == a[..|s|] && NUL !in s && a[|s|] == NUL
    ensures NUL in a && Str(a) == s
  {
    assert a[|s|] in a;
    if s != [] {
      assert a[0] == s[0] && s[0] in s;
      assert NUL in a[1..] by { assert a[1..][|s| - 1] == NUL; }
      StrIs(a[1..], s[1..]);
    }
  }

  // ---- In place ----

  predicate Separator(c: byte) { c == SLASH || c == NUL }

  /** The loop's state: the front of the buffer holds the rendered stack, the rest from p on is the
      unread input, and q has not overtaken p. */
  ghost predicate Progress(s: seq<byte>, a: seq<byte>, p: nat, q: nat, dotdot: nat, stack: seq<seq<byte>>, m: nat) {
    var rooted, n := Rooted(s), |s|;
    && p <= n < |a| && NUL !in s && a[p..n] == s[p..] && a[n] == NUL
    && dotdot <= q <= p && Canonical(rooted, stack, m)
    && a[..q] == Render(rooted, stack) && dotdot == |Render(rooted, stack[..m])|
    && (stack == [] || q < p || p == n || s[p] == SLASH)
    && Normalize(rooted, stack, Elements(s[p..])) == Stack(s)
  }

  /** Passing a slash, or a "." with a separator after it. */
  lemma ProgressSkip(s: seq<byte>, a: seq<byte>, p: nat, q: nat, dotdot: nat, stack: seq<seq<byte>>, m: nat)
    requires Progress(s, a, p, q, dotdot, stack, m) && p < |s|
    requires s[p] == SLASH || (s[p] == DOT && Separator(a[p + 1]))
    ensures Progress(s, a, p + 1, q, dotdot, stack, m)
  {
    assert s[p..][1..] == s[p + 1..] && a[p + 1..|s|] == a[p..|s|][1..];
    if s[p] == SLASH {
      NormalizeSlash(Rooted(s), stack, s[p..]);
    } else {
      FrontElement(s, a, p, 1);
      assert s[p..p + 1] == [DOT];
      NormalizeFront(Rooted(s), stack, [DOT], s[p..]);
    }
  }

  /** The bytes from p to p + k, followed by a separator, are the next element. */
  lemma FrontElement(s: seq<byte>, a: seq<byte>, p: nat, k: nat)
    requires p + k <= |s| < |a| && NUL !in s && a[p..|s|] == s[p..] && a[|s|] == NUL
    requires Separator(a[p + k]) && SLASH !in s[p..p + k]
    ensures AtFront(s[p..p + k], s[p..]) && s[p..][k..] == s[p + k..]
    ensures p + k == |s| || s[p + k] == SLASH
  {
    if p + k < |s| { assert a[p..|s|][k] == a[p + k] && s[p + k] in s; }
  }

  /** Popping: the buffer up to the slash that backtracking finds, or to the dotdot mark, is the
      rendering of the stack without its top. */
  lemma PopBytes(rooted: bool, stack: seq<seq<byte>>, m: nat)
    requires Canonical(rooted, stack, m) && m < |stack|
    ensures var init, bytes := stack[..|stack| - 1], Render(rooted, stack);
            var k, mark := |Render(rooted, init)|, |Render(rooted, stack[..m])|;
            && Canonical(rooted, init, m) && init[..m] == stack[..m]
            && mark <= k < |bytes| && bytes[..k] == Render(rooted, init)
            && (k > mark ==> bytes[k] == SLASH)
            && (forall i :: k < i < |bytes| ==> bytes[i] != SLASH)
            && (k == mark ==> forall i :: mark < i < |bytes| ==> bytes[i] != SLASH)
  {
    var init, e := stack[..|stack| - 1], stack[|stack| - 1];
    assert stack == init + [e] && init[..m] == stack[..m];
    RenderPush(rooted, init, e);
    RenderBeyond(rooted, init, m);
    if init == [] { assert init[..m] == []; }
  }

  /** The inner loop of backtracking. */
  method Backtrack(name: array<byte>, q0: nat, dotdot: nat, ghost k: nat) returns (q: nat)
    requires dotdot < q0 <= name.Length && dotdot <= k < q0
    requires k > dotdot ==> name[k] == SLASH
    requires forall i :: k < i < q0 ==> name[i] != SLASH
    ensures q == k
  {
    q := q0 - 1;
    while q > dotdot && name[q] != SLASH
      invariant k <= q < q0
    {
      q := q - 1;
    }
  }

  lemma ProgressPop(s: seq<byte>, a: seq<byte>, p: nat, q: nat, dotdot: nat, stack: seq<seq<byte>>, m: nat)
    requires Progress(s, a, p, q, dotdot, stack, m) && IsDotDot(s, a, p) && q > dotdot
    ensures var k := |Render(Rooted(s), stack[..|stack| - 1])|;
            && stack != [] && dotdot <= k < q && Progress(s, a, p + 2, k, dotdot, stack[..|stack| - 1], m)
            && (k > dotdot ==> a[k] == SLASH) && (forall i :: k < i < q ==> a[i] != SLASH)
  {
    var rooted := Rooted(s);
    RenderBeyond(rooted, stack, m);
    PopBytes(rooted, stack, m);
    var k := |Render(rooted, stack[..|stack| - 1])|;
    assert a[..q][..k] == a[..k] && forall i :: 0 <= i < q ==> a[..q][i] == a[i];
    DotDotNext(s, a, p, stack);
    assert Push(rooted, stack, DOTDOT) == stack[..|stack| - 1];
  }

  /** The next element is n dots. */
  ghost predicate IsDots(a: seq<byte>, p: nat, n: nat) {
    p + n < |a| && Separator(a[p + n]) && forall i :: p <= i < p + n ==> a[i] == DOT
  }

  /** The next element is "..". */
  ghost predicate IsDotDot(s: seq<byte>, a: seq<byte>, p: nat) {
    p + 2 <= |s| < |a| && a[p] == a[p + 1] == DOT && Separator(a[p + 2])
  }

  lemma DotDotNext(s: seq<byte>, a: seq<byte>, p: nat, stack: seq<seq<byte>>)
    requires IsDotDot(s, a, p) && NUL !in s && a[p..|s|] == s[p..] && a[|s|] == NUL
    ensures p + 2 == |s| || s[p + 2] == SLASH
    ensures s[p] == DOT && a[p + 2..|s|] == s[p + 2..]
    ensures Normalize(Rooted(s), stack, Elements(s[p..])) ==
            Normalize(Rooted(s), Push(Rooted(s), stack, DOTDOT), Elements(s[p + 2..]))
  {
    assert s[p] == a[p..|s|][0] && s[p + 1] == a[p..|s|][1];
    assert s[p..p + 2] == DOTDOT;
    FrontElement(s, a, p, 2);
    NormalizeFront(Rooted(s), stack, DOTDOT, s[p..]);
    assert a[p + 2..|s|] == a[p..|s|][2..];
  }

  lemma TailKept(a: seq<byte>, a': seq<byte>, from: nat, n: nat)
    requires from <= n < |a| == |a'| && a'[from..] == a[from..]
    ensures a'[from..n] == a[from..n] && a'[n] == a[n]
  {
    assert a'[from..n] == a'[from..][..n - from] && a[from..n] == a[from..][..n - from];
    assert a'[n] == a'[from..][n - from];
  }

  /** Where ".." has nothing to pop: dropped at the root, kept at the front otherwise. */
  lemma ProgressDotDot(s: seq<byte>, a: seq<byte>, a': seq<byte>, p: nat, q: nat, q': nat, dotdot: nat,
                       stack: seq<seq<byte>>, m: nat)
    requires Progress(s, a, p, q, dotdot, stack, m) && IsDotDot(s, a, p) && q <= dotdot && |a'| == |a|
    requires Rooted(s) ==> a' == a && q' == q
    requires !Rooted(s) ==> q' == q + (if q == 0 then 2 else 3) <= p + 2
    requires !Rooted(s) ==> a'[..q'] == a[..q] + (if q == 0 then [] else [SLASH]) + DOTDOT
    requires a'[p + 2..] == a[p + 2..]
    ensures Rooted(s) ==> Progress(s, a', p + 2, q', dotdot, stack, m)
    ensures !Rooted(s) ==> Progress(s, a', p + 2, q', q', stack + [DOTDOT], m + 1)
  {
    hide Elements, Normalize, Render, Stack;
    var rooted := Rooted(s);
    RenderBeyond(rooted, stack, m);
    RenderEmpty(rooted, stack, m);
    DotDotNext(s, a, p, stack);
    TailKept(a, a', p + 2, |s|);
    assert m == |stack|;
    if !rooted {
      assert Push(rooted, stack, DOTDOT) == stack + [DOTDOT];
      RenderPush(rooted, stack, DOTDOT);
      assert (stack + [DOTDOT])[..m + 1] == stack + [DOTDOT];
    } else {
      assert Push(rooted, stack, DOTDOT) == stack;
    }
  }

  /** A real element is copied behind a slash. */
  lemma ProgressReal(s: seq<byte>, a: seq<byte>, a': seq<byte>, p: nat, q: nat, k: nat, q': nat, dotdot: nat,
                     stack: seq<seq<byte>>, m: nat)
    requires Progress(s, a, p, q, dotdot, stack, m) && |a'| == |a|
    requires p + k <= |s| && Real(s[p..p + k]) && Separator(a[p + k])
    requires q' == q + (if stack == [] then 0 else 1) + k <= p + k
    requires a'[..q'] == a[..q] + (if stack == [] then [] else [SLASH]) + s[p..p + k] && a'[p + k..] == a[p + k..]
    ensures Progress(s, a', p + k, q', dotdot, stack + [s[p..p + k]], m)
  {
    hide Elements, Normalize, Render, Stack, Push;
    var e := s[p..p + k];
    RealNext(s, a, p, k, stack);
    RenderPush(Rooted(s), stack, e);
    assert (stack + [e])[..m] == stack[..m];
    TailKept(a, a', p + k, |s|);
    RenderBeyond(Rooted(s), stack + [e], m);
  }

  lemma RealNext(s: seq<byte>, a: seq<byte>, p: nat, k: nat, stack: seq<seq<byte>>)
    requires NUL !in s && p + k <= |s| < |a| && a[p..|s|] == s[p..] && a[|s|] == NUL
    requires Real(s[p..p + k]) && Separator(a[p + k])
    ensures p + k == |s| || s[p + k] == SLASH
    ensures a[p + k..|s|] == s[p + k..]
    ensures Normalize(Rooted(s), stack, Elements(s[p..])) ==
            Normalize(Rooted(s), stack + [s[p..p + k]], Elements(s[p + k..]))
  {
    hide Elements, Normalize;
    var e := s[p..p + k];
    FrontElement(s, a, p, k);
    NormalizeFront(Rooted(s), stack, e, s[p..]);
    assert Push(Rooted(s), stack, e) == stack + [e];
    assert a[p + k..|s|] == a[p..|s|][k..] == s[p..][k..] == s[p + k..];
  }

  /** The writes at q where ".." has nothing to pop. */
  method PutDotDot(name: array<byte>, q0: nat, ghost from: nat) returns (q: nat)
    requires q0 + (if q0 == 0 then 2 else 3) <= from <= name.Length
    modifies name
    ensures q == q0 + (if q0 == 0 then 2 else 3)
    ensures name[..q] == old(name[..q0]) + (if q0 == 0 then [] else [SLASH]) + DOTDOT
    ensures name[from..] == old(name[from..])
  {
    q := q0;
    if q != 0 {
      name[q] := SLASH;
      q := q + 1;
    }
    name[q] := DOT;
    name[q + 1] := DOT;
    q := q + 2;
    assert name[..q] == old(name[..q0]) + (if q0 == 0 then [] else [SLASH]) + DOTDOT;
  }

  /** The copying loop: the bytes up to the next separator move to the front, and the separator is
      copied along. */
  method CopyRun(name: array<byte>, p0: nat, q0: nat, ghost k: nat) returns (p: nat, q: nat)
    requires q0 <= p0 && p0 + k < name.Length && Separator(name[p0 + k])
    requires forall i :: p0 <= i < p0 + k ==> !Separator(name[i])
    modifies name
    ensures p == p0 + k && q == q0 + k
    ensures forall i :: 0 <= i < name.Length ==>
      name[i] == if i < q0 || p <= i || q < i then old(name[i]) else old(name[p0 + (i - q0)])
  {
    p, q := p0, q0;
    name[q] := name[p];
    while name[q] != SLASH && name[q] != NUL
      invariant p0 <= p <= p0 + k && q == q0 + (p - p0)
      invariant forall i :: 0 <= i < name.Length ==>
        name[i] == if i < q0 || p <= i || q < i then old(name[i]) else old(name[p0 + (i - q0)])
      invariant name[q] == old(name[p])
      decreases p0 + k - p
    {
      p, q := p + 1, q + 1;
      name[q] := name[p];
    }
  }

  /** The copying of a real element, behind a slash unless it is the first. */
  method CopyElement(name: array<byte>, p0: nat, q0: nat, first: bool, ghost k: nat) returns (p: nat, q: nat)
    requires q0 + (if first then 0 else 1) <= p0 && p0 + k < name.Length && Separator(name[p0 + k])
    requires forall i :: p0 <= i < p0 + k ==> !Separator(name[i])
    modifies name
    ensures p == p0 + k && q == q0 + (if first then 0 else 1) + k
    ensures name[..q] == old(name[..q0]) + (if first then [] else [SLASH]) + old(name[p0..p0 + k])
    ensures name[p..] == old(name[p..])
  {
    q := q0;
    if !first {
      name[q] := SLASH;
      q := q + 1;
    }
    ghost var front, run := old(name[..q0]) + (if first then [] else [SLASH]), old(name[p0..p0 + k]);
    assert name[..q] == front;
    assert name[p0..p0 + k] == run;
    p, q := CopyRun(name, p0, q, k);
    assert name[..q][..|front|] == front;
    assert name[..q][|front|..] == run;
  }

  /** The length of the element at p. */
  ghost function ElementLength(a: seq<byte>, p: nat, n: nat): (k: nat)
    requires p <= n < |a| && a[n] == NUL
    ensures p + k <= n && Separator(a[p + k]) && forall i :: p <= i < p + k ==> !Separator(a[i])
    decreases n - p
  {
    if Separator(a[p]) then 0 else 1 + ElementLength(a, p + 1, n)
  }

  /** Nothing behind position n differs: as q never overtakes p, nothing is written behind the string. */
  ghost predicate Beyond(a: seq<byte>, a': seq<byte>, n: nat) {
    |a'| == |a| && (n < |a| ==> a'[n + 1..] == a[n + 1..])
  }

  lemma BeyondLater(a: seq<byte>, a': seq<byte>, from: nat, n: nat)
    requires from <= n < |a| == |a'| && a'[from..] == a[from..]
    ensures Beyond(a, a', n)
  {
    assert a[n + 1..] == a[from..][n + 1 - from..] && a'[n + 1..] == a'[from..][n + 1 - from..];
  }

  /** cleanname: the buffer holds a string and has room for at least ".". */
  method CleanInPlace(name: array<byte>)
    requires name.Length >= 2 && NUL in name[..]
    modifies name
    ensures NUL in name[..] && Str(name[..]) == Clean(old(Str(name[..])))
    ensures Beyond(old(name[..]), name[..], if old(Str(name[..])) == [] then 1 else |old(Str(name[..]))|)
  {
    hide Clean, Stack, Str, Canonical, Render, Elements, Normalize, Progress;
    ghost var s := Str(name[..]);
    var rooted := name[0] == SLASH;
    var p := if rooted then 1 else 0;
    var q, dotdot := p, p;
    var base := p;
    ghost var stack: seq<seq<byte>>, m := [], 0;
    ProgressStart(s, name[..]);
    while name[p] != NUL
      invariant rooted == Rooted(s) && base == (if rooted then 1 else 0) && base <= dotdot <= q <= p < name.Length
      invariant Progress(s, name[..], p, q, dotdot, stack, m) && Beyond(old(name[..]), name[..], |s|)
      decreases name.Length - p
    {
      ghost var a := name[..];
      ProgressFacts(s, a, p, q, dotdot, stack, m);
      if name[p] == SLASH {
        ProgressSkip(s, a, p, q, dotdot, stack, m);
        p := p + 1;
      } else if name[p] == DOT && Separator(name[p + 1]) {
        ProgressSkip(s, a, p, q, dotdot, stack, m);
        p := p + 1;
      } else if name[p] == DOT && name[p + 1] == DOT && Separator(name[p + 2]) {
        q, dotdot, stack, m := StepUp(name, p, q, dotdot, rooted, s, stack, m);
        p := p + 2;
      } else {
        p, q, stack := StepDown(name, p, q, base, s, dotdot, stack, m);
      }
    }
    ProgressEnd(s, name[..], p, q, dotdot, stack, m);
    ghost var a := name[..];
    if q == 0 {
      name[0] := DOT;
      q := 1;
    }
    name[q] := NUL;
    assert name[..q] == Clean(s);
    StrIs(name[..], Clean(s));
  }

  lemma SuffixesAgree(x: seq<byte>, y: seq<byte>, from: nat)
    requires from <= |x| == |y| && forall i :: from <= i < |x| ==> x[i] == y[i]
    ensures x[from..] == y[from..]
  {
  }

  /** The branch for "..". */
  method StepUp(name: array<byte>, p: nat, q0: nat, dotdot0: nat, rooted: bool, ghost s: seq<byte>,
                ghost stack0: seq<seq<byte>>, ghost m0: nat)
    returns (q: nat, dotdot: nat, ghost stack: seq<seq<byte>>, ghost m: nat)
    requires Progress(s, name[..], p, q0, dotdot0, stack0, m0) && rooted == Rooted(s) && p < |s| < name.Length
    requires name[p] == s[p] && p + 2 <= |s| && name[p] == name[p + 1] == DOT && Separator(name[p + 2])
    requires dotdot0 <= q0 <= p
    modifies name
    ensures dotdot0 <= dotdot <= q <= p + 2 && Progress(s, name[..], p + 2, q, dotdot, stack, m)
    ensures Beyond(old(name[..]), name[..], |s|)
  {
    hide Canonical, Render, Elements, Normalize, Progress;
    ghost var a := name[..];
    q, dotdot, stack, m := q0, dotdot0, stack0, m0;
    ProgressTwoDots(s, a, p, q, dotdot, stack, m);
    if q > dotdot {
      ProgressPop(s, a, p, q, dotdot, stack, m);
      q := Backtrack(name, q, dotdot, |Render(Rooted(s), stack[..|stack| - 1])|);
      stack := stack[..|stack| - 1];
    } else if !rooted {
      q := PutDotDot(name, q, p + 2);
      SuffixesAgree(name[..], a, p + 2);
      BeyondLater(a, name[..], p + 2, |s|);
      ProgressDotDot(s, a, name[..], p, q0, q, dotdot, stack, m);
      stack, m, dotdot := stack + [DOTDOT], m + 1, q;
    } else {
      ProgressDotDot(s, a, a, p, q, q, dotdot, stack, m);
    }
  }

  /** The branch for a real element. */
  method StepDown(name: array<byte>, p0: nat, q0: nat, base: nat, ghost s: seq<byte>, ghost dotdot: nat,
                  ghost stack0: seq<seq<byte>>, ghost m: nat)
    returns (p: nat, q: nat, ghost stack: seq<seq<byte>>)
    requires Progress(s, name[..], p0, q0, dotdot, stack0, m) && base == (if Rooted(s) then 1 else 0)
    requires p0 < |s| < name.Length && name[|s|] == NUL && q0 <= p0
    requires !Separator(name[p0]) && !IsDots(name[..], p0, 1) && !IsDots(name[..], p0, 2)
    modifies name
    ensures p0 < p <= |s| && q0 <= q <= p && Progress(s, name[..], p, q, dotdot, stack, m)
    ensures Beyond(old(name[..]), name[..], |s|)
  {
    hide Canonical, Render, Elements, Normalize, Progress;
    ghost var a := name[..];
    ghost var k := ElementLength(a, p0, |s|);
    ProgressElement(s, a, p0, q0, dotdot, stack0, m, k);
    p, q := CopyElement(name, p0, q0, q0 == base, k);
    SuffixesAgree(name[..], a, p);
    BeyondLater(a, name[..], p, |s|);
    ProgressReal(s, a, name[..], p0, q0, k, q, dotdot, stack0, m);
    stack := stack0 + [s[p0..p]];
  }

  lemma ProgressStart(s: seq<byte>, a: seq<byte>)
    requires NUL in a && s == Str(a)
    ensures var p := if Rooted(s) then 1 else 0; Progress(s, a, p, p, p, [], 0) && p < |a|
    ensures Rooted(s) == (a[0] == SLASH)
  {
    if Rooted(s) { NormalizeSlash(true, [], s); }
    else { assert s[0..] == s; }
  }

  /** What the tests of the loop see is the input. */
  lemma ProgressFacts(s: seq<byte>, a: seq<byte>, p: nat, q: nat, dotdot: nat, stack: seq<seq<byte>>, m: nat)
    requires Progress(s, a, p, q, dotdot, stack, m) && p < |a| && a[p] != NUL
    ensures p < |s| < |a| && a[p] == s[p] && a[|s|] == NUL && (a[p + 1] != NUL ==> p + 2 <= |s|)
    ensures stack == [] <==> q == if Rooted(s) then 1 else 0
    ensures |a[..q]| == |Render(Rooted(s), stack)|
  {
    RenderEmpty(Rooted(s), stack, m);
    assert p < |s| ==> a[p] == a[p..|s|][0];
  }

  lemma ProgressTwoDots(s: seq<byte>, a: seq<byte>, p: nat, q: nat, dotdot: nat, stack: seq<seq<byte>>, m: nat)
    requires Progress(s, a, p, q, dotdot, stack, m) && p < |s| < |a| && a[p] == s[p] && p + 2 <= |s|
    requires a[p] == a[p + 1] == DOT && Separator(a[p + 2])
    ensures IsDotDot(s, a, p) && (q <= dotdot && !Rooted(s) ==> q + (if q == 0 then 2 else 3) <= p + 2)
  {
    RenderEmpty(Rooted(s), stack, m);
  }

  lemma ProgressElement(s: seq<byte>, a: seq<byte>, p: nat, q: nat, dotdot: nat, stack: seq<seq<byte>>, m: nat, k: nat)
    requires Progress(s, a, p, q, dotdot, stack, m) && p < |s| && p + k <= |s| && k > 0 && Separator(a[p + k])
    requires forall i :: p <= i < p + k ==> !Separator(a[i])
    requires !IsDots(a, p, 1) && !IsDots(a, p, 2)
    ensures a[p..p + k] == s[p..p + k] && Real(s[p..p + k])
    ensures stack == [] <==> q == if Rooted(s) then 1 else 0
    ensures stack != [] ==> q < p
  {
    RenderEmpty(Rooted(s), stack, m);
    var e := s[p..p + k];
    SliceFront(a, p, |s|, k);
    forall i | 0 <= i < k ensures e[i] == a[p + i] { assert e[i] == a[p..p + k][i]; }
  }

  lemma InputAt(s: seq<byte>, a: seq<byte>, p: nat)
    requires p <= |s| < |a| && a[p..|s|] == s[p..] && NUL !in s
    ensures forall i :: p <= i < |s| ==> a[i] == s[i] && a[i] != NUL
  {
    forall i | p <= i < |s| ensures a[i] == s[i] && a[i] != NUL {
      assert a[i] == a[p..|s|][i - p] && s[i] in s;
    }
  }

  lemma ProgressEnd(s: seq<byte>, a: seq<byte>, p: nat, q: nat, dotdot: nat, stack: seq<seq<byte>>, m: nat)
    requires Progress(s, a, p, q, dotdot, stack, m) && p < |a| && a[p] == NUL
    ensures p == |s| && q <= p && stack == Stack(s) && a[..q] == Render(Rooted(s), stack)
    ensures Clean(s) == if q == 0 then [DOT] else a[..q]
    ensures NUL !in Clean(s)
  {
    InputAt(s, a, p);
    RenderClean(Rooted(s), stack, m);
    var rooted := Rooted(s);
    assert Elements([]) == [[]];
    assert Normalize(rooted, stack, [[]]) == Normalize(rooted, stack, [[]][1..]);
  }

  // ---- Cleaning twice ----

  lemma {:induction false} ElementsPlain(s: seq<byte>)
    requires NUL !in s
    ensures forall e :: e in Elements(s) ==> SLASH !in e && NUL !in e
  {
    if s != [] {
      ElementsPlain(s[1..]);
      var rest := Elements(s[1..]);
      assert rest[0] in rest && forall e :: e in rest[1..] ==> e in rest;
    }
  }

  lemma {:induction false} NormalizeCanonical(rooted: bool, stack: seq<seq<byte>>, m: nat, es: seq<seq<byte>>)
    returns (m': nat)
    requires Canonical(rooted, stack, m) && forall e :: e in es ==> SLASH !in e && NUL !in e
    ensures Canonical(rooted, Normalize(rooted, stack, es), m')
    decreases |es|
  {
    m' := m;
    if es != [] {
      var e := es[0];
      assert e in es && forall x :: x in es[1..] ==> x in es;
      if e == DOTDOT && m == |stack| && !rooted { m' := m + 1; }
      m' := NormalizeCanonical(rooted, Push(rooted, stack, e), m', es[1..]);
    }
  }

  lemma {:induction false} ElementsAppend(s: seq<byte>, e: seq<byte>)
    requires SLASH !in e
    ensures Elements(s + [SLASH] + e) == Elements(s) + [e]
  {
    var t := s + [SLASH] + e;
    if s == [] {
      assert t[1..] == e && AtFront(e, e);
      ElementsFront(e, e);
    } else {
      assert t[1..] == s[1..] + [SLASH] + e;
      ElementsAppend(s[1..], e);
    }
  }

  lemma {:induction false} ElementsJoin(stack: seq<seq<byte>>)
    requires stack != [] && forall e :: e in stack ==> SLASH !in e
    ensures Elements(Join(stack)) == stack
  {
    var init, e := stack[..|stack| - 1], stack[|stack| - 1];
    assert stack == init + [e] && e in stack && forall x :: x in init ==> x in stack;
    if init == [] {
      assert AtFront(e, e);
      ElementsFront(e, e);
    } else {
      ElementsJoin(init);
      ElementsAppend(Join(init), e);
    }
  }

  lemma {:induction false} NormalizeSelf(rooted: bool, stack: seq<seq<byte>>, m: nat, i: nat)
    requires Canonical(rooted, stack, m) && i <= |stack|
    ensures Normalize(rooted, stack[..i], stack[i..]) == stack
    decreases |stack| - i
  {
    if i < |stack| {
      NormalizeSelf(rooted, stack, m, i + 1);
      assert stack[..i + 1] == stack[..i] + [stack[i]] && stack[i..][1..] == stack[i + 1..];
      assert Push(rooted, stack[..i], stack[i]) == stack[..i + 1];
    } else {
      assert stack[..i] == stack;
    }
  }

  /** A rendered canonical stack is read back as itself. */
  lemma RenderRoundTrip(rooted: bool, stack: seq<seq<byte>>, m: nat)
    requires Canonical(rooted, stack, m) && Render(rooted, stack) != []
    ensures Rooted(Render(rooted, stack)) == rooted && Stack(Render(rooted, stack)) == stack
  {
    var t := Render(rooted, stack);
    assert forall e :: e in stack ==> SLASH !in e && e != [];
    if stack != [] {
      ElementsJoin(stack);
      JoinFront(stack);
      NormalizeSelf(rooted, stack, m, 0);
      assert stack[..0] == [] && stack[0..] == stack;
    }
    if rooted {
      assert t[1..] == Join(stack);
      NormalizeSlash(true, [], t);
      if stack == [] { assert Elements(t[1..]) == [[]] && Normalize(true, [], [[]]) == Normalize(true, [], [[]][1..]); }
    } else {
      assert t == Join(stack);
    }
  }

  lemma {:induction false} JoinFront(stack: seq<seq<byte>>)
    requires stack != [] && stack[0] != []
    ensures Join(stack) != [] && Join(stack)[0] == stack[0][0]
  {
    if |stack| > 1 { JoinFront(stack[..|stack| - 1]); }
  }

  /** Cleaning is idempotent. */
  lemma CleanTwice(s: seq<byte>)
    requires NUL !in s
    ensures Clean(Clean(s)) == Clean(s)
  {
    ElementsPlain(s);
    var m := NormalizeCanonical(Rooted(s), [], 0, Elements(s));
    RenderEmpty(Rooted(s), Stack(s), m);
    if Render(Rooted(s), Stack(s)) != [] {
      RenderRoundTrip(Rooted(s), Stack(s), m);
    } else {
      assert AtFront([DOT], [DOT]);
      ElementsFront([DOT], [DOT]);
      assert Normalize(false, [], [[DOT]]) == Normalize(false, Push(false, [], [DOT]), [[DOT]][1..]);
    }
  }

  // ---- What cleaning means, as rules on paths ----

  lemma {:induction false} ElementsConcat(x: seq<byte>, y: seq<byte>)
    ensures Elements(x + [47] + y) == Elements(x) + Elements(y)
  {
    var t := x + [47] + y;
    ElementsNext(t);
    if x == [] {
      assert t[1..] == y && t[0] == 47;
      hide Elements;
      var none: seq<byte> := [];
      assert AtFront(none, none);
      ElementsFront(none, none);
    } else {
      ElementsNext(x);
      ElementsConcat(x[1..], y);
      assert t[1..] == x[1..] + [47] + y && t[0] == x[0];
      hide Elements;
    }
  }

  lemma ElementsNext(s: seq<byte>)
    requires s != []
    ensures s[0] == 47 ==> Elements(s) == [[]] + Elements(s[1..])
    ensures s[0] != 47 ==> Elements(s) == [[s[0]] + Elements(s[1..])[0]] + Elements(s[1..])[1..]
  {
  }

  lemma {:induction false} NormalizeConcat(
      rooted: bool, stack: seq<seq<byte>>, a: seq<seq<byte>>, b: seq<seq<byte>>)
    ensures Normalize(rooted, stack, a + b) == Normalize(rooted, Normalize(rooted, stack, a), b)
    decreases |a|
  {
    if a == [] {
      assert a + b == b;
    } else {
      NormalizeConcat(rooted, Push(rooted, stack, a[0]), a[1..], b);
      assert (a + b)[0] == a[0] && (a + b)[1..] == a[1..] + b;
    }
  }

  lemma NormalizeOne(rooted: bool, stack: seq<seq<byte>>, e: seq<byte>)
    ensures Normalize(rooted, stack, [e]) == Push(rooted, stack, e)
  {
    assert [e][1..] == [];
  }

  /** Elements that leave every stack as it is can be taken out of a path. */
  lemma TakenOut(s: seq<byte>, s': seq<byte>, a: seq<seq<byte>>, out: seq<seq<byte>>, b: seq<seq<byte>>)
    requires Rooted(s) == Rooted(s') && Elements(s) == a + out + b && Elements(s') == a + b
    requires var stack := Normalize(Rooted(s), [], a); Normalize(Rooted(s), stack, out) == stack
    ensures Clean(s) == Clean(s')
  {
    hide Elements, Normalize, Render;
    NormalizeConcat(Rooted(s), [], a + out, b);
    NormalizeConcat(Rooted(s), [], a, out);
    NormalizeConcat(Rooted(s), [], a, b);
  }

  lemma SplitThree(x: seq<byte>, e: seq<byte>, y: seq<byte>)
    requires 47 !in e
    ensures Elements(x + [47] + e + [47] + y) == Elements(x) + [e] + Elements(y)
    ensures Rooted(x + [47] + e + [47] + y) == Rooted(x + [47] + y)
  {
    hide Elements;
    assert x + [47] + e + [47] + y == (x + [47] + e) + [47] + y;
    ElementsConcat(x + [47] + e, y);
    ElementsConcat(x, e);
    assert AtFront(e, e);
    ElementsFront(e, e);
  }

  /** A double slash is a slash, and so is a "." between slashes. */
  lemma DropsNullAndDot(x: seq<byte>, y: seq<byte>)
    ensures Clean(x + [47, 47] + y) == Clean(x + [47] + y)
    ensures Clean(x + [47, 46, 47] + y) == Clean(x + [47] + y)
  {
    hide Clean, Elements, Normalize;
    var stack := Normalize(Rooted(x + [47] + y), [], Elements(x));
    ElementsConcat(x, y);
    assert x + [47, 47] + y == x + [47] + [] + [47] + y;
    SplitThree(x, [], y);
    NormalizeOne(Rooted(x + [47] + y), stack, []);
    TakenOut(x + [47, 47] + y, x + [47] + y, Elements(x), [[]], Elements(y));
    assert x + [47, 46, 47] + y == x + [47] + [46] + [47] + y;
    SplitThree(x, [46], y);
    NormalizeOne(Rooted(x + [47] + y), stack, [46]);
    TakenOut(x + [47, 46, 47] + y, x + [47] + y, Elements(x), [[46]], Elements(y));
  }

  /** A name and the ".." after it go together; at the root ".." goes alone. */
  lemma CancelsDotDot(x: seq<byte>, e: seq<byte>, y: seq<byte>)
    requires e != [] && 47 !in e && e != [46] && e != [46, 46]
    ensures Clean(x + [47] + e + [47, 46, 46, 47] + y) == Clean(x + [47] + y)
    ensures Clean([47, 46, 46, 47] + y) == Clean([47] + y)
  {
    hide Clean, Elements, Normalize;
    var s, s', dots := x + [47] + e + [47, 46, 46, 47] + y, x + [47] + y, [46, 46];
    assert s == (x + [47] + e) + [47] + dots + [47] + y;
    SplitThree(x + [47] + e, dots, y);
    ElementsConcat(x, e);
    assert AtFront(e, e);
    ElementsFront(e, e);
    ElementsConcat(x, y);
    var rooted, stack := Rooted(s), Normalize(Rooted(s), [], Elements(x));
    NormalizeOne(rooted, stack, e);
    NormalizeOne(rooted, stack + [e], dots);
    NormalizeConcat(rooted, stack, [e], [dots]);
    assert Elements(s) == Elements(x) + ([e] + [dots]) + Elements(y);
    TakenOut(s, s', Elements(x), [e] + [dots], Elements(y));
    AtTheRoot(y);
  }

  lemma AtTheRoot(y: seq<byte>)
    ensures Clean([47, 46, 46, 47] + y) == Clean([47] + y)
  {
    hide Clean, Elements, Normalize;
    var r, r', dots := [47, 46, 46, 47] + y, [47] + y, [46, 46];
    assert r == [] + [47] + dots + [47] + y && r' == [] + [47] + y;
    SplitThree([], dots, y);
    ElementsConcat([], y);
    NothingPushed();
    NormalizeOne(true, [], dots);
    TakenOut(r, r', Elements([]), [dots], Elements(y));
  }

  lemma NothingPushed()
    ensures Elements([]) == [[]] && Normalize(true, [], [[]]) == [] && Normalize(false, [], [[]]) == []
  {
    var one: seq<seq<byte>> := [[]];
    assert one[1..] == [];
  }

  /** A "./" in front and a slash behind do not matter. */
  lemma DropsEnds(x: seq<byte>)
    ensures x == [] || x[0] != 47 ==> Clean([46, 47] + x) == Clean(x)
    ensures x != [] ==> Clean(x + [47]) == Clean(x)
  {
    hide Clean, Elements, Normalize;
    NothingPushed();
    assert [46, 47] + x == [46] + [47] + x;
    ElementsConcat([46], x);
    assert AtFront([46], [46]);
    ElementsFront([46], [46]);
    if x == [] || x[0] != 47 {
      NormalizeOne(false, [], [46]);
      NormalizeEmpty(false, []);
      assert Elements([46, 47] + x) == [] + [[46]] + Elements(x) && Elements(x) == [] + Elements(x);
      TakenOut([46, 47] + x, x, [], [[46]], Elements(x));
    }
    if x != [] {
      assert x + [47] == x + [47] + [];
      ElementsConcat(x, []);
      var stack := Normalize(Rooted(x), [], Elements(x));
      NormalizeOne(Rooted(x), stack, []);
      assert Elements(x + [47]) == Elements(x) + [[]] + [] && Elements(x) == Elements(x) + [];
      TakenOut(x + [47], x, Elements(x), [[]], []);
    }
  }

  lemma NormalizeEmpty(rooted: bool, stack: seq<seq<byte>>)
    ensures Normalize(rooted, stack, []) == stack
  {
  }

  /** What is left when no rule applies: names separated by single slashes, after a slash, or after some
      ".."; or "." alone. Every clean path is of this form, and every path of this form is clean. */
  ghost predicate IsNormal(t: seq<byte>) {
    t == [46] || exists rooted: bool, stack, m: nat :: Canonical(rooted, stack, m) && t == Render(rooted, stack) != []
  }

  lemma NormalExactly(t: seq<byte>)
    requires NUL !in t
    ensures IsNormal(t) <==> Clean(t) == t
    ensures IsNormal(Clean(t))
  {
    hide Elements, Normalize, Canonical;
    NormalOfClean(t);
    if t == [46] {
      DotIsClean();
    } else if IsNormal(t) {
      var rooted: bool, stack, m: nat :| Canonical(rooted, stack, m) && t == Render(rooted, stack) != [];
      RenderRoundTrip(rooted, stack, m);
    }
  }

  lemma DotIsClean()
    ensures Clean([46]) == [46]
  {
    hide Elements, Normalize;
    assert AtFront([46], [46]);
    ElementsFront([46], [46]);
    NormalizeOne(false, [], [46]);
  }

  lemma NormalOfClean(t: seq<byte>)
    requires NUL !in t
    ensures IsNormal(Clean(t))
  {
    ElementsPlain(t);
    var m := NormalizeCanonical(Rooted(t), [], 0, Elements(t));
    hide Elements, Normalize, Canonical;
    assert Canonical(Rooted(t), Stack(t), m);
  }
}
