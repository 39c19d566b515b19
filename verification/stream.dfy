/** What the buffered readers of src/bufio read from: an io.Reader with a script of replies, and the
    stream of bytes and errors that the script amounts to, whatever its chunks. */
module Stream {
  import opened Wrappers
  import opened Bits

  datatype Error =
    | EOF | ErrNoProgress | ErrBufferFull | ErrNegativeCount | ErrTooLong | ErrShortWrite
    | OtherError(code: nat)

  /** What one call of Read has to give: some bytes, and possibly an error after them. */
  datatype Reply = Reply(data: seq<byte>, err: Option<Error>)

  datatype Served = Served(data: seq<byte>, err: Option<Error>, plan: seq<Reply>)

  /** A Read into room for cap bytes. A reply that does not fit is given in parts; a script that has
      run out reports EOF again and again. Every reader that keeps the contract of io.Reader behaves
      like some script. */
  function Serve(plan: seq<Reply>, cap: nat): (s: Served)
    ensures |s.data| <= cap
  {
    if plan == [] then Served([], Some(EOF), [])
    else if |plan[0].data| <= cap then Served(plan[0].data, plan[0].err, plan[1..])
    else Served(plan[0].data[..cap], None, [Reply(plan[0].data[cap..], plan[0].err)] + plan[1..])
  }

  class Source {
    var plan: seq<Reply>

    constructor (plan: seq<Reply>)
      ensures this.plan == plan
    {
      this.plan := plan;
    }

    /** Read into p[off..]; what lies beyond the bytes read may be overwritten. */
    method Read(p: array<byte>, off: nat) returns (n: nat, err: Option<Error>)
      requires off <= p.Length
      modifies this, p
      ensures var s := Serve(old(plan), p.Length - off);
              && n == |s.data| && err == s.err && plan == s.plan
              && p[..off] == old(p[..off]) && p[off..off + n] == s.data
    {
      var s := Serve(plan, p.Length - off);
      plan := s.plan;
      n, err := |s.data|, s.err;
      var i := 0;
      while i < n
        invariant i <= n && p[..off] == old(p[..off]) && p[off..off + i] == s.data[..i]
        invariant plan == s.plan
      {
        p[off + i] := s.data[i];
        i := i + 1;
      }
      assert s.data[..n] == s.data;
    }
  }

  // ---- The stream ----

  datatype Item = Byte(b: byte) | Fail(e: Error)

  function Bytes(s: seq<byte>): (items: seq<Item>)
    ensures |items| == |s|
  {
    seq(|s|, i requires 0 <= i < |s| => Byte(s[i]))
  }

  function Fails(e: Option<Error>): seq<Item> { if e.Some? then [Fail(e.value)] else [] }

  function Items(plan: seq<Reply>): seq<Item> {
    if plan == [] then [] else Bytes(plan[0].data) + Fails(plan[0].err) + Items(plan[1..])
  }

  /** The bytes of a stretch of stream, without the errors. */
  function BytesOf(items: seq<Item>): seq<byte> {
    if items == [] then []
    else (if items[0].Byte? then [items[0].b] else []) + BytesOf(items[1..])
  }

  lemma BytesConcat(a: seq<byte>, b: seq<byte>)
    ensures Bytes(a + b) == Bytes(a) + Bytes(b)
  {
  }

  lemma {:induction false} BytesOfConcat(a: seq<Item>, b: seq<Item>)
    ensures BytesOf(a + b) == BytesOf(a) + BytesOf(b)
  {
    if a == [] {
      assert a + b == b;
    } else {
      var first := if a[0].Byte? then [a[0].b] else [];
      calc {
        BytesOf(a + b);
        { assert (a + b)[0] == a[0] && (a + b)[1..] == a[1..] + b; }
        first + BytesOf(a[1..] + b);
        { BytesOfConcat(a[1..], b); }
        first + (BytesOf(a[1..]) + BytesOf(b));
        BytesOf(a) + BytesOf(b);
      }
    }
  }

  lemma {:induction false} BytesOfBytes(s: seq<byte>)
    ensures BytesOf(Bytes(s)) == s
  {
    if s != [] {
      BytesOfBytes(s[1..]);
      assert Bytes(s)[1..] == Bytes(s[1..]);
    }
  }

  lemma NoItems()
    ensures Items([]) == []
  {
  }

  lemma NextItems(plan: seq<Reply>)
    requires plan != []
    ensures Items(plan) == Bytes(plan[0].data) + Fails(plan[0].err) + Items(plan[1..])
  {
  }

  lemma ServeItems(plan: seq<Reply>, cap: nat)
    requires plan != []
    ensures var s := Serve(plan, cap); Items(plan) == Bytes(s.data) + Fails(s.err) + Items(s.plan)
  {
    hide Items, Bytes;
    NextItems(plan);
    if |plan[0].data| > cap {
      var first, rest := plan[0].data[..cap], plan[0].data[cap..];
      var s := Serve(plan, cap);
      assert plan[0].data == first + rest;
      BytesConcat(first, rest);
      NextItems(s.plan);
      assert s.plan[1..] == plan[1..];
    }
  }

  /** An error that is not an item of the stream: giving up on a reader that makes no progress, or
      the end of the stream. */
  ghost predicate Injected(e: Error, items: seq<Item>) {
    e == ErrNoProgress || (e == EOF && items == [])
  }

  /** Reporting error e takes it off the stream, or leaves the stream alone if e is not part of it. */
  ghost predicate Reports(e: Error, before: seq<Item>, after: seq<Item>) {
    before == [Fail(e)] + after || (before == after && Injected(e, before))
  }

  // ---- Limited retries, as in fill ----

  const MAX_CONSECUTIVE_EMPTY_READS: nat := 100

  function FillFrom(plan: seq<Reply>, room: nat, tries: nat): (s: Served)
    ensures |s.data| <= room
    ensures s.data != [] || s.err.Some?
    decreases tries
  {
    if tries == 0 then Served([], Some(ErrNoProgress), plan)
    else
      var s := Serve(plan, room);
      if s.err.Some? || s.data != [] then s else FillFrom(s.plan, room, tries - 1)
  }

  lemma FillStep(plan: seq<Reply>, room: nat, tries: nat)
    ensures FillFrom(plan, room, tries) ==
            if tries == 0 then Served([], Some(ErrNoProgress), plan)
            else
              var s := Serve(plan, room);
              if s.err.Some? || s.data != [] then s else FillFrom(s.plan, room, tries - 1)
  {
  }

  lemma {:induction false} FillItems(plan: seq<Reply>, room: nat, tries: nat)
    ensures var s := FillFrom(plan, room, tries);
            || Items(plan) == Bytes(s.data) + Fails(s.err) + Items(s.plan)
            || (s.data == [] && s.err.Some? && Items(s.plan) == Items(plan) && Injected(s.err.value, Items(plan)))
    decreases tries
  {
    if tries > 0 && plan != [] {
      ServeItems(plan, room);
      var s := Serve(plan, room);
      if s.err.None? && s.data == [] { FillItems(s.plan, room, tries - 1); }
    }
  }

  /** The first tries answers, or all there are, are empty. */
  ghost predicate Idle(plan: seq<Reply>, tries: nat) {
    forall i :: 0 <= i < |plan| && i < tries ==> plan[i] == Reply([], None)
  }

  /** The error that filling from an idle source ends with. */
  function MadeUp(plan: seq<Reply>, tries: nat): Error { if tries <= |plan| then ErrNoProgress else EOF }

  lemma {:induction false} FillIdle(plan: seq<Reply>, room: nat, tries: nat)
    requires room > 0
    ensures var s := FillFrom(plan, room, tries);
            && (Idle(plan, tries) ==>
                  s.data == [] && s.err == Some(MadeUp(plan, tries)) && Items(s.plan) == Items(plan))
            && (!Idle(plan, tries) ==> s.data != [] || |Items(s.plan)| < |Items(plan)|)
    decreases tries
  {
    if tries > 0 && plan != [] {
      ServeItems(plan, room);
      if plan[0] == Reply([], None) {
        FillIdle(plan[1..], room, tries - 1);
        assert Idle(plan, tries) <==> Idle(plan[1..], tries - 1) by {
          assert forall i :: 0 < i < |plan| ==> plan[i] == plan[1..][i - 1];
        }
      }
    }
  }

  function PlanSize(plan: seq<Reply>): nat {
    if plan == [] then 0 else |plan[0].data| + 1 + PlanSize(plan[1..])
  }

  lemma ServeShrinks(plan: seq<Reply>, cap: nat)
    requires plan != [] && cap > 0
    ensures PlanSize(Serve(plan, cap).plan) < PlanSize(plan)
  {
    if |plan[0].data| > cap { assert Serve(plan, cap).plan[1..] == plan[1..]; }
  }

  lemma {:induction false} FillShrinks(plan: seq<Reply>, room: nat, tries: nat)
    requires room > 0
    ensures var s := FillFrom(plan, room, tries); s.err.Some? || PlanSize(s.plan) < PlanSize(plan)
    decreases tries
  {
    if tries > 0 && plan != [] {
      ServeShrinks(plan, room);
      var s := Serve(plan, room);
      if s.err.None? && s.data == [] { FillShrinks(s.plan, room, tries - 1); }
    }
  }

  // ---- Sources that make progress ----

  /** No k empty answers in a row. */
  ghost predicate Prompt(plan: seq<Reply>, k: nat) {
    forall i :: 0 <= i <= |plan| - k ==> Stirs(plan, k, i)
  }

  ghost predicate Stirs(plan: seq<Reply>, k: nat, i: nat)
    requires i + k <= |plan|
  {
    exists j :: i <= j < i + k && (plan[j].data != [] || plan[j].err.Some?)
  }

  lemma PromptTail(plan: seq<Reply>, k: nat)
    requires plan != [] && Prompt(plan, k)
    ensures Prompt(plan[1..], k)
  {
    forall i | 0 <= i <= |plan[1..]| - k ensures Stirs(plan[1..], k, i) {
      assert Stirs(plan, k, i + 1);
      var j :| i + 1 <= j < i + 1 + k && (plan[j].data != [] || plan[j].err.Some?);
      assert plan[1..][j - 1] == plan[j];
    }
  }

  lemma PromptServe(plan: seq<Reply>, k: nat, cap: nat)
    requires Prompt(plan, k)
    ensures Prompt(Serve(plan, cap).plan, k)
  {
    if plan != [] {
      PromptTail(plan, k);
      if |plan[0].data| > cap {
        var plan' := Serve(plan, cap).plan;
        forall i | 0 <= i <= |plan'| - k ensures Stirs(plan', k, i) {
          assert Stirs(plan, k, i);
          var j :| i <= j < i + k && (plan[j].data != [] || plan[j].err.Some?);
          assert if j == 0 then plan'[0].data != [] else plan'[j] == plan[j];
        }
      }
    }
  }

  /** A prompt source is never given up on. */
  lemma {:induction false} PromptFill(plan: seq<Reply>, k: nat, room: nat, tries: nat)
    requires Prompt(plan, k) && room > 0
    requires tries <= |plan| ==> exists j :: 0 <= j < tries && (plan[j].data != [] || plan[j].err.Some?)
    ensures var s := FillFrom(plan, room, tries);
            && Prompt(s.plan, k)
            && (|| Items(plan) == Bytes(s.data) + Fails(s.err) + Items(s.plan)
                || (Items(plan) == [] && s == Served([], Some(EOF), [])))
    decreases tries
  {
    var s := Serve(plan, room);
    PromptServe(plan, k, room);
    if plan != [] {
      ServeItems(plan, room);
      if s.err.None? && s.data == [] {
        assert plan[0].data == [] && plan[0].err.None?;
        assert forall j :: 0 < j < |plan| ==> plan[1..][j - 1] == plan[j];
        PromptFill(plan[1..], k, room, tries - 1);
      }
    }
  }

  /** copy(a, a[src:src+n]) within one array, towards the front. */
  method CopyToFront(a: array<byte>, src: nat, n: nat)
    requires src + n <= a.Length
    modifies a
    ensures a[..] == old(a[src..src + n]) + old(a[n..])
  {
    var i := 0;
    while i < n
      invariant i <= n
      invariant forall k :: 0 <= k < a.Length ==> a[k] == if k < i then old(a[src + k]) else old(a[k])
    {
      a[i] := a[src + i];
      i := i + 1;
    }
  }

  function Concat(parts: seq<seq<byte>>): seq<byte> {
    if parts == [] then [] else Concat(parts[..|parts| - 1]) + parts[|parts| - 1]
  }

  lemma ConcatNext(parts: seq<seq<byte>>, part: seq<byte>)
    ensures Concat(parts + [part]) == Concat(parts) + part
  {
    assert (parts + [part])[..|parts|] == parts;
  }
}
