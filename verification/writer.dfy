/** bufio.Writer (src/bufio/bufio.go): buffered writing that loses and duplicates nothing. */
module Writer {
  import opened Wrappers
  import opened Bits
  import opened Stream

  /** How the sink answers one Write: it takes at most limit bytes and may report an error. */
  datatype Answer = Answer(limit: nat, err: Option<Error>)

  /** An io.Writer with a script of answers; with none left it takes everything. */
  class Sink {
    var received: seq<byte>
    var plan: seq<Answer>

    constructor (plan: seq<Answer>)
      ensures this.plan == plan && received == []
    {
      this.plan := plan;
      received := [];
    }

    method Write(p: seq<byte>) returns (n: nat, err: Option<Error>)
      modifies this
      ensures n <= |p|
      ensures received == old(received) + p[..n]
      ensures old(plan) == [] ==> n == |p| && err.None? && plan == []
      ensures old(plan) != [] ==>
        n == Min(old(plan)[0].limit, |p|) && err == old(plan)[0].err && plan == old(plan)[1..]
    {
      n, err := |p|, None;
      if plan != [] {
        if plan[0].limit < |p| {
          n := plan[0].limit;
        }
        err := plan[0].err;
        plan := plan[1..];
      }
      received := received + p[..n];
    }
  }

  /** Error e comes from the sink: it answered with e, or took less than a buffer of that size without
      saying why. */
  ghost predicate Reported(e: Error, before: seq<Answer>, after: seq<Answer>, size: nat) {
    && |after| < |before|
    && exists a :: a in before && (a.err == Some(e) || (e == ErrShortWrite && a.err.None? && a.limit < size))
  }

  /** No more than answers from the front have been used. */
  ghost predicate Used(before: seq<Answer>, after: seq<Answer>) {
    |after| <= |before| && forall a :: a in after ==> a in before
  }

  lemma NothingUsed(plan: seq<Answer>)
    ensures Used(plan, plan)
  {
  }

  lemma UsedMore(plan: seq<Answer>, before: seq<Answer>, after: seq<Answer>, err: Option<Error>, size: nat)
    requires Used(plan, before) && Used(before, after) && (err.Some? ==> Reported(err.value, before, after, size))
    ensures Used(plan, after) && (err.Some? ==> Reported(err.value, plan, after, size))
  {
  }

  lemma TakeMore(before: seq<byte>, p: seq<byte>, nn: nat, k: nat)
    requires nn + k <= |p|
    ensures (before + p[..nn]) + p[nn..][..k] == before + p[..nn + k] && p[nn..][k..] == p[nn + k..]
  {
    assert p[..nn] + p[nn..][..k] == p[..nn + k];
  }

  lemma NothingBuffered(before: seq<byte>, after: seq<byte>, none: seq<byte>, p: seq<byte>, nn: nat)
    requires none == [] && nn == |p| && after + none == (before + none) + p[..nn]
    ensures after == before + p
  {
    assert after + none == after && before + none == before && p[..nn] == p;
  }

  class BufWriter {
    const buf: array<byte>
    const wr: Sink
    var n: nat
    var err: Option<Error>

    constructor (wr: Sink, size: int)
      ensures this.wr == wr && fresh(buf) && buf.Length == (if size <= 0 then 4096 else size)
      ensures Valid() && n == 0 && err.None? && Sunk() == wr.received
    {
      this.wr := wr;
      buf := new byte[if size <= 0 then 4096 else size](_ => 0);
      n, err := 0, None;
    }

    ghost predicate Valid()
      reads this
    {
      n <= buf.Length && buf.Length > 0
    }

    /** What the sink has received, followed by what is still buffered. */
    ghost function Sunk(): seq<byte>
      reads this, buf, wr
      requires Valid()
    {
      wr.received + buf[..n]
    }

    /** Drop the first m buffered bytes. */
    method Keep(m: nat)
      requires Valid() && m <= n
      modifies this`n, buf
      ensures Valid() && n == old(n) - m && buf[..n] == old(buf[m..n])
    {
      if 0 < m < n {
        CopyToFront(buf, m, n - m);
        assert buf[..n - m] == buf[..][..n - m];
      }
      n := n - m;
    }

    method Flush() returns (e: Option<Error>)
      requires Valid()
      modifies this, buf, wr
      ensures Valid() && Sunk() == old(Sunk()) && e == err && n <= old(n)
      ensures e.None? ==> n == 0 && wr.received == old(Sunk())
      ensures old(err).Some? ==> unchanged(this) && unchanged(wr) && unchanged(buf)
      ensures Used(old(wr.plan), wr.plan)
      ensures old(err).None? && e.Some? ==> Reported(e.value, old(wr.plan), wr.plan, buf.Length)
      ensures old(n) > 0 && old(err).None? ==> |wr.plan| < |old(wr.plan)| || n == 0
      ensures old(n) == 0 ==> e == old(err) && wr.plan == old(wr.plan) && wr.received == old(wr.received)
      ensures old(err).None? && old(n) > 0 && old(wr.plan) != [] ==>
        var a := old(wr.plan)[0];
        && wr.plan == old(wr.plan)[1..] && n == (if e.None? || a.limit > old(n) then 0 else old(n) - a.limit)
        && e == if a.err.None? && a.limit < old(n) then Some(ErrShortWrite) else a.err
    {
      if err.Some? {
        return err;
      }
      if n == 0 {
        return None;
      }
      var m;
      m, e := wr.Write(buf[..n]);
      if m < n && e.None? {
        e := Some(ErrShortWrite);
      }
      assert buf[..n] == buf[..n][..m] + buf[m..n];
      if e.Some? {
        Keep(m);
        err := e;
        return;
      }
      n := 0;
    }

    /** A large write with nothing buffered goes to the sink without a copy. */
    method PassThrough(p: seq<byte>) returns (k: nat)
      requires Valid() && n == 0 && err.None?
      modifies this`err, wr
      ensures Valid() && k <= |p| && Sunk() == old(Sunk()) + p[..k]
      ensures old(wr.plan) == [] ==> k == |p| && wr.plan == [] && err.None?
      ensures old(wr.plan) != [] ==>
        k == Min(old(wr.plan)[0].limit, |p|) && err == old(wr.plan)[0].err && wr.plan == old(wr.plan)[1..]
      ensures Used(old(wr.plan), wr.plan)
      ensures err.Some? ==> Reported(err.value, old(wr.plan), wr.plan, buf.Length)
    {
      k, err := wr.Write(p);
      assert buf[..n] == [] && forall s: seq<byte> :: s + [] == s;
    }

    /** copy(buf[n:], p), as much as fits. */
    method Append(p: seq<byte>) returns (k: nat)
      requires Valid()
      modifies this`n, buf
      ensures Valid() && k == (if |p| < buf.Length - old(n) then |p| else buf.Length - old(n))
      ensures n == old(n) + k && Sunk() == old(Sunk()) + p[..k]
    {
      k := if |p| < buf.Length - n then |p| else buf.Length - n;
      forall i | 0 <= i < k {
        buf[n + i] := p[i];
      }
      assert buf[..n + k] == old(buf[..n]) + p[..k];
      n := n + k;
    }

    /** One round of Write's loop: past the buffer, or into it and then the full buffer to the sink. */
    method Round(rest: seq<byte>, direct: bool) returns (k: nat)
      requires Valid() && err.None? && |rest| > buf.Length - n
      modifies this, buf, wr
      ensures Valid() && k <= |rest| && Sunk() == old(Sunk()) + rest[..k]
      ensures direct && old(n) == 0 && old(wr.plan) == [] ==> k == |rest| && n == 0 && err.None? && wr.plan == []
      ensures Used(old(wr.plan), wr.plan) && (err.Some? ==> Reported(err.value, old(wr.plan), wr.plan, buf.Length))
      ensures |wr.plan| <= |old(wr.plan)| && (k > 0 || |wr.plan| < |old(wr.plan)| || n < old(n))
      ensures !(direct && old(n) == 0) ==> k == buf.Length - old(n)
    {
      hide Reported;
      if direct && n == 0 {
        k := PassThrough(rest);
      } else {
        k := Append(rest);
        var _ := Flush();
      }
    }

    /** Write and WriteString: nn bytes of p are accepted, all of them unless an error is reported;
        with an error set before, none. Write passes a large p to the sink directly when nothing is
        buffered, WriteString never does. */
    method Write(p: seq<byte>, direct: bool) returns (nn: nat, e: Option<Error>)
      requires Valid()
      modifies this, buf, wr
      ensures Valid() && nn <= |p| && Sunk() == old(Sunk()) + p[..nn]
      ensures e == err && (e.None? ==> nn == |p|)
      ensures old(err).Some? ==> nn == 0 && unchanged(this) && unchanged(wr) && unchanged(buf)
      ensures old(err).None? && e.Some? ==> Reported(e.value, old(wr.plan), wr.plan, buf.Length)
      ensures old(err).None? && |p| <= old(buf.Length - n) ==> e == None && wr.received == old(wr.received)
      ensures direct && old(n == 0 && err.None? && wr.plan == []) && |p| > buf.Length ==>
        e == None && n == 0 && wr.received == old(wr.received) + p
    {
      hide Reported, Used;
      ghost var sunk, plan := Sunk(), wr.plan;
      ghost var through := direct && n == 0 && err.None? && wr.plan == [] && |p| > buf.Length;
      NothingUsed(plan);
      nn := 0;
      var rest := p;
      while |rest| > buf.Length - n && err.None?
        invariant Valid() && nn <= |p| && rest == p[nn..] && Sunk() == sunk + p[..nn]
        invariant old(err).Some? ==> nn == 0 && unchanged(this) && unchanged(wr) && unchanged(buf)
        invariant old(err).None? && |p| <= old(buf.Length - n) ==>
          nn == 0 && n == old(n) && err.None? && wr.received == old(wr.received)
        invariant through ==> n == 0 && err.None? && wr.plan == [] && (nn == 0 || rest == [])
        invariant Used(plan, wr.plan)
        invariant old(err).None? && err.Some? ==> Reported(err.value, plan, wr.plan, buf.Length)
        decreases |rest|, |wr.plan|, n
      {
        ghost var before := wr.plan;
        var k := Round(rest, direct);
        UsedMore(plan, before, wr.plan, err, buf.Length);
        TakeMore(sunk, p, nn, k);
        nn := nn + k;
        rest := rest[k..];
      }
      if err.Some? {
        return nn, err;
      }
      var k := Append(rest);
      TakeMore(sunk, p, nn, k);
      nn := nn + k;
      e := None;
      if through {
        assert buf[..n] == [] == old(buf[..n]);
        NothingBuffered(old(wr.received), wr.received, [], p, nn);
      }
    }

    method WriteByte(c: byte) returns (e: Option<Error>)
      requires Valid()
      modifies this, buf, wr
      ensures Valid() && Sunk() == old(Sunk()) + if e.None? then [c] else []
      ensures e == err
      ensures old(err).Some? ==> unchanged(this) && unchanged(wr) && unchanged(buf)
      ensures old(err).None? && e.Some? ==> Reported(e.value, old(wr.plan), wr.plan, buf.Length)
      ensures old(err).None? && old(n) < buf.Length ==> e == None && wr.received == old(wr.received)
    {
      if err.Some? {
        return err;
      }
      if buf.Length - n <= 0 {
        e := Flush();
        if e.Some? {
          return err;
        }
      }
      buf[n] := c;
      assert buf[..n + 1] == buf[..n] + [c];
      n := n + 1;
      e := None;
    }
  }

  /** What a caller sees of a writer between calls. */
  datatype Moment = Moment(sunk: seq<byte>, err: Option<Error>)

  /** What every method does: it adds what it accepts, and nothing once an error is set. */
  ghost predicate Call(m: Moment, accepted: seq<byte>, m': Moment) {
    m'.sunk == m.sunk + accepted && (m.err.Some? ==> accepted == [] && m'.err == m.err)
  }

  /** Any mix of calls: sink and buffer together always hold the accepted bytes in order, and the
      first error ends it: from then on they hold what they held. */
  lemma {:induction false} AcceptedInOrder(moments: seq<Moment>, accepted: seq<seq<byte>>, i: nat)
    requires |moments| == |accepted| + 1 && i <= |accepted|
    requires forall k :: 0 <= k < |accepted| ==> Call(moments[k], accepted[k], moments[k + 1])
    ensures moments[|accepted|].sunk == moments[0].sunk + Concat(accepted)
    ensures moments[i].err.Some? ==> moments[|accepted|] == moments[i]
  {
    var n := |accepted|;
    if n > 0 {
      AcceptedInOrder(moments[..n], accepted[..n - 1], if i < n then i else n - 1);
      assert Call(moments[n - 1], accepted[n - 1], moments[n - 1 + 1]);
    }
  }

  // ---- Any mix of calls, on the writer itself ----

  datatype Op = OpWrite(p: seq<byte>) | OpWriteString(p: seq<byte>) | OpWriteByte(c: byte) | OpFlush {
    /** The bytes the caller asks to be written. */
    function Asked(): seq<byte> {
      match this
      case OpWrite(p) => p
      case OpWriteString(p) => p
      case OpWriteByte(c) => [c]
      case OpFlush => []
    }
  }

  ghost function MomentOf(b: BufWriter): Moment
    requires b.Valid()
    reads b, b.buf, b.wr
  {
    Moment(b.Sunk(), b.err)
  }

  /** One call: a front part of what is asked is accepted, all of it unless an error is set; a flush
      that reports none leaves the sink with everything. */
  method Do(b: BufWriter, op: Op) returns (accepted: seq<byte>)
    requires b.Valid()
    modifies b, b.buf, b.wr
    ensures b.Valid() && Call(old(MomentOf(b)), accepted, MomentOf(b))
    ensures accepted <= op.Asked() && (b.err.None? ==> accepted == op.Asked())
    ensures op.OpFlush? && b.err.None? ==> b.wr.received == b.Sunk()
  {
    match op {
      case OpWrite(p) =>
        var n, _ := b.Write(p, true);
        accepted := p[..n];
      case OpWriteString(p) =>
        var n, _ := b.Write(p, false);
        accepted := p[..n];
      case OpWriteByte(c) =>
        var e := b.WriteByte(c);
        accepted := if e.None? then [c] else [];
      case OpFlush =>
        var e := b.Flush();
        accepted := [];
    }
  }

  /** Any list of calls: sink and buffer hold what they held before and then the accepted bytes in
      order; nothing is lost before the first error, and nothing changes after it. */
  method Run(b: BufWriter, ops: seq<Op>) returns (accepted: seq<seq<byte>>, ghost moments: seq<Moment>)
    requires b.Valid()
    modifies b, b.buf, b.wr
    ensures b.Valid() && |accepted| == |ops| == |moments| - 1
    ensures b.Sunk() == old(b.Sunk()) + Concat(accepted)
    ensures moments[0] == old(MomentOf(b)) && moments[|ops|] == MomentOf(b)
    ensures forall k :: 0 <= k < |ops| ==> Call(moments[k], accepted[k], moments[k + 1])
    ensures forall k :: 0 <= k < |ops| ==>
      accepted[k] <= ops[k].Asked() && (moments[k + 1].err.None? ==> accepted[k] == ops[k].Asked())
    ensures forall k :: 0 <= k <= |ops| && moments[k].err.Some? ==> MomentOf(b) == moments[k]
    ensures ops != [] && ops[|ops| - 1].OpFlush? && b.err.None? ==>
      b.wr.received == old(b.Sunk()) + Concat(accepted)
  {
    hide Call;
    accepted, moments := [], [MomentOf(b)];
    var i := 0;
    while i < |ops|
      invariant b.Valid() && i <= |ops| && |accepted| == i && |moments| == i + 1
      invariant moments[0] == old(MomentOf(b)) && moments[i] == MomentOf(b)
      invariant forall k :: 0 <= k < i ==> Call(moments[k], accepted[k], moments[k + 1])
      invariant forall k :: 0 <= k < i ==>
        accepted[k] <= ops[k].Asked() && (moments[k + 1].err.None? ==> accepted[k] == ops[k].Asked())
      invariant i > 0 && ops[i - 1].OpFlush? && b.err.None? ==> b.wr.received == b.Sunk()
    {
      var taken := Do(b, ops[i]);
      accepted, moments := accepted + [taken], moments + [MomentOf(b)];
      i := i + 1;
    }
    forall k | 0 <= k <= |ops|
      ensures moments[|ops|].sunk == moments[0].sunk + Concat(accepted)
      ensures moments[k].err.Some? ==> moments[|ops|] == moments[k]
    {
      AcceptedInOrder(moments, accepted, k);
    }
  }
}
