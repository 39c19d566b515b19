/** bufio.Reader (src/bufio/bufio.go): buffered reading that agrees with the plain stream. */
module Reader {
  import opened Wrappers
  import opened Bits
  import ByteSlices
  import opened Stream

  /** What the reader's behaviour depends on: buf[r:w], the pending error, and the source. */
  datatype View = View(buffered: seq<byte>, err: Option<Error>, plan: seq<Reply>)

  /** The stream still to be handed out. */
  function Pending(v: View): seq<Item> {
    Bytes(v.buffered) + Fails(v.err) + Items(v.plan)
  }

  /** fill, with a buffer of the given size. */
  function FillView(v: View, size: nat): (v': View)
    requires |v.buffered| <= size
    ensures |v'.buffered| <= size
  {
    var s := FillFrom(v.plan, size - |v.buffered|, MAX_CONSECUTIVE_EMPTY_READS);
    View(v.buffered + s.data, if s.err.Some? then s.err else v.err, s.plan)
  }

  lemma FillViewIs(v: View, size: nat, tries: nat)
    requires |v.buffered| <= size && tries == MAX_CONSECUTIVE_EMPTY_READS
    ensures var s := FillFrom(v.plan, size - |v.buffered|, tries);
            FillView(v, size) == View(v.buffered + s.data, if s.err.Some? then s.err else v.err, s.plan)
  {
    hide FillFrom;
  }

  /** Filling with no error pending keeps the stream, or finds an error that is not part of it. */
  lemma FillKeepsStream(v: View, size: nat)
    requires v.err.None? && |v.buffered| <= size
    ensures var v' := FillView(v, size);
            || Pending(v') == Pending(v)
            || (v'.buffered == v.buffered && v'.err.Some? && Items(v'.plan) == Items(v.plan)
                && Injected(v'.err.value, Items(v.plan)))
  {
    hide FillFrom, Items, Bytes, Injected;
    var s := FillFrom(v.plan, size - |v.buffered|, MAX_CONSECUTIVE_EMPTY_READS);
    FillItems(v.plan, size - |v.buffered|, MAX_CONSECUTIVE_EMPTY_READS);
    if Items(v.plan) == Bytes(s.data) + Fails(s.err) + Items(s.plan) {
      BytesConcat(v.buffered, s.data);
      Regroup(Bytes(v.buffered), Bytes(s.data), Fails(s.err), Items(s.plan));
    } else {
      assert v.buffered + s.data == v.buffered;
    }
  }

  lemma Regroup(a: seq<Item>, b: seq<Item>, c: seq<Item>, d: seq<Item>)
    ensures (a + b) + c + d == a + [] + (b + c + d)
  {
  }

  /** A source that never gives 100 empty answers in a row nor reports giving up itself: with it,
      nobody is told that there was no progress. */
  ghost predicate Patient(v: View) {
    Prompt(v.plan, 100) && Fail(ErrNoProgress) !in Pending(v)
  }

  lemma FillPatient(v: View, size: nat)
    requires Patient(v) && |v.buffered| < size
    ensures Patient(FillView(v, size))
  {
    hide FillFrom, Bytes;
    var tries, room, e := MAX_CONSECUTIVE_EMPTY_READS, size - |v.buffered|, Fail(ErrNoProgress);
    var s := FillFrom(v.plan, room, tries);
    if tries <= |v.plan| { assert Stirs(v.plan, tries, 0); }
    PromptFill(v.plan, tries, room, tries);
    NoFailInBytes(v.buffered + s.data, ErrNoProgress);
    assert e !in Fails(s.err) && e !in Items(s.plan) by {
      assert e !in Items(v.plan);
      if Items(v.plan) == Bytes(s.data) + Fails(s.err) + Items(s.plan) {
        assert e !in Bytes(s.data) + Fails(s.err) + Items(s.plan);
      }
    }
    FillViewIs(v, size, tries);
  }

  /** After 100 empty answers a fill gives up. */
  lemma FillGivesUp(v: View, size: nat)
    requires |v.plan| >= 100 && Idle(v.plan, 100) && |v.buffered| < size
    ensures FillView(v, size).err == Some(ErrNoProgress) && FillView(v, size).buffered == v.buffered
  {
    hide FillFrom;
    FillIdle(v.plan, size - |v.buffered|, MAX_CONSECUTIVE_EMPTY_READS);
  }

  lemma NoFailInBytes(b: seq<byte>, e: Error)
    ensures Fail(e) !in Bytes(b)
  {
  }

  lemma AdvancePatient(v: View, n: nat)
    requires Patient(v) && n <= |v.buffered|
    ensures Patient(v.(buffered := v.buffered[n..]))
  {
    hide Items, Bytes;
    NoFailInBytes(v.buffered[n..], ErrNoProgress);
  }

  lemma ErrPatient(v: View)
    requires Patient(v)
    ensures v.err != Some(ErrNoProgress) && Patient(v.(err := None))
  {
    hide Items, Bytes;
    assert v.err.Some? ==> Fail(v.err.value) in Fails(v.err);
  }

  lemma ServePatient(v: View, cap: nat)
    requires Patient(v) && v.buffered == []
    ensures var s := Serve(v.plan, cap); Patient(View([], s.err, s.plan))
  {
    hide Bytes;
    PromptServe(v.plan, MAX_CONSECUTIVE_EMPTY_READS, cap);
    if v.plan != [] { ServeItems(v.plan, cap); }
    NoFailInBytes([], ErrNoProgress);
  }

  /** The call handed out the bytes out and reported e: both come off the front of the stream. */
  ghost predicate Took(before: seq<Item>, out: seq<byte>, e: Option<Error>, after: seq<Item>) {
    && |out| <= |before| && before[..|out|] == Bytes(out)
    && if e.Some? then Reports(e.value, before[|out|..], after) else before[|out|..] == after
  }

  /** v has stream p after filling, unless an error that is not part of it
      ended the filling. */
  ghost predicate Filled(p: seq<Item>, v: View) {
    || Pending(v) == p
    || (v.err.Some? && Injected(v.err.value, Items(v.plan)) && p == Bytes(v.buffered) + Items(v.plan))
  }

  lemma FilledNow(v: View)
    ensures Filled(Pending(v), v)
  {
  }

  lemma NoError(v: View)
    requires v.err.None?
    ensures Pending(v) == Bytes(v.buffered) + Items(v.plan)
  {
    assert Bytes(v.buffered) + [] == Bytes(v.buffered);
  }

  /** A fill gets somewhere, or finds an error and leaves the buffered bytes as they are. */
  lemma FillAgain(p: seq<Item>, v: View, size: nat)
    requires Filled(p, v) && v.err.None? && |v.buffered| < size
    ensures var v' := FillView(v, size);
            && Filled(p, v') && (Pending(v') == p || v'.buffered == v.buffered)
            && (v'.err.Some? || (PlanSize(v'.plan) < PlanSize(v.plan) && |v.buffered| < |v'.buffered|))
  {
    hide Pending, FillView, Items, Bytes, PlanSize;
    FillKeepsStream(v, size);
    FillGetsOn(v, size);
    NoError(v);
  }

  lemma FillGetsOn(v: View, size: nat)
    requires v.err.None? && |v.buffered| < size
    ensures var v' := FillView(v, size);
            v'.err.Some? || (PlanSize(v'.plan) < PlanSize(v.plan) && |v.buffered| < |v'.buffered|)
  {
    hide FillFrom, PlanSize;
    FillShrinks(v.plan, size - |v.buffered|, MAX_CONSECUTIVE_EMPTY_READS);
  }

  lemma TakeFront(v: View, n: nat)
    requires n <= |v.buffered|
    ensures Pending(v)[..n] == Bytes(v.buffered[..n]) && n <= |Pending(v)|
    ensures Pending(v)[n..] == Pending(v.(buffered := v.buffered[n..]))
  {
    BytesConcat(v.buffered[..n], v.buffered[n..]);
    assert v.buffered == v.buffered[..n] + v.buffered[n..];
    assert Pending(v) == Bytes(v.buffered[..n]) + Pending(v.(buffered := v.buffered[n..]));
  }

  /** Handing out a front part of the buffer. */
  lemma TakeBuffered(p: seq<Item>, v: View, n: nat)
    requires p == Pending(v) && n <= |v.buffered|
    ensures Took(p, v.buffered[..n], None, Pending(v.(buffered := v.buffered[n..])))
  {
    TakeFront(v, n);
  }

  /** Handing out the whole buffer and then the pending error. */
  lemma TakeError(p: seq<Item>, v: View)
    requires Filled(p, v) && v.err.Some?
    ensures Took(p, v.buffered, v.err, Pending(View([], None, v.plan)))
  {
    hide Items, Bytes;
    var after := Pending(View([], None, v.plan));
    NoError(View([], None, v.plan));
    assert Bytes([]) + Items(v.plan) == Items(v.plan) by { NoBytes(); }
    var b := Bytes(v.buffered);
    if Pending(v) == p {
      assert Pending(v) == b + (Fails(v.err) + Items(v.plan));
      assert p[|b|..] == Fails(v.err) + after;
    } else {
      assert p[|b|..] == after;
    }
    assert p[..|b|] == b;
  }

  lemma NoBytes()
    ensures Bytes([]) == []
  {
  }

  lemma TookJoin(p: seq<Item>, x: seq<byte>, q: seq<Item>, y: seq<byte>, e: Option<Error>, after: seq<Item>)
    requires Took(p, x, None, q) && Took(q, y, e, after)
    ensures Took(p, x + y, e, after)
  {
    BytesConcat(x, y);
    assert p[|x|..] == q && p[|x + y|..] == q[|y|..];
    assert p[..|x + y|] == p[..|x|] + q[..|y|];
  }

  lemma TookShrinks(p: seq<Item>, x: seq<byte>, e: Option<Error>, after: seq<Item>)
    requires Took(p, x, e, after)
    ensures |after| + |x| <= |p| && forall i :: i in after ==> i in p
  {
    assert p[|x|..] == after || p[|x|..][1..] == after;
  }

  /** The line that a stream starts with: through the first delim, or up to the first error. */
  ghost predicate IsLine(p: seq<Item>, delim: byte, line: seq<byte>, e: Option<Error>, after: seq<Item>) {
    && Took(p, line, e, after)
    && (e.None? ==> line != [] && line[|line| - 1] == delim && delim !in line[..|line| - 1])
    && (e.Some? ==> delim !in line)
  }

  /** The result is fixed by the stream alone, however it is chunked, if no read gives up. */
  lemma LineIsUnique(p: seq<Item>, delim: byte, line: seq<byte>, e: Option<Error>, after: seq<Item>,
                     line': seq<byte>, e': Option<Error>, after': seq<Item>)
    requires IsLine(p, delim, line, e, after) && IsLine(p, delim, line', e', after')
    requires e != Some(ErrNoProgress) && e' != Some(ErrNoProgress)
    ensures line == line' && e == e' && after == after'
  {
    if |line'| < |line| {
      ShorterLine(p, delim, line', e', after', line, e, after);
    } else if |line| < |line'| {
      ShorterLine(p, delim, line, e, after, line', e', after');
    } else {
      SameBytes(p, line, line', |line|);
      assert line == line[..|line|] && line' == line'[..|line|];
      var rest := p[|line|..];
      assert e.None? ==> line[|line| - 1] in line;
      assert e.Some? && rest != [] ==> rest[0] == Fail(e.value) && after == rest[1..];
      assert e'.Some? && rest != [] ==> rest[0] == Fail(e'.value) && after' == rest[1..];
    }
  }

  lemma SameBytes(p: seq<Item>, line: seq<byte>, line': seq<byte>, k: nat)
    requires k <= |line| <= |p| && k <= |line'| <= |p| && p[..|line|] == Bytes(line) && p[..|line'|] == Bytes(line')
    ensures line[..k] == line'[..k]
  {
    forall i | 0 <= i < k ensures line[i] == line'[i] {
      assert p[..|line|][i] == Bytes(line)[i] && p[..|line'|][i] == Bytes(line')[i];
    }
  }

  lemma ShorterLine(p: seq<Item>, delim: byte, line: seq<byte>, e: Option<Error>, after: seq<Item>,
                    line': seq<byte>, e': Option<Error>, after': seq<Item>)
    requires IsLine(p, delim, line, e, after) && Took(p, line', e', after') && |line| < |line'|
    requires delim !in line' || delim !in line'[..|line'| - 1]
    ensures e == Some(ErrNoProgress)
  {
    var k := |line|;
    SameBytes(p, line, line', k);
    assert forall i :: 0 <= i < k ==> line[..k][i] == line'[..k][i] && line'[i] == line'[..|line'| - 1][i];
    assert p[k..][0] == p[..|line'|][k] == Bytes(line')[k];
  }

  lemma BufferFront(a: array<byte>, r: nat, w: nat, n: nat)
    requires r + n <= w <= a.Length
    ensures a[r..w][..n] == a[r..r + n]
  {
    SliceFront(a[..], r, w, n);
    assert a[r..w] == a[..][r..w] && a[r..r + n] == a[..][r..r + n];
  }

  /** What Peek promises: a full answer leaves the stream alone, a short one takes the error off it. */
  ghost predicate Peeked(before: seq<Item>, n: int, bytes: seq<byte>, e: Option<Error>, after: seq<Item>) {
    && |bytes| <= |before| && |bytes| <= |after| && before[..|bytes|] == after[..|bytes|] == Bytes(bytes)
    && (e.None? ==> |bytes| == n && after == before)
    && (e.Some? ==> |bytes| < n && Reports(e.value, before[|bytes|..], after[|bytes|..]))
  }

  lemma PeekError(p: seq<Item>, v: View, n: int)
    requires Filled(p, v) && |v.buffered| < n
    requires v.err.Some?
    ensures Peeked(p, n, v.buffered, v.err, Pending(v.(err := None)))
  {
    hide Items, Bytes;
    TakeError(p, v);
    NoError(v.(err := None));
    NoError(View([], None, v.plan));
    NoBytes();
    assert Bytes([]) + Items(v.plan) == Items(v.plan);
    assert Pending(v.(err := None))[|v.buffered|..] == Items(v.plan);
    assert Pending(v.(err := None))[..|v.buffered|] == Bytes(v.buffered);
  }

  lemma NoErrorFilled(p: seq<Item>, v: View)
    requires Filled(p, v) && v.err.None?
    ensures Pending(v) == p
  {
  }

  lemma NotFull(p: seq<Item>, line: seq<byte>, e: Option<Error>, after: seq<Item>)
    requires Took(p, line, e, after) && Fail(ErrBufferFull) !in p
    ensures e != Some(ErrBufferFull)
  {
    if e.Some? && p[|line|..] != [] { assert p[|line|..][0] in p; }
  }

  lemma TookNothing(p: seq<Item>)
    ensures Took(p, [], None, p)
  {
    assert p[0..] == p;
  }

  /** ReadSlice's three ways out. */
  lemma FoundDelim(p: seq<Item>, v: View, i: nat, delim: byte)
    requires p == Pending(v) && Fail(ErrBufferFull) !in p
    requires i < |v.buffered| && v.buffered[i] == delim && delim !in v.buffered[..i]
    ensures var after := Pending(v.(buffered := v.buffered[i + 1..]));
            IsLine(p, delim, v.buffered[..i + 1], None, after) && Fail(ErrBufferFull) !in after
  {
    hide Pending, Took;
    TakeBuffered(p, v, i + 1);
    TookShrinks(p, v.buffered[..i + 1], None, Pending(v.(buffered := v.buffered[i + 1..])));
    assert v.buffered[..i + 1][..i] == v.buffered[..i];
  }

  lemma FoundError(p: seq<Item>, v: View, delim: byte)
    requires Filled(p, v) && v.err.Some? && delim !in v.buffered && Fail(ErrBufferFull) !in p
    ensures var after := Pending(View([], None, v.plan));
            IsLine(p, delim, v.buffered, v.err, after) && Fail(ErrBufferFull) !in after && v.err != Some(ErrBufferFull)
  {
    hide Pending, Took, Filled;
    var after := Pending(View([], None, v.plan));
    TakeError(p, v);
    TookShrinks(p, v.buffered, v.err, after);
    NotFull(p, v.buffered, v.err, after);
  }

  lemma FoundNothing(p: seq<Item>, v: View)
    requires Filled(p, v) && v.err.None? && Fail(ErrBufferFull) !in p
    ensures var after := Pending(v.(buffered := []));
            Took(p, v.buffered, None, after) && Fail(ErrBufferFull) !in after
  {
    hide Pending, Took, Filled;
    var n := |v.buffered|;
    NoErrorFilled(p, v);
    TakeBuffered(p, v, n);
    assert v.buffered[..n] == v.buffered && v.buffered[n..] == [];
    TookShrinks(p, v.buffered, None, Pending(v.(buffered := [])));
  }

  /** Copy the full pieces and the fragment into one buffer. */
  method CopyPieces(full: seq<seq<byte>>, frag: seq<byte>) returns (line: seq<byte>)
    ensures line == Concat(full) + frag
  {
    line := [];
    var i := 0;
    while i < |full|
      invariant i <= |full| && line == Concat(full[..i])
    {
      ConcatNext(full[..i], full[i]);
      assert full[..i + 1] == full[..i] + [full[i]];
      line := line + full[i];
      i := i + 1;
    }
    assert full[..|full|] == full;
    line := line + frag;
  }

  /** Full buffers without delim do not change where the line ends. */
  lemma LineAfterFull(full: seq<byte>, frag: seq<byte>, delim: byte, e: Option<Error>)
    requires delim !in full
    requires e.None? ==> frag != [] && frag[|frag| - 1] == delim && delim !in frag[..|frag| - 1]
    requires e.Some? ==> delim !in frag
    ensures var line := full + frag;
            && (e.None? ==> line != [] && line[|line| - 1] == delim && delim !in line[..|line| - 1])
            && (e.Some? ==> delim !in line)
  {
    if e.None? { assert (full + frag)[..|full + frag| - 1] == full + frag[..|frag| - 1]; }
  }

  class BufReader {
    const buf: array<byte>
    const rd: Source
    var r: nat
    var w: nat
    var err: Option<Error>

    constructor (rd: Source, size: nat)
      ensures this.rd == rd && fresh(buf) && buf.Length == (if size < 16 then 16 else size)
      ensures Valid() && ViewOf() == View([], None, rd.plan)
    {
      this.rd := rd;
      buf := new byte[if size < 16 then 16 else size](_ => 0);
      r, w, err := 0, 0, None;
    }

    ghost predicate Valid()
      reads this
    {
      r <= w <= buf.Length && buf.Length > 0
    }

    ghost function ViewOf(): View
      reads this, buf, rd
      requires Valid()
    {
      View(buf[r..w], err, rd.plan)
    }

    /** Slide existing data to the beginning. */
    method Slide()
      requires Valid()
      modifies this`r, this`w, buf
      ensures Valid() && r == 0 && buf[..w] == old(buf[r..w])
    {
      if r > 0 {
        CopyToFront(buf, r, w - r);
        assert buf[..w - r] == buf[..][..w - r];
        w, r := w - r, 0;
      }
    }

    /** One Read into the free end of the buffer. */
    method ReadChunk() returns (n: nat, e: Option<Error>)
      requires Valid()
      modifies this`w, buf, rd
      ensures Valid() && w == old(w) + n
      ensures var s := Serve(old(rd.plan), buf.Length - old(w));
              n == |s.data| && e == s.err && rd.plan == s.plan && buf[..w] == old(buf[..w]) + s.data
    {
      hide Serve;
      n, e := rd.Read(buf, w);
      assert buf[..w + n] == buf[..w] + buf[w..w + n];
      w := w + n;
    }

    /** Read a new chunk into the buffer: try a limited number of times. */
    method Fill()
      requires Valid() && w - r < buf.Length
      modifies this, buf, rd
      ensures Valid() && ViewOf() == FillView(old(ViewOf()), buf.Length)
      ensures old(Patient(ViewOf())) ==> Patient(ViewOf())
    {
      hide Serve, FillFrom, FillView, Patient, MAX_CONSECUTIVE_EMPTY_READS;
      if Patient(ViewOf()) { FillPatient(ViewOf(), buf.Length); }
      Slide();
      var tries := MAX_CONSECUTIVE_EMPTY_READS;
      ghost var held, room := buf[..w], buf.Length - w;
      ghost var s := FillFrom(rd.plan, room, tries);
      FillViewIs(old(ViewOf()), buf.Length, tries);
      while tries > 0
        invariant 0 <= tries && r == 0 && w == |held| && w + room == buf.Length && buf[..w] == held && err == old(err)
        invariant s == FillFrom(rd.plan, room, tries)
      {
        FillStep(rd.plan, room, tries);
        var n, e := ReadChunk();
        if e.Some? {
          err := e;
          return;
        }
        if n > 0 {
          return;
        }
        tries := tries - 1;
      }
      FillStep(rd.plan, room, 0);
      err := Some(ErrNoProgress);
    }

    /** Move past n buffered bytes. */
    method Advance(n: nat)
      requires Valid() && n <= w - r
      modifies this`r
      ensures Valid() && r == old(r) + n && ViewOf() == old(ViewOf()).(buffered := old(ViewOf()).buffered[n..])
      ensures old(Patient(ViewOf())) ==> Patient(ViewOf())
    {
      hide Patient;
      if Patient(ViewOf()) { AdvancePatient(ViewOf(), n); }
      assert buf[r + n..w] == buf[r..w][n..];
      r := r + n;
    }

    /** Hand out n buffered bytes. */
    method Take(n: nat) returns (bytes: seq<byte>)
      requires Valid() && n <= w - r
      modifies this`r
      ensures Valid() && r == old(r) + n && bytes == old(ViewOf()).buffered[..n]
      ensures ViewOf() == old(ViewOf()).(buffered := old(ViewOf()).buffered[n..])
      ensures old(Patient(ViewOf())) ==> Patient(ViewOf())
    {
      hide Patient;
      bytes := buf[r..r + n];
      BufferFront(buf, r, w, n);
      Advance(n);
    }

    method TakeAll() returns (bytes: seq<byte>)
      requires Valid()
      modifies this`r
      ensures Valid() && r == w && bytes == old(ViewOf()).buffered && ViewOf() == old(ViewOf()).(buffered := [])
      ensures old(Patient(ViewOf())) ==> Patient(ViewOf())
    {
      bytes := Take(w - r);
    }

    method ReadErr() returns (e: Option<Error>)
      requires Valid()
      modifies this`err
      ensures Valid() && e == old(err) && err.None? && ViewOf() == old(ViewOf()).(err := None)
      ensures old(Patient(ViewOf())) ==> Patient(ViewOf()) && e != Some(ErrNoProgress)
    {
      hide Patient;
      if Patient(ViewOf()) { ErrPatient(ViewOf()); }
      e := err;
      err := None;
    }

    method ReadByte() returns (c: byte, e: Option<Error>)
      requires Valid()
      modifies this, buf, rd
      ensures Valid()
      ensures Took(old(Pending(ViewOf())), if e.None? then [c] else [], e, Pending(ViewOf()))
      ensures old(r < w) ==> e == None && c == old(ViewOf()).buffered[0] &&
                             ViewOf() == old(ViewOf()).(buffered := old(ViewOf()).buffered[1..])
      ensures old(Patient(ViewOf())) ==> Patient(ViewOf()) && e != Some(ErrNoProgress)
      ensures old(r == w && err.None?) ==>
        var v := FillView(old(ViewOf()), buf.Length);
        if v.buffered == [] then e == v.err && ViewOf() == v.(err := None)
        else e == None && c == v.buffered[0] && ViewOf() == v.(buffered := v.buffered[1..])
    {
      hide Took, Filled, Pending, FillView, Patient;
      ghost var v0, p0, patient := ViewOf(), Pending(ViewOf()), Patient(ViewOf());
      FilledNow(ViewOf());
      c := 0;
      while r == w
        invariant Valid() && Filled(p0, ViewOf()) && (r == w || Pending(ViewOf()) == p0)
        invariant patient ==> Patient(ViewOf())
        invariant v0.buffered != [] ==> ViewOf() == v0 && r < w
        invariant v0.err.None? && v0.buffered == [] ==>
          ViewOf() == v0 || (ViewOf() == FillView(v0, buf.Length) && (err.Some? || r < w))
        decreases if err.None? then 1 else 0, PlanSize(rd.plan)
      {
        if err.Some? {
          TakeError(p0, ViewOf());
          e := ReadErr();
          assert ViewOf().buffered == [];
          return;
        }
        FillAgain(p0, ViewOf(), buf.Length);
        Fill();
      }
      TakeBuffered(p0, ViewOf(), 1);
      c := buf[r];
      assert [c] == ViewOf().buffered[..1];
      Advance(1);
      e := None;
    }

    method CopyOut(p: array<byte>, n: nat)
      requires Valid() && p != buf && n <= p.Length && n <= w - r
      modifies p
      ensures p[..n] == ViewOf().buffered[..n]
    {
      forall i | 0 <= i < n {
        p[i] := buf[r + i];
      }
    }

    /** Read into the whole of p. An error already pending comes back before the buffered bytes if
        p is empty; otherwise bytes and errors keep their order. */
    method Read(p: array<byte>) returns (n: nat, e: Option<Error>)
      requires Valid() && p != buf
      modifies this, buf, rd, p
      ensures Valid() && n <= p.Length
      ensures !(p.Length == 0 && old(r < w && err.Some?)) ==> Took(old(Pending(ViewOf())), p[..n], e, Pending(ViewOf()))
      ensures p.Length == 0 && old(r < w && err.Some?) ==>
        n == 0 && e == old(err) && ViewOf() == old(ViewOf()).(err := None)
      ensures p.Length > 0 && old(r < w) ==>
        && n == Min(p.Length, old(w - r)) && e == None
        && ViewOf() == old(ViewOf()).(buffered := old(ViewOf()).buffered[n..])
      ensures p.Length > 0 && old(r == w && err.Some?) ==>
        n == 0 && e == old(err) && ViewOf() == old(ViewOf()).(err := None)
      ensures p.Length >= buf.Length && old(r == w && err.None?) ==>
        var s := Serve(old(rd.plan), p.Length); p[..n] == s.data && e == s.err && ViewOf() == View([], None, s.plan)
      ensures 0 < p.Length < buf.Length && old(r == w && err.None?) ==> n > 0 || e.Some?
      ensures p.Length > 0 ==> n == p.Length || r == w
      ensures old(Patient(ViewOf())) ==> Patient(ViewOf()) && e != Some(ErrNoProgress)
    {
      hide Took, Filled, Pending, FillView, Serve, Patient;
      ghost var p0 := Pending(ViewOf());
      FilledNow(ViewOf());
      if p.Length == 0 {
        ghost var v := ViewOf();
        if v.err.None? { TakeBuffered(p0, v, 0); } else if v.buffered == [] { TakeError(p0, v); }
        e := ReadErr();
        assert p[..0] == v.buffered[..0] && v.buffered[0..] == v.buffered;
        return 0, e;
      }
      if r == w {
        if err.Some? {
          TakeError(p0, ViewOf());
          e := ReadErr();
          assert ViewOf().buffered == p[..0] == [];
          return 0, e;
        }
        if p.Length >= buf.Length {
          ghost var v := ViewOf();
          TakeDirectly(v, p.Length);
          if Patient(v) { ServePatient(v, p.Length); }
          n, err := rd.Read(p, 0);
          e := ReadErr();
          assert p[..n] == p[0..n] && ViewOf().buffered == [];
          return;
        }
        FillAgain(p0, ViewOf(), buf.Length);
        Fill();
        if r == w {
          TakeError(p0, ViewOf());
          e := ReadErr();
          assert ViewOf().buffered == p[..0] == [];
          return 0, e;
        }
      }
      ghost var v := ViewOf();
      n := if p.Length < w - r then p.Length else w - r;
      TakeBuffered(p0, v, n);
      CopyOut(p, n);
      Advance(n);
      e := None;
    }

    /** The next n bytes, without advancing. */
    method Peek(n: int) returns (bytes: seq<byte>, e: Option<Error>)
      requires Valid()
      modifies this, buf, rd
      ensures Valid()
      ensures n < 0 ==> bytes == [] && e == Some(ErrNegativeCount) && ViewOf() == old(ViewOf())
      ensures n > buf.Length ==> bytes == [] && e == Some(ErrBufferFull) && ViewOf() == old(ViewOf())
      ensures 0 <= n <= buf.Length ==> Peeked(old(Pending(ViewOf())), n, bytes, e, Pending(ViewOf()))
      ensures 0 <= n <= old(w - r) ==> e == None && ViewOf() == old(ViewOf())
      ensures old(Patient(ViewOf())) ==> Patient(ViewOf()) && e != Some(ErrNoProgress)
    {
      hide Took, Filled, Pending, FillView, Patient;
      if n < 0 {
        return [], Some(ErrNegativeCount);
      }
      if n > buf.Length {
        return [], Some(ErrBufferFull);
      }
      ghost var v0, p0, patient := ViewOf(), Pending(ViewOf()), Patient(ViewOf());
      FilledNow(ViewOf());
      while w - r < n && err.None?
        invariant Valid() && Filled(p0, ViewOf()) && (w - r < n || Pending(ViewOf()) == p0)
        invariant patient ==> Patient(ViewOf())
        invariant n <= |v0.buffered| ==> ViewOf() == v0 && n <= w - r
        decreases if err.None? then 1 else 0, PlanSize(rd.plan)
      {
        FillAgain(p0, ViewOf(), buf.Length);
        Fill();
      }
      ghost var v := ViewOf();
      var count := n;
      e := None;
      if w - r < n {
        count := w - r;
      }
      bytes := buf[r..r + count];
      BufferFront(buf, r, w, count);
      if count < n {
        PeekError(p0, v, n);
        assert v.buffered[..count] == v.buffered;
        e := ReadErr();
        if e.None? {
          e := Some(ErrBufferFull);
        }
      } else {
        TakeFront(v, n);
      }
    }

    /** Up to the first delim, the pending error, or the end of a full buffer. */
    method ReadSlice(delim: byte) returns (line: seq<byte>, e: Option<Error>)
      requires Valid() && Fail(ErrBufferFull) !in Pending(ViewOf())
      modifies this, buf, rd
      ensures Valid() && Fail(ErrBufferFull) !in Pending(ViewOf())
      ensures e != Some(ErrBufferFull) ==> IsLine(old(Pending(ViewOf())), delim, line, e, Pending(ViewOf()))
      ensures e == Some(ErrBufferFull) ==>
        |line| == buf.Length && delim !in line && Took(old(Pending(ViewOf())), line, None, Pending(ViewOf()))
      ensures delim in old(ViewOf()).buffered ==> e == None && rd.plan == old(rd.plan)
      ensures old(Patient(ViewOf())) ==> Patient(ViewOf()) && e != Some(ErrNoProgress)
    {
      hide Took, IsLine, Filled, Pending, FillView, Patient, FillFrom, PlanSize, MAX_CONSECUTIVE_EMPTY_READS;
      ghost var v0, p0, patient := ViewOf(), Pending(ViewOf()), Patient(ViewOf());
      FilledNow(ViewOf());
      while true
        invariant Valid() && Filled(p0, ViewOf()) && (delim !in buf[r..w] || Pending(ViewOf()) == p0)
        invariant patient ==> Patient(ViewOf())
        invariant delim in v0.buffered ==> ViewOf() == v0
        decreases if err.None? then 1 else 0, PlanSize(rd.plan)
      {
        ghost var v := ViewOf();
        var i := ByteSlices.IndexByte(buf[r..w], delim);
        if i >= 0 {
          FoundDelim(p0, v, i, delim);
          line := Take(i + 1);
          e := None;
          return;
        }
        if err.Some? {
          FoundError(p0, v, delim);
          line := TakeAll();
          e := ReadErr();
          assert ViewOf() == View([], None, v.plan);
          return;
        }
        if w - r >= buf.Length {
          FoundNothing(p0, v);
          line := TakeAll();
          e := Some(ErrBufferFull);
          return;
        }
        FillAgain(p0, v, buf.Length);
        Fill();
        assert ViewOf().buffered == buf[r..w];
      }
    }

    /** Up to the first delim or the pending error, however long. */
    method ReadBytes(delim: byte) returns (line: seq<byte>, e: Option<Error>)
      requires Valid() && Fail(ErrBufferFull) !in Pending(ViewOf())
      modifies this, buf, rd
      ensures Valid() && IsLine(old(Pending(ViewOf())), delim, line, e, Pending(ViewOf()))
      ensures old(Patient(ViewOf())) ==> Patient(ViewOf()) && e != Some(ErrNoProgress)
    {
      hide Took, Pending, Patient;
      ghost var p0, patient := Pending(ViewOf()), Patient(ViewOf());
      TookNothing(p0);
      var full: seq<seq<byte>> := [];
      var frag;
      while true
        invariant Valid() && Fail(ErrBufferFull) !in Pending(ViewOf())
        invariant Took(p0, Concat(full), None, Pending(ViewOf())) && delim !in Concat(full)
        invariant patient ==> Patient(ViewOf())
        decreases |Pending(ViewOf())|
      {
        ghost var p := Pending(ViewOf());
        frag, e := ReadSlice(delim);
        ghost var got := if e == Some(ErrBufferFull) then None else e;
        TookJoin(p0, Concat(full), p, frag, got, Pending(ViewOf()));
        TookShrinks(p, frag, got, Pending(ViewOf()));
        if e != Some(ErrBufferFull) {
          break;
        }
        ConcatNext(full, frag);
        full := full + [frag];
      }
      LineAfterFull(Concat(full), frag, delim, e);
      line := CopyPieces(full, frag);
    }

    /** Skip n bytes. out stands for the bytes skipped. With nothing buffered and an error pending,
        Discard reads on past the error; otherwise bytes and errors keep their order. */
    method Discard(n: int) returns (discarded: int, e: Option<Error>, ghost out: seq<byte>)
      requires Valid()
      modifies this, buf, rd
      ensures Valid()
      ensures n < 0 ==> discarded == 0 && e == Some(ErrNegativeCount) && ViewOf() == old(ViewOf())
      ensures n == 0 ==> discarded == 0 && e == None && ViewOf() == old(ViewOf())
      ensures n > 0 ==> 0 <= discarded <= n && (e.None? <==> discarded == n)
      ensures |out| == discarded
      ensures n > 0 && !old(r == w && err.Some?) ==> Took(old(Pending(ViewOf())), out, e, Pending(ViewOf()))
      ensures n > 0 && old(r == w && err.Some?) ==>
        (out, e, ViewOf()) == DiscardPastError(old(ViewOf()), buf.Length, n)
      ensures 0 < n <= old(w - r) ==>
        e == None && ViewOf() == old(ViewOf()).(buffered := old(ViewOf()).buffered[n..])
      ensures old(Patient(ViewOf())) ==> Patient(ViewOf()) && e != Some(ErrNoProgress)
    {
      hide Took, Filled, Pending, FillView, PlanSize, Patient, MAX_CONSECUTIVE_EMPTY_READS;
      out := [];
      if n < 0 {
        return 0, Some(ErrNegativeCount), [];
      }
      if n == 0 {
        return 0, None, [];
      }
      var remain := n;
      ghost var v0 := ViewOf();
      ghost var p0, patient, pastError := Pending(v0), Patient(v0), r == w && err.Some?;
      TookNothing(p0);
      while true
        invariant Valid() && 0 < remain <= n && |out| == n - remain
        invariant !pastError ==> Took(p0, out, None, Pending(ViewOf())) && (r == w ==> err.None?)
        invariant pastError ==> remain == n && ViewOf() == v0 && v0.buffered == [] && v0.err.Some?
        invariant patient ==> Patient(ViewOf())
        invariant n <= |v0.buffered| ==> ViewOf() == v0 && remain == n
        decreases remain
      {
        ghost var q := Pending(ViewOf());
        FilledNow(ViewOf());
        var skip := w - r;
        if skip == 0 {
          if !pastError { FillAgain(q, ViewOf(), buf.Length); }
          FillKeepsError(ViewOf(), buf.Length);
          Fill();
          skip := w - r;
        }
        ghost var v := ViewOf();
        if skip > remain {
          skip := remain;
        }
        if !pastError { SkipSome(p0, out, q, v, skip); }
        Advance(skip);
        remain := remain - skip;
        out := out + v.buffered[..skip];
        assert pastError ==> out == v.buffered[..skip];
        if remain == 0 {
          return n, None, out;
        }
        assert v.buffered[..skip] == v.buffered && v.buffered[skip..] == [];
        if err.Some? {
          e := ReadErr();
          return n - remain, e, out;
        }
      }
    }
  }

  // ---- A caller that reads everything ----

  /** Read on until there is an error, into a buffer of any size: over a patient source, that gives all the
      bytes before the first error of the stream, and that error, or the end of the stream. */
  method ReadAll(b: BufReader, size: nat) returns (text: seq<byte>, e: Error)
    requires b.Valid() && size > 0
    modifies b, b.buf, b.rd
    ensures b.Valid()
    ensures old(Patient(b.ViewOf())) ==>
      var stream := old(Pending(b.ViewOf()));
      && |text| <= |stream| && (forall i :: 0 <= i < |text| ==> stream[i] == Byte(text[i]))
      && (|text| < |stream| ==> stream[|text|] == Fail(e)) && (|text| == |stream| ==> e == EOF)
  {
    hide Pending, Patient, Took;
    text := [];
    var p := new byte[size](_ => 0);
    ghost var stream, patient := Pending(b.ViewOf()), Patient(b.ViewOf());
    TookNothing(stream);
    while true
      invariant b.Valid() && p != b.buf && fresh(p)
      invariant Took(stream, text, None, Pending(b.ViewOf()))
      invariant patient ==> Patient(b.ViewOf())
      decreases |Pending(b.ViewOf())|, PlanSize(b.rd.plan)
    {
      ghost var q, plan := Pending(b.ViewOf()), b.rd.plan;
      var n, err := b.Read(p);
      TookJoin(stream, text, q, p[..n], err, Pending(b.ViewOf()));
      text := text + p[..n];
      if err.Some? {
        e := err.value;
        if patient { WholeText(stream, text, e, Pending(b.ViewOf())); }
        return;
      }
      TookShrinks(q, p[..n], err, Pending(b.ViewOf()));
      if n == 0 { EmptyServe(plan, size); }
    }
  }

  lemma WholeText(stream: seq<Item>, text: seq<byte>, e: Error, after: seq<Item>)
    requires Took(stream, text, Some(e), after) && e != ErrNoProgress
    ensures |text| <= |stream| && forall i :: 0 <= i < |text| ==> stream[i] == Byte(text[i])
    ensures |text| < |stream| ==> stream[|text|] == Fail(e)
    ensures |text| == |stream| ==> e == EOF
  {
    forall i | 0 <= i < |text| ensures stream[i] == Byte(text[i]) {
      assert stream[..|text|][i] == Bytes(text)[i];
    }
    if |text| < |stream| { assert stream[|text|..][0] == stream[|text|]; }
  }

  lemma EmptyServe(plan: seq<Reply>, cap: nat)
    requires cap > 0
    ensures var s := Serve(plan, cap); s.err.None? ==> PlanSize(s.plan) < PlanSize(plan)
  {
    if plan != [] { ServeShrinks(plan, cap); }
  }

  lemma SkipSome(p0: seq<Item>, out: seq<byte>, q: seq<Item>, v: View, skip: nat)
    requires Took(p0, out, None, q) && Filled(q, v) && skip <= |v.buffered|
    requires Pending(v) == q || v.buffered == []
    ensures skip > 0 ==> Took(p0, out + v.buffered[..skip], None, Pending(v.(buffered := v.buffered[skip..])))
    ensures skip == |v.buffered| && v.err.Some? ==>
      Took(p0, out + v.buffered[..skip], v.err, Pending(View([], None, v.plan)))
  {
    hide Took, Filled, Pending;
    if skip > 0 {
      TakeBuffered(q, v, skip);
      TookJoin(p0, out, q, v.buffered[..skip], None, Pending(v.(buffered := v.buffered[skip..])));
    }
    if skip == |v.buffered| && v.err.Some? {
      TakeError(q, v);
      assert v.buffered[..skip] == v.buffered;
      TookJoin(p0, out, q, v.buffered, v.err, Pending(View([], None, v.plan)));
    }
  }

  lemma FillKeepsError(v: View, size: nat)
    requires |v.buffered| <= size
    ensures FillView(v, size).err.Some? || v.err.None?
  {
  }

  /** Discard of n > 0 bytes when nothing is buffered and an error is pending: one fill, whose error,
      if any, replaces the pending one. The result holds the bytes skipped. */
  function DiscardPastError(v: View, size: nat, n: int): (seq<byte>, Option<Error>, View)
    requires n > 0 && v.buffered == []
  {
    var v' := FillView(v, size);
    if n <= |v'.buffered| then (v'.buffered[..n], None, v'.(buffered := v'.buffered[n..]))
    else (v'.buffered, v'.err, View([], None, v'.plan))
  }

  /** The order of bytes and errors is kept exactly if the source has nothing but empty answers for the
      fill, and the pending error is the one that the fill makes up for want of an answer. */
  lemma DiscardKeepsOrder(v: View, size: nat, n: int)
    requires size > 0 && n > 0 && v.buffered == [] && v.err.Some?
    ensures var (out, e, v') := DiscardPastError(v, size, n);
            Took(Pending(v), out, e, Pending(v')) <==>
            Idle(v.plan, MAX_CONSECUTIVE_EMPTY_READS) && v.err == Some(MadeUp(v.plan, MAX_CONSECUTIVE_EMPTY_READS))
  {
    hide FillFrom, Items, Idle, MadeUp;
    var tries := MAX_CONSECUTIVE_EMPTY_READS;
    var s := FillFrom(v.plan, size, tries);
    FillIdle(v.plan, size, tries);
    FillViewIs(v, size, tries);
    var (out, e, v') := DiscardPastError(v, size, n);
    var before := Pending(v);
    assert before == [Fail(v.err.value)] + Items(v.plan) && before[0..] == before;
    if s.data == [] {
      NoError(v');
      assert Pending(v') == Items(s.plan) && before[1..] == Items(v.plan);
    } else {
      assert out != [] && Bytes(out)[0] == Byte(out[0]);
      assert |out| <= |before| ==> before[..|out|][0] == Fail(v.err.value);
    }
  }

  /** So whatever the error and the sizes, some source makes Discard skip a byte that comes after the
      pending error. */
  lemma DiscardReorders(e: Error, size: nat, n: int)
    requires size > 0 && n > 0
    ensures exists plan ::
      var v := View([], Some(e), plan);
      var (out, e', v') := DiscardPastError(v, size, n);
      out != [] && !Took(Pending(v), out, e', Pending(v'))
  {
    var plan := [Reply([7], None)];
    var v := View([], Some(e), plan);
    FillStep(plan, size, MAX_CONSECUTIVE_EMPTY_READS);
    assert FillView(v, size) == View([7], Some(e), []);
    DiscardKeepsOrder(v, size, n);
    assert plan[0] != Reply([], None);
  }

  /** A reader gets there: a byte with an error, a byte after it, and Discard skips the second byte as if
      there were no error between. */
  method SkipPastError(e: Error) returns (c: byte, discarded: int, err: Option<Error>, ghost out: seq<byte>)
    ensures c == 1 && discarded == 1 && err == None && out == [7]
  {
    hide Took, Pending, FillView;
    var plan := [Reply([1], Some(e)), Reply([7], None)];
    var rd := new Source(plan);
    var b := new BufReader(rd, 16);
    ghost var v := b.ViewOf();
    FirstFill(v, b.buf.Length);
    var e0;
    c, e0 := b.ReadByte();
    FirstFill(b.ViewOf(), b.buf.Length);
    discarded, err, out := b.Discard(1);
  }

  /** A fill from a source whose first answer is not empty and fits. */
  lemma FirstFill(v: View, size: nat)
    requires v.buffered == [] && v.plan != [] && 0 < |v.plan[0].data| <= size
    ensures FillView(v, size) ==
            View(v.plan[0].data, if v.plan[0].err.Some? then v.plan[0].err else v.err, v.plan[1..])
  {
    FillStep(v.plan, size, MAX_CONSECUTIVE_EMPTY_READS);
  }

  // ---- Conservation over any mix of calls ----

  lemma TookBytes(p: seq<Item>, out: seq<byte>, e: Option<Error>, after: seq<Item>)
    requires Took(p, out, e, after)
    ensures BytesOf(p) == out + BytesOf(after)
  {
    assert p == p[..|out|] + p[|out|..];
    BytesOfConcat(p[..|out|], p[|out|..]);
    BytesOfBytes(out);
    if p[|out|..] != after { assert p[|out|..][1..] == after; }
  }

  /** Peeking loses and duplicates nothing: at most an error leaves the stream. */
  lemma PeekedBytes(before: seq<Item>, n: int, bytes: seq<byte>, e: Option<Error>, after: seq<Item>)
    requires Peeked(before, n, bytes, e, after)
    ensures BytesOf(before) == BytesOf(after)
  {
    hide BytesOf, Bytes;
    var k := |bytes|;
    BytesOfSplit(before, k);
    BytesOfSplit(after, k);
    if e.Some? && before[k..] != after[k..] {
      NoBytesInError(e);
      BytesOfConcat(Fails(e), after[k..]);
    }
  }

  lemma BytesOfSplit(s: seq<Item>, k: nat)
    requires k <= |s|
    ensures BytesOf(s) == BytesOf(s[..k]) + BytesOf(s[k..])
  {
    BytesOfConcat(s[..k], s[k..]);
    assert s == s[..k] + s[k..];
  }

  /** Filling keeps the bytes whether or not an error is pending. */
  lemma FillKeepsBytes(v: View, size: nat)
    requires |v.buffered| <= size
    ensures BytesOf(Pending(FillView(v, size))) == BytesOf(Pending(v))
  {
    hide FillFrom, BytesOf, Pending, Items, Bytes, Fails;
    var room := size - |v.buffered|;
    var s := FillFrom(v.plan, room, MAX_CONSECUTIVE_EMPTY_READS);
    FillItems(v.plan, room, MAX_CONSECUTIVE_EMPTY_READS);
    PendingBytes(v);
    PendingBytes(FillView(v, size));
    BytesOfConcat(Bytes(s.data) + Fails(s.err), Items(s.plan));
    BytesOfConcat(Bytes(s.data), Fails(s.err));
    BytesOfBytes(s.data);
    NoBytesInError(s.err);
  }

  lemma NoBytesInError(e: Option<Error>)
    ensures BytesOf(Fails(e)) == []
  {
  }

  lemma PendingBytes(v: View)
    ensures BytesOf(Pending(v)) == v.buffered + BytesOf(Items(v.plan))
  {
    BytesOfConcat(Bytes(v.buffered) + Fails(v.err), Items(v.plan));
    BytesOfConcat(Bytes(v.buffered), Fails(v.err));
    BytesOfBytes(v.buffered);
    NoBytesInError(v.err);
  }

  /** Even when Discard loses the order, it skips bytes off the front of the bytes to come. */
  lemma DiscardKeepsBytes(v: View, size: nat, n: int)
    requires n > 0 && v.buffered == []
    ensures var (out, e, v') := DiscardPastError(v, size, n); BytesOf(Pending(v)) == out + BytesOf(Pending(v'))
  {
    hide FillView, Pending, BytesOf, Items;
    var (out, e, v') := DiscardPastError(v, size, n);
    var filled := FillView(v, size);
    FillKeepsBytes(v, size);
    PendingBytes(filled);
    PendingBytes(v');
    assert filled.buffered == out + v'.buffered;
  }

  /** What a call of any of the methods may do to the reader, handing out or skipping out. */
  ghost predicate Call(v: View, out: seq<byte>, v': View) {
    || Takes(v, out, v')
    || (out == [] && Peeks(v, v'))
    || (out == [] && v' == v.(err := None))
    || SkipsPastError(v, out, v')
  }

  /** ReadByte, Read, ReadSlice, ReadBytes and Discard. */
  ghost predicate Takes(v: View, out: seq<byte>, v': View) {
    exists e :: Took(Pending(v), out, e, Pending(v'))
  }

  ghost predicate Peeks(v: View, v': View) {
    exists n: int, bytes, e :: Peeked(Pending(v), n, bytes, e, Pending(v'))
  }

  /** Discard over a pending error. */
  ghost predicate SkipsPastError(v: View, out: seq<byte>, v': View) {
    v.buffered == [] &&
    exists size: nat, n: int, e :: n > 0 && DiscardPastError(v, size, n) == (out, e, v')
  }

  lemma CallConserves(v: View, out: seq<byte>, v': View)
    requires Call(v, out, v')
    ensures BytesOf(Pending(v)) == out + BytesOf(Pending(v'))
  {
    hide Took, Peeked, Pending, BytesOf, DiscardPastError;
    if Takes(v, out, v') {
      var e :| Took(Pending(v), out, e, Pending(v'));
      TookBytes(Pending(v), out, e, Pending(v'));
    } else if out == [] && Peeks(v, v') {
      var n: int, bytes, e :| Peeked(Pending(v), n, bytes, e, Pending(v'));
      PeekedBytes(Pending(v), n, bytes, e, Pending(v'));
    } else if out == [] && v' == v.(err := None) {
      PendingBytes(v);
      PendingBytes(v');
    } else {
      var size: nat, n: int, e :| n > 0 && DiscardPastError(v, size, n) == (out, e, v');
      DiscardKeepsBytes(v, size, n);
    }
  }

  /** Any mix of calls: what has been handed out so far, followed by the buffered bytes and what the
      source has yet to deliver, is always the same stream of bytes. */
  lemma {:induction false} MixConserves(views: seq<View>, outs: seq<seq<byte>>)
    requires |views| == |outs| + 1
    requires forall i :: 0 <= i < |outs| ==> Call(views[i], outs[i], views[i + 1])
    ensures var last := views[|outs|];
            BytesOf(Pending(views[0])) == Concat(outs) + (last.buffered + BytesOf(Items(last.plan)))
  {
    hide Pending, BytesOf, Items, Call;
    var n := |outs|;
    PendingBytes(views[n]);
    if n > 0 {
      MixConserves(views[..n], outs[..n - 1]);
      PendingBytes(views[n - 1]);
      assert Call(views[n - 1], outs[n - 1], views[n - 1 + 1]);
      CallConserves(views[n - 1], outs[n - 1], views[n]);
    }
  }

  // ---- Any mix of calls, on the reader itself ----

  datatype Op =
    | OpRead(size: nat)
    | OpReadByte
    | OpPeek(n: int)
    | OpReadSlice(delim: byte)
    | OpReadBytes(delim: byte)
    | OpDiscard(n: int)

  /** No call brings a full buffer into the stream. */
  lemma CallBringsNoFull(v: View, out: seq<byte>, v': View)
    requires Call(v, out, v') && Fail(ErrBufferFull) !in Pending(v)
    ensures Fail(ErrBufferFull) !in Pending(v')
  {
    hide Took, Peeked, Pending, DiscardPastError;
    if Takes(v, out, v') {
      var e :| Took(Pending(v), out, e, Pending(v'));
      TookShrinks(Pending(v), out, e, Pending(v'));
    } else if out == [] && Peeks(v, v') {
      var n: int, bytes, e :| Peeked(Pending(v), n, bytes, e, Pending(v'));
      PeekedShrinks(Pending(v), n, bytes, e, Pending(v'));
    } else if out == [] && v' == v.(err := None) {
      NoFullClears(v);
    } else {
      var size: nat, n: int, e :| n > 0 && DiscardPastError(v, size, n) == (out, e, v');
      NoFullPastError(v, size, n);
    }
  }

  lemma PeekedShrinks(before: seq<Item>, n: int, bytes: seq<byte>, e: Option<Error>, after: seq<Item>)
    requires Peeked(before, n, bytes, e, after)
    ensures forall i :: i in after ==> i in before
  {
    hide Bytes;
    var k := |bytes|;
    assert before == before[..k] + before[k..] && after == after[..k] + after[k..];
    assert after[k..] == before[k..] || after[k..] == before[k..][1..];
  }

  lemma NoFullClears(v: View)
    requires Fail(ErrBufferFull) !in Pending(v)
    ensures Fail(ErrBufferFull) !in Pending(v.(err := None))
  {
    hide Items, Bytes;
  }

  lemma NoFullPastError(v: View, size: nat, n: int)
    requires n > 0 && v.buffered == [] && Fail(ErrBufferFull) !in Pending(v)
    ensures var (out, e, v') := DiscardPastError(v, size, n); Fail(ErrBufferFull) !in Pending(v')
  {
    hide FillFrom, Items, Bytes;
    var tries, full := MAX_CONSECUTIVE_EMPTY_READS, Fail(ErrBufferFull);
    var s := FillFrom(v.plan, size, tries);
    FillItems(v.plan, size, tries);
    FillViewIs(v, size, tries);
    var (out, e, v') := DiscardPastError(v, size, n);
    NoFailInBytes(v'.buffered, ErrBufferFull);
    assert full !in Items(v.plan) && full !in Fails(v.err);
    assert full !in Fails(s.err) && full !in Items(s.plan) by {
      if Items(v.plan) == Bytes(s.data) + Fails(s.err) + Items(s.plan) {
        assert full !in Bytes(s.data) + Fails(s.err) + Items(s.plan);
      }
    }
  }

  /** One call, with what it hands out or skips. */
  method Do(b: BufReader, op: Op) returns (ghost out: seq<byte>)
    requires b.Valid() && Fail(ErrBufferFull) !in Pending(b.ViewOf())
    modifies b, b.buf, b.rd
    ensures b.Valid() && Call(old(b.ViewOf()), out, b.ViewOf()) && Fail(ErrBufferFull) !in Pending(b.ViewOf())
  {
    hide Took, Peeked, IsLine, Pending, DiscardPastError;
    ghost var v := b.ViewOf();
    TookNothing(Pending(v));
    match op {
      case OpRead(size) =>
        var p := new byte[size](_ => 0);
        var n, e := b.Read(p);
        out := p[..n];
      case OpReadByte =>
        var c, e := b.ReadByte();
        out := if e.None? then [c] else [];
      case OpPeek(n) =>
        var bytes, e := b.Peek(n);
        out := [];
      case OpReadSlice(delim) =>
        var line, e := b.ReadSlice(delim);
        out := line;
        if e != Some(ErrBufferFull) { LineTook(Pending(v), delim, line, e, Pending(b.ViewOf())); }
      case OpReadBytes(delim) =>
        var line, e := b.ReadBytes(delim);
        out := line;
        LineTook(Pending(v), delim, line, e, Pending(b.ViewOf()));
      case OpDiscard(n) =>
        var discarded, e;
        discarded, e, out := b.Discard(n);
    }
    CallBringsNoFull(v, out, b.ViewOf());
  }

  lemma LineTook(p: seq<Item>, delim: byte, line: seq<byte>, e: Option<Error>, after: seq<Item>)
    requires IsLine(p, delim, line, e, after)
    ensures Took(p, line, e, after)
  {
  }

  /** Any list of calls: what they hand out or skip, then what is buffered, then what the source has yet
      to deliver, is what was to come before. */
  method Run(b: BufReader, ops: seq<Op>) returns (ghost outs: seq<seq<byte>>, ghost views: seq<View>)
    requires b.Valid() && Fail(ErrBufferFull) !in Pending(b.ViewOf())
    modifies b, b.buf, b.rd
    ensures b.Valid() && |outs| == |ops| == |views| - 1
    ensures views[0] == old(b.ViewOf()) && views[|ops|] == b.ViewOf()
    ensures forall k :: 0 <= k < |ops| ==> Call(views[k], outs[k], views[k + 1])
    ensures var v := b.ViewOf();
            BytesOf(Pending(old(b.ViewOf()))) == Concat(outs) + (v.buffered + BytesOf(Items(v.plan)))
  {
    hide Call, Pending, BytesOf, Items;
    outs, views := [], [b.ViewOf()];
    var i := 0;
    while i < |ops|
      invariant b.Valid() && Fail(ErrBufferFull) !in Pending(b.ViewOf())
      invariant i <= |ops| && |outs| == i && |views| == i + 1
      invariant views[0] == old(b.ViewOf()) && views[i] == b.ViewOf()
      invariant forall k :: 0 <= k < i ==> Call(views[k], outs[k], views[k + 1])
    {
      ghost var out := Do(b, ops[i]);
      views, outs := views + [b.ViewOf()], outs + [out];
      i := i + 1;
    }
    MixConserves(views, outs);
  }

  /** Reading past an empty buffer, straight into the caller's. */
  lemma TakeDirectly(v: View, cap: nat)
    requires v.buffered == [] && v.err.None?
    ensures var s := Serve(v.plan, cap); Took(Pending(v), s.data, s.err, Pending(View([], None, s.plan)))
  {
    var s := Serve(v.plan, cap);
    hide Items, Bytes;
    NoBytes();
    NoError(v);
    NoError(View([], None, s.plan));
    if v.plan != [] {
      ServeItems(v.plan, cap);
      assert Pending(v) == Bytes(s.data) + (Fails(s.err) + Items(s.plan));
    } else {
      EmptyPlan(v);
    }
  }

  lemma EmptyPlan(v: View)
    requires v.plan == [] && v.buffered == [] && v.err.None?
    ensures Pending(v) == []
  {
  }

  /** The order fails exactly when Read is asked for nothing while bytes wait before an error. */
  lemma EmptyReadReorders(v: View)
    requires v.err.Some?
    ensures Took(Pending(v), [], v.err, Pending(v.(err := None))) <==> v.buffered == []
  {
    NoError(v.(err := None));
    if v.buffered == [] {
      TakeError(Pending(v), v);
    } else {
      assert Pending(v)[0] == Byte(v.buffered[0]) && |Pending(v)| == |Pending(v.(err := None))| + 1;
      assert Pending(v)[0..] == Pending(v);
    }
  }
}
