/** bufio.Scanner with ScanLines (src/bufio/scan.go): the same tokens for every chunking. */
module Scanner {
  import opened Wrappers
  import opened Bits
  import opened Stream

  const NEWLINE: byte := 10
  const RETURN: byte := 13

  // ---- The text and its lines ----

  /** What a source delivers before its first error, and that error. */
  function Text(items: seq<Item>): seq<byte> {
    if items == [] || items[0].Fail? then [] else [items[0].b] + Text(items[1..])
  }

  function FirstError(items: seq<Item>): Error {
    if items == [] then EOF
    else if items[0].Fail? then items[0].e
    else FirstError(items[1..])
  }

  function IndexOf(s: seq<byte>, c: byte): (i: nat)
    ensures i <= |s| && c !in s[..i] && (i < |s| ==> s[i] == c)
  {
    if s == [] || s[0] == c then 0
    else
      var i := 1 + IndexOf(s[1..], c);
      assert s[..i] == [s[0]] + s[1..][..i - 1];
      i
  }

  function DropCR(s: seq<byte>): (r: seq<byte>)
    ensures r == s || s == r + [RETURN]
  {
    if s != [] && s[|s| - 1] == RETURN then s[..|s| - 1] else s
  }

  /** The length of the first line, and what follows it. */
  function LineLength(s: seq<byte>): nat { IndexOf(s, NEWLINE) }

  function AfterLine(s: seq<byte>): (rest: seq<byte>)
    ensures s != [] ==> |rest| < |s|
  {
    if LineLength(s) < |s| then s[LineLength(s) + 1..] else []
  }

  /** The text split at newlines, one trailing carriage return dropped per line, no empty final line. */
  function Lines(s: seq<byte>): seq<seq<byte>>
    decreases |s|
  {
    if s == [] then [] else [DropCR(s[..LineLength(s)])] + Lines(AfterLine(s))
  }

  /** Every line is shorter than max. */
  ghost predicate ShortLines(s: seq<byte>, max: nat)
    decreases |s|
  {
    s == [] || (LineLength(s) < max && ShortLines(AfterLine(s), max))
  }

  /** The first line is handed out: it is shorter than max, or it is the rest of the text, exactly max
      long, and the end comes together with its last byte. */
  predicate Fits(text: seq<byte>, max: nat, together: bool) {
    text != [] && (LineLength(text) < max || (together && LineLength(text) == |text| == max))
  }

  /** The lines handed out, up to the first that does not fit. */
  function Handed(text: seq<byte>, max: nat, together: bool): seq<seq<byte>>
    decreases |text|
  {
    if !Fits(text, max, together) then []
    else [DropCR(text[..LineLength(text)])] + Handed(AfterLine(text), max, together)
  }

  ghost predicate AllFit(text: seq<byte>, max: nat, together: bool)
    decreases |text|
  {
    text == [] || (Fits(text, max, together) && AllFit(AfterLine(text), max, together))
  }

  /** The text ends in a line of exactly max bytes without a newline. */
  ghost predicate Brimful(text: seq<byte>, max: nat)
    decreases |text|
  {
    text != [] && if LineLength(text) == |text| then |text| == max else Brimful(AfterLine(text), max)
  }

  lemma {:induction false} ShortLinesFit(text: seq<byte>, max: nat, together: bool)
    requires ShortLines(text, max)
    ensures AllFit(text, max, together) && Handed(text, max, together) == Lines(text)
    decreases |text|
  {
    if text != [] { ShortLinesFit(AfterLine(text), max, together); }
  }

  /** The way the end of the input arrives matters for exactly these texts. */
  lemma {:induction false} ArrivalMatters(text: seq<byte>, max: nat)
    ensures Handed(text, max, true) != Handed(text, max, false) <==> Brimful(text, max) && AllFit(text, max, true)
    decreases |text|
  {
    if Fits(text, max, false) {
      ArrivalMatters(AfterLine(text), max);
      hide LineLength, AfterLine;
      var first := [DropCR(text[..LineLength(text)])];
      var rest, rest' := Handed(AfterLine(text), max, true), Handed(AfterLine(text), max, false);
      assert (first + rest)[1..] == rest && (first + rest')[1..] == rest';
      EndIsNotBrimful(text, max);
    }
  }

  lemma EndIsNotBrimful(text: seq<byte>, max: nat)
    requires text != []
    ensures LineLength(text) != max ==> Brimful(text, max) == Brimful(AfterLine(text), max)
    ensures Brimful(AfterLine(text), max) ==> Brimful(text, max)
  {
  }

  /** Splitting and joining: the lines, with their newlines, are the text. */
  function Unsplit(lines: seq<seq<byte>>, terminated: bool): seq<byte> {
    if lines == [] then []
    else if |lines| == 1 && !terminated then lines[0]
    else lines[0] + [NEWLINE] + Unsplit(lines[1..], terminated)
  }

  function Terminated(s: seq<byte>): bool { s != [] && s[|s| - 1] == NEWLINE }

  lemma FirstLine(s: seq<byte>)
    requires s != [] && RETURN !in s
    ensures var i, rest := LineLength(s), AfterLine(s);
            && DropCR(s[..i]) == s[..i] && RETURN !in rest
            && (rest != [] ==> s == s[..i] + [NEWLINE] + rest && Terminated(rest) == Terminated(s))
            && (rest == [] ==> s == if Terminated(s) then s[..i] + [NEWLINE] else s[..i])
  {
    var i, rest := LineLength(s), AfterLine(s);
    if i > 0 { assert s[..i][i - 1] == s[i - 1]; }
    if rest == [] && i < |s| { assert i == |s| - 1; }
  }

  /** Without carriage returns, no byte is lost: the tokens and the newlines make up the text. */
  lemma {:induction false} LinesRoundTrip(s: seq<byte>)
    requires RETURN !in s
    ensures Unsplit(Lines(s), Terminated(s)) == s
    decreases |s|
  {
    if s != [] {
      var i, rest := LineLength(s), AfterLine(s);
      FirstLine(s);
      LinesRoundTrip(rest);
      hide LineLength, AfterLine, Terminated, DropCR;
      assert Lines(s) == [s[..i]] + Lines(rest) && Lines(s)[1..] == Lines(rest);
    }
  }

  /** Lines written out, each ended by "\n" or by "\r\n". */
  function Written(lines: seq<seq<byte>>, crs: seq<bool>): seq<byte>
    requires |lines| == |crs|
  {
    if lines == [] then []
    else lines[0] + (if crs[0] then [13, 10] else [10]) + Written(lines[1..], crs[1..])
  }

  /** A line that can be told from its end: no "\n" in it, and no "\r" at its end if "\n" follows. */
  ghost predicate CanStand(line: seq<byte>, cr: bool) {
    10 !in line && (cr || line == [] || line[|line| - 1] != 13)
  }

  /** What is written is read back, each line without its end, whichever end it has. A "\r" before the
      "\r\n" stays, and so does every "\r" inside a line. */
  lemma {:induction false} LinesReadBack(lines: seq<seq<byte>>, crs: seq<bool>, last: seq<byte>)
    requires |lines| == |crs| && forall i :: 0 <= i < |lines| ==> CanStand(lines[i], crs[i])
    requires CanStand(last, false)
    ensures Lines(Written(lines, crs) + last) == lines + if last == [] then [] else [last]
  {
    hide Lines, Written, CanStand, DropCR;
    if lines == [] {
      NothingWritten(last);
    } else {
      var line, cr, rest := lines[0], crs[0], Written(lines[1..], crs[1..]) + last;
      LinesReadBack(lines[1..], crs[1..], last);
      WrittenNext(lines, crs);
      DropsOneCR(line, cr);
      var body := line + if cr then [13] else [];
      assert Written(lines, crs) + last == body + [10] + rest;
      OneLine(body, rest);
      assert lines == [line] + lines[1..];
    }
  }

  lemma NothingWritten(last: seq<byte>)
    requires CanStand(last, false)
    ensures Lines(Written([], []) + last) == if last == [] then [] else [last]
  {
    hide Lines, DropCR;
    assert Written([], []) + last == last;
    NoLines();
    if last != [] {
      OneLine(last, []);
      DropsOneCR(last, false);
      assert last + [] == last;
    }
  }

  lemma WrittenNext(lines: seq<seq<byte>>, crs: seq<bool>)
    requires |lines| == |crs| && lines != []
    ensures Written(lines, crs) == lines[0] + (if crs[0] then [13] else []) + [10] + Written(lines[1..], crs[1..])
  {
    assert [13] + [10] == [13, 10];
  }

  /** Exactly one "\r" goes. */
  lemma DropsOneCR(line: seq<byte>, cr: bool)
    requires CanStand(line, cr)
    ensures DropCR(line + if cr then [13] else []) == line && 10 !in line + if cr then [13] else []
  {
    if cr { assert (line + [13])[..|line|] == line; } else { assert line + [] == line; }
  }

  lemma OneLine(body: seq<byte>, rest: seq<byte>)
    requires 10 !in body
    ensures Lines(body + [10] + rest) == [DropCR(body)] + Lines(rest)
    ensures body != [] ==> Lines(body) == [DropCR(body)]
  {
    hide DropCR, Lines;
    var text := body + [10] + rest;
    IndexOfPrefix(body, [10] + rest, NEWLINE);
    assert text == body + ([10] + rest);
    assert text[..|body|] == body && text[|body| + 1..] == rest;
    LinesUnfold(text);
    if body != [] {
      assert body[..|body|] == body;
      LinesUnfold(body);
      NoLines();
    }
  }

  lemma NoLines()
    ensures Lines([]) == []
  {
  }

  lemma LinesUnfold(s: seq<byte>)
    requires s != []
    ensures Lines(s) == [DropCR(s[..LineLength(s)])] + Lines(AfterLine(s))
  {
  }

  // ---- ScanLines ----

  datatype Split = Split(advance: nat, token: Option<seq<byte>>)

  /** ScanLines: a line if there is one, the last line at the end, or a request for more data. */
  function ScanLines(data: seq<byte>, atEOF: bool): (s: Split)
    ensures s.advance <= |data|
  {
    if atEOF && data == [] then Split(0, None)
    else
      var i := IndexOf(data, NEWLINE);
      if i < |data| then Split(i + 1, Some(DropCR(data[..i])))
      else if atEOF then Split(|data|, Some(DropCR(data)))
      else Split(0, None)
  }

  lemma {:induction false} IndexOfPrefix(data: seq<byte>, more: seq<byte>, c: byte)
    ensures IndexOf(data, c) < |data| ==> IndexOf(data + more, c) == IndexOf(data, c)
    ensures IndexOf(data, c) == |data| ==> IndexOf(data + more, c) == |data| + IndexOf(more, c)
  {
    if data == [] {
      assert data + more == more;
    } else {
      IndexOfPrefix(data[1..], more, c);
      assert (data + more)[1..] == data[1..] + more;
    }
  }

  /** What a token found in the buffer means for the whole text, of which the buffer is a front part. */
  lemma SplitIsLine(data: seq<byte>, more: seq<byte>, atEOF: bool)
    requires atEOF ==> more == []
    ensures var s, all := ScanLines(data, atEOF), data + more;
            && (s.token.Some? ==> all != [] && s.token.value == DropCR(all[..LineLength(all)]))
            && (s.token.Some? ==> AfterLine(all) == data[s.advance..] + more)
            && (s.token.None? ==> s.advance == 0 && (atEOF ==> data == []) && LineLength(all) >= |data|)
            && (s.token.None? && |data| < |all| && LineLength(all) == |data| ==> all[|data|] == NEWLINE)
  {
    var all := data + more;
    IndexOfPrefix(data, more, NEWLINE);
    var i := IndexOf(data, NEWLINE);
    if i < |data| {
      assert all[..i] == data[..i] && all[i + 1..] == data[i + 1..] + more;
    } else if atEOF {
      assert all == data && data[..|data|] == data;
    }
  }

  // ---- The scanner ----

  /** Bytes read and not yet returned, the error found, and the source. */
  datatype View = View(buffered: seq<byte>, err: Option<Error>, plan: seq<Reply>)

  /** The text still to be split, and the error that ends it. */
  function Left(v: View): seq<byte> { v.buffered + if v.err.None? then Text(Items(v.plan)) else [] }

  function Final(v: View): Error { if v.err.Some? then v.err.value else FirstError(Items(v.plan)) }

  lemma {:induction false} TextAfterBytes(data: seq<byte>, rest: seq<Item>)
    ensures Text(Bytes(data) + rest) == data + Text(rest) && FirstError(Bytes(data) + rest) == FirstError(rest)
  {
    if data == [] {
      assert Bytes(data) + rest == rest;
    } else {
      TextAfterBytes(data[1..], rest);
      assert (Bytes(data) + rest)[1..] == Bytes(data[1..]) + rest;
    }
  }

  lemma TextAhead(data: seq<byte>, err: Option<Error>, rest: seq<Item>)
    ensures Text(Bytes(data) + Fails(err) + rest) == data + if err.None? then Text(rest) else []
    ensures FirstError(Bytes(data) + Fails(err) + rest) == if err.Some? then err.value else FirstError(rest)
  {
    TextAfterBytes(data, Fails(err) + rest);
    assert Bytes(data) + Fails(err) + rest == Bytes(data) + (Fails(err) + rest);
    if err.None? {
      assert Fails(err) + rest == rest;
    } else {
      assert (Fails(err) + rest)[0] == Fail(err.value);
    }
  }

  /** The reply that brings the last byte of the text brings the error that ends it, too. */
  predicate EndTogether(plan: seq<Reply>) {
    plan != [] && if plan[0].err.Some? then plan[0].data != [] else EndTogether(plan[1..])
  }

  predicate Together(v: View) { v.err.Some? || EndTogether(v.plan) }

  lemma {:induction false} EndTogetherHasText(plan: seq<Reply>)
    requires EndTogether(plan)
    ensures Text(Items(plan)) != []
  {
    TextAhead(plan[0].data, plan[0].err, Items(plan[1..]));
    if plan[0].err.None? { EndTogetherHasText(plan[1..]); }
  }

  lemma {:induction false} FillKeepsEnd(plan: seq<Reply>, room: nat, tries: nat)
    requires room > 0 && Text(Items(plan)) != []
    requires tries <= |plan| ==> exists j :: 0 <= j < tries && (plan[j].data != [] || plan[j].err.Some?)
    ensures var s := FillFrom(plan, room, tries); (s.err.Some? || EndTogether(s.plan)) == EndTogether(plan)
    decreases tries
  {
    hide Text, Items;
    EmptyText();
    assert plan != [] by { NoItems(); }
    NextItems(plan);
    TextAhead(plan[0].data, plan[0].err, Items(plan[1..]));
    var s := Serve(plan, room);
    if s.err.None? && s.data == [] {
      assert plan[0].data == [] && plan[0].err.None?;
      assert forall j :: 0 < j < |plan| ==> plan[1..][j - 1] == plan[j];
      FillKeepsEnd(plan[1..], room, tries - 1);
    } else if |plan[0].data| > room {
      assert s.plan[1..] == plan[1..];
    }
  }

  /** Two sources of one text: with its last byte comes the end, or after it. */
  lemma TwoArrivals(t: seq<byte>)
    requires t != []
    ensures var v, v' := View([], None, [Reply(t, Some(EOF))]), View([], None, [Reply(t, None)]);
            && Left(v) == Left(v') == t && Final(v) == Final(v') == EOF
            && Responsive(v.plan) && Responsive(v'.plan) && Together(v) && !Together(v')
  {
    hide Text, FirstError, Items;
    var plan, plan' := [Reply(t, Some(EOF))], [Reply(t, None)];
    NoItems();
    NextItems(plan);
    NextItems(plan');
    assert plan[1..] == plan'[1..] == [];
    TextAhead(t, Some(EOF), []);
    TextAhead(t, None, []);
    EmptyText();
    assert !EndTogether(plan') by { assert !EndTogether([]); }
  }

  /** A source that the scanner never gives up on. */
  ghost predicate Responsive(plan: seq<Reply>) {
    Prompt(plan, 101)
  }

  /** Reading on changes neither the text that is left nor its end. */
  lemma ReadKeepsText(v: View, room: nat)
    requires v.err.None? && Responsive(v.plan) && room > 0
    ensures var s := FillFrom(v.plan, room, MAX_CONSECUTIVE_EMPTY_READS + 1);
            var v' := View(v.buffered + s.data, s.err, s.plan);
            Left(v') == Left(v) && Final(v') == Final(v) && Responsive(v'.plan)
  {
    hide FillFrom, Items, Text, FirstError;
    var tries := MAX_CONSECUTIVE_EMPTY_READS + 1;
    var s := FillFrom(v.plan, room, tries);
    if tries <= |v.plan| { assert Stirs(v.plan, tries, 0); }
    PromptFill(v.plan, tries, room, tries);
    TextAhead(s.data, s.err, Items(s.plan));
    EmptyText();
  }

  /** v has the text of v0 left, with the same end, and where it matters it arrives in the same way. */
  ghost predicate SameText(v0: View, v: View, max: nat) {
    Left(v) == Left(v0) && Final(v) == Final(v0) && (Brimful(Left(v0), max) ==> Together(v) == Together(v0))
  }

  lemma BrimfulNotRead(v: View, max: nat)
    requires v.err.None? && NEWLINE !in v.buffered && |v.buffered| < max && Brimful(Left(v), max)
    ensures Text(Items(v.plan)) != []
  {
    hide Text, Items;
  }

  lemma ReadKeepsAll(v: View, room: nat, max: nat)
    requires v.err.None? && Responsive(v.plan) && room > 0
    requires NEWLINE !in v.buffered && |v.buffered| < max
    ensures var s := FillFrom(v.plan, room, MAX_CONSECUTIVE_EMPTY_READS + 1);
            var v' := View(v.buffered + s.data, s.err, s.plan);
            SameText(v, v', max) && Responsive(v'.plan)
  {
    hide FillFrom, Items, Text, FirstError;
    ReadKeepsText(v, room);
    if Brimful(Left(v), max) {
      assert Text(Items(v.plan)) != [] by { BrimfulNotRead(v, max); }
      var tries := MAX_CONSECUTIVE_EMPTY_READS + 1;
      if tries <= |v.plan| { assert Stirs(v.plan, tries, 0); }
      FillKeepsEnd(v.plan, room, tries);
    }
  }

  lemma EmptyText()
    ensures Text([]) == [] && FirstError([]) == EOF
  {
  }

  /** A token split off the buffer is the first line of the text that is left. */
  lemma TokenFound(v: View, max: nat)
    requires |v.buffered| <= max && ScanLines(v.buffered, v.err.Some?).token.Some?
    ensures var s, text := ScanLines(v.buffered, v.err.Some?), Left(v);
            && text != [] && s.token.value == DropCR(text[..LineLength(text)])
            && Left(v.(buffered := v.buffered[s.advance..])) == AfterLine(text)
            && Final(v.(buffered := v.buffered[s.advance..])) == Final(v)
            && (LineLength(text) < max || (v.err.Some? && LineLength(text) == |text| == max))
  {
    var more := if v.err.None? then Text(Items(v.plan)) else [];
    SplitIsLine(v.buffered, more, v.err.Some?);
    hide ScanLines, Text, Items, AfterLine, DropCR;
    LineFits(v.buffered, more, v.err.Some?);
  }

  lemma LineFits(data: seq<byte>, more: seq<byte>, atEOF: bool)
    requires ScanLines(data, atEOF).token.Some? && (atEOF ==> more == [])
    ensures LineLength(data + more) < |data| || (atEOF && data + more == data)
  {
    IndexOfPrefix(data, more, NEWLINE);
  }

  lemma TokenNotFound(v: View)
    requires ScanLines(v.buffered, v.err.Some?).token.None?
    ensures v.err.Some? ==> v.buffered == Left(v) == [] && v.err == Some(Final(v))
    ensures LineLength(Left(v)) >= |v.buffered| && |Left(v)| >= |v.buffered|
  {
    SplitIsLine(v.buffered, if v.err.None? then Text(Items(v.plan)) else [], v.err.Some?);
  }

  /** A line is handed out exactly if the first of the text that is left fits; none means the end of the
      text, with the source's own error, or a line that is too long. */
  ghost predicate Scanned(before: View, max: nat, more: bool, token: seq<byte>, after: View) {
    var text := Left(before);
    && (more <==> Fits(text, max, Together(before)))
    && (more ==>
          && token == DropCR(text[..LineLength(text)])
          && Left(after) == AfterLine(text) && Final(after) == Final(before)
          && (Brimful(Left(after), max) ==> Together(after) == Together(before)))
    && (!more ==> after.err == Some(if text == [] then Final(before) else ErrTooLong))
  }

  /** The three ways out of Scan. */
  lemma ScannedToken(before: View, v: View, max: nat)
    requires SameText(before, v, max)
    requires |v.buffered| <= max && ScanLines(v.buffered, v.err.Some?).token.Some?
    ensures var s := ScanLines(v.buffered, v.err.Some?);
            Scanned(before, max, true, s.token.value, v.(buffered := v.buffered[s.advance..]))
  {
    TokenFound(v, max);
    EndIsNotBrimful(Left(v), max);
    if LineLength(Left(v)) == |Left(v)| { BrimfulLine(Left(v), max); }
    hide ScanLines, Left, Final, LineLength, AfterLine, DropCR, EndTogether, Brimful;
  }

  lemma BrimfulLine(text: seq<byte>, max: nat)
    requires text != [] && LineLength(text) == |text|
    ensures Brimful(text, max) <==> |text| == max
  {
  }

  lemma ScannedEnd(before: View, v: View, max: nat, token: seq<byte>)
    requires SameText(before, v, max)
    requires v.err.Some? && ScanLines(v.buffered, true).token.None?
    ensures Scanned(before, max, false, token, v.(buffered := []))
  {
    hide ScanLines, Left, Final, LineLength;
    TokenNotFound(v);
  }

  lemma ScannedTooLong(before: View, v: View, max: nat, token: seq<byte>)
    requires SameText(before, v, max) && 0 < max <= |v.buffered|
    requires v.err.None? && ScanLines(v.buffered, false).token.None?
    ensures Scanned(before, max, false, token, v.(err := Some(ErrTooLong)))
  {
    TokenNotFound(v);
    var text := Left(v);
    if LineLength(text) == |text| {
      BrimfulLine(text, max);
      if EndTogether(v.plan) { EndTogetherHasText(v.plan); }
    }
    hide ScanLines, Final, LineLength, AfterLine, Brimful;
  }

  lemma NoNewline(data: seq<byte>)
    requires ScanLines(data, false).token.None?
    ensures NEWLINE !in data
  {
    assert data[..|data|] == data;
  }

  lemma SameAsItself(v: View, max: nat)
    ensures SameText(v, v, max)
  {
  }

  lemma SameAgain(v0: View, v: View, v': View, max: nat)
    requires SameText(v0, v, max) && SameText(v, v', max)
    ensures SameText(v0, v', max)
  {
  }

  /** copy(dst, src[from:from+n]) from one array to another. */
  method CopyOver(dst: array<byte>, src: array<byte>, from: nat, n: nat)
    requires dst != src && n <= dst.Length && from + n <= src.Length
    modifies dst
    ensures dst[..n] == src[from..from + n]
  {
    forall i | 0 <= i < n {
      dst[i] := src[from + i];
    }
  }

  class LineScanner {
    const rd: Source
    const maxTokenSize: nat
    var buf: array<byte>
    var start: nat
    var end: nat
    var err: Option<Error>
    var token: seq<byte>

    constructor (rd: Source, size: nat, maxTokenSize: nat)
      requires 0 < size <= maxTokenSize
      ensures this.rd == rd && this.maxTokenSize == maxTokenSize && fresh(buf) && buf.Length == size && Valid()
      ensures ViewOf() == View([], None, rd.plan)
    {
      this.rd, this.maxTokenSize := rd, maxTokenSize;
      buf := new byte[size](_ => 0);
      start, end, err, token := 0, 0, None, [];
    }

    ghost predicate Valid()
      reads this
    {
      start <= end <= buf.Length && 0 < buf.Length <= maxTokenSize
    }

    ghost function ViewOf(): View
      reads this, buf, rd
      requires Valid()
    {
      View(buf[start..end], err, rd.plan)
    }

    /** Consume n bytes of the buffer. */
    method Advance(n: nat)
      requires Valid() && n <= end - start
      modifies this`start
      ensures Valid() && ViewOf() == old(ViewOf()).(buffered := old(ViewOf()).buffered[n..])
    {
      assert buf[start + n..end] == buf[start..end][n..];
      start := start + n;
    }

    /** Move what is held to the front, if there is no room behind it or much before it. */
    method Shift()
      requires Valid()
      modifies this`start, this`end, buf
      ensures Valid() && ViewOf() == old(ViewOf()) && (end == buf.Length ==> start == 0)
    {
      if start > 0 && (end == buf.Length || start > buf.Length / 2) {
        CopyToFront(buf, start, end - start);
        assert buf[..end - start] == buf[..][..end - start];
        end := end - start;
        start := 0;
      }
    }

    /** Double a full buffer, up to the limit. */
    method Grow()
      requires Valid() && buf.Length < maxTokenSize
      modifies this`buf, this`start, this`end
      ensures Valid() && ViewOf() == old(ViewOf()) && fresh(buf)
      ensures buf.Length == Min(2 * old(buf.Length), maxTokenSize) > old(buf.Length)
    {
      var newSize := buf.Length * 2;
      if newSize > maxTokenSize {
        newSize := maxTokenSize;
      }
      var newBuf := new byte[newSize](_ => 0);
      CopyOver(newBuf, buf, start, end - start);
      buf := newBuf;
      end := end - start;
      start := 0;
    }

    /** One Read into the free end of the buffer. */
    method ReadChunk() returns (n: nat, e: Option<Error>)
      requires Valid()
      modifies this`end, buf, rd
      ensures Valid() && end == old(end) + n
      ensures var s := Serve(old(rd.plan), buf.Length - old(end));
              n == |s.data| && e == s.err && rd.plan == s.plan && buf[start..end] == old(buf[start..end]) + s.data
    {
      hide Serve;
      ghost var before := buf[..end];
      n, e := rd.Read(buf, end);
      assert buf[..end] == before && buf[start..end] == buf[..end][start..] == before[start..];
      assert buf[start..end + n] == buf[start..end] + buf[end..end + n];
      end := end + n;
    }

    /** Read some input, giving up on a reader that makes no progress. */
    method ReadMore()
      requires Valid() && end < buf.Length && err.None?
      modifies this`end, this`err, buf, rd
      ensures Valid()
      ensures var s := FillFrom(old(rd.plan), buf.Length - old(end), MAX_CONSECUTIVE_EMPTY_READS + 1);
              ViewOf() == View(old(ViewOf()).buffered + s.data, s.err, s.plan)
    {
      hide Serve, FillFrom;
      var loop := 0;
      ghost var held, room := buf[start..end], buf.Length - end;
      ghost var s := FillFrom(rd.plan, room, MAX_CONSECUTIVE_EMPTY_READS + 1);
      while true
        invariant 0 <= loop <= MAX_CONSECUTIVE_EMPTY_READS && end + room == buf.Length && err.None?
        invariant start <= end && buf[start..end] == held
        invariant s == FillFrom(rd.plan, room, MAX_CONSECUTIVE_EMPTY_READS + 1 - loop)
        decreases MAX_CONSECUTIVE_EMPTY_READS - loop
      {
        FillStep(rd.plan, room, MAX_CONSECUTIVE_EMPTY_READS + 1 - loop);
        var n, e := ReadChunk();
        if e.Some? {
          err := e;
          return;
        }
        if n > 0 {
          return;
        }
        loop := loop + 1;
        if loop > MAX_CONSECUTIVE_EMPTY_READS {
          FillStep(rd.plan, room, 0);
          err := Some(ErrNoProgress);
          return;
        }
      }
    }

    /** The rest of Scan's loop when there is no token: make room, fail for lack of it, or read more. */
    method Refill() returns (tooLong: bool)
      requires Valid() && err.None? && NEWLINE !in buf[start..end]
      modifies this`buf, this`start, this`end, this`err, buf, rd
      ensures Valid() && (buf == old(buf) || fresh(buf))
      ensures tooLong ==> maxTokenSize <= end - start && ViewOf() == old(ViewOf()).(err := Some(ErrTooLong))
      ensures !tooLong && old(Responsive(rd.plan)) ==>
        Responsive(rd.plan) && SameText(old(ViewOf()), ViewOf(), maxTokenSize)
      ensures !tooLong ==>
        || err.Some? || PlanSize(rd.plan) < old(PlanSize(rd.plan))
        || (err.None? && rd.plan == old(rd.plan) && buf.Length > old(buf.Length))
    {
      hide FillFrom, PlanSize, Responsive, SameText, MAX_CONSECUTIVE_EMPTY_READS;
      ghost var v := ViewOf();
      SameAsItself(v, maxTokenSize);
      Shift();
      if end == buf.Length {
        if buf.Length >= maxTokenSize {
          err := Some(ErrTooLong);
          return true;
        }
        Grow();
        return false;
      }
      assert |v.buffered| == end - start;
      if Responsive(rd.plan) { ReadKeepsAll(v, buf.Length - end, maxTokenSize); }
      FillShrinks(rd.plan, buf.Length - end, MAX_CONSECUTIVE_EMPTY_READS + 1);
      ReadMore();
      tooLong := false;
    }

    /** A token of what is buffered, taken off it, if there is one. */
    method TakeToken() returns (found: bool)
      requires Valid()
      modifies this`start, this`token
      ensures Valid() && var s := ScanLines(old(ViewOf()).buffered, err.Some?);
              && found == s.token.Some?
              && (found ==> token == s.token.value &&
                            ViewOf() == old(ViewOf()).(buffered := old(ViewOf()).buffered[s.advance..]))
              && (!found ==> start == old(start) && token == old(token))
    {
      var split := ScanLines(buf[start..end], err.Some?);
      found := split.token.Some?;
      if found {
        Advance(split.advance);
        token := split.token.value;
      }
    }

    /** Advance to the next line. A source that gives 101 empty answers in a row may be given up on
        before its end; then there is an error. */
    method Scan() returns (more: bool)
      requires Valid()
      modifies this, buf, rd
      ensures Valid() && (buf == old(buf) || fresh(buf)) && (!more ==> err.Some?)
      ensures old(Responsive(rd.plan)) ==>
        Responsive(rd.plan) && Scanned(old(ViewOf()), maxTokenSize, more, token, ViewOf())
    {
      hide Serve, FillFrom, PlanSize, ScanLines, Responsive, Scanned, SameText, MAX_CONSECUTIVE_EMPTY_READS;
      ghost var v0, responsive := ViewOf(), Responsive(rd.plan);
      SameAsItself(v0, maxTokenSize);
      while true
        invariant Valid() && (buf == old(buf) || fresh(buf))
        invariant responsive ==> Responsive(rd.plan) && SameText(v0, ViewOf(), maxTokenSize)
        decreases if err.None? then 1 else 0, PlanSize(rd.plan), maxTokenSize - buf.Length
      {
        ghost var v := ViewOf();
        if end > start || err.Some? {
          more := TakeToken();
          if more {
            if responsive { ScannedToken(v0, v, maxTokenSize); }
            return;
          }
          if err.None? { NoNewline(v.buffered); }
        }
        if err.Some? {
          start := 0;
          end := 0;
          assert ViewOf() == v.(buffered := []);
          if responsive { ScannedEnd(v0, v, maxTokenSize, token); }
          return false;
        }
        var tooLong := Refill();
        if tooLong {
          if responsive { ScannedTooLong(v0, v, maxTokenSize, token); }
          return false;
        }
        if responsive { SameAgain(v0, v, ViewOf(), maxTokenSize); }
      }
    }

    /** Err: an end of input is no error. */
    method Err() returns (e: Option<Error>)
      ensures e == if err == Some(EOF) then None else err
    {
      e := if err == Some(EOF) then None else err;
    }
  }

  /** Scanning to the end: the tokens are the lines of the text, up to the first that does not fit. Only
      of the arrival of the end, and only for a brimful text, does the result depend on the chunks. */
  method ScanAll(s: LineScanner) returns (tokens: seq<seq<byte>>)
    requires s.Valid() && Responsive(s.rd.plan)
    modifies s, s.buf, s.rd
    ensures var v, max := old(s.ViewOf()), s.maxTokenSize;
            && tokens == Handed(Left(v), max, Together(v))
            && s.err == Some(if AllFit(Left(v), max, Together(v)) then Final(v) else ErrTooLong)
            && (ShortLines(Left(v), max) ==> tokens == Lines(Left(v)) && s.err == Some(Final(v)))
  {
    hide Left, Final, LineLength, AfterLine, DropCR, Responsive, Handed, AllFit, Together, Fits, Brimful;
    ghost var v, max := s.ViewOf(), s.maxTokenSize;
    ghost var together := Together(v);
    if ShortLines(Left(v), max) { ShortLinesFit(Left(v), max, together); }
    tokens := [];
    while true
      invariant s.Valid() && Responsive(s.rd.plan) && (s.buf == old(s.buf) || fresh(s.buf))
      invariant Final(s.ViewOf()) == Final(v)
      invariant Brimful(Left(s.ViewOf()), max) ==> Together(s.ViewOf()) == together
      invariant AllFit(Left(v), max, together) == AllFit(Left(s.ViewOf()), max, together)
      invariant Handed(Left(v), max, together) == tokens + Handed(Left(s.ViewOf()), max, together)
      decreases |Left(s.ViewOf())|
    {
      ghost var before := s.ViewOf();
      HandedUnfold(Left(before), max, together);
      SameFit(Left(before), max, Together(before), together);
      var more := s.Scan();
      if !more {
        return;
      }
      tokens := tokens + [s.token];
    }
  }

  lemma HandedUnfold(text: seq<byte>, max: nat, together: bool)
    ensures !Fits(text, max, together) ==> Handed(text, max, together) == []
    ensures !Fits(text, max, together) ==> (AllFit(text, max, together) <==> text == [])
    ensures Fits(text, max, together) ==>
      && text != [] && |AfterLine(text)| < |text|
      && AllFit(text, max, together) == AllFit(AfterLine(text), max, together)
      && Handed(text, max, together) ==
         [DropCR(text[..LineLength(text)])] + Handed(AfterLine(text), max, together)
    ensures text != [] && Brimful(AfterLine(text), max) ==> Brimful(text, max)
  {
  }

  lemma SameFit(text: seq<byte>, max: nat, together: bool, together': bool)
    requires Brimful(text, max) ==> together == together'
    ensures Fits(text, max, together) == Fits(text, max, together')
  {
  }
}
