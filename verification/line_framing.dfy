/**
 * Cutting a client's byte stream into messages, for ASCII input. What arrives in chunks of
 * any size is collected in a buffer, and complete lines are taken off its front.
 */
module LineFraming {
  import opened Sequences

  const MAX_LINE: nat := 64 * 1024

  predicate IsSpace(c: char) {
    c == ' ' || '\t' <= c <= '\r'
  }

  function TrimStart(s: string): string {
    if s != "" && IsSpace(s[0]) then TrimStart(s[1..]) else s
  }

  function TrimEnd(s: string): string {
    if s != "" && IsSpace(s[|s| - 1]) then TrimEnd(s[..|s| - 1]) else s
  }

  function Trim(s: string): string {
    TrimEnd(TrimStart(s))
  }

  function WithoutNul(s: string): string {
    if s == "" then "" else (if s[0] == '\0' then "" else [s[0]]) + WithoutNul(s[1..])
  }

  function Find(s: string, c: char): (i: nat)
    ensures i <= |s|
  {
    if s == "" || s[0] == c then 0 else 1 + Find(s[1..], c)
  }

  /** The first occurrence, or the end if there is none. */
  lemma {:induction false} FoundFirst(s: string, c: char)
    ensures var i := Find(s, c); c !in s[..i] && (i < |s| ==> s[i] == c)
  {
    if s != "" && s[0] != c {
      FoundFirst(s[1..], c);
      assert s[..1 + Find(s[1..], c)] == [s[0]] + s[1..][..Find(s[1..], c)];
    }
  }

  /** Lines that start like those of another protocol. */
  predicate StartsHttp(line: string) {
    || "PRI * HTTP/2" <= line || "GET " <= line || "POST " <= line || "PUT " <= line
    || "DELETE " <= line || "HEAD " <= line || "OPTIONS " <= line
  }

  predicate IsHttp(line: string) {
    line == "SM" || StartsHttp(line)
  }

  /** A JSON object is refused under no circumstances; a request line of these methods always is. */
  lemma RefusedLines(line: string, rest: string)
    ensures line != "" && line[0] == '{' ==> !IsHttp(line)
    ensures IsHttp("GET " + rest) && IsHttp("POST " + rest) && IsHttp("PUT " + rest) && IsHttp("HEAD " + rest)
    ensures IsHttp("DELETE " + rest) && IsHttp("OPTIONS " + rest) && IsHttp("PRI * HTTP/2" + rest)
    ensures |line| == 2 ==> (IsHttp(line) <==> line == "SM")
    ensures IsHttp(line) ==> line[0] in "GPHDOS"
  {
  }

  // ---------- the reader ----------

  datatype Status = Open | TooLong | ForeignProtocol

  datatype Session = Session(buffer: string, emitted: seq<string>, status: Status, isNew: bool)

  const START := Session("", [], Open, true)

  /** The inner loop: lines off the front of the buffer, until none is complete or one is foreign. */
  function Drain(s: Session): Session
    decreases |s.buffer|
  {
    var i := Find(s.buffer, '\n');
    if i == |s.buffer| then s
    else
      var line, rest := Trim(s.buffer[..i]), s.buffer[i + 1..];
      if line == "" then Drain(s.(buffer := rest))
      else if IsHttp(line) then s.(buffer := rest, status := ForeignProtocol)
      else Drain(s.(buffer := rest, emitted := s.emitted + [line]))
  }

  function FirstLine(data: string): string {
    data[..Find(data, '\n')]
  }

  /** One read. The first is looked at for a foreign protocol before its lines are complete. */
  function Feed(s: Session, chunk: string): Session {
    if s.status != Open then s
    else
      var data := WithoutNul(chunk);
      if s.isNew && IsHttp(Trim(FirstLine(data))) then s.(status := ForeignProtocol)
      else if |s.buffer| + |data| > MAX_LINE then s.(status := TooLong, isNew := false)
      else Drain(s.(buffer := s.buffer + data, isNew := false))
  }

  class LineReader {
    var lineBuffer: string
    var emitted: seq<string>
    var status: Status
    var firstMessage: bool

    ghost function State(): Session
      reads this
    {
      Session(lineBuffer, emitted, status, firstMessage)
    }

    constructor ()
      ensures State() == START
    {
      lineBuffer, emitted, status, firstMessage := "", [], Open, true;
    }

    /** `append_line_data` */
    method AppendLineData(data: string) returns (ok: bool)
      modifies this
      ensures ok <==> |old(lineBuffer)| + |data| <= MAX_LINE
      ensures State() == old(State()).(buffer := if ok then old(lineBuffer) + data else old(lineBuffer))
    {
      if |lineBuffer| + |data| > MAX_LINE {
        return false;
      }
      lineBuffer := lineBuffer + data;
      ok := true;
    }

    method OnRead(chunk: string)
      modifies this
      ensures State() == Feed(old(State()), chunk)
    {
      if status != Open {
        return;
      }
      var data := WithoutNul(chunk);
      if firstMessage {
        var firstLine := Trim(FirstLine(data));
        if IsHttp(firstLine) {
          status := ForeignProtocol;
          return;
        }
        firstMessage := false;
      }
      var ok := AppendLineData(data);
      if !ok {
        status := TooLong;
        return;
      }
      ghost var drained := Drain(State());
      var i := Find(lineBuffer, '\n');
      while i < |lineBuffer|
        invariant i == Find(lineBuffer, '\n') && Drain(State()) == drained
        decreases |lineBuffer|
      {
        var line := Trim(lineBuffer[..i]);
        lineBuffer := lineBuffer[i + 1..];
        if line != "" {
          if IsHttp(line) {
            status := ForeignProtocol;
            assert State() == drained;
            return;
          }
          emitted := emitted + [line];
        }
        i := Find(lineBuffer, '\n');
      }
    }
  }

  // ---------- what a stream means ----------

  /** The messages of a stream: its complete lines, trimmed, without the empty ones. */
  function Messages(s: string): seq<string> {
    var i := Find(s, '\n');
    if i == |s| then []
    else (if Trim(s[..i]) == "" then [] else [Trim(s[..i])]) + Messages(s[i + 1..])
  }

  /** What follows the last line break. */
  function Rest(s: string): string {
    var i := Find(s, '\n');
    if i == |s| then s else Rest(s[i + 1..])
  }

  function UntilHttp(lines: seq<string>): seq<string> {
    if lines == [] || IsHttp(lines[0]) then [] else [lines[0]] + UntilHttp(lines[1..])
  }

  predicate HasHttp(lines: seq<string>) {
    lines != [] && (IsHttp(lines[0]) || HasHttp(lines[1..]))
  }

  lemma {:induction false} UntilHttpAppend(a: seq<string>, b: seq<string>)
    ensures UntilHttp(a + b) == if HasHttp(a) then UntilHttp(a) else a + UntilHttp(b)
    ensures HasHttp(a + b) <==> HasHttp(a) || HasHttp(b)
  {
    if a == [] {
      assert a + b == b;
    } else {
      UntilHttpAppend(a[1..], b);
      HeadTail(a, b);
      HeadTail(a, UntilHttp(b));
    }
  }

  lemma {:induction false} HttpFree(lines: seq<string>)
    ensures !HasHttp(lines) ==> UntilHttp(lines) == lines
  {
    UntilHttpAppend(lines, []);
    assert lines + [] == lines;
  }

  /** The first complete line of a buffer, and what it contributes. */
  lemma MessagesHead(s: string)
    requires Find(s, '\n') < |s|
    ensures var line, rest := Trim(s[..Find(s, '\n')]), Messages(s[Find(s, '\n') + 1..]);
            && (line == "" ==> Messages(s) == rest)
            && (line != "" ==> Messages(s) == [line] + rest && Messages(s)[0] == line && Messages(s)[1..] == rest)
  {
  }

  /** The loop yields the messages of the buffer up to a foreign one. */
  lemma DrainMeaning(s: Session)
    requires s.status == Open
    ensures Drain(s).emitted == s.emitted + UntilHttp(Messages(s.buffer)) && Drain(s).isNew == s.isNew
    ensures if HasHttp(Messages(s.buffer)) then Drain(s).status == ForeignProtocol
            else Drain(s).status == Open && Drain(s).buffer == Rest(s.buffer)
  {
    DrainEmits(s);
    DrainEnds(s);
  }

  lemma {:induction false} DrainEnds(s: Session)
    requires s.status == Open
    ensures Drain(s).isNew == s.isNew
    ensures if HasHttp(Messages(s.buffer)) then Drain(s).status == ForeignProtocol
            else Drain(s).status == Open && Drain(s).buffer == Rest(s.buffer)
    decreases |s.buffer|
  {
    var i := Find(s.buffer, '\n');
    if i < |s.buffer| {
      MessagesHead(s.buffer);
      var line, rest := Trim(s.buffer[..i]), s.buffer[i + 1..];
      if line == "" {
        DrainEnds(s.(buffer := rest));
      } else if !IsHttp(line) {
        DrainEnds(s.(buffer := rest, emitted := s.emitted + [line]));
      }
    }
  }

  lemma {:induction false} DrainEmits(s: Session)
    requires s.status == Open
    ensures Drain(s).emitted == s.emitted + UntilHttp(Messages(s.buffer))
    decreases |s.buffer|
  {
    var i := Find(s.buffer, '\n');
    if i < |s.buffer| {
      MessagesHead(s.buffer);
      var line, rest := Trim(s.buffer[..i]), s.buffer[i + 1..];
      if line == "" {
        DrainEmits(s.(buffer := rest));
      } else if !IsHttp(line) {
        DrainEmits(s.(buffer := rest, emitted := s.emitted + [line]));
        Associative(s.emitted, [line], UntilHttp(Messages(rest)));
      }
    }
  }

  lemma {:induction false} FindAppend(s: string, t: string, c: char)
    ensures Find(s + t, c) == if Find(s, c) < |s| then Find(s, c) else |s| + Find(t, c)
  {
    if s == "" {
      assert s + t == t;
    } else {
      assert (s + t)[1..] == s[1..] + t;
      FindAppend(s[1..], t, c);
    }
  }

  /** Messages and rest of a longer stream, from the rest of a shorter one. */
  lemma StreamAppend(s: string, t: string)
    ensures Messages(s + t) == Messages(s) + Messages(Rest(s) + t)
    ensures Rest(s + t) == Rest(Rest(s) + t)
  {
    MessagesAppend(s, t);
    RestAppend(s, t);
  }

  lemma {:induction false} RestAppend(s: string, t: string)
    ensures Rest(s + t) == Rest(Rest(s) + t)
    decreases |s|
  {
    var i := Find(s, '\n');
    if i < |s| {
      FirstBreak(s, t);
      RestAppend(s[i + 1..], t);
    }
  }

  lemma {:induction false} MessagesAppend(s: string, t: string)
    ensures Messages(s + t) == Messages(s) + Messages(Rest(s) + t)
    decreases |s|
  {
    var i := Find(s, '\n');
    if i < |s| {
      MessagesAppend(s[i + 1..], t);
      MessagesCons(s, t);
    }
  }

  /** What the first line adds to the messages of a stream it adds to those of a longer one. */
  lemma MessagesCons(s: string, t: string)
    requires Find(s, '\n') < |s|
    requires var s' := s[Find(s, '\n') + 1..]; Messages(s' + t) == Messages(s') + Messages(Rest(s') + t)
    ensures Messages(s + t) == Messages(s) + Messages(Rest(s) + t)
  {
    var i := Find(s, '\n');
    MessagesHead(s);
    LongerHead(s, t);
    if Trim(s[..i]) != "" {
      Associative([Trim(s[..i])], Messages(s[i + 1..]), Messages(Rest(s) + t));
    }
  }

  lemma LongerHead(s: string, t: string)
    requires Find(s, '\n') < |s|
    ensures var line, rest := Trim(s[..Find(s, '\n')]), Messages(s[Find(s, '\n') + 1..] + t);
            Messages(s + t) == if line == "" then rest else [line] + rest
  {
    FirstBreak(s, t);
    MessagesHead(s + t);
  }

  lemma FirstBreak(s: string, t: string)
    requires Find(s, '\n') < |s|
    ensures var i := Find(s, '\n');
            Find(s + t, '\n') == i && (s + t)[..i] == s[..i] && (s + t)[i + 1..] == s[i + 1..] + t
  {
    FindAppend(s, t, '\n');
  }

  lemma {:induction false} RestHasNoBreak(s: string)
    ensures '\n' !in Rest(s) && Find(Rest(s), '\n') == |Rest(s)|
    decreases |s|
  {
    var i := Find(s, '\n');
    if i < |s| {
      RestHasNoBreak(s[i + 1..]);
    } else {
      FoundFirst(s, '\n');
      assert s[..i] == s;
    }
  }

  // ---------- whole sessions ----------

  function FeedAll(chunks: seq<string>): Session {
    if chunks == [] then START else Feed(FeedAll(chunks[..|chunks| - 1]), chunks[|chunks| - 1])
  }

  /** The stream as received, without NUL bytes. */
  function Stream(chunks: seq<string>): string {
    if chunks == [] then "" else Stream(chunks[..|chunks| - 1]) + WithoutNul(chunks[|chunks| - 1])
  }

  /** An open session and the stream it has received. */
  predicate Tracks(s: Session, stream: string) {
    && s.status == Open
    && s.buffer == Rest(stream) && |s.buffer| <= MAX_LINE
    && s.emitted == Messages(stream) && !HasHttp(Messages(stream))
  }

  lemma {:induction false} RestIsShort(s: string)
    ensures |Rest(s)| <= |s|
    decreases |s|
  {
    var i := Find(s, '\n');
    if i < |s| {
      RestIsShort(s[i + 1..]);
    }
  }

  /** What one more read, neither refused nor too long, does to an open session. */
  lemma FeedMeaning(s: Session, stream: string, chunk: string)
    requires Tracks(s, stream)
    requires !(s.isNew && IsHttp(Trim(FirstLine(WithoutNul(chunk)))))
    requires |s.buffer| + |WithoutNul(chunk)| <= MAX_LINE
    ensures var s', stream' := Feed(s, chunk), stream + WithoutNul(chunk);
            && s'.emitted == UntilHttp(Messages(stream')) && !s'.isNew
            && if HasHttp(Messages(stream')) then s'.status == ForeignProtocol else Tracks(s', stream')
  {
    var data := WithoutNul(chunk);
    StreamAppend(stream, data);
    DrainMeaning(s.(buffer := s.buffer + data, isNew := false));
    UntilHttpAppend(Messages(stream), Messages(s.buffer + data));
    HttpFree(Messages(stream + data));
    RestIsShort(s.buffer + data);
  }

  /** Between reads the buffer of an open session is the stream's last line, incomplete and within the limit. */
  lemma {:induction false} SessionOpen(chunks: seq<string>)
    requires FeedAll(chunks).status == Open
    ensures Tracks(FeedAll(chunks), Stream(chunks)) && '\n' !in FeedAll(chunks).buffer
    ensures FeedAll(chunks).isNew <==> chunks == []
  {
    if chunks != [] {
      var before, chunk := chunks[..|chunks| - 1], chunks[|chunks| - 1];
      SessionOpen(before);
      FeedMeaning(FeedAll(before), Stream(before), chunk);
    }
    RestHasNoBreak(Stream(chunks));
  }

  /** The first read ends within the stream's first line and reads, trimmed, just `SM`. */
  predicate StartsWithLoneSM(chunks: seq<string>) {
    chunks != [] && '\n' !in WithoutNul(chunks[0]) && Trim(WithoutNul(chunks[0])) == "SM"
  }

  /** Once closed, a session stays as it is. */
  lemma {:induction false} ClosedStays(chunks: seq<string>, n: nat)
    requires n <= |chunks| && FeedAll(chunks[..n]).status != Open
    ensures FeedAll(chunks) == FeedAll(chunks[..n])
  {
    if n < |chunks| {
      var before := chunks[..|chunks| - 1];
      assert before[..n] == chunks[..n];
      ClosedStays(before, n);
    } else {
      assert chunks[..n] == chunks;
    }
  }

  /** Later reads add nothing to what a stream with a foreign line means. */
  lemma ForeignDecides(s: string, t: string)
    requires HasHttp(Messages(s))
    ensures UntilHttp(Messages(s + t)) == UntilHttp(Messages(s))
  {
    StreamAppend(s, t);
    UntilHttpAppend(Messages(s), Messages(Rest(s) + t));
  }

  /**
   * However a stream is cut into reads, a session that no read overran emits the stream's
   * messages up to the first foreign one; the one exception is a first read that is a lone
   * `SM` before the line is complete.
   */
  lemma {:induction false} ChunkingIrrelevant(chunks: seq<string>)
    requires FeedAll(chunks).status != TooLong && !StartsWithLoneSM(chunks)
    ensures FeedAll(chunks).emitted == UntilHttp(Messages(Stream(chunks)))
  {
    if chunks != [] {
      var n := |chunks| - 1;
      var before, chunk := chunks[..n], chunks[n];
      var s, data := FeedAll(before), WithoutNul(chunk);
      assert n > 0 ==> before[0] == chunks[0];
      if s.status == Open {
        SessionOpen(before);
        if s.isNew && IsHttp(Trim(FirstLine(data))) {
          assert Stream(before) == "" && Stream(chunks) == data;
          FirstReadForeign(data);
        } else {
          FeedMeaning(s, Stream(before), chunk);
        }
      } else {
        ChunkingIrrelevant(before);
        ClosedMeaning(before, data);
      }
    }
  }

  /** A closed session has met a foreign line, or the start of one, so more input changes nothing. */
  lemma {:induction false} ClosedMeaning(chunks: seq<string>, more: string)
    requires FeedAll(chunks).status == ForeignProtocol && !StartsWithLoneSM(chunks)
    ensures UntilHttp(Messages(Stream(chunks) + more)) == UntilHttp(Messages(Stream(chunks)))
  {
    var n := |chunks| - 1;
    var before, chunk := chunks[..n], chunks[n];
    var s, data := FeedAll(before), WithoutNul(chunk);
    assert n > 0 ==> before[0] == chunks[0];
    if s.status == Open {
      SessionOpen(before);
      if s.isNew && IsHttp(Trim(FirstLine(data))) {
        assert Stream(chunks) == data;
        FirstReadForeign(data);
        ForeignStart(data, more);
      } else {
        FeedMeaning(s, Stream(before), chunk);
        ForeignDecides(Stream(chunks), more);
      }
    } else {
      ClosedMeaning(before, data + more);
      ClosedMeaning(before, data);
      Associative(Stream(before), data, more);
    }
  }

  /** The NUL bytes are dropped, wherever they are, */
  lemma {:induction false} WithoutNulAppend(s: string, t: string)
    ensures WithoutNul(s + t) == WithoutNul(s) + WithoutNul(t)
  {
    if s == "" {
      assert s + t == t;
    } else {
      WithoutNulAppend(s[1..], t);
      assert (s + t)[1..] == s[1..] + t;
      Associative(if s[0] == '\0' then "" else [s[0]], WithoutNul(s[1..]), WithoutNul(t));
    }
  }

  /** and nothing else is. */
  lemma {:induction false} WithoutNulMeans(s: string)
    ensures '\0' !in WithoutNul(s)
    ensures '\0' !in s ==> WithoutNul(s) == s
  {
    if s != "" {
      WithoutNulMeans(s[1..]);
      assert s == [s[0]] + s[1..];
    }
  }

  predicate AllSpace(s: string) {
    forall c :: c in s ==> c == ' ' || c == '\t' || c == '\n' || c == '\r' || c == '\U{0B}' || c == '\U{0C}'
  }

  lemma {:induction false} TrimStartMeans(s: string) returns (before: string)
    ensures s == before + TrimStart(s) && AllSpace(before)
    ensures TrimStart(s) != "" ==> !AllSpace([TrimStart(s)[0]])
  {
    before := "";
    if s != "" && IsSpace(s[0]) {
      var b := TrimStartMeans(s[1..]);
      before := [s[0]] + b;
      Associative([s[0]], b, TrimStart(s));
      assert s == [s[0]] + s[1..];
    } else if s != "" {
      assert s[0] in [s[0]];
    }
  }

  lemma {:induction false} TrimEndMeans(s: string) returns (after: string)
    ensures s == TrimEnd(s) + after && AllSpace(after)
    ensures TrimEnd(s) != "" ==> !AllSpace([TrimEnd(s)[|TrimEnd(s)| - 1]])
  {
    after := "";
    if s != "" && IsSpace(s[|s| - 1]) {
      var n := |s| - 1;
      var a := TrimEndMeans(s[..n]);
      after := a + [s[n]];
      Associative(TrimEnd(s), a, [s[n]]);
      assert s == s[..n] + [s[n]];
    } else if s != "" {
      assert s[|s| - 1] in [s[|s| - 1]];
    }
  }

  /** Trimming takes off white space at both ends, all of it, and nothing else. */
  lemma TrimMeans(s: string) returns (before: string, after: string)
    ensures s == before + Trim(s) + after && AllSpace(before) && AllSpace(after)
    ensures Trim(s) != "" ==> !AllSpace([Trim(s)[0]]) && !AllSpace([Trim(s)[|Trim(s)| - 1]])
  {
    before := TrimStartMeans(s);
    after := TrimEndMeans(TrimStart(s));
    Associative(before, Trim(s), after);
    if Trim(s) != "" {
      assert Trim(s)[0] == TrimStart(s)[0];
    }
  }

  lemma {:induction false} TrimStartAppend(s: string, t: string)
    requires TrimStart(s) != ""
    ensures TrimStart(s + t) == TrimStart(s) + t
  {
    if IsSpace(s[0]) {
      assert (s + t)[1..] == s[1..] + t;
      TrimStartAppend(s[1..], t);
    }
  }

  lemma {:induction false} TrimEndPrefix(s: string)
    ensures TrimEnd(s) <= s
    ensures TrimEnd(s) != "" ==> !IsSpace(TrimEnd(s)[|TrimEnd(s)| - 1])
  {
    if s != "" && IsSpace(s[|s| - 1]) {
      TrimEndPrefix(s[..|s| - 1]);
    }
  }

  /** Trimming at the end leaves whatever ends in something else. */
  lemma {:induction false} TrimEndKeeps(s: string, p: string)
    requires p <= s && p != "" && !IsSpace(p[|p| - 1])
    ensures p <= TrimEnd(s)
  {
    if IsSpace(s[|s| - 1]) {
      assert p <= s[..|s| - 1];
      TrimEndKeeps(s[..|s| - 1], p);
    }
  }

  /** What a line reads, trimmed, it still starts with when it goes on. */
  lemma TrimGrows(s: string, t: string)
    requires Trim(s) != ""
    ensures Trim(s) <= Trim(s + t)
  {
    TrimEndPrefix(TrimStart(s));
    TrimStartAppend(s, t);
    TrimEndKeeps(TrimStart(s) + t, Trim(s));
  }

  lemma StartsHttpGrows(a: string, b: string)
    requires StartsHttp(a) && a <= b
    ensures StartsHttp(b)
  {
  }

  /** A first read that looks foreign emits nothing, and neither does its stream. */
  lemma FirstReadForeign(data: string)
    requires IsHttp(Trim(FirstLine(data)))
    ensures UntilHttp(Messages(data)) == []
  {
    var i := Find(data, '\n');
    if i < |data| {
      assert Messages(data)[0] == Trim(data[..i]);
    }
  }

  lemma ForeignStart(data: string, more: string)
    requires IsHttp(Trim(FirstLine(data))) && ('\n' in data || Trim(data) != "SM")
    ensures UntilHttp(Messages(data + more)) == []
  {
    var i, j := Find(data, '\n'), Find(data + more, '\n');
    FindAppend(data, more, '\n');
    FoundFirst(data, '\n');
    if i < |data| {
      assert (data + more)[..i] == data[..i];
      FirstReadForeign(data + more);
    } else {
      assert data[..i] == data;
      if j < |data + more| {
        var t := more[..j - |data|];
        assert (data + more)[..j] == data + t;
        assert Trim(data) != "" by {
          assert StartsHttp(Trim(data));
        }
        TrimGrows(data, t);
        StartsHttpGrows(Trim(data), Trim(data + t));
        FirstReadForeign(data + more);
      }
    }
  }

  /** In the exceptional case nothing at all is emitted, whatever else arrives. */
  lemma LoneSMRefused(chunks: seq<string>)
    requires StartsWithLoneSM(chunks)
    ensures FeedAll(chunks).emitted == [] && FeedAll(chunks).status == ForeignProtocol
  {
    var first := chunks[..1];
    assert first[..0] == [] && first[0] == chunks[0];
    var data := WithoutNul(chunks[0]);
    assert FirstLine(data) == data by {
      FoundFirst(data, '\n');
    }
    assert FeedAll(first) == Feed(START, chunks[0]);
    ClosedStays(chunks, 1);
  }

  /**
   * So the cut into reads matters exactly there: a session not refused for length emits
   * what its stream means unless it starts with a lone `SM` and its stream means something.
   */
  lemma ChunkingExactly(chunks: seq<string>)
    requires FeedAll(chunks).status != TooLong
    ensures FeedAll(chunks).emitted == UntilHttp(Messages(Stream(chunks))) <==>
            (StartsWithLoneSM(chunks) ==> UntilHttp(Messages(Stream(chunks))) == [])
  {
    if StartsWithLoneSM(chunks) {
      LoneSMRefused(chunks);
    } else {
      ChunkingIrrelevant(chunks);
    }
  }

  lemma SMxMeans()
    ensures UntilHttp(Messages("SMx\n")) == ["SMx"]
  {
    var s := "SMx\n";
    assert Find(s[3..], '\n') == 0 && s[1..][1..] == s[2..] && s[2..][1..] == s[3..];
    assert Find(s, '\n') == 3 && s[..3] == "SMx" && s[4..] == "";
    assert Trim("SMx") == "SMx";
    MessagesHead(s);
    assert "SMx"[0] == 'S';
    assert !IsHttp("SMx");
  }

  /** And it does matter for some streams. */
  lemma LoneSMExample()
    ensures StartsWithLoneSM(["SM", "x\n"])
    ensures UntilHttp(Messages(Stream(["SM", "x\n"]))) == ["SMx"]
  {
    SMIsLone();
    SMxStream();
    SMxMeans();
  }

  lemma SMIsLone()
    ensures StartsWithLoneSM(["SM", "x\n"])
  {
    assert WithoutNul("SM") == "SM" && Trim("SM") == "SM";
  }

  lemma SMxStream()
    ensures Stream(["SM", "x\n"]) == "SMx\n"
  {
    StreamOfTwo("SM", "x\n");
    assert WithoutNul("SM") == "SM" && WithoutNul("x\n") == "x\n";
  }

  lemma StreamOfTwo(a: string, b: string)
    ensures Stream([a, b]) == WithoutNul(a) + WithoutNul(b)
  {
    assert [a, b][..1] == [a] && [a][..0] == [];
    assert Stream([a]) == WithoutNul(a);
  }

  // ---------- the limit ----------

  /** Every line of a stream, and its last incomplete one, has at most `n` characters. */
  predicate LinesWithin(s: string, n: nat) {
    var i := Find(s, '\n');
    i <= n && (i == |s| || LinesWithin(s[i + 1..], n))
  }

  lemma {:induction false} RestWithin(s: string, t: string, n: nat)
    requires LinesWithin(s + t, n)
    ensures |Rest(s)| <= n
    decreases |s|
  {
    var i := Find(s, '\n');
    FindAppend(s, t, '\n');
    if i < |s| {
      assert (s + t)[i + 1..] == s[i + 1..] + t;
      RestWithin(s[i + 1..], t, n);
    } else {
      assert s[..i] == s;
    }
  }

  lemma {:induction false} WithoutNulShorter(s: string)
    ensures |WithoutNul(s)| <= |s|
  {
    if s != "" {
      WithoutNulShorter(s[1..]);
    }
  }

  /** A read is refused for length exactly when it and the incomplete line before it have over 65536 characters. */
  lemma RefusedForLength(chunks: seq<string>, chunk: string)
    requires FeedAll(chunks).status == Open
    requires !(chunks == [] && IsHttp(Trim(FirstLine(WithoutNul(chunk)))))
    ensures Feed(FeedAll(chunks), chunk).status == TooLong <==> |Rest(Stream(chunks))| + |WithoutNul(chunk)| > 65536
  {
    SessionOpen(chunks);
    if |Rest(Stream(chunks))| + |WithoutNul(chunk)| <= 65536 {
      FeedMeaning(FeedAll(chunks), Stream(chunks), chunk);
    }
  }

  /** A stream of lines no longer than the limit less one read of 1024 is never refused for length. */
  lemma {:induction false} NeverTooLong(chunks: seq<string>, more: string)
    requires forall c :: c in chunks ==> |c| <= 1024
    requires LinesWithin(Stream(chunks) + more, 64512)
    ensures FeedAll(chunks).status != TooLong
  {
    if chunks != [] {
      var before, chunk := chunks[..|chunks| - 1], chunks[|chunks| - 1];
      var data := WithoutNul(chunk);
      assert Stream(chunks) + more == Stream(before) + (data + more);
      NeverTooLong(before, data + more);
      if FeedAll(before).status == Open {
        SessionOpen(before);
        RestWithin(Stream(before), data + more, 64512);
        WithoutNulShorter(chunk);
        if !(FeedAll(before).isNew && IsHttp(Trim(FirstLine(data)))) {
          FeedMeaning(FeedAll(before), Stream(before), chunk);
        }
      }
    }
  }
}
