/**
 * The live open-post editing protocol: the per-connection open post and the
 * handlers that append a rune, delete the last rune, splice the current line
 * and close the post, each writing to the thread document through the store.
 */
module PostUpdates {
  import opened GoTypes
  import opened Utf8
  import opened Documents

  /** The error values the handlers return. */
  datatype Error =
    | NoPostOpen            // errNoPostOpen
    | LineEmpty             // errLineEmpty
    | InvalidSpliceCoords   // errInvalidSpliceCoords
    | SpliceTooLong         // errSpliceTooLong
    | NewlineInSplice       // errNewlineInSplice
    | SpliceNoop            // errSpliceNOOP
    | BodyTooLong           // parser.ErrBodyTooLong
    | DecodeFailed          // an error from decodeMessage
    | ParseFailed           // an error from parser.ParseLine
    | WriteFailed           // an error from the database write
    | SliceOutOfRange       // a Go runtime panic: slice bounds out of range

  /** The result of decoding a client message: a value, or a decoding error. */
  datatype Decoded<T> = Decoded(value: T) | Malformed

  /** What the line parser returns: an error, or optional links and an optional command. */
  datatype ParseOutcome = ParseError | Parsed(links: Option<LinkMap>, command: Option<Command>)

  /** `parser.ParseLine`: a pure function of the line's bytes and the board. */
  type LineParser = (seq<byte>, string) -> ParseOutcome

  /** A snapshot of the connection's open post. */
  datatype OpenPost = OpenPost(buf: seq<byte>, bodyLength: int, id: PostId, op: ThreadId, board: string)

  /** The zero value `openPost{}`: no post open. */
  const Idle: OpenPost := OpenPost([], 0, 0, 0, "")

  /*** Splice validation and arithmetic ***/

  /** The coordinate case of the validation: non-negative, with the 64-bit end inside the line. */
  predicate CoordsValid(line: seq<byte>, req: SpliceRequest) {
    0 <= req.start && 0 <= req.len && Wrap64(req.start + req.len) <= |line|
  }

  /** A request that neither removes nor inserts anything. */
  predicate IsNoop(req: SpliceRequest) {
    req.len == 0 && req.text == []
  }

  /**
   * The validation switch of `spliceLine`: each check has its own error and is
   * reached only when the earlier ones pass; the coordinate sum wraps like Go's `int`.
   */
  function CheckSplice(line: seq<byte>, req: SpliceRequest): (e: Option<Error>)
    ensures e == Some(InvalidSpliceCoords) <==> !CoordsValid(line, req)
    ensures e == Some(SpliceNoop) <==> CoordsValid(line, req) && IsNoop(req)
    ensures e == Some(SpliceTooLong) <==>
      CoordsValid(line, req) && !IsNoop(req) && |req.text| > MaxLengthBody
    ensures e == Some(NewlineInSplice) <==>
      CoordsValid(line, req) && !IsNoop(req) && |req.text| <= MaxLengthBody && Newline in req.text
    ensures e == None <==>
      CoordsValid(line, req) && !IsNoop(req) && |req.text| <= MaxLengthBody && Newline !in req.text
    ensures req.start < 0 || req.len < 0 ==> e == Some(InvalidSpliceCoords)
    ensures e == None && req.start + req.len < TwoTo63 ==> req.start + req.len <= |line|
  {
    if req.start < 0 || req.len < 0 || Wrap64(req.start + req.len) > |line| then Some(InvalidSpliceCoords)
    else if req.len == 0 && req.text == [] then Some(SpliceNoop)
    else if |req.text| > MaxLengthBody then Some(SpliceTooLong)
    else if Newline in req.text then Some(NewlineInSplice)
    else None
  }

  /** The outcome of a validated splice: a runtime panic, or the new line, body length and echoed request. */
  datatype SpliceResult =
    | Panicked(bodyLength: int)
    | Spliced(line: seq<byte>, bodyLength: int, echo: SpliceRequest)

  /** `old[:Start] + Text + old[Start+Len:]`. */
  function SplicedLine(line: seq<byte>, start: nat, len: nat, text: seq<byte>): (r: seq<byte>)
    requires start + len <= |line|
    ensures |r| == |line| - len + |text|
    ensures r[..start] == line[..start]
    ensures r[start..start + |text|] == text
    ensures r[start + |text|..] == line[start + len..]
  {
    line[..start] + text + line[start + len..]
  }

  /**
   * The splice of a request that passed validation: the new line, the body
   * length moved by the net byte delta, and on overflow the line truncated so
   * that the body length is exactly `MaxLengthBody`, echoed with `len = -1`.
   */
  function SpliceStep(line: seq<byte>, bodyLength: int, req: SpliceRequest): (r: SpliceResult)
    requires CheckSplice(line, req) == None
    ensures r.Panicked? <==> req.start + req.len > |line| || bodyLength > MaxLengthBody + |line|
    ensures r.Spliced? ==>
      var full := SplicedLine(line, req.start, req.len, req.text);
      r.bodyLength <= MaxLengthBody &&
      r.bodyLength - |r.line| == bodyLength - |line| &&
      |r.line| <= |full| && r.line == full[..|r.line|] &&
      r.echo.start == req.start
    ensures r.Spliced? && r.echo.len != -1 ==>
      r.echo == req && r.line == SplicedLine(line, req.start, req.len, req.text) &&
      r.bodyLength == bodyLength - req.len + |req.text|
    ensures r.Spliced? && r.echo.len == -1 ==>
      r.bodyLength == MaxLengthBody && r.echo.text == r.line &&
      bodyLength - req.len + |req.text| > MaxLengthBody
  {
    if req.start + req.len > |line| then
      Panicked(bodyLength)
    else
      var full := SplicedLine(line, req.start, req.len, req.text);
      var grown := bodyLength - req.len + |req.text|;
      if grown <= MaxLengthBody then Spliced(full, grown, req)
      else
        var keep := |full| - (grown - MaxLengthBody);
        if keep < 0 then Panicked(grown)
        else Spliced(full[..keep], MaxLengthBody, SpliceRequest(req.start, -1, full[..keep]))
  }

  /** A range ending one byte past the line is refused as bad coordinates, before the no-op check. */
  lemma SpliceBoundaryRejected()
    ensures CheckSplice([97, 98, 99, 100, 101, 102], SpliceRequest(5, 3, [])) == Some(InvalidSpliceCoords)
    ensures CheckSplice([97, 98, 99, 100, 101, 102], SpliceRequest(5, 1, [])) == None
  {
    assert Wrap64(8) == 8 && Wrap64(6) == 6;
  }

  /** A request with valid coordinates that removes and inserts nothing is a no-op. */
  lemma SpliceNoopRejected()
    ensures CheckSplice([97, 98], SpliceRequest(2, 0, [])) == Some(SpliceNoop)
  {
    assert Wrap64(2) == 2;
  }

  /**
   * Validation is enough for the splice to go through, unless the coordinates
   * wrap around 64 bits or the body length already exceeds the limit by more
   * than the line.
   */
  lemma ValidatedSpliceSucceeds(line: seq<byte>, bodyLength: int, req: SpliceRequest)
    requires CheckSplice(line, req) == None
    requires req.start + req.len < TwoTo63 && bodyLength <= MaxLengthBody + |line|
    ensures SpliceStep(line, bodyLength, req).Spliced?
  {
  }

  /** On overflow the splice keeps just enough of the line for the body to reach the limit. */
  lemma SpliceTruncatesAtLimit()
    ensures var req := SpliceRequest(2, 0, [99, 100, 101, 102, 103]);
      CheckSplice([97, 98], req) == None &&
      SpliceStep([97, 98], MaxLengthBody - 2, req) ==
        Spliced([97, 98, 99, 100], MaxLengthBody, SpliceRequest(2, -1, [97, 98, 99, 100]))
  {
    var line: seq<byte> := [97, 98];
    var text: seq<byte> := [99, 100, 101, 102, 103];
    var full := SplicedLine(line, 2, 0, text);
    assert full == [97, 98, 99, 100, 101, 102, 103];
    assert full[..4] == [97, 98, 99, 100];
  }

  /**
   * Coordinates whose sum wraps around Go's 64-bit `int` pass the validation,
   * and slicing at the true offsets then panics.
   */
  lemma WrappedCoordinatesPanic()
    ensures var req := SpliceRequest(TwoTo63 / 2, TwoTo63 / 2, [120]);
      CheckSplice([], req) == None && SpliceStep([], 0, req).Panicked?
  {
    assert Wrap64(TwoTo63) == -TwoTo63;
  }

  /**
   * A body length pushed past the limit by failed closes (each adds one and
   * leaves the post open) makes the truncation cut more than the line holds.
   */
  lemma InflatedBodyLengthPanics()
    ensures var req := SpliceRequest(1, 0, [121]);
      CheckSplice([120], req) == None && SpliceStep([120], MaxLengthBody + 2, req) == Panicked(MaxLengthBody + 3)
  {
  }

  /**
   * Backspace undoes appending a character: the open post's snapshot after
   * appending rune `r` and then deleting the last rune is the one before.
   */
  lemma BackspaceUndoesAppend(s: OpenPost, r: int)
    ensures var s1 := s.(buf := s.buf + EncodeRune(r), bodyLength := s.bodyLength + 1);
      s1.(buf := s1.buf[..|s1.buf| - LastRuneSize(s1.buf)], bodyLength := s1.bodyLength - 1) == s
  {
    DropLastRune(s.buf, r);
  }

  /*** Specifications of the handlers, as relations between snapshots ***/

  /** A write through `updatePost`: one committed update and message, or a failure that changed nothing. */
  ghost predicate WriteOutcome(t0: Threads, t1: Threads, op: ThreadId, id: PostId, u: PostUpdate, msg: Message, err: Option<Error>) {
    (err == None && Committed(t0, t1, op, id, u, msg)) || (err == Some(WriteFailed) && t1 == t0)
  }

  /** `written` lists distinct destinations of `links`. */
  ghost predicate DestinationOrder(written: seq<PostId>, links: LinkMap) {
    (forall i :: 0 <= i < |written| ==> written[i] in links) &&
    (forall i, j :: 0 <= i < j < |written| ==> written[i] != written[j])
  }

  /**
   * `writeLinks`: the source post's links and a Link message first; a failure
   * there writes no backlinks. Then one backlink write per destination, in the
   * order `written`, stopping at the first failure.
   */
  ghost predicate LinksWritten(t0: Threads, t1: Threads, src: PostId, op: ThreadId, board: string,
                               links: LinkMap, err: Option<Error>, written: seq<PostId>)
  {
    (err == Some(WriteFailed) && t1 == t0 && written == []) ||
    (Writable(t0, op, src) &&
     DestinationOrder(written, links) &&
     t1 == Backlinks(CommitTo(t0, op, src, MergeLinks(links), LinkMsg(links)), src, Link(op, board), written) &&
     (err == None <==> forall d :: d in links ==> d in written) &&
     (err != None ==> err == Some(WriteFailed)))
  }

  /** The loop state of `writeLinks`: `written` are the destinations done, `remaining` the rest. */
  ghost predicate LinkProgress(linked: Threads, src: PostId, link: Link, links: LinkMap,
                               remaining: set<PostId>, written: seq<PostId>, threads: Threads)
  {
    remaining <= links.Keys &&
    DestinationOrder(written, links) &&
    (forall d :: d in links ==> (d in written <==> d !in remaining)) &&
    threads == Backlinks(linked, src, link, written)
  }

  /** Writing the backlink of one remaining destination moves it from `remaining` to `written`. */
  lemma LinkProgressStep(linked: Threads, src: PostId, link: Link, links: LinkMap,
                         remaining: set<PostId>, written: seq<PostId>, dest: PostId)
    requires LinkProgress(linked, src, link, links, remaining, written, Backlinks(linked, src, link, written))
    requires dest in remaining
    ensures LinkProgress(linked, src, link, links, remaining - {dest}, written + [dest],
                         BacklinkTo(Backlinks(linked, src, link, written), src, link, dest))
  {
    var w := written + [dest];
    assert w[..|w| - 1] == written;
  }

  /** What `parseLine` does after the optional newline: a command wins over links; neither writes nothing. */
  ghost predicate Dispatched(s0: OpenPost, t0: Threads, t1: Threads, links: Option<LinkMap>, command: Option<Command>,
                             err: Option<Error>, written: seq<PostId>)
  {
    if command.Some? then
      written == [] &&
      WriteOutcome(t0, t1, s0.op, s0.id, AppendCommand(command.value), CommandMsg(command.value), err)
    else if links.Some? then
      LinksWritten(t0, t1, s0.id, s0.op, s0.board, links.value, err, written)
    else
      err == None && t1 == t0 && written == []
  }

  /**
   * `parseLine(c, nl)`: the body length grows by one first; a parser error
   * leaves the line in place; otherwise the line is emptied on every path, the
   * newline is written only when `nl`, and the parse result is dispatched.
   */
  ghost predicate LineFinalized(s0: OpenPost, s1: OpenPost, t0: Threads, t1: Threads, nl: bool,
                                outcome: ParseOutcome, err: Option<Error>, written: seq<PostId>)
  {
    match outcome
    case ParseError =>
      err == Some(ParseFailed) && s1 == s0.(bodyLength := s0.bodyLength + 1) && t1 == t0 && written == []
    case Parsed(links, command) =>
      s1 == s0.(bodyLength := s0.bodyLength + 1, buf := []) &&
      ((nl && err == Some(WriteFailed) && t1 == t0 && written == []) ||
       ((nl ==> Writable(t0, s0.op, s0.id)) &&
        Dispatched(s0,
                   if nl then CommitTo(t0, s0.op, s0.id, AppendBody([Newline]), AppendMsg(s0.id, Newline)) else t0,
                   t1, links, command, err, written)))
  }

  /*** The connection ***/

  /** The client connection: its open post and the database it writes to. */
  class Client {
    const store: Store
    var buf: seq<byte>      // the unterminated current line
    var bodyLength: int
    var id: PostId
    var op: ThreadId
    var board: string

    /** A connection with no post open. */
    constructor(store: Store)
      ensures this.store == store && State() == Idle
    {
      this.store := store;
      buf, bodyLength, id, op, board := [], 0, 0, 0, "";
    }

    function State(): OpenPost
      reads this
    {
      OpenPost(buf, bodyLength, id, op, board)
    }

    /** `hasPost`: a post is open when the open post's id is set. */
    predicate HasPost()
      reads this
      ensures HasPost() ==> State() != Idle
    {
      id != 0
    }

    /** `updatePost`: one write of `u` and `msg` to the open post's thread document. */
    method UpdatePost(u: PostUpdate, msg: Message) returns (err: Option<Error>)
      modifies store
      ensures WriteOutcome(old(store.threads), store.threads, op, id, u, msg, err)
    {
      var ok := store.UpdatePost(op, id, u, msg);
      err := if ok then None else Some(WriteFailed);
    }

    /** `appendRune`: add one character to the current line. */
    method AppendRune(data: Decoded<rune>, parse: LineParser) returns (err: Option<Error>, ghost written: seq<PostId>)
      modifies this, store
      ensures !old(HasPost()) ==>
        err == Some(NoPostOpen) && State() == old(State()) && store.threads == old(store.threads)
      ensures old(HasPost()) && old(bodyLength) + 1 > MaxLengthBody ==>
        err == Some(BodyTooLong) && State() == old(State()) && store.threads == old(store.threads)
      ensures old(HasPost()) && old(bodyLength) + 1 <= MaxLengthBody && data.Malformed? ==>
        err == Some(DecodeFailed) && State() == old(State()) && store.threads == old(store.threads)
      ensures old(HasPost()) && old(bodyLength) + 1 <= MaxLengthBody && data == Decoded(Newline) ==>
        LineFinalized(old(State()), State(), old(store.threads), store.threads, true,
                      parse(old(buf), old(board)), err, written)
      ensures old(HasPost()) && old(bodyLength) + 1 <= MaxLengthBody && data.Decoded? && data.value != Newline ==>
        written == [] &&
        WriteOutcome(old(store.threads), store.threads, old(op), old(id),
                     AppendBody(EncodeRune(data.value)), AppendMsg(old(id), data.value), err) &&
        State() == if err == None
                   then old(State()).(buf := old(buf) + EncodeRune(data.value), bodyLength := old(bodyLength) + 1)
                   else old(State())
      ensures old(bodyLength) <= MaxLengthBody && err == None ==> bodyLength <= MaxLengthBody
    {
      written := [];
      if !HasPost() {
        return Some(NoPostOpen), written;
      }
      if bodyLength + 1 > MaxLengthBody {
        return Some(BodyTooLong), written;
      }
      if data.Malformed? {
        return Some(DecodeFailed), written;
      }
      var ch := data.value;
      if ch == Newline {
        err, written := ParseLine(true, parse);
        return;
      }
      err := UpdatePost(AppendBody(EncodeRune(ch)), AppendMsg(id, ch));
      if err != None {
        return;
      }
      buf := buf + EncodeRune(ch);
      bodyLength := bodyLength + 1;
    }

    /**
     * `parseLine`: commit the end of the current line, then write the command
     * or the links the parser found in it.
     */
    method ParseLine(insertNewline: bool, parse: LineParser) returns (err: Option<Error>, ghost written: seq<PostId>)
      modifies this, store
      ensures LineFinalized(old(State()), State(), old(store.threads), store.threads, insertNewline,
                            parse(old(buf), old(board)), err, written)
    {
      written := [];
      bodyLength := bodyLength + 1;
      var outcome := parse(buf, board);
      if outcome.ParseError? {
        return Some(ParseFailed), written;
      }
      // From here on, the deferred Reset empties the line on every return.
      if insertNewline {
        err := UpdatePost(AppendBody([Newline]), AppendMsg(id, Newline));
        if err != None {
          buf := [];
          return;
        }
      }
      match outcome.command {
        case Some(comm) =>
          err := WriteCommand(comm);
        case None =>
          match outcome.links {
            case Some(links) =>
              err, written := WriteLinks(links);
            case None =>
              err := None;
          }
      }
      buf := [];
    }

    /** `writeCommand`: append a hash command result to the post's command list. */
    method WriteCommand(comm: Command) returns (err: Option<Error>)
      modifies store
      ensures WriteOutcome(old(store.threads), store.threads, op, id, AppendCommand(comm), CommandMsg(comm), err)
    {
      err := UpdatePost(AppendCommand(comm), CommandMsg(comm));
    }

    /**
     * `writeLinks`: record the post's links, then a backlink in every linked
     * post, one destination at a time in an unspecified order, stopping at the
     * first failure. `written` is the order in which backlinks were written.
     */
    method WriteLinks(links: LinkMap) returns (err: Option<Error>, ghost written: seq<PostId>)
      modifies store
      ensures LinksWritten(old(store.threads), store.threads, id, op, board, links, err, written)
    {
      written := [];
      err := UpdatePost(MergeLinks(links), LinkMsg(links));
      if err != None {
        return;
      }
      ghost var linked := store.threads;
      var remaining := links.Keys;
      while remaining != {}
        invariant err == None
        invariant Writable(old(store.threads), op, id)
        invariant linked == CommitTo(old(store.threads), op, id, MergeLinks(links), LinkMsg(links))
        invariant LinkProgress(linked, id, Link(op, board), links, remaining, written, store.threads)
        decreases remaining
      {
        var dest := PickDestination(remaining);
        err := WriteBacklink(store, id, op, board, dest);
        if err != None {
          assert dest in links && dest !in written;
          return;
        }
        LinkProgressStep(linked, id, Link(op, board), links, remaining, written, dest);
        written := written + [dest];
        remaining := remaining - {dest};
      }
    }

    /** `backspace`: remove the last UTF-8 character of the current line. */
    method Backspace() returns (err: Option<Error>)
      modifies this, store
      ensures !old(HasPost()) ==>
        err == Some(NoPostOpen) && State() == old(State()) && store.threads == old(store.threads)
      ensures old(HasPost()) && old(buf) == [] ==>
        err == Some(LineEmpty) && State() == old(State()) && store.threads == old(store.threads)
      ensures old(HasPost()) && old(buf) != [] ==>
        State() == old(State()).(buf := old(buf)[..|old(buf)| - LastRuneSize(old(buf))],
                                 bodyLength := old(bodyLength) - 1) &&
        WriteOutcome(old(store.threads), store.threads, old(op), old(id), DropLastChar, BackspaceMsg(old(id)), err)
    {
      if !HasPost() {
        return Some(NoPostOpen);
      }
      var length := |buf|;
      if length == 0 {
        return Some(LineEmpty);
      }
      var lastRuneLen := LastRuneSize(buf);
      buf := buf[..length - lastRuneLen];
      bodyLength := bodyLength - 1;
      err := UpdatePost(DropLastChar, BackspaceMsg(id));
    }

    /**
     * `closePost`: finalise a non-empty line without a newline; if that fails
     * the post stays open. Otherwise write `editing: false` and reset the
     * connection to no open post, whether or not that write succeeds.
     */
    method ClosePost(parse: LineParser)
      returns (err: Option<Error>, ghost lineErr: Option<Error>, ghost finalized: OpenPost,
               ghost afterLine: Threads, ghost written: seq<PostId>)
      modifies this, store
      ensures !old(HasPost()) ==>
        err == Some(NoPostOpen) && State() == old(State()) && store.threads == old(store.threads)
      ensures old(HasPost()) && old(buf) != [] ==>
        LineFinalized(old(State()), finalized, old(store.threads), afterLine, false,
                      parse(old(buf), old(board)), lineErr, written)
      ensures old(HasPost()) && old(buf) == [] ==>
        lineErr == None && afterLine == old(store.threads) && written == []
      ensures old(HasPost()) && lineErr != None ==>
        err == lineErr && State() == finalized && store.threads == afterLine
      ensures old(HasPost()) && lineErr == None ==>
        State() == Idle &&
        WriteOutcome(afterLine, store.threads, old(op), old(id), StopEditing, ClosePostMsg(old(id)), err)
    {
      written, lineErr, finalized, afterLine := [], None, State(), store.threads;
      if !HasPost() {
        return Some(NoPostOpen), lineErr, finalized, afterLine, written;
      }
      ghost var op0, id0 := op, id;
      if |buf| != 0 {
        var e;
        e, written := ParseLine(false, parse);
        lineErr, finalized, afterLine := e, State(), store.threads;
        if e != None {
          return e, lineErr, finalized, afterLine, written;
        }
      }
      // From here on, the deferred reset to the zero value runs on every return.
      err := UpdatePost(StopEditing, ClosePostMsg(id));
      buf, bodyLength, id, op, board := [], 0, 0, 0, "";
    }

    /** `spliceLine`: replace a byte range of the current line. */
    method SpliceLine(data: Decoded<SpliceRequest>) returns (err: Option<Error>)
      modifies this, store
      ensures !old(HasPost()) ==>
        err == Some(NoPostOpen) && State() == old(State()) && store.threads == old(store.threads)
      ensures old(HasPost()) && data.Malformed? ==>
        err == Some(DecodeFailed) && State() == old(State()) && store.threads == old(store.threads)
      ensures old(HasPost()) && data.Decoded? && CheckSplice(old(buf), data.value) != None ==>
        err == CheckSplice(old(buf), data.value) && State() == old(State()) && store.threads == old(store.threads)
      ensures old(HasPost()) && data.Decoded? && CheckSplice(old(buf), data.value) == None ==>
        var r := SpliceStep(old(buf), old(bodyLength), data.value);
        (r.Panicked? ==>
           err == Some(SliceOutOfRange) && State() == old(State()).(bodyLength := r.bodyLength) &&
           store.threads == old(store.threads)) &&
        (r.Spliced? ==>
           State() == old(State()).(buf := r.line, bodyLength := r.bodyLength) &&
           WriteOutcome(old(store.threads), store.threads, old(op), old(id),
                        ReplaceLastLine(r.line), SpliceMsg(r.echo), err))
    {
      if !HasPost() {
        return Some(NoPostOpen);
      }
      var oldLine := buf;
      if data.Malformed? {
        return Some(DecodeFailed);
      }
      var req := data.value;
      var invalid := CheckSplice(oldLine, req);
      if invalid != None {
        return invalid;
      }
      err := ApplySplice(req);
    }

    /** The part of `spliceLine` after validation: slice, move the body length, trim, write. */
    method ApplySplice(req0: SpliceRequest) returns (err: Option<Error>)
      requires HasPost() && CheckSplice(buf, req0) == None
      modifies this`buf, this`bodyLength, store
      ensures var r := SpliceStep(old(buf), old(bodyLength), req0);
        (r.Panicked? ==>
           err == Some(SliceOutOfRange) && State() == old(State()).(bodyLength := r.bodyLength) &&
           store.threads == old(store.threads)) &&
        (r.Spliced? ==>
           State() == old(State()).(buf := r.line, bodyLength := r.bodyLength) &&
           WriteOutcome(old(store.threads), store.threads, old(op), old(id),
                        ReplaceLastLine(r.line), SpliceMsg(r.echo), err))
    {
      ghost var r := SpliceStep(buf, bodyLength, req0);
      var req := req0;
      var oldLine := buf;
      if req.start + req.len > |oldLine| {
        // The wrapped sum passed the check, but slicing at the true offsets panics.
        assert r == Panicked(bodyLength);
        return Some(SliceOutOfRange);
      }
      var newLine := oldLine[..req.start] + req.text + oldLine[req.start + req.len..];
      bodyLength := bodyLength + (-req.len + |req.text|);
      if bodyLength > MaxLengthBody {
        var exceeding := bodyLength - MaxLengthBody;
        if |newLine| - exceeding < 0 {
          assert r == Panicked(bodyLength);
          return Some(SliceOutOfRange);
        }
        newLine := newLine[..|newLine| - exceeding];
        req := req.(len := -1, text := newLine);
        bodyLength := MaxLengthBody;
      }
      assert r == Spliced(newLine, bodyLength, req);
      err := WriteLine(newLine, req);
    }

    /** The end of `spliceLine`: the line buffer becomes `line`, then the body's last line is replaced. */
    method WriteLine(line: seq<byte>, echo: SpliceRequest) returns (err: Option<Error>)
      modifies this`buf, store
      ensures buf == line
      ensures WriteOutcome(old(store.threads), store.threads, op, id, ReplaceLastLine(line), SpliceMsg(echo), err)
    {
      buf := [];
      buf := buf + line;
      err := UpdatePost(ReplaceLastLine(line), SpliceMsg(echo));
    }
  }

  /** Some element of `s`: Go leaves the iteration order of a map unspecified. */
  method PickDestination(s: set<PostId>) returns (d: PostId)
    requires s != {}
    ensures d in s
  {
    SomeElement(s);
    d :| d in s;
  }

  lemma SomeElement(s: set<PostId>)
    ensures s == {} || exists d :: d in s
  {
    if forall d :: d !in s {
      assert s == {};
    }
  }

  /** `writeBacklink`: record in every document holding post `destID` that post `id` links to it. */
  method WriteBacklink(store: Store, id: PostId, op: ThreadId, board: string, destID: PostId) returns (err: Option<Error>)
    modifies store
    ensures err == None ==> store.threads == BacklinkTo(old(store.threads), id, Link(op, board), destID)
    ensures err != None ==> err == Some(WriteFailed) && store.threads == old(store.threads)
  {
    var entry := map[id := Link(op, board)];
    var ok := store.UpdateWherePost(destID, MergeBacklinks(entry), BacklinkMsg(entry));
    err := if ok then None else Some(WriteFailed);
  }
}
