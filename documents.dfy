/**
 * Thread documents as the open-post handlers see them: a map from post id to a
 * post record plus an append-only replication log, and a store whose every
 * write pairs one structural change to a post with one appended message.
 */
module Documents {
  import opened GoTypes
  import opened Utf8

  type PostId = int
  type ThreadId = int

  /** Maximum length of a post body (`parser.MaxLengthBody`). */
  const MaxLengthBody: int := 2000

  const Newline: byte := 10

  /** Location of the other post of a link: its thread and board. */
  datatype Link = Link(op: ThreadId, board: string)

  type LinkMap = map<PostId, Link>

  /** A hash command result, as computed by the line parser. */
  datatype Command =
    | Dice(rolls: seq<int>)
    | Flip(heads: bool)
    | EightBall(answer: string)
    | SyncWatch(params: seq<int>)
    | Pyu(count: int)
    | Pcount(count: int)

  /** Request or response replacing part of the current line, in bytes. */
  datatype SpliceRequest = SpliceRequest(start: int64, len: int64, text: seq<byte>)

  /** Wire messages, before encoding: one per kind of write. */
  datatype Message =
    | AppendMsg(id: PostId, ch: int)
    | BackspaceMsg(id: PostId)
    | SpliceMsg(splice: SpliceRequest)
    | CommandMsg(command: Command)
    | LinkMsg(links: LinkMap)
    | BacklinkMsg(backlinks: LinkMap)
    | ClosePostMsg(id: PostId)

  /** A post inside a thread document. An absent `commands` field is `None`. */
  datatype PostRecord = PostRecord(
    body: seq<byte>,
    editing: bool,
    commands: Option<seq<Command>>,
    links: LinkMap,
    backlinks: LinkMap)

  datatype Thread = Thread(posts: map<PostId, PostRecord>, log: seq<Message>)

  type Threads = map<ThreadId, Thread>

  /** The structural part of a write, applied to one post. */
  datatype PostUpdate =
    | AppendBody(text: seq<byte>)
    | DropLastChar
    | ReplaceLastLine(line: seq<byte>)
    | AppendCommand(command: Command)
    | MergeLinks(links: LinkMap)
    | MergeBacklinks(backlinks: LinkMap)
    | StopEditing

  /** The `commands` list, read with an empty list as its default. */
  function CommandsOf(p: PostRecord): seq<Command> {
    match p.commands
    case None => []
    case Some(cs) => cs
  }

  /** The body split at every newline; `"\na"` gives `["", "a"]`, `""` gives `[""]`. */
  function SplitLines(b: seq<byte>): (ls: seq<seq<byte>>)
    ensures |ls| >= 1
    decreases |b|
  {
    if b == [] then [[]]
    else if b[0] == Newline then [[]] + SplitLines(b[1..])
    else
      var rest := SplitLines(b[1..]);
      [[b[0]] + rest[0]] + rest[1..]
  }

  /** Lines joined with newlines: the inverse of `SplitLines`. */
  function JoinLines(ls: seq<seq<byte>>): seq<byte>
    requires |ls| >= 1
    decreases |ls|
  {
    if |ls| == 1 then ls[0] else ls[0] + [Newline] + JoinLines(ls[1..])
  }

  /** One step of the body rewrite's fold: a newline goes before `line` unless the accumulator is empty. */
  function Glue(acc: seq<byte>, line: seq<byte>): seq<byte>
  {
    acc + (if acc == [] then line else [Newline] + line)
  }

  /** The fold over lines that rebuilds the body after a splice. */
  function FoldLines(acc: seq<byte>, ls: seq<seq<byte>>): seq<byte>
    decreases |ls|
  {
    if ls == [] then acc else FoldLines(Glue(acc, ls[0]), ls[1..])
  }

  /** The splice body rewrite: split into lines, drop the last, append `line`, fold back. */
  function RewriteLastLine(body: seq<byte>, line: seq<byte>): (r: seq<byte>)
    ensures |line| <= |r| && r[|r| - |line|..] == line
    ensures Newline !in body ==> r == line
  {
    var ls := SplitLines(body);
    SplitLinesCount(body);
    FoldEndsWithLast([], ls[..|ls| - 1], line);
    FoldLines([], ls[..|ls| - 1] + [line])
  }

  /** There is one line more than there are newlines in the body. */
  lemma {:induction false} SplitLinesCount(b: seq<byte>)
    ensures |SplitLines(b)| == 1 + multiset(b)[Newline]
    decreases |b|
  {
    if b != [] {
      SplitLinesCount(b[1..]);
      assert b == [b[0]] + b[1..];
      assert multiset(b) == multiset{b[0]} + multiset(b[1..]);
    }
  }

  /** The fold only extends its accumulator, and the result ends with the last line. */
  lemma {:induction false} FoldEndsWithLast(acc: seq<byte>, init: seq<seq<byte>>, last: seq<byte>)
    ensures var r := FoldLines(acc, init + [last]);
      acc <= r && |last| <= |r| && r[|r| - |last|..] == last
    decreases |init|
  {
    var ls := init + [last];
    var g := Glue(acc, ls[0]);
    assert acc <= g;
    if init == [] {
      assert FoldLines(acc, ls) == FoldLines(g, []) == g;
    } else {
      assert ls[1..] == init[1..] + [last];
      FoldEndsWithLast(g, init[1..], last);
    }
  }

  /** The effect of a structural update on one post record. */
  function Apply(p: PostRecord, u: PostUpdate): (q: PostRecord)
    ensures u.AppendBody? || u.DropLastChar? || u.ReplaceLastLine? ==> q == p.(body := q.body)
    ensures u.AppendBody? ==> p.body <= q.body && |q.body| == |p.body| + |u.text|
    ensures u.DropLastChar? ==> q.body <= p.body && (p.body != [] ==> 1 <= |p.body| - |q.body| <= 4)
    ensures u.ReplaceLastLine? ==> |u.line| <= |q.body| && q.body[|q.body| - |u.line|..] == u.line
    ensures u.AppendCommand? ==> q == p.(commands := q.commands) && q.commands == Some(CommandsOf(p) + [u.command])
    ensures u.MergeLinks? ==>
      q == p.(links := q.links) && q.links.Keys == p.links.Keys + u.links.Keys &&
      (forall k :: k in u.links ==> q.links[k] == u.links[k]) &&
      (forall k :: k in p.links && k !in u.links ==> q.links[k] == p.links[k])
    ensures u.MergeBacklinks? ==>
      q == p.(backlinks := q.backlinks) && q.backlinks.Keys == p.backlinks.Keys + u.backlinks.Keys &&
      (forall k :: k in u.backlinks ==> q.backlinks[k] == u.backlinks[k]) &&
      (forall k :: k in p.backlinks && k !in u.backlinks ==> q.backlinks[k] == p.backlinks[k])
    ensures u.StopEditing? ==> q == p.(editing := false)
  {
    match u
    case AppendBody(text) => p.(body := p.body + text)
    case DropLastChar => p.(body := p.body[..|p.body| - LastRuneSize(p.body)])
    case ReplaceLastLine(line) => p.(body := RewriteLastLine(p.body, line))
    case AppendCommand(c) => p.(commands := Some(CommandsOf(p) + [c]))
    case MergeLinks(links) => p.(links := p.links + links)
    case MergeBacklinks(backlinks) => p.(backlinks := p.backlinks + backlinks)
    case StopEditing => p.(editing := false)
  }

  /**
   * One write to a thread document: the update of post `id` and the append of
   * `msg` to the document's log, together.
   */
  function Commit(t: Thread, id: PostId, u: PostUpdate, msg: Message): (r: Thread)
    requires id in t.posts
    ensures r.posts.Keys == t.posts.Keys
    ensures forall other :: other in t.posts && other != id ==> r.posts[other] == t.posts[other]
  {
    Thread(t.posts[id := Apply(t.posts[id], u)], t.log + [msg])
  }

  /** Whether post `id` of thread `op` exists, so that a write to it can succeed. */
  predicate Writable(ts: Threads, op: ThreadId, id: PostId) {
    op in ts && id in ts[op].posts
  }

  /** The store after one successful write to post `id` of thread `op`. */
  function CommitTo(ts: Threads, op: ThreadId, id: PostId, u: PostUpdate, msg: Message): (r: Threads)
    requires Writable(ts, op, id)
    ensures r.Keys == ts.Keys
    ensures forall t :: t in ts ==> r[t].posts.Keys == ts[t].posts.Keys
  {
    ts[op := Commit(ts[op], id, u, msg)]
  }

  /** `after` is `before` with exactly one write, of `u` and `msg`, to post `id` of thread `op`. */
  ghost predicate Committed(before: Threads, after: Threads, op: ThreadId, id: PostId, u: PostUpdate, msg: Message) {
    Writable(before, op, id) && after == CommitTo(before, op, id, u, msg)
  }

  /**
   * A write addressed by post id through the secondary index: every thread
   * document holding post `id` is updated; when none does, nothing changes.
   */
  function CommitWherePost(ts: Threads, id: PostId, u: PostUpdate, msg: Message): (r: Threads)
    ensures r.Keys == ts.Keys
    ensures forall t :: t in ts ==> r[t].posts.Keys == ts[t].posts.Keys
  {
    map t | t in ts :: if id in ts[t].posts then Commit(ts[t], id, u, msg) else ts[t]
  }

  /** The backlink write for destination `dest` of a link from post `src`. */
  function BacklinkTo(ts: Threads, src: PostId, link: Link, dest: PostId): (r: Threads)
    ensures r.Keys == ts.Keys
    ensures forall t :: t in ts ==> r[t].posts.Keys == ts[t].posts.Keys
  {
    var entry := map[src := link];
    CommitWherePost(ts, dest, MergeBacklinks(entry), BacklinkMsg(entry))
  }

  /** Backlink writes for the destinations in `dests`, in that order. */
  function Backlinks(ts: Threads, src: PostId, link: Link, dests: seq<PostId>): (r: Threads)
    ensures r.Keys == ts.Keys
    ensures forall t :: t in ts ==> r[t].posts.Keys == ts[t].posts.Keys
    decreases |dests|
  {
    if dests == [] then ts
    else BacklinkTo(Backlinks(ts, src, link, dests[..|dests| - 1]), src, link, dests[|dests| - 1])
  }

  /** How many of `dests` are posts of `t`. */
  function Held(t: Thread, dests: seq<PostId>): nat
    decreases |dests|
  {
    if dests == [] then 0
    else Held(t, dests[..|dests| - 1]) + (if dests[|dests| - 1] in t.posts then 1 else 0)
  }

  function Repeat(m: Message, n: nat): (r: seq<Message>)
    ensures |r| == n
    ensures forall i :: 0 <= i < n ==> r[i] == m
  {
    if n == 0 then [] else Repeat(m, n - 1) + [m]
  }

  /*** Properties of a single write ***/

  /** A write appends exactly its own message to the log of the document it updates, and nothing else. */
  lemma CommitAppendsOneMessage(ts: Threads, op: ThreadId, id: PostId, u: PostUpdate, msg: Message)
    requires Writable(ts, op, id)
    ensures var r := CommitTo(ts, op, id, u, msg);
      r[op].log == ts[op].log + [msg] &&
      r[op].posts[id] == Apply(ts[op].posts[id], u) &&
      forall t :: t in ts && t != op ==> r[t] == ts[t]
  {
  }

  /** Appending a command keeps every earlier command, in order; the first one on a post needs no list. */
  lemma CommandsKeepArrivalOrder(p: PostRecord, c: Command)
    ensures CommandsOf(Apply(p, AppendCommand(c))) == CommandsOf(p) + [c]
    ensures p.commands.None? ==> Apply(p, AppendCommand(c)).commands == Some([c])
  {
    if p.commands.None? {
      assert CommandsOf(p) + [c] == [c];
    }
  }

  /** Two commands written in sequence appear in arrival order. */
  lemma {:induction false} CommandsInSequence(p: PostRecord, cs: seq<Command>)
    ensures CommandsOf(ApplyCommands(p, cs)) == CommandsOf(p) + cs
    decreases |cs|
  {
    if cs != [] {
      CommandsInSequence(p, cs[..|cs| - 1]);
      assert CommandsOf(p) + cs[..|cs| - 1] + [cs[|cs| - 1]] == CommandsOf(p) + cs;
    }
  }

  function ApplyCommands(p: PostRecord, cs: seq<Command>): PostRecord
    decreases |cs|
  {
    if cs == [] then p else Apply(ApplyCommands(p, cs[..|cs| - 1]), AppendCommand(cs[|cs| - 1]))
  }

  /** Deleting the last character of the stored body undoes appending one character. */
  lemma DropUndoesAppend(p: PostRecord, r: int)
    ensures Apply(Apply(p, AppendBody(EncodeRune(r))), DropLastChar) == p
  {
    DropLastRune(p.body, r);
  }

  /*** The body rewrite of a splice ***/

  /** Splitting and joining at newlines give back the body. */
  lemma {:induction false} JoinSplitLines(b: seq<byte>)
    ensures JoinLines(SplitLines(b)) == b
    decreases |b|
  {
    if b != [] {
      JoinSplitLines(b[1..]);
      var rest := SplitLines(b[1..]);
      if b[0] != Newline {
        var ls := SplitLines(b);
        assert ls[1..] == rest[1..];
        if |rest| == 1 {
        } else {
          assert JoinLines(rest) == rest[0] + [Newline] + JoinLines(rest[1..]);
        }
      }
    }
  }

  /** No line of the split holds a newline. */
  lemma {:induction false} SplitLinesHaveNoNewline(b: seq<byte>)
    ensures forall i :: 0 <= i < |SplitLines(b)| ==> Newline !in SplitLines(b)[i]
    decreases |b|
  {
    if b != [] {
      SplitLinesHaveNoNewline(b[1..]);
    }
  }

  /** Once the accumulator is non-empty, the fold is a plain join with newlines. */
  lemma {:induction false} FoldIsJoin(acc: seq<byte>, ls: seq<seq<byte>>)
    requires acc != [] && |ls| >= 1
    ensures FoldLines(acc, ls) == acc + [Newline] + JoinLines(ls)
    decreases |ls|
  {
    if |ls| > 1 {
      FoldIsJoin(Glue(acc, ls[0]), ls[1..]);
      assert Glue(acc, ls[0]) + [Newline] + JoinLines(ls[1..]) == acc + [Newline] + JoinLines(ls);
    }
  }

  /** Replacing the last element of a line list replaces the tail of its join. */
  lemma {:induction false} JoinReplaceLast(ls: seq<seq<byte>>, line: seq<byte>)
    requires |ls| >= 1
    ensures |JoinLines(ls)| >= |ls[|ls| - 1]|
    ensures JoinLines(ls[..|ls| - 1] + [line]) ==
      JoinLines(ls)[..|JoinLines(ls)| - |ls[|ls| - 1]|] + line
    decreases |ls|
  {
    if |ls| > 1 {
      JoinReplaceLast(ls[1..], line);
      assert (ls[..|ls| - 1] + [line])[1..] == ls[1..][..|ls[1..]| - 1] + [line];
      var j := JoinLines(ls[1..]);
      var k := |j| - |ls[|ls| - 1]|;
      assert JoinLines(ls) == ls[0] + [Newline] + j;
      assert (ls[0] + [Newline] + j)[..|ls[0]| + 1 + k] == ls[0] + [Newline] + j[..k];
    }
  }

  /**
   * When the body does not start with a newline, the splice rewrite replaces
   * exactly the last line of the body with `line` and keeps everything before it.
   */
  lemma RewriteReplacesLastLine(body: seq<byte>, line: seq<byte>)
    requires body == [] || body[0] != Newline
    ensures var ls := SplitLines(body); var last := ls[|ls| - 1];
      |last| <= |body| && RewriteLastLine(body, line) == body[..|body| - |last|] + line
  {
    var ls := SplitLines(body);
    JoinSplitLines(body);
    JoinReplaceLast(ls, line);
    var ls' := ls[..|ls| - 1] + [line];
    assert Glue([], ls'[0]) == ls'[0];
    assert FoldLines([], ls') == FoldLines(ls'[0], ls'[1..]);
    if |ls| > 1 {
      assert ls[0] != [] by {
        assert body != [];
        assert ls[0] == [body[0]] + SplitLines(body[1..])[0];
      }
      FoldIsJoin(ls'[0], ls'[1..]);
      assert JoinLines(ls') == ls'[0] + [Newline] + JoinLines(ls'[1..]);
    } else {
      assert ls'[1..] == [];
    }
    assert RewriteLastLine(body, line) == FoldLines([], ls') == JoinLines(ls');
  }

  /**
   * As written, the fold treats an empty accumulator as "nothing yet", so the
   * rewrite drops the body's leading empty lines: the body "\na" with the
   * current line replaced by "b" becomes "b", not "\nb".
   */
  lemma RewriteDropsLeadingNewline()
    ensures RewriteLastLine([Newline, 97], [98]) == [98]
  {
    var a: seq<byte> := [97];
    var body: seq<byte> := [Newline, 97];
    var rest := SplitLines(a[1..]);
    assert rest == [[]];
    assert [a[0]] + rest[0] == [97] && rest[1..] == [];
    assert SplitLines(a) == [[97]];
    assert body[1..] == a;
    assert SplitLines(body) == [[], [97]];
    var ls' := [[], [98]];
    assert Glue([], []) == [];
    assert Glue([], [98]) == [98];
    assert FoldLines([], ls') == FoldLines([], [[98]]) == FoldLines([98], []);
  }

  /*** Backlinks ***/

  /**
   * Link/backlink symmetry: after the backlink writes for `dests`, every post
   * named in `dests` carries a backlink from `src` with the source's location,
   * in every document that holds it.
   */
  lemma {:induction false} BacklinksPresent(ts: Threads, src: PostId, link: Link, dests: seq<PostId>, t: ThreadId, d: PostId)
    requires d in dests && t in ts && d in ts[t].posts
    ensures var r := Backlinks(ts, src, link, dests);
      t in r && d in r[t].posts && src in r[t].posts[d].backlinks && r[t].posts[d].backlinks[src] == link
    decreases |dests|
  {
    var init := dests[..|dests| - 1];
    var prev := Backlinks(ts, src, link, init);
    if d != dests[|dests| - 1] {
      assert d in init;
      BacklinksPresent(ts, src, link, init, t, d);
    }
  }

  /**
   * Every backlink write appends exactly one message to each document it
   * updates: a document's log grows by one Backlink message per destination
   * it holds, and by nothing else.
   */
  lemma {:induction false} BacklinksLog(ts: Threads, src: PostId, link: Link, dests: seq<PostId>, t: ThreadId)
    requires t in ts
    ensures Backlinks(ts, src, link, dests)[t].log ==
      ts[t].log + Repeat(BacklinkMsg(map[src := link]), Held(ts[t], dests))
    decreases |dests|
  {
    if dests != [] {
      var init := dests[..|dests| - 1];
      BacklinksLog(ts, src, link, init, t);
      var prev := Backlinks(ts, src, link, init);
      assert prev[t].posts.Keys == ts[t].posts.Keys;
      var m := BacklinkMsg(map[src := link]);
      var n := Held(ts[t], init);
      if dests[|dests| - 1] in ts[t].posts {
        assert Repeat(m, n + 1) == Repeat(m, n) + [m];
      }
    }
  }

  /** A backlink write touches only the `backlinks` of the destination post, and only the `src` entry. */
  lemma BacklinkOnlyTouchesBacklinks(ts: Threads, src: PostId, link: Link, dest: PostId, t: ThreadId, id: PostId)
    requires t in ts && id in ts[t].posts
    ensures var r := BacklinkTo(ts, src, link, dest); var p := r[t].posts[id]; var q := ts[t].posts[id];
      p.body == q.body && p.editing == q.editing && p.commands == q.commands && p.links == q.links &&
      p.backlinks == (if id == dest then q.backlinks[src := link] else q.backlinks)
  {
    var entry := map[src := link];
    assert q_backlinks: ts[t].posts[id].backlinks + entry == ts[t].posts[id].backlinks[src := link];
  }

  /*** The store ***/

  /**
   * The database holding the thread documents. Each write is atomic per
   * document, and any write may be rejected, in which case nothing changes.
   */
  class Store {
    var threads: Threads

    constructor(threads: Threads)
      ensures this.threads == threads
    {
      this.threads := threads;
    }

    /** Update post `id` of thread `op` and append `msg` to that thread's log, or fail. */
    method UpdatePost(op: ThreadId, id: PostId, u: PostUpdate, msg: Message) returns (ok: bool)
      modifies this
      ensures ok ==> Committed(old(threads), threads, op, id, u, msg)
      ensures !ok ==> threads == old(threads)
    {
      var rejected: bool := *;
      ok := !rejected && Writable(threads, op, id);
      if ok {
        threads := CommitTo(threads, op, id, u, msg);
      }
    }

    /** Update post `id` in whichever documents hold it, found by post id, or fail. */
    method UpdateWherePost(id: PostId, u: PostUpdate, msg: Message) returns (ok: bool)
      modifies this
      ensures ok ==> threads == CommitWherePost(old(threads), id, u, msg)
      ensures !ok ==> threads == old(threads)
    {
      var rejected: bool := *;
      ok := !rejected;
      if ok {
        threads := CommitWherePost(threads, id, u, msg);
      }
    }
  }
}
