/**
 * The client's post model: the file-extension table and the inline-formatting
 * tokenizer that wraps code, spoiler, bold and italic runs of a post line in
 * tags, keeping a stack of open tags in the text state.
 */
module Models {
  import opened GoTypes

  // ---------------------------------------------------------------------------
  // File types

  /** The file type of a post image or of its thumbnail. */
  datatype FileType =
    | Jpg | Png | Gif | Webm | Pdf | Svg | Mp4 | Mp3 | Ogg | Zip | SevenZip
    | Targz | Tarxz | Flac | NoFile | Txt

  /** The extension the extension table maps a file type to; `NoFile` has none. */
  function Extension(t: FileType): (e: Option<string>)
    ensures e.None? <==> t == NoFile
    ensures e.Some? ==> e.value != [] && e.value[0] != '.'
  {
    match t
    case Jpg => Some("jpg")
    case Png => Some("png")
    case Gif => Some("gif")
    case Webm => Some("webm")
    case Pdf => Some("pdf")
    case Svg => Some("svg")
    case Mp4 => Some("mp4")
    case Mp3 => Some("mp3")
    case Ogg => Some("ogg")
    case Zip => Some("zip")
    case SevenZip => Some("7z")
    case Targz => Some("tar.gz")
    case Tarxz => Some("tar.xz")
    case Flac => Some("flac")
    case NoFile => None
    case Txt => Some("txt")
  }

  /** No two file types share an extension, so an extension names its type. */
  lemma ExtensionsDistinct(a: FileType, b: FileType)
    requires Extension(a).Some? && Extension(a) == Extension(b)
    ensures a == b
  {
  }

  // ---------------------------------------------------------------------------
  // Splitting a fragment on a separator

  /** `sep` occurs in `s` starting at index `j`. */
  predicate OccursAt(s: string, sep: string, j: int) {
    0 <= j && j + |sep| <= |s| && s[j..j + |sep|] == sep
  }

  /** `string_view::find`: the first index at which `sep` occurs in `s`, if any. */
  function Find(s: string, sep: string): (r: Option<nat>)
    requires sep != []
    ensures r.Some? ==> OccursAt(s, sep, r.value)
    ensures r.Some? ==> forall j :: 0 <= j < r.value ==> !OccursAt(s, sep, j)
    ensures r.None? ==> forall j :: !OccursAt(s, sep, j)
    decreases |s|
  {
    if |s| < |sep| then None
    else if s[..|sep|] == sep then Some(0)
    else
      var r := Find(s[1..], sep);
      ShiftOccurrence(s, sep);
      match r
      case None => None
      case Some(i) => Some(i + 1)
  }

  /** An occurrence in `s[1..]` is an occurrence in `s` one place further on. */
  lemma ShiftOccurrence(s: string, sep: string)
    requires s != []
    ensures forall j :: 0 <= j ==> (OccursAt(s[1..], sep, j) <==> OccursAt(s, sep, j + 1))
    ensures forall j :: 1 <= j ==> (OccursAt(s, sep, j) <==> OccursAt(s[1..], sep, j - 1))
  {
    forall j | 0 <= j ensures OccursAt(s[1..], sep, j) <==> OccursAt(s, sep, j + 1) {
      if 0 <= j && j + |sep| <= |s| - 1 {
        assert s[1..][j..j + |sep|] == s[j + 1..j + 1 + |sep|];
      }
    }
  }

  /** The pieces of `s` between the occurrences of `sep`, scanned left to right. */
  function Split(s: string, sep: string): (ps: seq<string>)
    requires sep != []
    ensures |ps| >= 1
    decreases |s|
  {
    match Find(s, sep)
    case None => [s]
    case Some(i) => [s[..i]] + Split(s[i + |sep|..], sep)
  }

  /** The pieces glued back together with `sep` between them. */
  function Join(ps: seq<string>, sep: string): string
    requires |ps| >= 1
  {
    if |ps| == 1 then ps[0] else ps[0] + sep + Join(ps[1..], sep)
  }

  /** One part exactly when the separator does not occur; the first part is a prefix of the fragment. */
  lemma SplitFirstPart(s: string, sep: string)
    requires sep != []
    ensures |Split(s, sep)| == 1 <==> Find(s, sep).None?
    ensures Split(s, sep)[0] <= s
  {
  }

  /** The number of non-overlapping occurrences of `sep` in `s`, leftmost first. */
  function Count(s: string, sep: string): (c: nat)
    requires sep != []
    ensures c * |sep| <= |s|
    decreases |s|
  {
    if |s| < |sep| then 0
    else if s[..|sep|] == sep then 1 + Count(s[|sep|..], sep)
    else Count(s[1..], sep)
  }

  /** Joining the pieces with the separator gives back the fragment. */
  lemma {:induction false} SplitJoin(s: string, sep: string)
    requires sep != []
    ensures Join(Split(s, sep), sep) == s
    decreases |s|
  {
    match Find(s, sep)
    case None =>
    case Some(i) =>
      var rest := s[i + |sep|..];
      var ps := Split(s, sep);
      SplitJoin(rest, sep);
      assert ps == [s[..i]] + Split(rest, sep);
      assert ps[1..] == Split(rest, sep);
      assert Join(ps, sep) == s[..i] + sep + Join(Split(rest, sep), sep);
      assert s == s[..i] + s[i..i + |sep|] + rest;
  }

  /** `Count` skips any prefix free of occurrences. */
  lemma {:induction false} CountSkip(s: string, sep: string, i: nat)
    requires sep != [] && i <= |s|
    requires forall j :: 0 <= j < i ==> !OccursAt(s, sep, j)
    ensures Count(s, sep) == Count(s[i..], sep)
    decreases i
  {
    if i > 0 {
      assert !OccursAt(s, sep, 0);
      if |s| >= |sep| {
        assert s[..|sep|] != sep;
      }
      ShiftOccurrence(s, sep);
      CountSkip(s[1..], sep, i - 1);
      assert s[1..][i - 1..] == s[i..];
    }
  }

  /** The filler runs once more than the separator matches. */
  lemma {:induction false} SplitCount(s: string, sep: string)
    requires sep != []
    ensures |Split(s, sep)| == Count(s, sep) + 1
    decreases |s|
  {
    match Find(s, sep)
    case None =>
      CountSkip(s, sep, |s|);
    case Some(i) =>
      var rest := s[i + |sep|..];
      SplitCount(rest, sep);
      CountSkip(s, sep, i);
      var tail := s[i..];
      assert |tail| >= |sep| && tail[..|sep|] == sep;
      assert tail[|sep|..] == rest;
      assert Count(tail, sep) == 1 + Count(rest, sep);
      assert |Split(s, sep)| == 1 + |Split(rest, sep)|;
  }

  /** No piece contains the separator. */
  lemma {:induction false} SplitPiecesFree(s: string, sep: string)
    requires sep != []
    ensures forall k, j :: 0 <= k < |Split(s, sep)| ==> !OccursAt(Split(s, sep)[k], sep, j)
    decreases |s|
  {
    match Find(s, sep)
    case None =>
    case Some(i) =>
      var rest := s[i + |sep|..];
      SplitPiecesFree(rest, sep);
      forall j | OccursAt(s[..i], sep, j) ensures false {
        assert s[..i][j..j + |sep|] == s[j..j + |sep|];
        assert OccursAt(s, sep, j);
      }
      assert Split(s, sep)[1..] == Split(rest, sep);
  }

  // ---------------------------------------------------------------------------
  // Callback events

  /** One callback of the string scanner: the filler on a piece, or the match handler. */
  datatype Event = Fill(piece: string) | Match

  /** The callbacks for a sequence of pieces: fill, match, fill, ..., fill. */
  function Interleave(ps: seq<string>): seq<Event>
    requires |ps| >= 1
  {
    if |ps| == 1 then [Fill(ps[0])] else [Fill(ps[0]), Match] + Interleave(ps[1..])
  }

  /** Without an occurrence of the separator the filler gets the whole fragment. */
  lemma {:induction false} InterleaveNoMatch(s: string, sep: string)
    requires sep != [] && Find(s, sep).None?
    ensures Interleave(Split(s, sep)) == [Fill(s)]
  {
  }

  /** With an occurrence, the filler gets the piece before it, then the match handler runs, then the rest is scanned. */
  lemma {:induction false} InterleaveFirstMatch(s: string, sep: string, i: nat)
    requires sep != [] && Find(s, sep) == Some(i)
    ensures i + |sep| <= |s|
    ensures Interleave(Split(s, sep)) == [Fill(s[..i]), Match] + Interleave(Split(s[i + |sep|..], sep))
  {
    assert OccursAt(s, sep, i);
    var rest := Split(s[i + |sep|..], sep);
    var ps := [s[..i]] + rest;
    assert Split(s, sep) == ps;
    assert |ps| != 1 && ps[0] == s[..i] && ps[1..] == rest;
    assert Interleave(ps) == [Fill(ps[0]), Match] + Interleave(ps[1..]);
  }

  /** The number of match callbacks. */
  function Matches(es: seq<Event>): nat {
    multiset(es)[Match]
  }

  /** The pieces handed to the filler, in order. */
  function Fills(es: seq<Event>): seq<string> {
    if es == [] then []
    else Fills(es[..|es| - 1]) + (if es[|es| - 1].Fill? then [es[|es| - 1].piece] else [])
  }

  lemma {:induction false} FillsAppend(a: seq<Event>, b: seq<Event>)
    ensures Fills(a + b) == Fills(a) + Fills(b)
    decreases |b|
  {
    if b != [] {
      FillsAppend(a, b[..|b| - 1]);
      assert (a + b)[..|a + b| - 1] == a + b[..|b| - 1];
    } else {
      assert a + b == a;
    }
  }

  /** Between consecutive fills there is exactly one match. */
  lemma {:induction false} InterleaveMatches(ps: seq<string>)
    requires |ps| >= 1
    ensures Matches(Interleave(ps)) == |ps| - 1
  {
    if |ps| > 1 {
      InterleaveMatches(ps[1..]);
      assert Interleave(ps) == [Fill(ps[0]), Match] + Interleave(ps[1..]);
      assert multiset(Interleave(ps)) == multiset([Fill(ps[0]), Match]) + multiset(Interleave(ps[1..]));
    }
  }

  /** The filler receives the pieces, in order. */
  lemma {:induction false} InterleaveFills(ps: seq<string>)
    requires |ps| >= 1
    ensures Fills(Interleave(ps)) == ps
  {
    var head := [Fill(ps[0])];
    assert head[..0] == [];
    assert Fills(head) == [ps[0]];
    if |ps| > 1 {
      InterleaveFills(ps[1..]);
      var pair := [Fill(ps[0]), Match];
      assert pair[..1] == head;
      assert Fills(pair) == [ps[0]];
      FillsAppend(pair, Interleave(ps[1..]));
      assert ps == [ps[0]] + ps[1..];
    }
  }

  /** A fragment yields one match callback per occurrence of the separator. */
  lemma ScanCounts(s: string, sep: string)
    requires sep != []
    ensures Matches(Interleave(Split(s, sep))) == Count(s, sep)
    ensures Fills(Interleave(Split(s, sep))) == Split(s, sep)
  {
    InterleaveMatches(Split(s, sep));
    InterleaveFills(Split(s, sep));
    SplitCount(s, sep);
  }

  // ---------------------------------------------------------------------------
  // Formatting state, as a pure run

  /** The formatting flags of the text state that the tokenizer toggles. */
  datatype Flags = Flags(code: bool, spoiler: bool, bold: bool, italic: bool)

  /** What the tokenizer hands on: plain text under some flags, or a code-block piece. */
  datatype Emission = Plain(text: string, flags: Flags) | Highlighted(text: string)

  /** The emissions so far and the flags after them. */
  datatype Run = Run(out: seq<Emission>, flags: Flags)

  /** Feed the callbacks `es` to a handler `step`, starting from `r0`. */
  function Replay(es: seq<Event>, r0: Run, step: (Run, Event) -> Run): Run
    decreases |es|
  {
    if es == [] then r0 else step(Replay(es[..|es| - 1], r0, step), es[|es| - 1])
  }

  /** Replaying one more callback is one more step. */
  lemma ReplayStep(es: seq<Event>, k: nat, r0: Run, step: (Run, Event) -> Run)
    requires k < |es|
    ensures Replay(es[..k + 1], r0, step) == step(Replay(es[..k], r0, step), es[k])
  {
    assert es[..k + 1][..k] == es[..k];
  }

  function Odd(n: nat): bool { n % 2 == 1 }

  /** A flag a handler flips on every match and keeps on every fill ends up flipped once per match. */
  lemma {:induction false} ReplayParity(es: seq<Event>, r0: Run, step: (Run, Event) -> Run, proj: Flags -> bool)
    requires forall r: Run, p: string :: proj(step(r, Fill(p)).flags) == proj(r.flags)
    requires forall r: Run :: proj(step(r, Match).flags) == !proj(r.flags)
    ensures proj(Replay(es, r0, step).flags) == (proj(r0.flags) != Odd(Matches(es)))
    decreases |es|
  {
    if es != [] {
      var init, last := es[..|es| - 1], es[|es| - 1];
      ReplayParity(init, r0, step, proj);
      var prev := Replay(init, r0, step);
      assert Replay(es, r0, step) == step(prev, last);
      assert es == init + [last];
      assert multiset(es) == multiset(init) + multiset{last};
      match last
      case Match =>
        assert proj(step(prev, Match).flags) == !proj(prev.flags);
      case Fill(p) =>
        assert proj(step(prev, Fill(p)).flags) == proj(prev.flags);
    }
  }

  /** A flag no callback touches keeps its value. */
  lemma {:induction false} ReplayKeeps(es: seq<Event>, r0: Run, step: (Run, Event) -> Run, proj: Flags -> bool)
    requires forall r: Run, e: Event :: proj(step(r, e).flags) == proj(r.flags)
    ensures proj(Replay(es, r0, step).flags) == proj(r0.flags)
    decreases |es|
  {
    if es != [] {
      ReplayKeeps(es[..|es| - 1], r0, step, proj);
    }
  }

  /** A handler that only appends keeps everything emitted before the replay. */
  lemma {:induction false} ReplayExtends(es: seq<Event>, r0: Run, step: (Run, Event) -> Run)
    requires forall r: Run, e: Event :: r.out <= step(r, e).out
    ensures r0.out <= Replay(es, r0, step).out
    decreases |es|
  {
    if es != [] {
      ReplayExtends(es[..|es| - 1], r0, step);
    }
  }

  const ItalicSep: string := "~~"
  const BoldSep: string := "__"
  const SpoilerSep: string := "**"
  const CodeSep: string := "``"

  /** Italics: a piece goes to the caller's handler; a match toggles `italic`. */
  function ItalicStep(r: Run, e: Event): (q: Run)
    ensures r.out <= q.out
    ensures e.Match? ==> q.out == r.out
    ensures q.flags.(italic := r.flags.italic) == r.flags
  {
    match e
    case Fill(p) => Run(r.out + [Plain(p, r.flags)], r.flags)
    case Match => Run(r.out, r.flags.(italic := !r.flags.italic))
  }

  /** The italics pass over `frag`, continuing the run `r`. */
  function Italics(frag: string, r: Run): (q: Run)
    ensures r.out <= q.out
    ensures q.flags.(italic := r.flags.italic) == r.flags
  {
    var es := Interleave(Split(frag, ItalicSep));
    ReplayExtends(es, r, ItalicStep);
    ReplayKeeps(es, r, ItalicStep, BoldOf);
    ReplayKeeps(es, r, ItalicStep, SpoilerOf);
    ReplayKeeps(es, r, ItalicStep, CodeOf);
    Replay(es, r, ItalicStep)
  }

  /** Bolds: a piece goes through the italics pass; a match toggles `bold`. */
  function BoldStep(r: Run, e: Event): (q: Run)
    ensures r.out <= q.out
    ensures e.Match? ==> q.out == r.out
    ensures q.flags.spoiler == r.flags.spoiler && q.flags.code == r.flags.code
  {
    match e
    case Fill(p) => Italics(p, r)
    case Match => Run(r.out, r.flags.(bold := !r.flags.bold))
  }

  function Bolds(frag: string, r: Run): (q: Run)
    ensures r.out <= q.out
    ensures q.flags.spoiler == r.flags.spoiler && q.flags.code == r.flags.code
  {
    var es := Interleave(Split(frag, BoldSep));
    ReplayExtends(es, r, BoldStep);
    ReplayKeeps(es, r, BoldStep, SpoilerOf);
    ReplayKeeps(es, r, BoldStep, CodeOf);
    Replay(es, r, BoldStep)
  }

  /** Spoilers: a piece goes through the bolds pass; a match toggles `spoiler`. */
  function SpoilerStep(r: Run, e: Event): (q: Run)
    ensures r.out <= q.out
    ensures e.Match? ==> q.out == r.out
    ensures q.flags.code == r.flags.code
  {
    match e
    case Fill(p) => Bolds(p, r)
    case Match => Run(r.out, r.flags.(spoiler := !r.flags.spoiler))
  }

  function Spoilers(frag: string, r: Run): (q: Run)
    ensures r.out <= q.out
    ensures q.flags.code == r.flags.code
  {
    var es := Interleave(Split(frag, SpoilerSep));
    ReplayExtends(es, r, SpoilerStep);
    ReplayKeeps(es, r, SpoilerStep, CodeOf);
    Replay(es, r, SpoilerStep)
  }

  /** `frag` with its leading `>` characters removed. */
  function Unquoted(s: string): (r: string)
    ensures |r| <= |s| && r == s[|s| - |r|..]
    ensures forall i :: 0 <= i < |s| - |r| ==> s[i] == '>'
    ensures r == [] || r[0] != '>'
  {
    if s != [] && s[0] == '>' then Unquoted(s[1..]) else s
  }

  /**
   * Code: inside a code block a piece loses its leading quote marks and is
   * highlighted; outside it goes through the spoilers pass. A match toggles `code`.
   */
  function CodeStep(r: Run, e: Event): (q: Run)
    ensures r.out <= q.out
    ensures e.Match? ==> q.out == r.out
  {
    match e
    case Fill(p) =>
      if r.flags.code then Run(r.out + [Highlighted(Unquoted(p))], r.flags)
      else Spoilers(p, r)
    case Match => Run(r.out, r.flags.(code := !r.flags.code))
  }

  function Code(frag: string, r: Run): (q: Run)
    ensures r.out <= q.out
  {
    var es := Interleave(Split(frag, CodeSep));
    ReplayExtends(es, r, CodeStep);
    Replay(es, r, CodeStep)
  }

  // ---------------------------------------------------------------------------
  // Properties of the passes

  function ItalicOf(f: Flags): bool { f.italic }
  function BoldOf(f: Flags): bool { f.bold }
  function SpoilerOf(f: Flags): bool { f.spoiler }
  function CodeOf(f: Flags): bool { f.code }

  /** The italics pass flips `italic` once per `~~` and touches no other flag. */
  lemma ItalicsFlags(frag: string, r: Run)
    ensures Italics(frag, r).flags == r.flags.(italic := r.flags.italic != Odd(Count(frag, ItalicSep)))
  {
    var es := Interleave(Split(frag, ItalicSep));
    ScanCounts(frag, ItalicSep);
    ReplayParity(es, r, ItalicStep, ItalicOf);
    ReplayKeeps(es, r, ItalicStep, BoldOf);
    ReplayKeeps(es, r, ItalicStep, SpoilerOf);
    ReplayKeeps(es, r, ItalicStep, CodeOf);
  }

  /** The bolds pass flips `bold` once per `__` and leaves `spoiler` and `code` alone. */
  lemma BoldsFlags(frag: string, r: Run)
    ensures Bolds(frag, r).flags.bold == (r.flags.bold != Odd(Count(frag, BoldSep)))
    ensures Bolds(frag, r).flags.spoiler == r.flags.spoiler
    ensures Bolds(frag, r).flags.code == r.flags.code
  {
    forall p: string, g: Run ensures Italics(p, g).flags == g.flags.(italic := Italics(p, g).flags.italic) {
      ItalicsFlags(p, g);
    }
    var es := Interleave(Split(frag, BoldSep));
    ScanCounts(frag, BoldSep);
    ReplayParity(es, r, BoldStep, BoldOf);
    ReplayKeeps(es, r, BoldStep, SpoilerOf);
    ReplayKeeps(es, r, BoldStep, CodeOf);
  }

  /** The spoilers pass flips `spoiler` once per `**` and leaves `code` alone. */
  lemma SpoilersFlags(frag: string, r: Run)
    ensures Spoilers(frag, r).flags.spoiler == (r.flags.spoiler != Odd(Count(frag, SpoilerSep)))
    ensures Spoilers(frag, r).flags.code == r.flags.code
  {
    forall p: string, g: Run
      ensures Bolds(p, g).flags.spoiler == g.flags.spoiler && Bolds(p, g).flags.code == g.flags.code
    {
      BoldsFlags(p, g);
    }
    var es := Interleave(Split(frag, SpoilerSep));
    ScanCounts(frag, SpoilerSep);
    ReplayParity(es, r, SpoilerStep, SpoilerOf);
    ReplayKeeps(es, r, SpoilerStep, CodeOf);
  }

  /** The code pass flips `code` once per double backquote. */
  lemma CodeFlags(frag: string, r: Run)
    ensures Code(frag, r).flags.code == (r.flags.code != Odd(Count(frag, CodeSep)))
  {
    forall p: string, g: Run ensures Spoilers(p, g).flags.code == g.flags.code {
      SpoilersFlags(p, g);
    }
    var es := Interleave(Split(frag, CodeSep));
    ScanCounts(frag, CodeSep);
    ReplayParity(es, r, CodeStep, CodeOf);
  }

  /** The text of the plain emissions, in order. */
  function Texts(out: seq<Emission>): seq<string> {
    if out == [] then []
    else Texts(out[..|out| - 1]) + (if out[|out| - 1].Plain? then [out[|out| - 1].text] else [])
  }

  lemma {:induction false} ReplayItalicTexts(es: seq<Event>, r0: Run)
    ensures Texts(Replay(es, r0, ItalicStep).out) == Texts(r0.out) + Fills(es)
    decreases |es|
  {
    if es != [] {
      var prev := Replay(es[..|es| - 1], r0, ItalicStep);
      ReplayItalicTexts(es[..|es| - 1], r0);
      match es[|es| - 1]
      case Fill(p) =>
        var out := prev.out + [Plain(p, prev.flags)];
        assert out[..|out| - 1] == prev.out;
      case Match =>
    }
  }

  /** Every piece the italics pass hands on is plain text; glued with `~~` they are the fragment. */
  lemma ItalicsCoverFragment(frag: string, f: Flags)
    ensures Texts(Italics(frag, Run([], f)).out) == Split(frag, ItalicSep)
    ensures Join(Texts(Italics(frag, Run([], f)).out), ItalicSep) == frag
  {
    var es := Interleave(Split(frag, ItalicSep));
    ReplayItalicTexts(es, Run([], f));
    ScanCounts(frag, ItalicSep);
    SplitJoin(frag, ItalicSep);
  }

  // ---------------------------------------------------------------------------
  // The text state and its stack of open tags

  /** An element of the rendered tree, as far as the tokenizer creates one. */
  datatype Node = Node(tag: string, text: string)

  const Del: Node := Node("del", "")
  const B: Node := Node("b", "")
  const I: Node := Node("i", "")

  /** The formatting tags open for `f`, outermost first: spoiler, then bold, then italic. */
  function OpenTags(f: Flags): seq<Node> {
    (if f.spoiler then [Del] else []) + InlineTags(f.bold, f.italic)
  }

  /** The open tags on top of `base`, one level at a time. */
  lemma OpenTagsLevels(base: seq<Node>, f: Flags)
    ensures base + OpenTags(f) ==
      base + (if f.spoiler then [Del] else []) + (if f.bold then [B] else []) + (if f.italic then [I] else [])
  {
  }

  /** The bold and italic tags, bold outside italic. */
  function InlineTags(bold: bool, italic: bool): seq<Node> {
    (if bold then [B] else []) + (if italic then [I] else [])
  }

  /** State of a post's text while it is rendered. */
  class TextState {
    var spoiler: bool
    var quote: bool
    var code: bool
    var bold: bool
    var italic: bool
    var haveSyncwatch: bool
    var successiveNewlines: int
    var diceIndex: int
    /** The chain of nodes from the root to the one new nodes are appended to. */
    var parents: seq<Node>

    /** The member initialisers: every flag clear, the counters zero and no parent yet. */
    constructor()
      ensures CurrentFlags() == Flags(false, false, false, false)
      ensures !quote && !haveSyncwatch && successiveNewlines == 0 && diceIndex == 0
      ensures parents == []
    {
      spoiler, quote, code, bold, italic, haveSyncwatch := false, false, false, false, false, false;
      successiveNewlines, diceIndex := 0, 0;
      parents := [];
    }

    function CurrentFlags(): Flags
      reads this
    {
      Flags(code, spoiler, bold, italic)
    }

    /** The open formatting tags sit on top of `base` in spoiler, bold, italic order. */
    ghost predicate Nested(base: seq<Node>)
      reads this
    {
      parents == base + OpenTags(CurrentFlags())
    }

    /** Back to the initial values, with `root` as the only parent. */
    method Reset(root: Node)
      modifies this
      ensures CurrentFlags() == Flags(false, false, false, false)
      ensures !quote && !haveSyncwatch && successiveNewlines == 0 && diceIndex == 0
      ensures parents == [root]
    {
      spoiler, quote, code, bold, italic, haveSyncwatch := false, false, false, false, false, false;
      successiveNewlines, diceIndex := 0, 0;
      parents := [root];
    }

    /** Append `n` to the lowermost parent; with `descend` it becomes the new lowermost parent. */
    method Append(n: Node, descend: bool)
      modifies this`parents
      ensures parents == if descend then old(parents) + [n] else old(parents)
    {
      if descend {
        parents := parents + [n];
      }
    }

    /** Make the parent of the lowermost parent the one to append to. */
    method Ascend()
      requires parents != []
      modifies this`parents
      ensures parents == old(parents)[..|old(parents)| - 1]
    {
      parents := parents[..|parents| - 1];
    }
  }

  /** The post being rendered: its text state and what the tokenizer has handed on. */
  class Post {
    const state: TextState
    /** The pieces handed to the final handler and to the syntax highlighter, in order. */
    var emitted: seq<Emission>

    /** A post with nothing emitted yet, whose text state has been reset to `root`. */
    constructor(root: Node)
      ensures fresh(state) && state.parents == [root] && emitted == []
      ensures state.CurrentFlags() == Flags(false, false, false, false)
    {
      var s := new TextState();
      s.Reset(root);
      state := s;
      emitted := [];
    }

    /**
     * Scan `frag` for `sep`: the callbacks the scanner makes, in order. Each
     * parse pass replays them against its own filler and match handler.
     */
    method ParseString(frag: string, sep: string) returns (events: seq<Event>)
      requires sep != []
      ensures events == Interleave(Split(frag, sep))
    {
      ghost var all := Interleave(Split(frag, sep));
      events := [];
      var rest := frag;
      while true
        invariant events + Interleave(Split(rest, sep)) == all
        decreases |rest|
      {
        var i := Find(rest, sep);
        if i.Some? {
          InterleaveFirstMatch(rest, sep, i.value);
          var next := rest[i.value + |sep|..];
          var step := [Fill(rest[..i.value]), Match];
          ghost var later := Interleave(Split(next, sep));
          assert events + (step + later) == all;
          assert (events + step) + later == all;
          events := events + step;
          rest := next;
        } else {
          InterleaveNoMatch(rest, sep);
          events := events + [Fill(rest)];
          break;
        }
      }
    }

    /** The caller's handler for plain text: it receives the piece under the current flags. */
    method Emit(p: string)
      modifies this`emitted
      ensures emitted == old(emitted) + [Plain(p, state.CurrentFlags())]
    {
      emitted := emitted + [Plain(p, state.CurrentFlags())];
    }

    /** The match handler of the italics pass. */
    method ToggleItalic(ghost base: seq<Node>)
      requires state.Nested(base)
      modifies state`italic, state`parents
      ensures state.Nested(base)
      ensures state.CurrentFlags() == old(state.CurrentFlags()).(italic := !old(state.italic))
    {
      var italic := state.italic;
      OpenTagsLevels(base, state.CurrentFlags());
      ToggleTag(base + (if state.spoiler then [Del] else []) + (if state.bold then [B] else []), italic, I);
      state.italic := !italic;
      OpenTagsLevels(base, state.CurrentFlags());
    }

    /** The match handler of the bolds pass: the italic tag is closed around it and reopened. */
    method ToggleBold(ghost base: seq<Node>)
      requires state.Nested(base)
      modifies state`bold, state`parents
      ensures state.Nested(base)
      ensures state.CurrentFlags() == old(state.CurrentFlags()).(bold := !old(state.bold))
    {
      var bold := state.bold;
      ghost var outer := base + (if state.spoiler then [Del] else []);
      OpenTagsLevels(base, state.CurrentFlags());
      CloseItalic(outer + (if bold then [B] else []));
      ToggleTag(outer, bold, B);
      ReopenItalic(outer + (if bold then [] else [B]));
      state.bold := !bold;
      OpenTagsLevels(base, state.CurrentFlags());
    }

    /** The match handler of the spoilers pass: italic and bold are closed around it and reopened. */
    method ToggleSpoiler(ghost base: seq<Node>)
      requires state.Nested(base)
      modifies state`spoiler, state`parents
      ensures state.Nested(base)
      ensures state.CurrentFlags() == old(state.CurrentFlags()).(spoiler := !old(state.spoiler))
    {
      var spoiler := state.spoiler;
      CloseInline(base + (if spoiler then [Del] else []));
      ToggleTag(base, spoiler, Del);
      ReopenInline(base + (if spoiler then [] else [Del]));
      state.spoiler := !spoiler;
    }

    /** Close tag `n` when `open`, otherwise open it, on top of `below`. */
    method ToggleTag(ghost below: seq<Node>, open: bool, n: Node)
      requires state.parents == below + (if open then [n] else [])
      modifies state`parents
      ensures state.parents == below + (if open then [] else [n])
    {
      if open {
        state.Ascend();
      } else {
        state.Append(n, true);
      }
    }

    /** Close an open italic tag on top of `outer`. */
    method CloseItalic(ghost outer: seq<Node>)
      requires state.parents == outer + (if state.italic then [I] else [])
      modifies state`parents
      ensures state.parents == outer
    {
      if state.italic {
        state.Ascend();
      }
    }

    /** Reopen the italic tag on top of `outer` when the italic flag is set. */
    method ReopenItalic(ghost outer: seq<Node>)
      requires state.parents == outer
      modifies state`parents
      ensures state.parents == outer + (if state.italic then [I] else [])
    {
      if state.italic {
        state.Append(I, true);
      }
    }

    /** Close the bold and italic tags open on top of `outer`. */
    method CloseInline(ghost outer: seq<Node>)
      requires state.parents == outer + InlineTags(state.bold, state.italic)
      modifies state`parents
      ensures state.parents == outer
    {
      CloseItalic(outer + (if state.bold then [B] else []));
      if state.bold {
        state.Ascend();
      }
    }

    /** Reopen the bold and italic tags the flags call for on top of `outer`. */
    method ReopenInline(ghost outer: seq<Node>)
      requires state.parents == outer
      modifies state`parents
      ensures state.parents == outer + InlineTags(state.bold, state.italic)
    {
      if state.bold {
        state.Append(B, true);
      }
      ReopenItalic(outer + (if state.bold then [B] else []));
    }

    /** The match handler of the code pass: only the flag changes. */
    method ToggleCode()
      modifies state`code
      ensures state.CurrentFlags() == old(state.CurrentFlags()).(code := !old(state.code))
    {
      state.code := !state.code;
    }

    /** Strip the quote marks `>` a code-block piece starts with. */
    method StripQuotes(frag: string) returns (r: string)
      ensures r == Unquoted(frag)
    {
      r := frag;
      while |r| > 0 && r[0] == '>'
        invariant Unquoted(r) == Unquoted(frag)
      {
        r := r[1..];
      }
    }

    /** The callbacks of the italics pass: the caller's filler, and the italic toggle. */
    method ItalicEvent(e: Event, ghost base: seq<Node>)
      requires state.Nested(base)
      modifies this`emitted, state`italic, state`parents
      ensures state.Nested(base)
      ensures Run(emitted, state.CurrentFlags()) == ItalicStep(Run(old(emitted), old(state.CurrentFlags())), e)
    {
      match e {
        case Fill(p) => Emit(p);
        case Match => ToggleItalic(base);
      }
    }

    /** Insert italic tags and hand the remaining pieces to the final handler. */
    method ParseItalics(frag: string, ghost base: seq<Node>)
      requires state.Nested(base)
      modifies this`emitted, state`italic, state`parents
      ensures state.Nested(base)
      ensures Run(emitted, state.CurrentFlags()) == Italics(frag, Run(old(emitted), old(state.CurrentFlags())))
    {
      var events := ParseString(frag, ItalicSep);
      ghost var r0 := Run(emitted, state.CurrentFlags());
      var k := 0;
      while k < |events|
        invariant 0 <= k <= |events|
        invariant state.Nested(base)
        invariant Replay(events[..k], r0, ItalicStep) == Run(emitted, state.CurrentFlags())
      {
        ReplayStep(events, k, r0, ItalicStep);
        ItalicEvent(events[k], base);
        k := k + 1;
      }
      assert events[..k] == events;
    }

    /** The callbacks of the bolds pass: the italics pass, and the bold toggle. */
    method BoldEvent(e: Event, ghost base: seq<Node>)
      requires state.Nested(base)
      modifies this`emitted, state`bold, state`italic, state`parents
      ensures state.Nested(base)
      ensures Run(emitted, state.CurrentFlags()) == BoldStep(Run(old(emitted), old(state.CurrentFlags())), e)
    {
      match e {
        case Fill(p) => ParseItalics(p, base);
        case Match => ToggleBold(base);
      }
    }

    /** Insert bold tags and hand the remaining pieces to the italics pass. */
    method ParseBolds(frag: string, ghost base: seq<Node>)
      requires state.Nested(base)
      modifies this`emitted, state`bold, state`italic, state`parents
      ensures state.Nested(base)
      ensures Run(emitted, state.CurrentFlags()) == Bolds(frag, Run(old(emitted), old(state.CurrentFlags())))
    {
      var events := ParseString(frag, BoldSep);
      ghost var r0 := Run(emitted, state.CurrentFlags());
      var k := 0;
      while k < |events|
        invariant 0 <= k <= |events|
        invariant state.Nested(base)
        invariant Replay(events[..k], r0, BoldStep) == Run(emitted, state.CurrentFlags())
      {
        ReplayStep(events, k, r0, BoldStep);
        BoldEvent(events[k], base);
        k := k + 1;
      }
      assert events[..k] == events;
    }

    /** The callbacks of the spoilers pass: the bolds pass, and the spoiler toggle. */
    method SpoilerEvent(e: Event, ghost base: seq<Node>)
      requires state.Nested(base)
      modifies this`emitted, state`spoiler, state`bold, state`italic, state`parents
      ensures state.Nested(base)
      ensures Run(emitted, state.CurrentFlags()) == SpoilerStep(Run(old(emitted), old(state.CurrentFlags())), e)
    {
      match e {
        case Fill(p) => ParseBolds(p, base);
        case Match => ToggleSpoiler(base);
      }
    }

    /** Insert spoiler tags and hand the remaining pieces to the bolds pass. */
    method ParseSpoilers(frag: string, ghost base: seq<Node>)
      requires state.Nested(base)
      modifies this`emitted, state`spoiler, state`bold, state`italic, state`parents
      ensures state.Nested(base)
      ensures Run(emitted, state.CurrentFlags()) == Spoilers(frag, Run(old(emitted), old(state.CurrentFlags())))
    {
      var events := ParseString(frag, SpoilerSep);
      ghost var r0 := Run(emitted, state.CurrentFlags());
      var k := 0;
      while k < |events|
        invariant 0 <= k <= |events|
        invariant state.Nested(base)
        invariant Replay(events[..k], r0, SpoilerStep) == Run(emitted, state.CurrentFlags())
      {
        ReplayStep(events, k, r0, SpoilerStep);
        SpoilerEvent(events[k], base);
        k := k + 1;
      }
      assert events[..k] == events;
    }

    /** The callbacks of the code pass: inside a code block the piece loses its leading quote marks and is highlighted, outside it goes to the spoilers pass; a match toggles `code`. */
    method CodeEvent(e: Event, ghost base: seq<Node>)
      requires state.Nested(base)
      modifies this`emitted, state`code, state`spoiler, state`bold, state`italic, state`parents
      ensures state.Nested(base)
      ensures Run(emitted, state.CurrentFlags()) == CodeStep(Run(old(emitted), old(state.CurrentFlags())), e)
    {
      match e {
        case Fill(p) =>
          if state.code {
            var unquoted := StripQuotes(p);
            emitted := emitted + [Highlighted(unquoted)];
          } else {
            ParseSpoilers(p, base);
          }
        case Match => ToggleCode();
      }
    }

    /**
     * Detect code tags: pieces inside a code block lose their leading quote marks
     * and go to the syntax highlighter, the others go to the spoilers pass.
     */
    method ParseCode(frag: string, ghost base: seq<Node>)
      requires state.Nested(base)
      modifies this`emitted, state`code, state`spoiler, state`bold, state`italic, state`parents
      ensures state.Nested(base)
      ensures Run(emitted, state.CurrentFlags()) == Code(frag, Run(old(emitted), old(state.CurrentFlags())))
    {
      var events := ParseString(frag, CodeSep);
      ghost var r0 := Run(emitted, state.CurrentFlags());
      var k := 0;
      while k < |events|
        invariant 0 <= k <= |events|
        invariant state.Nested(base)
        invariant Replay(events[..k], r0, CodeStep) == Run(emitted, state.CurrentFlags())
      {
        ReplayStep(events, k, r0, CodeStep);
        CodeEvent(events[k], base);
        k := k + 1;
      }
      assert events[..k] == events;
    }
  }
}
